/**
 * The document reference found in a user's URL, and the strings derived from it:
 * the manifest URL, a page image URL and the output file name and path.
 *
 * The downloader finds the reference with `re.search(r'issuu\.com/([^/]+)/docs/([^/]+)', url)`.
 * Both groups are greedy runs of non-slash characters. The first must be followed by '/',
 * so it is always the whole run up to the next '/'; the second takes the whole run that
 * follows `/docs/`. The search returns the match that starts leftmost.
 */
module DocumentUrl {
  import opened Outcomes
  import Decimal

  datatype DocRef = DocRef(owner: string, id: string)

  const Host: string := "issuu.com/"
  const DocsSegment: string := "/docs/"

  predicate SlashFree(t: string) {
    forall k :: 0 <= k < |t| ==> t[k] != '/'
  }

  /** The text the pattern consumes when its groups are `r.owner` and `r.id`. */
  function Matched(r: DocRef): string {
    Host + r.owner + DocsSegment + r.id
  }

  /** The pattern matches `s` at position `i` with groups `r` (greedy or not). */
  ghost predicate PatternAt(s: string, i: nat, r: DocRef) {
    && r.owner != [] && SlashFree(r.owner)
    && r.id != [] && SlashFree(r.id)
    && i + |Matched(r)| <= |s|
    && s[i..i + |Matched(r)|] == Matched(r)
  }

  /** The match the regular expression engine reports at `i`: the second group runs to the next '/' or the end. */
  ghost predicate GreedyMatchAt(s: string, i: nat, r: DocRef) {
    && PatternAt(s, i, r)
    && (i + |Matched(r)| == |s| || s[i + |Matched(r)|] == '/')
  }

  /** `/docs/` starts at position `i` of `s`. */
  predicate DocsAt(s: string, i: nat) {
    i + |DocsSegment| <= |s| && s[i..i + |DocsSegment|] == DocsSegment
  }

  /** Some match of the pattern starts at `i`. */
  ghost predicate Occurs(s: string, i: nat) {
    exists r :: PatternAt(s, i, r)
  }

  /** The end of the run of non-slash characters that starts at `k`. */
  function RunEnd(s: string, k: nat): (e: nat)
    requires k <= |s|
    ensures k <= e <= |s|
    ensures forall j :: k <= j < e ==> s[j] != '/'
    ensures e == |s| || s[e] == '/'
    decreases |s| - k
  {
    if k == |s| || s[k] == '/' then k else RunEnd(s, k + 1)
  }

  /** The match attempt at one start position: what it reports is a match whose id runs to the next '/' or the end. */
  function MatchAt(s: string, i: nat): (r: Option<DocRef>)
    requires i <= |s|
    ensures r.Some? ==> GreedyMatchAt(s, i, r.value)
  {
    var o := i + |Host|;
    if o > |s| || s[i..o] != Host then None
    else
      var e := RunEnd(s, o);
      var d := e + |DocsSegment|;
      if e == o || d > |s| || s[e..d] != DocsSegment then None
      else
        var f := RunEnd(s, d);
        if f == d then None
        else
          RunsMatch(s, i, e, f);
          Some(DocRef(s[o..e], s[d..f]))
  }

  /** The host, a non-empty run, `/docs/` and a non-empty run, one after the other, make a greedy match. */
  lemma RunsMatch(s: string, i: nat, e: nat, f: nat)
    requires i + |Host| <= |s| && s[i..i + |Host|] == Host
    requires i + |Host| < e == RunEnd(s, i + |Host|)
    requires e + |DocsSegment| <= |s| && s[e..e + |DocsSegment|] == DocsSegment
    requires e + |DocsSegment| < f == RunEnd(s, e + |DocsSegment|)
    ensures GreedyMatchAt(s, i, DocRef(s[i + |Host|..e], s[e + |DocsSegment|..f]))
  {
    var o := i + |Host|;
    var d := e + |DocsSegment|;
    var r := DocRef(s[o..e], s[d..f]);
    assert SlashFree(r.owner) by {
      forall k | 0 <= k < |r.owner| ensures r.owner[k] != '/' { assert r.owner[k] == s[o + k]; }
    }
    assert SlashFree(r.id) by {
      forall k | 0 <= k < |r.id| ensures r.id[k] != '/' { assert r.id[k] == s[d + k]; }
    }
    assert s[i..o] + s[o..e] == s[i..e];
    assert s[i..e] + s[e..d] == s[i..d];
    assert s[i..d] + s[d..f] == s[i..f];
    assert f == i + |Matched(r)|;
  }

  /** The leftmost position at or after `i` where the match attempt succeeds, and what it reports there. */
  function SearchFrom(s: string, i: nat): (r: Option<DocRef>)
    requires i <= |s|
    ensures MatchAt(s, i).Some? ==> r == MatchAt(s, i)
    ensures r.Some? ==> r.value.owner != [] && SlashFree(r.value.owner) && r.value.id != [] && SlashFree(r.value.id)
    decreases |s| - i
  {
    match MatchAt(s, i)
    case Some(found) => Some(found)
    case None => if i == |s| then None else SearchFrom(s, i + 1)
  }

  /** `re.search` followed by `match.groups()` (main.py:22-25). */
  function Extract(url: string): (r: Option<DocRef>)
    ensures r.Some? ==> r.value.owner != [] && SlashFree(r.value.owner)
    ensures r.Some? ==> r.value.id != [] && SlashFree(r.value.id)
  {
    SearchFrom(url, 0)
  }

  // ---- correctness of the matcher ----

  /** A slash-free stretch of `s` starting at `k` lies inside the run that starts at `k`. */
  lemma RunCovers(s: string, k: nat, n: nat)
    requires k + n <= |s|
    requires SlashFree(s[k..k + n])
    ensures RunEnd(s, k) >= k + n
  {
  }

  /** A window of `s` that spells `a + b` spells `a` and then `b`. */
  lemma WindowSplit(s: string, i: nat, a: string, b: string)
    requires i + |a + b| <= |s| && s[i..i + |a + b|] == a + b
    ensures s[i..i + |a|] == a
    ensures s[i + |a|..i + |a| + |b|] == b
  {
    var w := s[i..i + |a + b|];
    forall k | 0 <= k < |a| ensures s[i..i + |a|][k] == a[k] {
      assert s[i + k] == w[k];
    }
    forall k | 0 <= k < |b| ensures s[i + |a|..i + |a| + |b|][k] == b[k] {
      assert s[i + |a| + k] == w[|a| + k];
    }
  }

  /** Where the pattern matches, `s` spells the host, the owner, `/docs/` and the id one after the other. */
  lemma PatternParts(s: string, i: nat, r: DocRef)
    requires PatternAt(s, i, r)
    ensures var e := i + |Host| + |r.owner|;
      && e + |DocsSegment| + |r.id| <= |s|
      && s[i..i + |Host|] == Host
      && s[i + |Host|..e] == r.owner
      && s[e..e + |DocsSegment|] == DocsSegment
      && s[e + |DocsSegment|..e + |DocsSegment| + |r.id|] == r.id
    ensures DocsAt(s, i + |Host| + |r.owner|)
  {
    WindowSplit(s, i, Host + r.owner + DocsSegment, r.id);
    WindowSplit(s, i, Host + r.owner, DocsSegment);
    WindowSplit(s, i, Host, r.owner);
  }

  /** The match attempt at `i` once its four checks are known to pass. */
  lemma MatchAtSucceeds(s: string, i: nat, e: nat, f: nat)
    requires i + |Host| <= |s| && s[i..i + |Host|] == Host
    requires i + |Host| < e == RunEnd(s, i + |Host|)
    requires e + |DocsSegment| <= |s| && s[e..e + |DocsSegment|] == DocsSegment
    requires e + |DocsSegment| < f == RunEnd(s, e + |DocsSegment|)
    ensures MatchAt(s, i) == Some(DocRef(s[i + |Host|..e], s[e + |DocsSegment|..f]))
  {
  }

  /** Where the pattern matches, the greedy match attempt finds the same owner and an id that extends the matched one. */
  lemma {:induction false} PatternAtFound(s: string, i: nat, r: DocRef)
    requires PatternAt(s, i, r)
    ensures i <= |s| && MatchAt(s, i).Some?
    ensures MatchAt(s, i).value.owner == r.owner
    ensures r.id <= MatchAt(s, i).value.id
  {
    var o := i + |Host|;
    var e0 := o + |r.owner|;
    var d0 := e0 + |DocsSegment|;
    var f0 := d0 + |r.id|;
    PatternRuns(s, i, r);
    var f := RunEnd(s, d0);
    MatchAtSucceeds(s, i, e0, f);
    assert s[d0..f][..|r.id|] == s[d0..f0];
  }

  /** Where the pattern matches, the owner is the whole run after the host, and the id lies inside the run after `/docs/`. */
  lemma PatternRuns(s: string, i: nat, r: DocRef)
    requires PatternAt(s, i, r)
    ensures var e := i + |Host| + |r.owner|;
      && e + |DocsSegment| + |r.id| <= |s|
      && s[i..i + |Host|] == Host
      && s[i + |Host|..e] == r.owner
      && RunEnd(s, i + |Host|) == e
      && s[e..e + |DocsSegment|] == DocsSegment
      && RunEnd(s, e + |DocsSegment|) >= e + |DocsSegment| + |r.id|
      && s[e + |DocsSegment|..e + |DocsSegment| + |r.id|] == r.id
  {
    var o := i + |Host|;
    var e0 := o + |r.owner|;
    var d0 := e0 + |DocsSegment|;
    PatternParts(s, i, r);
    RunCovers(s, o, |r.owner|);
    assert s[e0] == s[e0..d0][0] == '/';
    RunCovers(s, d0, |r.id|);
  }

  /** A greedy match is exactly what the match attempt reports. */
  lemma GreedyMatchFound(s: string, i: nat, r: DocRef)
    requires GreedyMatchAt(s, i, r)
    ensures i <= |s| && MatchAt(s, i) == Some(r)
  {
    PatternAtFound(s, i, r);
    var f0 := i + |Matched(r)|;
    var d0 := f0 - |r.id|;
    PatternParts(s, i, r);
    assert RunEnd(s, d0) == f0;
  }

  /** The match attempt at `i` is exactly the greedy match, and fails only where the pattern cannot match. */
  lemma {:induction false} MatchAtCorrect(s: string, i: nat)
    requires i <= |s|
    ensures MatchAt(s, i).Some? ==> GreedyMatchAt(s, i, MatchAt(s, i).value)
    ensures MatchAt(s, i).None? ==> !Occurs(s, i)
  {
    if MatchAt(s, i).None? && Occurs(s, i) {
      var r :| PatternAt(s, i, r);
      PatternAtFound(s, i, r);
    }
  }

  /** Two greedy matches at the same position have the same groups. */
  lemma GreedyMatchUnique(s: string, i: nat, r1: DocRef, r2: DocRef)
    requires GreedyMatchAt(s, i, r1) && GreedyMatchAt(s, i, r2)
    ensures r1 == r2
  {
    GreedyMatchFound(s, i, r1);
    GreedyMatchFound(s, i, r2);
  }

  /** Searching from `i` finds the greedy match at the first position at or after `i` where the pattern occurs. */
  lemma {:induction false} SearchFromCorrect(s: string, i: nat)
    requires i <= |s|
    ensures SearchFrom(s, i).Some? ==>
      exists j :: i <= j <= |s| && GreedyMatchAt(s, j, SearchFrom(s, i).value)
                && forall k :: i <= k < j ==> !Occurs(s, k)
    ensures SearchFrom(s, i).None? ==> forall k :: i <= k <= |s| ==> !Occurs(s, k)
    decreases |s| - i
  {
    MatchAtCorrect(s, i);
    if MatchAt(s, i).None? && i < |s| {
      SearchFromCorrect(s, i + 1);
      if SearchFrom(s, i).Some? {
        var j :| i + 1 <= j <= |s| && GreedyMatchAt(s, j, SearchFrom(s, i).value)
                 && forall k :: i + 1 <= k < j ==> !Occurs(s, k);
        assert forall k :: i <= k < j ==> !Occurs(s, k);
      }
    }
  }

  /** A successful extraction is the greedy match at the leftmost position where the pattern occurs. */
  lemma ExtractSound(url: string)
    ensures Extract(url).Some? ==>
      exists i :: 0 <= i <= |url| && GreedyMatchAt(url, i, Extract(url).value)
                && forall k :: 0 <= k < i ==> !Occurs(url, k)
  {
    SearchFromCorrect(url, 0);
  }

  /** Extraction fails exactly when the pattern occurs nowhere in the URL. */
  lemma ExtractFailsIffNoMatch(url: string)
    ensures Extract(url).None? <==> forall i :: 0 <= i <= |url| ==> !Occurs(url, i)
  {
    SearchFromCorrect(url, 0);
    if Extract(url).Some? {
      ExtractSound(url);
      var i :| 0 <= i <= |url| && GreedyMatchAt(url, i, Extract(url).value);
      assert Occurs(url, i);
    }
  }

  // ---- strings derived from the reference ----

  /**
   * The manifest location (main.py:26). For slash-free groups its path has exactly two variable
   * segments, the owner and the document id, between the fixed host and the fixed file name.
   */
  function ManifestUrl(r: DocRef): (u: string)
    ensures SlashFree(r.owner) && SlashFree(r.id) ==>
      Segments(u) == ["https:", "", "reader3.isu.pub", r.owner, r.id, "reader3_4.json"]
  {
    var u := "https://reader3.isu.pub/" + r.owner + "/" + r.id + "/reader3_4.json";
    if SlashFree(r.owner) && SlashFree(r.id) then ManifestPathSegments(r.owner, r.id); u else u
  }

  /** The location a page image is fetched from: the scheme is prepended to the stored `imageUri` (main.py:40). */
  function ImageUrl(imageUri: string): (u: string)
    ensures |u| == 8 + |imageUri|
    ensures u[..8] == "https://" && u[8..] == imageUri
  {
    "https://" + imageUri
  }

  /** The output file name `<owner>_<id>.pdf` (main.py:101, 116). */
  function OutputName(r: DocRef): (n: string)
    ensures |n| == |r.owner| + 1 + |r.id| + 4
    ensures n[..|r.owner|] == r.owner && n[|r.owner|] == '_'
    ensures n[|r.owner| + 1..|n| - 4] == r.id && n[|n| - 4..] == ".pdf"
    ensures SlashFree(n) <==> SlashFree(r.owner) && SlashFree(r.id)
  {
    var n := r.owner + "_" + r.id + ".pdf";
    assert forall k :: 0 <= k < |r.owner| ==> n[k] == r.owner[k];
    assert forall k :: 0 <= k < |r.id| ==> n[|r.owner| + 1 + k] == r.id[k];
    n
  }

  /**
   * `os.path.join(dir, name)` on POSIX: an absolute `name` replaces `dir`; otherwise `name` follows
   * `dir`, with one '/' inserted unless `dir` is empty or already ends in '/'.
   */
  function JoinPath(dir: string, name: string): (p: string)
    ensures name != [] && name[0] == '/' ==> p == name
    ensures !(name != [] && name[0] == '/') ==>
      && dir <= p && |dir| <= |p| - |name| <= |dir| + 1
      && p[|p| - |name|..] == name
      && (dir != [] ==> p[|p| - |name| - 1] == '/')
    ensures !(name != [] && name[0] == '/') ==>
      (|p| == |dir| + 1 + |name| <==> dir != [] && dir[|dir| - 1] != '/')
  {
    if name != [] && name[0] == '/' then name
    else if dir == [] || dir[|dir| - 1] == '/' then dir + name
    else dir + "/" + name
  }

  /** The output path in the command-line front end (main.py:101, 116): the output name inside `dir`. */
  function OutputPath(dir: string, r: DocRef): (p: string)
    ensures SlashFree(r.owner) ==> dir <= p && |OutputName(r)| <= |p| && p[|p| - |OutputName(r)|..] == OutputName(r)
  {
    JoinPath(dir, OutputName(r))
  }

  /** A path split at every '/', as `str.split('/')` does. */
  function Segments(s: string): (parts: seq<string>)
    ensures |parts| >= 1
    decreases |s|
  {
    if s == [] then [[]]
    else
      var rest := Segments(s[1..]);
      if s[0] == '/' then [[]] + rest else [[s[0]] + rest[0]] + rest[1..]
  }

  lemma {:induction false} SegmentsOfSlashFree(t: string)
    requires SlashFree(t)
    ensures Segments(t) == [t]
    decreases |t|
  {
    if t != [] {
      SegmentsOfSlashFree(t[1..]);
      assert [t[0]] + t[1..] == t;
    }
  }

  /** Splitting distributes over joining with '/'. */
  lemma {:induction false} SegmentsJoin(a: string, b: string)
    ensures Segments(a + "/" + b) == Segments(a) + Segments(b)
    decreases |a|
  {
    if a == [] {
      assert a + "/" + b == "/" + b;
      assert ("/" + b)[1..] == b;
    } else {
      assert (a + "/" + b)[1..] == a[1..] + "/" + b;
      SegmentsJoin(a[1..], b);
    }
  }

  /** Joining a single segment in front of a path adds exactly that segment. */
  lemma SegmentsCons(a: string, b: string)
    requires SlashFree(a)
    ensures Segments(a + "/" + b) == [a] + Segments(b)
  {
    SegmentsOfSlashFree(a);
    SegmentsJoin(a, b);
  }

  /** Splitting a path built from slash-free segments gives those segments back. */
  lemma {:induction false} SegmentsOfJoined(parts: seq<string>)
    requires |parts| >= 1
    requires forall k :: 0 <= k < |parts| ==> SlashFree(parts[k])
    ensures Segments(Joined(parts)) == parts
    decreases |parts|
  {
    if |parts| == 1 {
      SegmentsOfSlashFree(parts[0]);
    } else {
      SegmentsOfJoined(parts[1..]);
      SegmentsCons(parts[0], Joined(parts[1..]));
    }
  }

  /** The segments joined with '/', as `'/'.join(parts)` does. */
  function Joined(parts: seq<string>): string
    requires |parts| >= 1
    decreases |parts|
  {
    if |parts| == 1 then parts[0] else parts[0] + "/" + Joined(parts[1..])
  }

  /** Splitting the manifest URL built from slash-free groups at '/' gives its six segments. */
  lemma ManifestPathSegments(owner: string, id: string)
    requires SlashFree(owner) && SlashFree(id)
    ensures Segments("https://reader3.isu.pub/" + owner + "/" + id + "/reader3_4.json")
         == ["https:", "", "reader3.isu.pub", owner, id, "reader3_4.json"]
  {
    var parts := ["https:", "", "reader3.isu.pub", owner, id, "reader3_4.json"];
    assert SlashFree("reader3.isu.pub") && SlashFree("reader3_4.json") && SlashFree("https:");
    SegmentsOfJoined(parts);
    assert Joined(parts[4..]) == id + "/" + "reader3_4.json";
    assert Joined(parts[3..]) == owner + "/" + (id + "/" + "reader3_4.json");
    assert Joined(parts[2..]) == "reader3.isu.pub" + "/" + (owner + "/" + (id + "/" + "reader3_4.json"));
    assert Joined(parts[1..]) == "" + "/" + ("reader3.isu.pub" + "/" + (owner + "/" + (id + "/" + "reader3_4.json")));
    assert Joined(parts) == "https:" + "/" + ("" + "/" + ("reader3.isu.pub" + "/" + (owner + "/" + (id + "/" + "reader3_4.json"))));
    ManifestPathJoined(owner, id);
  }

  /** The manifest URL written as its segments joined by '/'. */
  lemma ManifestPathJoined(owner: string, id: string)
    ensures "https://reader3.isu.pub/" + owner + "/" + id + "/reader3_4.json"
         == "https:" + "/" + ("" + "/" + ("reader3.isu.pub" + "/" + (owner + "/" + (id + "/" + "reader3_4.json"))))
  {
  }

  /** Distinct references give distinct manifest URLs. */
  lemma ManifestUrlInjective(r1: DocRef, r2: DocRef)
    requires SlashFree(r1.owner) && SlashFree(r1.id) && SlashFree(r2.owner) && SlashFree(r2.id)
    requires ManifestUrl(r1) == ManifestUrl(r2)
    ensures r1 == r2
  {
    assert Segments(ManifestUrl(r1))[3..5] == [r1.owner, r1.id];
  }

  /** The image host is the first segment of `imageUri`: nothing is inserted between the scheme and it. */
  lemma ImageUrlSegments(imageUri: string)
    ensures Segments(ImageUrl(imageUri)) == ["https:", ""] + Segments(imageUri)
  {
    assert ImageUrl(imageUri) == "https:" + "/" + ("" + "/" + imageUri);
    SegmentsCons("", imageUri);
    SegmentsCons("https:", "" + "/" + imageUri);
  }

  /** For an extracted reference the output file lands directly in the output directory, under `<owner>_<id>.pdf`. */
  lemma OutputPathInDirectory(dir: string, r: DocRef)
    requires r.owner != [] && SlashFree(r.owner) && SlashFree(r.id)
    ensures SlashFree(OutputName(r))
    ensures var p := Segments(OutputPath(dir, r)); p[|p| - 1] == OutputName(r)
    ensures dir <= OutputPath(dir, r)
    ensures |OutputPath(dir, r)| <= |dir| + 1 + |OutputName(r)|
  {
    var name := OutputName(r);
    SegmentsOfSlashFree(name);
    assert name[0] == r.owner[0];
    if dir == [] {
      assert OutputPath(dir, r) == name;
    } else if dir[|dir| - 1] == '/' {
      var head := dir[..|dir| - 1];
      assert OutputPath(dir, r) == head + "/" + name;
      SegmentsJoin(head, name);
    } else {
      SegmentsJoin(dir, name);
    }
  }

  /** The file name does not determine the reference: two documents can be written to the same file. */
  lemma OutputNameCollides()
    ensures OutputName(DocRef("a_b", "c")) == OutputName(DocRef("a", "b_c"))
    ensures DocRef("a_b", "c") != DocRef("a", "b_c")
  {
  }

  // ---- examples ----

  /** Positions that do not start with the host's first letter are skipped by the search. */
  lemma {:induction false} SearchSkips(s: string, i: nat, j: nat)
    requires i <= j <= |s|
    requires Host[0] !in s[i..j]
    ensures SearchFrom(s, i) == SearchFrom(s, j)
    decreases j - i
  {
    if i < j {
      assert s[i] == s[i..j][0];
      assert s[i + 1..j] == s[i..j][1..];
      NoHostNoMatch(s, i);
      SearchSkips(s, i + 1, j);
    }
  }

  /** No match starts at a character other than the first of the host. */
  lemma NoHostNoMatch(s: string, i: nat)
    requires i < |s| && s[i] != Host[0]
    ensures MatchAt(s, i).None?
  {
    if i + |Host| <= |s| {
      assert s[i..i + |Host|][0] == s[i];
    }
  }

  /**
   * A URL made of a prefix without the letter 'i', the matched text and a rest that is empty or
   * starts a new path segment yields exactly the owner and id written in it; whatever else the id
   * holds, such as a query string or a fragment, stays in it.
   */
  lemma {:induction false} ExtractFromUrl(prefix: string, r: DocRef, rest: string)
    requires Host[0] !in prefix
    requires r.owner != [] && SlashFree(r.owner) && r.id != [] && SlashFree(r.id)
    requires rest == [] || rest[0] == '/'
    ensures Extract(prefix + Matched(r) + rest) == Some(r)
  {
    var s := prefix + Matched(r) + rest;
    var n := |prefix|;
    assert s[0..n] == prefix;
    SearchSkips(s, 0, n);
    assert s[n..n + |Matched(r)|] == Matched(r);
    assert n + |Matched(r)| < |s| ==> s[n + |Matched(r)|] == rest[0];
    GreedyMatchFound(s, n, r);
  }

  /** Without `/docs/` anywhere in it, no URL yields a reference. */
  lemma ExtractNeedsDocs(url: string)
    requires forall i :: 0 <= i && i + |DocsSegment| <= |url| ==> !DocsAt(url, i)
    ensures Extract(url).None?
  {
    ExtractSound(url);
    if Extract(url).Some? {
      var r := Extract(url).value;
      var i :| 0 <= i <= |url| && GreedyMatchAt(url, i, r);
      PatternParts(url, i, r);
      assert false;
    }
  }

  lemma ExtractExample()
    ensures Extract("https://" + Matched(DocRef("acme", "report2024?e=1#p")) + "/page/2")
         == Some(DocRef("acme", "report2024?e=1#p"))
  {
    ExtractFromUrl("https://", DocRef("acme", "report2024?e=1#p"), "/page/2");
  }
}
