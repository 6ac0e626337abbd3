/**
 * The page loop of `download_issuu_pdf` (main.py:35-47): walk the manifest's pages in order,
 * skip those without an `imageUri`, fetch the rest, and keep, under `page_<i+1>.jpg`,
 * every image that came back with status 200.
 */
module PageSelection {
  import opened Outcomes
  import opened JsonValue
  import opened DocumentUrl
  import Decimal

  type Bytes = seq<bv8>

  /** The status and body of an HTTP reply. */
  datatype Response = Response(status: int, content: Bytes)

  /** A downloaded page: its 0-based position in the manifest, its file name in the temporary directory, its bytes. */
  datatype PageImage = PageImage(index: nat, name: string, content: Bytes)

  /** The temporary file name of the page at 0-based position `i` (main.py:42). */
  function PageName(i: nat): (n: string)
    ensures |n| >= 10 && n[..5] == "page_" && n[|n| - 4..] == ".jpg"
    ensures forall k :: 5 <= k < |n| - 4 ==> Decimal.IsDigit(n[k])
    ensures n[5] != '0'  // no leading zero
    ensures Decimal.FromDecimal(n[5..|n| - 4]) == i + 1  // the 1-based page number reads back
  {
    var digits := Decimal.ToDecimal(i + 1);
    var n := "page_" + digits + ".jpg";
    assert n[5..|n| - 4] == digits;
    Decimal.FromToDecimal(i + 1);
    n
  }

  /** Distinct pages get distinct file names, so no page file overwrites another. */
  lemma PageNameInjective(i: nat, j: nat)
    ensures PageName(i) == PageName(j) ==> i == j
  {
    var n := PageName(i);
    if n == PageName(j) {
      assert Decimal.FromDecimal(n[5..|n| - 4]) == j + 1;
    }
  }

  /** What the loop does with one page entry. */
  datatype PageAction =
    | Skip              // no usable `imageUri`: `continue`
    | Fetch(url: string) // request this URL
    | Crash             // the entry or its `imageUri` has the wrong kind, and Python raises

  /** `page.get('imageUri')`, the truthiness test and `'https://' + image_url` (main.py:37-40). */
  function Classify(page: Json): (a: PageAction)
    ensures a.Fetch? <==>
      page.JObj? && "imageUri" in page.fields && page.fields["imageUri"].JStr? && page.fields["imageUri"].s != []
    ensures a.Fetch? ==> a.url == ImageUrl(page.fields["imageUri"].s)
    ensures a.Crash? <==>
      !page.JObj? || ("imageUri" in page.fields && Truthy(page.fields["imageUri"]) && !page.fields["imageUri"].JStr?)
  {
    match Get(page, "imageUri", JNull)
    case Err(_) => Crash
    case Ok(uri) =>
      if !Truthy(uri) then Skip
      else if uri.JStr? then Fetch(ImageUrl(uri.s))
      else Crash
  }

  /** The page is requested and its image is kept. */
  predicate Kept(page: Json, fetch: string -> Response) {
    Classify(page).Fetch? && fetch(Classify(page).url).status == 200
  }

  /**
   * The loop as a function of the pages seen so far: the kept images in order (or the failure),
   * and the image URLs requested.
   */
  function Selected(pages: seq<Json>, fetch: string -> Response): (t: Trace<seq<PageImage>>)
    ensures |t.requests| <= |pages|
    ensures t.result.Ok? ==> |t.result.value| <= |t.requests|
    decreases |pages|
  {
    if pages == [] then Trace(Ok([]), [])
    else
      var i := |pages| - 1;
      Step(Selected(pages[..i], fetch), i, pages[i], fetch)
  }

  /** One iteration of the loop, on the page at 0-based position `i`. */
  function Step(before: Trace<seq<PageImage>>, i: nat, page: Json, fetch: string -> Response): (t: Trace<seq<PageImage>>)
    ensures |t.requests| <= |before.requests| + 1
    ensures before.result.Ok? && t.result.Ok? ==> |t.result.value| - |before.result.value| <= |t.requests| - |before.requests|
  {
    if before.result.Err? then before
    else match Classify(page)
      case Skip => before
      case Crash => Trace(Err(UnexpectedShape), before.requests)
      case Fetch(url) =>
        var reply := fetch(url);
        var images := before.result.value;
        Trace(Ok(if reply.status == 200 then images + [PageImage(i, PageName(i), reply.content)] else images),
              before.requests + [url])
  }

  /** The loop over one more page is one more step. */
  lemma SelectedPrefixStep(pages: seq<Json>, fetch: string -> Response, i: nat)
    requires i < |pages|
    ensures Selected(pages[..i + 1], fetch) == Step(Selected(pages[..i], fetch), i, pages[i], fetch)
  {
    assert pages[..i + 1][..i] == pages[..i];
  }

  /** The temporary directory after the page files have been written in order. */
  function TempDir(images: seq<PageImage>): (files: map<string, Bytes>)
    ensures forall k :: 0 <= k < |images| ==> images[k].name in files
    decreases |images|
  {
    if images == [] then map[]
    else
      var last := images[|images| - 1];
      TempDir(images[..|images| - 1])[last.name := last.content]
  }

  /** The loop itself: returns the kept images, the requested URLs and the files written. */
  method CollectPages(pages: seq<Json>, fetch: string -> Response)
    returns (result: Result<seq<PageImage>>, requests: seq<string>, files: map<string, Bytes>)
    ensures Trace(result, requests) == Selected(pages, fetch)
    ensures result.Ok? ==> files == TempDir(result.value)
  {
    var imageFiles: seq<PageImage> := [];
    requests := [];
    files := map[];
    var i := 0;
    while i < |pages|
      invariant 0 <= i <= |pages|
      invariant Selected(pages[..i], fetch) == Trace(Ok(imageFiles), requests)
      invariant files == TempDir(imageFiles)
    {
      var page := pages[i];
      SelectedPrefixStep(pages, fetch, i);
      var got := Get(page, "imageUri", JNull);
      if got.Err? {
        assert Classify(page) == Crash;
        SelectedErrSticks(pages, fetch, i + 1);
        return Err(UnexpectedShape), requests, files;
      }
      var imageUri := got.value;
      if !Truthy(imageUri) {
        assert Classify(page) == Skip;
        i := i + 1;
        continue;
      }
      if !imageUri.JStr? {
        assert Classify(page) == Crash;
        SelectedErrSticks(pages, fetch, i + 1);
        return Err(UnexpectedShape), requests, files;
      }
      var url := ImageUrl(imageUri.s);
      assert Classify(page) == Fetch(url);
      var reply := fetch(url);
      requests := requests + [url];
      if reply.status == 200 {
        var image := PageImage(i, PageName(i), reply.content);
        files := files[image.name := image.content];
        TempDirSnoc(imageFiles, image);
        imageFiles := imageFiles + [image];
      }
      i := i + 1;
    }
    assert pages[..i] == pages;
    result := Ok(imageFiles);
  }

  // ---- properties of the loop ----

  /** Once the loop has raised, later pages change nothing: nothing more is requested or kept. */
  lemma {:induction false} SelectedErrSticks(pages: seq<Json>, fetch: string -> Response, k: nat)
    requires k <= |pages|
    requires Selected(pages[..k], fetch).result.Err?
    ensures Selected(pages, fetch) == Selected(pages[..k], fetch)
    decreases |pages|
  {
    if k < |pages| {
      var i := |pages| - 1;
      assert pages[..i][..k] == pages[..k];
      SelectedErrSticks(pages[..i], fetch, k);
    } else {
      assert pages[..k] == pages;
    }
  }

  /** The loop raises exactly when some page entry has the wrong kind, and then with that error. */
  lemma {:induction false} SelectedFailsIffMalformed(pages: seq<Json>, fetch: string -> Response)
    ensures Selected(pages, fetch).result.Err? <==> exists i :: 0 <= i < |pages| && Classify(pages[i]).Crash?
    ensures Selected(pages, fetch).result.Err? ==> Selected(pages, fetch).result.failure == UnexpectedShape
    decreases |pages|
  {
    if pages != [] {
      var i := |pages| - 1;
      SelectedFailsIffMalformed(pages[..i], fetch);
      assert forall j :: 0 <= j < i ==> pages[..i][j] == pages[j];
    }
  }

  /** Every kept image comes from a page that was fetched with status 200, carries that reply's bytes and its page's file name. */
  lemma {:induction false} SelectedSound(pages: seq<Json>, fetch: string -> Response)
    requires Selected(pages, fetch).result.Ok?
    ensures var images := Selected(pages, fetch).result.value;
      forall k :: 0 <= k < |images| ==>
        && images[k].index < |pages|
        && Kept(pages[images[k].index], fetch)
        && images[k].name == PageName(images[k].index)
        && images[k].content == fetch(Classify(pages[images[k].index]).url).content
    decreases |pages|
  {
    if pages != [] {
      var i := |pages| - 1;
      SelectedSound(pages[..i], fetch);
      assert forall j :: 0 <= j < i ==> pages[..i][j] == pages[j];
      var before := Selected(pages[..i], fetch).result.value;
      var images := Selected(pages, fetch).result.value;
      if images != before {
        assert Kept(pages[i], fetch);
        assert images == before + [PageImage(i, PageName(i), fetch(Classify(pages[i]).url).content)];
      }
    }
  }

  /** The kept images are in strictly increasing page order. */
  lemma {:induction false} SelectedInOrder(pages: seq<Json>, fetch: string -> Response)
    requires Selected(pages, fetch).result.Ok?
    ensures var images := Selected(pages, fetch).result.value;
      forall a, b :: 0 <= a < b < |images| ==> images[a].index < images[b].index
    decreases |pages|
  {
    if pages != [] {
      var i := |pages| - 1;
      SelectedInOrder(pages[..i], fetch);
      SelectedSound(pages[..i], fetch);
    }
  }

  /** Every page whose image was fetched with status 200 is kept. */
  lemma {:induction false} SelectedComplete(pages: seq<Json>, fetch: string -> Response)
    requires Selected(pages, fetch).result.Ok?
    ensures var images := Selected(pages, fetch).result.value;
      forall j :: 0 <= j < |pages| && Kept(pages[j], fetch) ==>
        exists k :: 0 <= k < |images| && images[k].index == j
    decreases |pages|
  {
    if pages != [] {
      var i := |pages| - 1;
      var images := Selected(pages, fetch).result.value;
      var before := Selected(pages[..i], fetch).result.value;
      SelectedComplete(pages[..i], fetch);
      assert before <= images;
      forall j | 0 <= j < |pages| && Kept(pages[j], fetch)
        ensures exists k :: 0 <= k < |images| && images[k].index == j
      {
        if j < i {
          assert pages[..i][j] == pages[j];
          var k :| 0 <= k < |before| && before[k].index == j;
          assert images[k] == before[k];
        } else {
          assert images[|before|].index == i;
        }
      }
    }
  }

  /** The kept images have pairwise distinct file names. */
  lemma SelectedNamesDistinct(pages: seq<Json>, fetch: string -> Response)
    requires Selected(pages, fetch).result.Ok?
    ensures var images := Selected(pages, fetch).result.value;
      forall a, b :: 0 <= a < b < |images| ==> images[a].name != images[b].name
  {
    var images := Selected(pages, fetch).result.value;
    SelectedSound(pages, fetch);
    SelectedInOrder(pages, fetch);
    forall a, b | 0 <= a < b < |images| ensures images[a].name != images[b].name {
      PageNameInjective(images[a].index, images[b].index);
    }
  }

  /** The image URLs of the pages that have a usable `imageUri`, one per page, in page order. */
  function ImageRequests(pages: seq<Json>): seq<string>
    decreases |pages|
  {
    if pages == [] then []
    else
      var i := |pages| - 1;
      ImageRequests(pages[..i]) + match Classify(pages[i]) case Fetch(url) => [url] case _ => []
  }

  /** A loop that completes requests one image URL per page with a usable `imageUri`, in page order, whatever the replies. */
  lemma {:induction false} SelectedRequests(pages: seq<Json>, fetch: string -> Response)
    requires Selected(pages, fetch).result.Ok?
    ensures Selected(pages, fetch).requests == ImageRequests(pages)
    decreases |pages|
  {
    if pages != [] {
      SelectedRequests(pages[..|pages| - 1], fetch);
    }
  }

  /** A loop that raises has requested exactly the image URLs of the pages before the first malformed one. */
  lemma {:induction false} SelectedRequestsOnFailure(pages: seq<Json>, fetch: string -> Response)
    requires Selected(pages, fetch).result.Err?
    ensures exists c :: (0 <= c < |pages| && Classify(pages[c]).Crash?
                         && (forall j :: 0 <= j < c ==> !Classify(pages[j]).Crash?)
                         && Selected(pages, fetch).requests == ImageRequests(pages[..c]))
    decreases |pages|
  {
    var i := |pages| - 1;
    var before := Selected(pages[..i], fetch);
    if before.result.Err? {
      SelectedRequestsOnFailure(pages[..i], fetch);
      var c :| 0 <= c < i && Classify(pages[..i][c]).Crash?
        && (forall j :: 0 <= j < c ==> !Classify(pages[..i][j]).Crash?)
        && before.requests == ImageRequests(pages[..i][..c]);
      assert pages[..i][..c] == pages[..c];
      assert forall j :: 0 <= j <= c ==> pages[..i][j] == pages[j];
    } else {
      SelectedRequests(pages[..i], fetch);
      SelectedFailsIffMalformed(pages[..i], fetch);
      assert forall j :: 0 <= j < i ==> pages[..i][j] == pages[j];
    }
  }

  /** Pages none of which has a usable `imageUri` cause no request and keep nothing. */
  lemma {:induction false} SelectedWithoutImageUris(pages: seq<Json>, fetch: string -> Response)
    requires forall j :: 0 <= j < |pages| ==> !Classify(pages[j]).Fetch?
    ensures Selected(pages, fetch).requests == []
    ensures Selected(pages, fetch).result.Ok? ==> Selected(pages, fetch).result.value == []
    decreases |pages|
  {
    if pages != [] {
      var i := |pages| - 1;
      assert forall j :: 0 <= j < i ==> pages[..i][j] == pages[j];
      SelectedWithoutImageUris(pages[..i], fetch);
    }
  }

  /** Writing one more page file updates the directory at that file's name. */
  lemma TempDirSnoc(images: seq<PageImage>, image: PageImage)
    ensures TempDir(images + [image]) == TempDir(images)[image.name := image.content]
  {
    assert (images + [image])[..|images|] == images;
  }

  /** The temporary directory holds no file other than the kept pages' files. */
  lemma {:induction false} TempDirOnlyKept(images: seq<PageImage>)
    ensures forall name :: name in TempDir(images) ==> exists k :: 0 <= k < |images| && images[k].name == name
    decreases |images|
  {
    if images != [] {
      var init := images[..|images| - 1];
      TempDirOnlyKept(init);
      assert TempDir(images) == TempDir(init)[images[|images| - 1].name := images[|images| - 1].content];
      forall name | name in TempDir(images)
        ensures exists k :: 0 <= k < |images| && images[k].name == name
      {
        if name != images[|images| - 1].name {
          var k :| 0 <= k < |init| && init[k].name == name;
          assert images[k] == init[k];
        }
      }
    }
  }

  /** When the page files have distinct names, reading a page's file back gives that page's bytes. */
  lemma {:induction false} TempDirReadsBack(images: seq<PageImage>)
    requires forall a, b :: 0 <= a < b < |images| ==> images[a].name != images[b].name
    ensures forall k :: 0 <= k < |images| ==>
      images[k].name in TempDir(images) && TempDir(images)[images[k].name] == images[k].content
    decreases |images|
  {
    if images != [] {
      TempDirReadsBack(images[..|images| - 1]);
    }
  }
}
