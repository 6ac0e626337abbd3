/**
 * `download_issuu_pdf(url, output_path)` (main.py:21-49) with the network given as two oracles,
 * the image-to-PDF conversion as a function over the page bytes in order, and the output file
 * as an object that the download writes at most once.
 */
module Downloader {
  import opened Outcomes
  import opened JsonValue
  import opened DocumentUrl
  import opened PageSelection

  /** The manifest request's status and its body, already parsed as JSON. */
  datatype ManifestReply = ManifestReply(status: int, data: Json)

  /** The manifest lists exactly `pages` under `document.pages`. */
  predicate ListsPages(data: Json, pages: seq<Json>) {
    && data.JObj? && "document" in data.fields
    && data.fields["document"].JObj? && "pages" in data.fields["document"].fields
    && data.fields["document"].fields["pages"] == JArr(pages)
  }

  /** `data.get('document', {}).get('pages', [])` and the emptiness test (main.py:31-33). */
  function ManifestPages(data: Json): (r: Result<seq<Json>>)
    ensures r.Ok? ==> r.value != [] && ListsPages(data, r.value)
    ensures forall pages :: ListsPages(data, pages) ==> r == if pages == [] then Err(NoPagesFound) else Ok(pages)
    ensures data.JObj? && "document" !in data.fields ==> r == Err(NoPagesFound)
    ensures data.JObj? && "document" in data.fields && data.fields["document"].JObj?
            && ("pages" !in data.fields["document"].fields || !Truthy(data.fields["document"].fields["pages"]))
            ==> r == Err(NoPagesFound)
    ensures !data.JObj? ==> r == Err(UnexpectedShape)
  {
    match Get(data, "document", JObj(map[]))
    case Err(e) => Err(e)
    case Ok(document) =>
      match Get(document, "pages", JArr([]))
      case Err(e) => Err(e)
      case Ok(pages) =>
        if !Truthy(pages) then Err(NoPagesFound)
        // a non-empty value that is not a list: iterating it yields no page objects, and Python raises
        else if pages.JArr? then Ok(pages.items)
        else Err(UnexpectedShape)
  }

  /** The whole download, as the sequence of what happens: the outcome and the URLs requested. */
  function Download(url: string, getManifest: string -> ManifestReply, fetch: string -> Response): (t: Trace<seq<PageImage>>)
    ensures t.requests == [] <==> Extract(url).None?
    ensures Extract(url).None? ==> t.result == Err(InvalidUrlFormat)
    ensures Extract(url).Some? ==> t.requests[0] == ManifestUrl(Extract(url).value)
    ensures Extract(url).Some? && getManifest(ManifestUrl(Extract(url).value)).status != 200 ==>
      t == Trace(Err(ManifestFetchFailed(getManifest(ManifestUrl(Extract(url).value)).status)), [ManifestUrl(Extract(url).value)])
    ensures Extract(url).Some? && getManifest(ManifestUrl(Extract(url).value)).status == 200
            && ManifestPages(getManifest(ManifestUrl(Extract(url).value)).data).Err? ==>
      t == Trace(Err(ManifestPages(getManifest(ManifestUrl(Extract(url).value)).data).failure), [ManifestUrl(Extract(url).value)])
    ensures t.result.Ok? ==> t.result.value != []
  {
    match Extract(url)
    case None => Trace(Err(InvalidUrlFormat), [])
    case Some(ref) =>
      var manifestUrl := ManifestUrl(ref);
      var reply := getManifest(manifestUrl);
      if reply.status != 200 then Trace(Err(ManifestFetchFailed(reply.status)), [manifestUrl])
      else match ManifestPages(reply.data)
        case Err(e) => Trace(Err(e), [manifestUrl])
        case Ok(pages) =>
          var selected := Selected(pages, fetch);
          var requests := [manifestUrl] + selected.requests;
          if selected.result.Ok? && selected.result.value == [] then Trace(Err(NoPagesDownloaded), requests)
          else Trace(selected.result, requests)
  }

  /** The page bytes in order, as the conversion reads them. */
  function Contents(images: seq<PageImage>): (r: seq<Bytes>)
    ensures |r| == |images| && forall k :: 0 <= k < |r| ==> r[k] == images[k].content
    decreases |images|
  {
    if images == [] then [] else Contents(images[..|images| - 1]) + [images[|images| - 1].content]
  }

  /** The bytes of the named files, read from the temporary directory in list order. */
  function ReadFiles(files: map<string, Bytes>, images: seq<PageImage>): (r: seq<Bytes>)
    requires forall k :: 0 <= k < |images| ==> images[k].name in files
    ensures (forall a, b :: 0 <= a < b < |images| ==> images[a].name != images[b].name) && files == TempDir(images)
            ==> r == Contents(images)
  {
    var r := seq(|images|, k requires 0 <= k < |images| => files[images[k].name]);
    if (forall a, b :: 0 <= a < b < |images| ==> images[a].name != images[b].name) && files == TempDir(images) then
      TempDirReadsBack(images);
      assert r == Contents(images);
      r
    else r
  }

  /** The file at `output_path`: its bytes and how many times it has been written. */
  class OutputFile {
    var content: Bytes
    var writes: nat

    constructor (initial: Bytes)
      ensures content == initial && writes == 0
    {
      content := initial;
      writes := 0;
    }

    /** `open(path, 'wb').write(data)`: replaces the content. */
    method Write(data: Bytes)
      modifies this
      ensures content == data && writes == old(writes) + 1
    {
      content := data;
      writes := writes + 1;
    }
  }

  /** `download_issuu_pdf` step by step; `raised` is the exception it ends with, if any. */
  method DownloadIssuuPdf(url: string, getManifest: string -> ManifestReply, fetch: string -> Response,
                          convert: seq<Bytes> -> Bytes, output: OutputFile)
    returns (raised: Option<Failure>, requests: seq<string>)
    modifies output
    ensures var t := Download(url, getManifest, fetch);
      requests == t.requests && raised == if t.result.Ok? then None else Some(t.result.failure)
    ensures var t := Download(url, getManifest, fetch);
      t.result.Err? ==> output.content == old(output.content) && output.writes == old(output.writes)
    ensures var t := Download(url, getManifest, fetch);
      t.result.Ok? ==> output.content == convert(Contents(t.result.value)) && output.writes == old(output.writes) + 1
  {
    var found := Extract(url);
    if found.None? {
      return Some(InvalidUrlFormat), [];
    }
    var ref := found.value;
    var jsonUrl := ManifestUrl(ref);
    var response := getManifest(jsonUrl);
    requests := [jsonUrl];
    if response.status != 200 {
      return Some(ManifestFetchFailed(response.status)), requests;
    }
    var listed := ManifestPages(response.data);
    if listed.Err? {
      return Some(listed.failure), requests;
    }
    var collected, pageRequests, files := CollectPages(listed.value, fetch);
    requests := requests + pageRequests;
    if collected.Err? {
      return Some(collected.failure), requests;
    }
    var imageFiles := collected.value;
    if imageFiles == [] {
      return Some(NoPagesDownloaded), requests;
    }
    SelectedNamesDistinct(listed.value, fetch);
    var stored := ReadFiles(files, imageFiles);
    output.Write(convert(stored));
    raised := None;
  }

  // ---- properties of the whole download ----

  /**
   * A successful download converts, in manifest order, exactly the pages whose image was fetched
   * with status 200, each with the bytes of its reply, and at least one of them.
   */
  lemma DownloadKeepsFetchedPagesInOrder(url: string, getManifest: string -> ManifestReply, fetch: string -> Response)
    requires Download(url, getManifest, fetch).result.Ok?
    ensures Extract(url).Some?
    ensures var reply := getManifest(ManifestUrl(Extract(url).value));
      && reply.status == 200
      && ManifestPages(reply.data).Ok?
      && var pages := ManifestPages(reply.data).value;
         var images := Download(url, getManifest, fetch).result.value;
         && 0 < |images| <= |pages|
         && (forall k :: 0 <= k < |images| ==>
               && images[k].index < |pages|
               && Kept(pages[images[k].index], fetch)
               && images[k].content == fetch(Classify(pages[images[k].index]).url).content)
         && (forall a, b :: 0 <= a < b < |images| ==> images[a].index < images[b].index)
         && (forall j :: 0 <= j < |pages| && Kept(pages[j], fetch) ==>
               exists k :: 0 <= k < |images| && images[k].index == j)
  {
    var pages := ManifestPages(getManifest(ManifestUrl(Extract(url).value)).data).value;
    SelectedSound(pages, fetch);
    SelectedInOrder(pages, fetch);
    SelectedComplete(pages, fetch);
  }

  /**
   * Once the manifest lists well-formed pages, the download fails with "no pages downloaded"
   * exactly when no page image came back with status 200.
   */
  lemma DownloadNothingKept(url: string, getManifest: string -> ManifestReply, fetch: string -> Response, pages: seq<Json>)
    requires Extract(url).Some?
    requires getManifest(ManifestUrl(Extract(url).value)).status == 200
    requires ManifestPages(getManifest(ManifestUrl(Extract(url).value)).data) == Ok(pages)
    requires forall j :: 0 <= j < |pages| ==> !Classify(pages[j]).Crash?
    ensures Download(url, getManifest, fetch).result == Err(NoPagesDownloaded)
        <==> forall j :: 0 <= j < |pages| ==> !Kept(pages[j], fetch)
  {
    SelectedFailsIffMalformed(pages, fetch);
    var images := Selected(pages, fetch).result.value;
    SelectedSound(pages, fetch);
    SelectedComplete(pages, fetch);
    if images != [] {
      assert Kept(pages[images[0].index], fetch);
    }
  }

  /** A manifest that lists no page, or lists only pages without a usable `imageUri`, never reaches the image server. */
  lemma DownloadWithoutImagesRequestsOnlyManifest(url: string, getManifest: string -> ManifestReply, fetch: string -> Response)
    requires Extract(url).Some?
    requires var reply := getManifest(ManifestUrl(Extract(url).value));
      reply.status == 200 && ManifestPages(reply.data).Ok? ==>
        forall j :: 0 <= j < |ManifestPages(reply.data).value| ==> !Classify(ManifestPages(reply.data).value[j]).Fetch?
    ensures Download(url, getManifest, fetch).requests == [ManifestUrl(Extract(url).value)]
  {
    var reply := getManifest(ManifestUrl(Extract(url).value));
    if reply.status == 200 && ManifestPages(reply.data).Ok? {
      var pages := ManifestPages(reply.data).value;
      SelectedWithoutImageUris(pages, fetch);
    }
  }
}
