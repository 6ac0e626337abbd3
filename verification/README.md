# Issuu downloader core, modelled in Dafny

The model covers `download_issuu_pdf` in `main.py`. This function takes an Issuu document URL and an output path. It does five things in order:

1. It finds the owner and document id in the URL with `re.search(r'issuu\.com/([^/]+)/docs/([^/]+)', url)`.
2. It fetches the reader manifest `https://reader3.isu.pub/<owner>/<id>/reader3_4.json`.
3. It takes the manifest's `document.pages` list.
4. It fetches `https://<imageUri>` for every page whose `imageUri` is a non-empty string. It stores each image that answers 200 as `page_<i+1>.jpg` in a temporary directory.
5. It converts the stored images, in order, into one PDF and writes it to the output path.

The command-line front end names that path `<output_dir>/<owner>_<id>.pdf`.

How the model treats the outside world:

- The two HTTP requests are oracles: functions from a URL to a reply.
- The manifest body arrives as a JSON value that has already been parsed.
- The image-to-PDF conversion is a function from the page bytes, in order, to the PDF bytes.
- The output file is a small object holding its bytes and a count of how often it was written.
- Every exception raised by the code of main.py:21-49 itself is a `Failure` value. `Download` returns it together with the list of URLs requested before it. Exceptions raised inside `requests`, `response.json()`, `img2pdf` or the file writes are not modelled (see "## Left out").

Modules:

- `Outcomes` (outcomes.dfy): `Option`, `Result`, `Trace` and the `Failure` kinds.
- `JsonValue` (json.dfy): the parsed manifest, Python truthiness, and `dict.get`.
- `Decimal` (decimal.dfy): how `f"{n}"` renders a number, and its inverse.
- `DocumentUrl` (document_url.dfy): the regular-expression search and the strings built from its result. `Segments` models `str.split('/')`.
- `PageSelection` (page_selection.dfy): the page loop. `Selected` is its specification, a function of the pages seen so far. `CollectPages` is the loop, proved equal to `Selected`.
- `Downloader` (downloader.dfy): reading the manifest, the whole download as the function `Download`, and the method `DownloadIssuuPdf` that runs it step by step against the output file.

How the code treats a manifest of an unexpected shape:

- A manifest of the wrong shape has no error of its own. A missing `document` key, a missing `pages` key, and a `pages` value that is null, false, zero or empty all end in the same "No pages found" exception.
- A manifest value of the wrong kind is different. Examples are a `document` that is not an object, a page that is not an object, or an `imageUri` that is a non-zero number. These end in a Python `AttributeError` or `TypeError`. The model calls this `UnexpectedShape`. When it happens inside the loop, it aborts the download after the image requests already made.

## Model

| member | source | states |
|---|---|---|
| `DocumentUrl.Extract` | main.py:22-25 | a found owner and document id are both non-empty and contain no '/' |
| `DocumentUrl.PatternAtFound` | main.py:22 | wherever the pattern can match, the match attempt at that position succeeds with the same owner and an id that extends the matched one (the greedy second group) |
| `DocumentUrl.GreedyMatchFound` | main.py:22-25 | a greedy match (id running to the next '/' or the end) is exactly what the match attempt at its position reports |
| `DocumentUrl.MatchAt` | main.py:22-25 | the match attempt at one start position: what it reports is a match of the pattern whose id runs to the next '/' or the end |
| `DocumentUrl.SearchFrom` | main.py:22-25 | the scan of `re.search`: when the attempt at the start position succeeds, its match is the result (the leftmost wins); any result has a non-empty, slash-free owner and id |
| `DocumentUrl.MatchAtCorrect` | main.py:22 | the match attempt at a position returns the greedy match (id running to the next '/' or the end), and fails only where no match of the pattern starts |
| `DocumentUrl.GreedyMatchUnique` | main.py:22-25 | at one start position there is only one greedy match, so the groups are determined by the position |
| `DocumentUrl.SearchFromCorrect` | main.py:22 | scanning from a position returns the greedy match at the first later position where the pattern occurs, or nothing when it occurs nowhere after it |
| `DocumentUrl.ExtractSound` | main.py:22-25 | a successful extraction is the greedy match at the leftmost position where the pattern occurs |
| `DocumentUrl.ExtractFailsIffNoMatch` | main.py:22-24 | extraction fails exactly when the pattern `issuu.com/<run>/docs/<run>` occurs nowhere in the URL |
| `DocumentUrl.ExtractNeedsDocs` | main.py:22-24 | a URL without `/docs/` anywhere (such as `https://issuu.com/acme/report2024`) yields no reference |
| `DocumentUrl.ExtractFromUrl` | main.py:22-25 | for a URL of the form prefix (without 'i') + `issuu.com/<owner>/docs/<id>` + rest (empty or starting with '/'), extraction returns exactly that owner and id; a query string or fragment without '/' stays in the id |
| `DocumentUrl.ExtractExample` | main.py:22-25 | `https://issuu.com/acme/docs/report2024?e=1#p/page/2` gives owner `acme` and id `report2024?e=1#p` |
| `DocumentUrl.ManifestUrl` | main.py:26 | for an extracted reference (slash-free owner and id) the manifest URL splits at '/' into exactly `https:`, ``, `reader3.isu.pub`, owner, id, `reader3_4.json` |
| `DocumentUrl.ManifestUrlInjective` | main.py:26 | distinct extracted references give distinct manifest URLs |
| `DocumentUrl.ImageUrl` | main.py:40 | the image URL is `https://` followed by the stored `imageUri`, unchanged |
| `DocumentUrl.ImageUrlSegments` | main.py:40 | the image URL is the scheme `https:` followed by the stored `imageUri`'s own segments; nothing else is inserted |
| `DocumentUrl.OutputName` | main.py:116 | the name is the owner, '_', the id and `.pdf`; it contains no '/' exactly when neither the owner nor the id does |
| `DocumentUrl.JoinPath` | main.py:116 | `os.path.join` on POSIX: an absolute name replaces the directory; otherwise the path starts with the directory and ends with the name, with one '/' between them unless the directory is empty or already ends in '/' |
| `DocumentUrl.OutputPath` | main.py:116 | when the owner has no '/', the output path starts with the output directory and ends with the output name |
| `DocumentUrl.OutputPathInDirectory` | main.py:101 | for an extracted reference `<owner>_<id>.pdf` is a single path component, the output path starts with the output directory, its last segment is that name, and at most one character (the separating `/`) lies between them |
| `DocumentUrl.OutputNameCollides` | main.py:116 | two different references (`a_b`/`c` and `a`/`b_c`) get the same output file name |
| `Decimal.ToDecimal` | main.py:42 | the rendering of a number is a non-empty string of digits with no leading zero (a leading '0' only for zero) |
| `Decimal.FromToDecimal` | main.py:42 | reading the rendered digits back gives the number |
| `Decimal.ToDecimalInjective` | main.py:42 | distinct numbers render differently |
| `PageSelection.PageName` | main.py:42 | the file name is `page_`, decimal digits without a leading zero and `.jpg`, and the digits read back as the 1-based page number |
| `PageSelection.PageNameInjective` | main.py:42 | distinct page positions get distinct `page_<i+1>.jpg` names |
| `JsonValue.Truthy` | main.py:32-38 | Python truthiness: a value is false exactly when it is null, false, zero, the empty string, the empty list or the empty object |
| `JsonValue.Get` | main.py:31-37 | `dict.get`: on an object it returns the key's value, or the default when the key is absent; on anything else it fails with `UnexpectedShape` |
| `PageSelection.Classify` | main.py:37-40 | a page is fetched exactly when it is an object whose `imageUri` is a non-empty string, and then from `https://` + that string; the loop raises exactly when the page is not an object or its `imageUri` is a truthy non-string; otherwise the page is skipped |
| `PageSelection.Step` | main.py:37-45 | one iteration makes at most one request and keeps no more new images than it made new requests |
| `PageSelection.Selected` | main.py:35-45 | the loop makes at most one request per page and keeps no more images than it requested |
| `PageSelection.CollectPages` | main.py:35-45 | the loop with `continue` and `append` returns exactly the outcome and request list of `Selected`, and the temporary directory holds exactly the files of the kept images |
| `PageSelection.SelectedErrSticks` | main.py:37-40 | once the loop has raised, later pages change nothing |
| `PageSelection.SelectedFailsIffMalformed` | main.py:37-40 | the loop raises exactly when some page or its `imageUri` has the wrong kind, and then with `UnexpectedShape` |
| `PageSelection.SelectedSound` | main.py:36-45 | every kept image comes from a page whose `imageUri` was usable and whose fetch answered 200; it carries that reply's bytes and the name of its own page position |
| `PageSelection.SelectedInOrder` | main.py:36-45 | kept images are in strictly increasing page order |
| `PageSelection.SelectedComplete` | main.py:36-45 | every page whose image fetch answered 200 is kept |
| `PageSelection.SelectedNamesDistinct` | main.py:42 | kept images have pairwise distinct file names |
| `PageSelection.SelectedRequests` | main.py:36-41 | a loop that completes requests `https://` + `imageUri` once for every page with a usable `imageUri`, in page order, whatever the replies (against the reference list `ImageRequests`) |
| `PageSelection.SelectedRequestsOnFailure` | main.py:36-41 | a loop that raises stops at the first malformed page, having requested exactly the image URLs of the pages before it |
| `PageSelection.SelectedWithoutImageUris` | main.py:37-39 | pages none of which has a usable `imageUri` cause no request and keep nothing |
| `PageSelection.TempDir` | main.py:43-44 | every kept page's name is a file in the temporary directory |
| `PageSelection.TempDirOnlyKept` | main.py:43-44 | the temporary directory holds no file other than the kept pages' files |
| `PageSelection.TempDirReadsBack` | main.py:42-45 | with distinct names, reading a kept page's file back from the temporary directory gives that page's bytes |
| `Downloader.ManifestPages` | main.py:31-33 | a listed non-empty `document.pages` array is returned as is; a missing `document`, a missing or falsy `pages`, or an empty list is "No pages found"; a manifest that is not an object is `UnexpectedShape` |
| `Downloader.Download` | main.py:21-49 | nothing is requested exactly when the URL does not match, and then the error is the invalid-URL one; otherwise the manifest URL is the first request; a non-200 manifest status fails with that status after that single request; a 200 manifest without usable pages fails with the manifest's error after that single request; a success has at least one page |
| `Downloader.ReadFiles` | main.py:49 | when the page names are distinct and the directory is the one the loop wrote, reading the kept pages' files in list order gives their bytes in page order |
| `Downloader.OutputFile.Write` | main.py:48-49 | writing replaces the file's bytes (no append) and counts one write |
| `Downloader.DownloadIssuuPdf` | main.py:21-49 | the step-by-step download raises what `Download` fails with and makes the same requests; on failure the output file is untouched; on success it is written exactly once, with the conversion of the kept pages' bytes in page order |
| `Downloader.DownloadKeepsFetchedPagesInOrder` | main.py:36-49 | a successful download converts at least one and at most as many images as the manifest has pages: exactly the pages fetched with status 200, in page order, each with its reply's bytes |
| `Downloader.DownloadNothingKept` | main.py:46-47 | with well-formed pages, the download fails with "no pages downloaded" exactly when no page image answered 200 |
| `Downloader.DownloadWithoutImagesRequestsOnlyManifest` | main.py:26-40 | when the manifest lists no page with a usable `imageUri`, the manifest URL is the only request |

## Left out

- HTTP requests (main.py:27, 40) are oracles from URL to status and body. Connection errors, timeouts and redirects are not modelled. Because the image oracle is a function of the URL, two pages with the same `imageUri` always get the same reply; the real server may answer the second request differently.
- `response.json()` (main.py:30) is not modelled. The manifest reply carries an already-parsed JSON value, so malformed JSON text cannot occur in the model. JSON numbers are reals, and an object is a map: the parser decides which of two duplicate keys wins.
- `img2pdf.convert` (main.py:49) is a parameter. Its own failures, for example on bytes that are not an image, are not modelled. The code opens `output_path` with `'wb'`, which empties it, before the conversion runs (main.py:48-49), so a failing conversion leaves an empty output file; the model cannot show this because `convert` always returns.
- File writes (main.py:43-44, 48-49) cannot fail in the model.
- `tempfile.TemporaryDirectory` (main.py:34): the directory is a map from file name to bytes. Its random path and its removal at the end are not modelled.
- Exceptions are kinds without their message text. Each kind is its own `Failure`, but the Python exception class (`ValueError` for a bad URL, plain `Exception` for the others, `AttributeError` or `TypeError` behind `UnexpectedShape`) is not kept.
- The Telegram handlers `start`, `handle_message` and `bot` (main.py:52-84) are not modelled: they are bot plumbing, including the temporary-file renaming.
- `download_from_file`, `download_from_url` and the argparse block (main.py:86-140) are CLI and filesystem plumbing. Only their output-path rule (main.py:101, 116) is modelled, as `OutputPath`.
- Logging and `load_dotenv` (main.py:12-18) are global configuration.
