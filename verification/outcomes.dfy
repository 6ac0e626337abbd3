/** The failures `download_issuu_pdf` raises and the wrappers that carry them. */
module Outcomes {

  datatype Option<+T> = None | Some(value: T)

  /** One kind per exception raised by the code of `download_issuu_pdf` (main.py:21-49) itself. */
  datatype Failure =
    | InvalidUrlFormat                // the URL holds no `issuu.com/<owner>/docs/<id>` part
    | ManifestFetchFailed(status: int) // the manifest request answered something other than 200
    | NoPagesFound                    // `document.pages` is missing or empty
    | UnexpectedShape                 // a manifest value of the wrong kind (Python's AttributeError or TypeError)
    | NoPagesDownloaded               // no page image came back with status 200

  datatype Result<+T> = Ok(value: T) | Err(failure: Failure)

  /** What a run produced, together with the URLs it requested, in request order. */
  datatype Trace<+T> = Trace(result: Result<T>, requests: seq<string>)
}
