/**
 * What the HTTP client sees of the package index: the responses to GET
 * requests and the streamed bodies of file downloads, as fixed inputs, and a
 * log of the URLs requested.
 */
module Http {
  import opened Wrappers
  import opened PyLib

  /** A start tag as `HTMLParser.handle_starttag` receives it. */
  datatype StartTag = StartTag(name: string, attrs: seq<(string, Option<string>)>)

  /** One file of a JSON index: its `filename` and `url` fields. */
  datatype FileRecord = FileRecord(filename: string, url: string)

  /** One entry of the `releases` object of the legacy JSON API. */
  datatype Release = Release(version: string, files: seq<FileRecord>)

  /** A response body, as the code goes on to interpret it. */
  datatype Body =
    | Markup(tags: seq<StartTag>)           // an HTML page, as the start tags in it
    | SimpleIndex(files: seq<FileRecord>)   // the `files` list of a JSON simple index
    | ReleaseIndex(releases: seq<Release>)  // the `releases` object of the legacy JSON API
    | Malformed                             // a body that is not JSON or lacks the fields read

  /** A response after redirects: its status, final URL, `Content-Type` and body. */
  datatype Response = Response(status: int, url: string, contentType: Option<string>, body: Body)

  /**
   * A streamed download: its status and the chunks `aiter_bytes` yields;
   * when `completes` is false the stream raises after the last chunk given.
   */
  datatype Download = Download(status: int, chunks: seq<seq<byte>>, completes: bool)

  /** `Response.is_success`, below which `raise_for_status` raises. */
  predicate IsSuccess(status: int) { 200 <= status < 300 }

  /** The start tags an HTML parser finds in a body; a JSON body holds none. */
  function TagsOf(body: Body): seq<StartTag> {
    if body.Markup? then body.tags else []
  }

  class Network {
    const pages: string -> Response
    const downloads: string -> Download
    var requests: seq<string>

    constructor(pages: string -> Response, downloads: string -> Download)
      ensures this.pages == pages && this.downloads == downloads && requests == []
    {
      this.pages := pages;
      this.downloads := downloads;
      requests := [];
    }

    method Get(url: string) returns (r: Response)
      modifies this`requests
      ensures requests == old(requests) + [url]
      ensures r == pages(url)
    {
      requests := requests + [url];
      r := pages(url);
    }

    method Stream(url: string) returns (d: Download)
      modifies this`requests
      ensures requests == old(requests) + [url]
      ensures d == downloads(url)
    {
      requests := requests + [url];
      d := downloads(url);
    }
  }
}
