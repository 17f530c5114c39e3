/**
 * The decisions the `download` handler of the main process (app.js) takes
 * for each requested file before any I/O: whether the URL is an inline
 * image, how such a URL splits into MIME type and payload, which directory
 * the file goes to, and the file name of a fetched URL.
 */
module DownloadTargets {
  import opened Text
  import opened FileLinks
  import opened DownloadStates

  /** One entry of `msg.download`. */
  datatype DownloadRequest = DownloadRequest(id: int, url: string, customPath: Option<string>, path: Option<string>)

  /** The message reported when an inline image cannot be parsed. */
  const InvalidImageMessage := "Invalid base64 image data"

  /** No line terminator in the text: what `.+` up to `$` requires. */
  predicate SingleLine(s: string)
  {
    forall k :: 0 <= k < |s| ==> !IsLineTerminator(s[k])
  }

  /** The data URI for an image subtype and its payload. */
  function DataUri(letters: string, payload: string): string
  {
    "data:image/" + letters + ";base64," + payload
  }

  /**
   * `/^data:(image\/[a-zA-Z]+);base64,(.+)$/`: the MIME type and the
   * payload, which runs to the end of the URL and must be a non-empty single
   * line.
   */
  function ParseImageDataUri(url: string): (parts: Option<(string, string)>)
    ensures parts.Some? ==>
      var (mime, payload) := parts.value;
      && |mime| > 6 && mime[..6] == "image/" && IsInlineImage(url, mime[6..])
      && |payload| >= 1 && SingleLine(payload)
      && url == DataUri(mime[6..], payload)
  {
    match InlineImageMime(url)
    case None => None
    case Some(mime) =>
      var payload := url[|mime| + 13..];
      if |payload| >= 1 && SingleLine(payload) then
        ParsedUri(url, mime[6..]);
        Some((mime, payload))
      else None
  }

  /** A URL with an inline-image prefix is that prefix followed by the rest. */
  lemma ParsedUri(url: string, letters: string)
    requires IsInlineImage(url, letters)
    ensures url == DataUri(letters, url[|letters| + 19..])
  {
    var p := "data:image/" + letters + ";base64,";
    assert url[..|p|] == p;
    assert url == url[..|p|] + url[|p|..];
  }

  /** Parsing a well-formed data URI gives back its MIME type and payload. */
  lemma ParseDataUri(letters: string, payload: string)
    requires |letters| >= 1 && (forall k :: 0 <= k < |letters| ==> IsAsciiLetter(letters[k]))
    requires |payload| >= 1 && SingleLine(payload)
    ensures ParseImageDataUri(DataUri(letters, payload)) == Some(("image/" + letters, payload))
  {
    var url := DataUri(letters, payload);
    var p := "data:image/" + letters + ";base64,";
    assert url == p + payload;
    assert url[..|p|] == p;
    assert IsInlineImage(url, letters);
    var mime := InlineImageMime(url).value;
    InlineImageLetters(url, letters);
    InlineImageLetters(url, mime[6..]);
    assert mime[6..] == letters by {
      assert url[11..11 + |letters|] == letters;
      assert url[11..11 + |mime[6..]|] == mime[6..];
    }
    assert mime == "image/" + letters;
    assert url[|mime| + 13..] == payload;
  }

  /** The parse succeeds exactly on the data URIs of that shape. */
  lemma ParseImageDataUriExactly(url: string)
    ensures ParseImageDataUri(url).Some? <==>
      exists letters, payload :: && |letters| >= 1 && (forall k :: 0 <= k < |letters| ==> IsAsciiLetter(letters[k]))
                                 && |payload| >= 1 && SingleLine(payload) && url == DataUri(letters, payload)
  {
    if exists letters, payload :: && |letters| >= 1 && (forall k :: 0 <= k < |letters| ==> IsAsciiLetter(letters[k]))
                                  && |payload| >= 1 && SingleLine(payload) && url == DataUri(letters, payload) {
      var letters, payload :| && |letters| >= 1 && (forall k :: 0 <= k < |letters| ==> IsAsciiLetter(letters[k]))
                              && |payload| >= 1 && SingleLine(payload) && url == DataUri(letters, payload);
      ParseDataUri(letters, payload);
    }
  }

  /**
   * The directory the file is written to: `customPath` when it is a non-empty
   * string, else `path` when it is, else the system downloads directory.
   */
  function TargetDirectory(file: DownloadRequest, downloads: string): (dir: string)
    ensures Truthy(file.customPath) ==> dir == file.customPath.value
    ensures !Truthy(file.customPath) && Truthy(file.path) ==> dir == file.path.value
    ensures !Truthy(file.customPath) && !Truthy(file.path) ==> dir == downloads
  {
    if Truthy(file.customPath) then file.customPath.value
    else if Truthy(file.path) then file.path.value
    else downloads
  }

  /** `file.url.split("/").pop()`: the text after the last slash. */
  function RemoteFileName(url: string): (name: string)
    ensures '/' !in name
    ensures |name| <= |url| && url[|url| - |name|..] == name
    ensures |name| == |url| || url[|url| - |name| - 1] == '/'
  {
    LastSegmentIsFinalPart(url, '/');
    LastSegment(url, '/')
  }

  /** `s` ends with `suffix`. */
  predicate EndsWith(s: string, suffix: string)
  {
    |suffix| <= |s| && s[|s| - |suffix|..] == suffix
  }

  /**
   * What the handler goes on to do with one requested file.  `ImageNameThrows`
   * is a parsed inline image: the handler has its extension and payload when
   * it builds the file name (app.js:142), and there the undeclared `index`
   * throws, so the file's promise rejects with nothing written and no reply.
   */
  datatype DownloadPlan =
    | RejectImage(reply: Message)
    | ImageNameThrows(extension: string, payload: string)
    | Fetch(url: string, directory: string, fileName: string)

  /**
   * The per-file branch of the `download` handler.  An inline image that
   * does not parse is answered with a `downloadError` for its id; one that
   * parses gets as far as its extension and then throws at the file name;
   * anything else is fetched to the target directory under the URL's last
   * path segment.
   */
  function PlanDownload(file: DownloadRequest, downloads: string): (plan: DownloadPlan)
    ensures StartsWith(file.url, "data:image/") && ParseImageDataUri(file.url).None? <==> plan.RejectImage?
    ensures plan.RejectImage? ==>
      plan.reply == Message("downloadError", file.id, 0, Some(InvalidImageMessage))
    ensures plan.ImageNameThrows? ==>
      && file.url == DataUri(plan.extension, plan.payload)
      && |plan.extension| >= 1 && (forall k :: 0 <= k < |plan.extension| ==> IsAsciiLetter(plan.extension[k]))
    ensures plan.Fetch? <==> !StartsWith(file.url, "data:image/")
    ensures plan.Fetch? ==>
      && plan.url == file.url && plan.directory == TargetDirectory(file, downloads)
      && '/' !in plan.fileName && EndsWith(file.url, plan.fileName)
      && (|plan.fileName| == |file.url| || file.url[|file.url| - |plan.fileName| - 1] == '/')
  {
    if StartsWith(file.url, "data:image/") then
      match ParseImageDataUri(file.url)
      case None => RejectImage(Message("downloadError", file.id, 0, Some(InvalidImageMessage)))
      case Some((mimeType, base64Data)) =>
        ImageNameThrows(InlineImageType(mimeType), base64Data)
    else
      Fetch(file.url, TargetDirectory(file, downloads), RemoteFileName(file.url))
  }

  /** The rejection reply, once received, records the error against the file. */
  lemma RejectionIsRecorded(file: DownloadRequest, downloads: string, states: map<int, DownloadState>)
    requires PlanDownload(file, downloads).RejectImage?
    ensures Receive(states, PlanDownload(file, downloads).reply)[file.id] == DownloadState(0, false, Some(InvalidImageMessage))
  {
  }
}
