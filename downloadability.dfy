/**
 * `checkIfDownloadable` (app.js): the decision taken on the headers of a HEAD
 * response.  The request itself is a parameter: `head(url)` is what the
 * HTTP client reports, either the two headers or the message of the error
 * it failed with.
 */
module Downloadability {
  import opened Text
  import opened Patterns

  /** What the HEAD request produced. */
  datatype HeadOutcome =
    | Responded(contentDisposition: Option<string>, contentType: Option<string>)
    | Failed(message: string)

  /** The record checkIfDownloadable resolves with; `error` is null unless the request failed. */
  datatype FileInfo = FileInfo(isDownloadable: bool, fileType: string, fileName: string, error: Option<string>)

  // ---------------------------------------- /filename="?(.+?)"?($|;)/i

  /** No line terminator (which `.` does not match) in [a, b). */
  predicate LineFreeUntil(s: string, a: nat, b: nat)
  {
    forall k :: a <= k < b && k < |s| ==> !IsLineTerminator(s[k])
  }

  /** `"?($|;)` matches at c: an optional quote, then the end of the text or a semicolon. */
  predicate CaptureMayEndAt(s: string, c: nat)
  {
    || c == |s|
    || (c < |s| && s[c] == ';')
    || (c < |s| && s[c] == '"' && (c + 1 == |s| || s[c + 1] == ';'))
  }

  /**
   * The lazy `(.+?)`: the first end at or after c (the capture begins before
   * c) after which `"?($|;)` matches, the capture never crossing a line
   * terminator.
   */
  function LazyCaptureEnd(s: string, c: nat): (e: Option<nat>)
    requires 0 < c <= |s|
    ensures e.Some? ==> c <= e.value <= |s| && CaptureMayEndAt(s, e.value) && LineFreeUntil(s, c - 1, e.value)
    ensures e.Some? ==> forall x :: c <= x < e.value ==> !CaptureMayEndAt(s, x)
    ensures e.None? ==> forall x :: c <= x <= |s| && CaptureMayEndAt(s, x) ==> !LineFreeUntil(s, c - 1, x)
    decreases |s| - c
  {
    if IsLineTerminator(s[c - 1]) then None
    else if CaptureMayEndAt(s, c) then Some(c)
    else
      var e := LazyCaptureEnd(s, c + 1);
      assert forall x :: c + 1 <= x && LineFreeUntil(s, c - 1, x) ==> LineFreeUntil(s, c, x);
      e
  }

  /** Reference: a capture [c0, c) the rest of the pattern accepts. */
  ghost predicate IsFilenameCapture(s: string, c0: nat, c: nat)
  {
    c0 < c <= |s| && LineFreeUntil(s, c0, c) && CaptureMayEndAt(s, c)
  }

  /** No capture starts at c0. */
  ghost predicate NoCaptureFrom(s: string, c0: nat)
  {
    forall c :: !IsFilenameCapture(s, c0, c)
  }

  /** The shortest capture that starts at c0, if there is one. */
  function CaptureFrom(s: string, c0: nat): (c: Option<nat>)
    ensures c.Some? ==> IsFilenameCapture(s, c0, c.value)
    ensures c.Some? ==> forall x :: c0 < x < c.value ==> !IsFilenameCapture(s, c0, x)
    ensures c.None? ==> NoCaptureFrom(s, c0)
  {
    if c0 < |s| then LazyCaptureEnd(s, c0 + 1) else None
  }

  /**
   * The capture when the match starts at i: after `filename=` the engine
   * first takes the optional opening quote and only when no capture works
   * that way lets `.` take the quote instead.
   */
  function FilenameAt(s: string, i: nat): (sp: Option<Span>)
    ensures sp.Some? ==> HasAtIgnoringCase(s, i, "filename=")
    ensures sp.Some? ==> IsFilenameCapture(s, sp.value.start, sp.value.end)
    ensures sp.Some? ==> forall c :: sp.value.start < c < sp.value.end ==> !IsFilenameCapture(s, sp.value.start, c)
    ensures sp.Some? ==>
      || (sp.value.start == i + 10 && s[i + 9] == '"')
      || (sp.value.start == i + 9 && (s[i + 9] != '"' || NoCaptureFrom(s, i + 10)))
    ensures sp.None? && HasAtIgnoringCase(s, i, "filename=") ==>
      NoCaptureFrom(s, i + 9) && (i + 9 < |s| && s[i + 9] == '"' ==> NoCaptureFrom(s, i + 10))
  {
    if !HasAtIgnoringCase(s, i, "filename=") then None
    else
      var q := i + 9;
      if q < |s| && s[q] == '"' && CaptureFrom(s, q + 1).Some? then
        Some(Span(q + 1, CaptureFrom(s, q + 1).value))
      else if CaptureFrom(s, q).Some? then
        Some(Span(q, CaptureFrom(s, q).value))
      else
        None
  }

  /** The leftmost position at or after i where the filename pattern matches. */
  function FilenameSearch(s: string, i: nat): (j: Option<nat>)
    requires i <= |s|
    ensures j.Some? ==> i <= j.value <= |s| && FilenameAt(s, j.value).Some?
    ensures j.Some? ==> forall k :: i <= k < j.value ==> FilenameAt(s, k).None?
    ensures j.None? ==> forall k :: i <= k <= |s| ==> FilenameAt(s, k).None?
    decreases |s| - i
  {
    if FilenameAt(s, i).Some? then Some(i)
    else if i == |s| then None
    else
      var j := FilenameSearch(s, i + 1);
      assert j.None? ==> forall k :: i <= k <= |s| ==> k == i || FilenameAt(s, k).None?;
      j
  }

  /** `contentDisposition.match(/filename="?(.+?)"?($|;)/i)`, group 1. */
  function FilenameFromDisposition(cd: string): (name: Option<string>)
    ensures name.Some? ==> |name.value| >= 1
    ensures name.Some? ==> forall k :: 0 <= k < |name.value| ==> !IsLineTerminator(name.value[k])
    ensures name.Some? ==> forall k :: 1 <= k < |name.value| ==> name.value[k] != ';'
    ensures name.None? ==> forall i :: 0 <= i <= |cd| ==> FilenameAt(cd, i).None?
  {
    match FilenameSearch(cd, 0)
    case None => None
    case Some(j) =>
      var sp := FilenameAt(cd, j).value;
      var name := cd[sp.start..sp.end];
      assert forall k :: 1 <= k < |name| ==> name[k] != ';' by {
        forall k | 1 <= k < |name| ensures name[k] != ';' {
          assert !IsFilenameCapture(cd, sp.start, sp.start + k);
        }
      }
      Some(name)
  }

  // ------------------------------------------------------------- decision

  /** The Content-Disposition header marks an attachment (a case-sensitive `includes`). */
  predicate IsAttachment(cd: Option<string>)
  {
    Truthy(cd) && Contains(cd.value, "attachment")
  }

  /** A Content-Type that is present and neither `text/html...` nor `text/plain...`. */
  predicate IsNonTextType(ct: Option<string>)
  {
    Truthy(ct) && !StartsWith(ct.value, "text/html") && !StartsWith(ct.value, "text/plain")
  }

  /** The promise's value for a HEAD outcome: it never rejects. */
  function ProbeResult(outcome: HeadOutcome): (info: FileInfo)
    ensures outcome.Failed? ==> info == FileInfo(false, "unknown", "unknown", Some(outcome.message))
    ensures outcome.Responded? ==> info.error.None?
    ensures outcome.Responded? ==>
      (info.isDownloadable <==> IsAttachment(outcome.contentDisposition) || IsNonTextType(outcome.contentType))
    ensures outcome.Responded? ==>
      info.fileType == if Truthy(outcome.contentType) then outcome.contentType.value else "unknown"
    ensures outcome.Responded? ==>
      info.fileName == match (if IsAttachment(outcome.contentDisposition) then FilenameFromDisposition(outcome.contentDisposition.value) else None)
        case Some(name) => name
        case None => "unknown"
    ensures info.fileName != ""
  {
    match outcome
    case Failed(message) => FileInfo(false, "unknown", "unknown", Some(message))
    case Responded(cd, ct) =>
      var attachment := IsAttachment(cd);
      var name := if attachment then FilenameFromDisposition(cd.value) else None;
      FileInfo(
        attachment || IsNonTextType(ct),
        if Truthy(ct) then ct.value else "unknown",
        if name.Some? then name.value else "unknown",
        None)
  }

  /**
   * `checkIfDownloadable`: start from the not-downloadable record and set its
   * fields one by one as the headers allow.
   */
  method CheckIfDownloadable(url: string, head: string -> HeadOutcome) returns (info: FileInfo)
    ensures info == ProbeResult(head(url))
  {
    match head(url)
    case Failed(message) =>
      info := FileInfo(false, "unknown", "unknown", Some(message));
    case Responded(contentDisposition, contentType) =>
      info := FileInfo(false, "unknown", "unknown", None);
      if Truthy(contentDisposition) && Contains(contentDisposition.value, "attachment") {
        info := info.(isDownloadable := true);
        var filenameMatch := FilenameFromDisposition(contentDisposition.value);
        if filenameMatch.Some? {
          info := info.(fileName := filenameMatch.value);
        }
      }
      if Truthy(contentType) {
        info := info.(fileType := contentType.value);
        if !StartsWith(contentType.value, "text/html") && !StartsWith(contentType.value, "text/plain") {
          info := info.(isDownloadable := true);
        }
      }
  }

  /** The first filename capture found at i is the answer when the pattern fails everywhere before i. */
  lemma FilenameFoundAt(cd: string, i: nat, sp: Span)
    requires i <= |cd| && FilenameAt(cd, i) == Some(sp)
    requires forall k :: 0 <= k < i ==> FilenameAt(cd, k).None?
    ensures FilenameFromDisposition(cd) == Some(cd[sp.start..sp.end])
  {
  }

  /** The pattern cannot start where the text holds no `f` in either case. */
  lemma NoFilenameBefore(s: string, i: nat)
    requires i <= |s| && forall k :: 0 <= k < i ==> Lower(s[k]) != 'f'
    ensures forall k :: 0 <= k < i ==> FilenameAt(s, k).None?
  {
    forall k | 0 <= k < i ensures FilenameAt(s, k).None? {
      if HasAtIgnoringCase(s, k, "filename=") {
        HasAtIgnoringCaseFirst(s, k, "filename=");
      }
    }
  }

  /** None of the first twelve characters is an `f` in either case. */
  lemma AttachmentHasNoF()
    ensures forall k :: 0 <= k < 12 ==> Lower("attachment; "[k]) != 'f'
  {
  }

  /** Text that starts with `attachment; ` has no filename match in those twelve characters. */
  lemma NoFilenameInAttachment(s: string)
    requires |s| >= 12 && s[..12] == "attachment; "
    ensures forall k :: 0 <= k < 12 ==> FilenameAt(s, k).None?
  {
    AttachmentHasNoF();
    assert forall k :: 0 <= k < 12 ==> s[k] == s[..12][k];
    NoFilenameBefore(s, 12);
  }

  lemma QuotedCapture(s: string)
    requires s == "attachment; filename=\"a.zip\""
    ensures FilenameAt(s, 12) == Some(Span(22, 27))
  {
    assert s[12..21] == "filename=";
    HasAtIgnoresCase(s, 12, "filename=");
    assert LazyCaptureEnd(s, 27) == Some(27);
    assert LazyCaptureEnd(s, 23) == Some(27);
  }

  lemma QuotedPrefix(s: string)
    requires s == "attachment; filename=\"a.zip\""
    ensures forall k :: 0 <= k < 12 ==> FilenameAt(s, k).None?
    ensures s[22..27] == "a.zip"
  {
    var a, b, c, d := "attachment; ", "filename=\"", "a.zip", "\"";
    assert s == a + b + c + d;
    assert s[..12] == a;
    assert s[22..27] == c;
    NoFilenameInAttachment(s);
  }

  /** A quoted name is read without its quotes. */
  lemma QuotedFilename()
    ensures FilenameFromDisposition("attachment; filename=\"a.zip\"") == Some("a.zip")
  {
    var s := "attachment; filename=\"a.zip\"";
    QuotedPrefix(s);
    QuotedCapture(s);
    FilenameFoundAt(s, 12, Span(22, 27));
  }

  lemma UnquotedName(s: string)
    requires s == "attachment; filename=r.pdf; size=3"
    ensures CaptureFrom(s, 21) == Some(26)
  {
    assert LazyCaptureEnd(s, 26) == Some(26);
    assert LazyCaptureEnd(s, 24) == Some(26);
    assert LazyCaptureEnd(s, 22) == Some(26);
  }

  lemma UnquotedHeader(s: string)
    requires s == "attachment; filename=r.pdf; size=3"
    ensures HasAtIgnoringCase(s, 12, "filename=") && |s| == 34 && s[21] == 'r'
  {
    var a, b, c := "attachment; ", "filename=", "r.pdf; size=3";
    assert s == a + b + c;
    assert s[12..21] == b;
    HasAtIgnoresCase(s, 12, "filename=");
  }

  lemma UnquotedCapture(s: string)
    requires s == "attachment; filename=r.pdf; size=3"
    ensures FilenameAt(s, 12) == Some(Span(21, 26))
  {
    UnquotedHeader(s);
    UnquotedName(s);
  }

  lemma UnquotedPrefix(s: string)
    requires s == "attachment; filename=r.pdf; size=3"
    ensures forall k :: 0 <= k < 12 ==> FilenameAt(s, k).None?
    ensures s[21..26] == "r.pdf"
  {
    var a, b, c, d := "attachment; ", "filename=", "r.pdf", "; size=3";
    assert s == a + b + c + d;
    assert s[..12] == a;
    assert s[21..26] == c;
    NoFilenameInAttachment(s);
  }

  /** An unquoted name stops at the first semicolon. */
  lemma UnquotedFilename()
    ensures FilenameFromDisposition("attachment; filename=r.pdf; size=3") == Some("r.pdf")
  {
    var s := "attachment; filename=r.pdf; size=3";
    UnquotedPrefix(s);
    UnquotedCapture(s);
    FilenameFoundAt(s, 12, Span(21, 26));
  }
}
