/**
 * `extractFileLinksFromText` in the Electron main process (app.js): the
 * URLs found in a text are examined one after the other; inline base64
 * images are kept with their subtype, http(s) URLs are kept when the HEAD
 * probe calls them downloadable, and everything else is dropped.
 */
module FileLinks {
  import opened Text
  import opened Patterns
  import opened UrlExtraction
  import opened Downloadability

  /** One entry of the reply: the URL, its `type`, and a `fileName` when one was set. */
  datatype FileLink = FileLink(url: string, kind: string, fileName: Option<string>)

  /** Reference: `item` starts with `data:image/`, the letters, `;base64,`. */
  ghost predicate IsInlineImage(item: string, letters: string)
  {
    && |letters| >= 1
    && (forall k :: 0 <= k < |letters| ==> IsAsciiLetter(letters[k]))
    && StartsWith(item, "data:image/" + letters + ";base64,")
  }

  /**
   * Group 1 of `/^data:(image\/[a-zA-Z]+);base64,/` (case-sensitive): the
   * MIME type of an inline image.  `[a-zA-Z]+` takes every letter, and since
   * `;` is not a letter no shorter run can be followed by it.
   */
  function InlineImageMime(item: string): (mime: Option<string>)
    ensures mime.Some? ==> |mime.value| > 6 && mime.value[..6] == "image/" && IsInlineImage(item, mime.value[6..])
    ensures mime.None? ==> forall letters :: !IsInlineImage(item, letters)
  {
    if StartsWith(item, "data:image/") then
      var n := LetterRun(item, 11);
      if n >= 1 && HasAt(item, 11 + n, ";base64,") then
        InlineImageFound(item, n);
        Some(item[5..11 + n])
      else
        NoInlineImageAfterRun(item);
        None
    else
      NoInlineImageWithoutPrefix(item);
      None
  }

  /** Without the letter run and `;base64,` after `data:image/` there is no inline image. */
  lemma NoInlineImageAfterRun(item: string)
    requires StartsWith(item, "data:image/")
    requires !(LetterRun(item, 11) >= 1 && HasAt(item, 11 + LetterRun(item, 11), ";base64,"))
    ensures forall letters :: !IsInlineImage(item, letters)
  {
    forall letters | IsInlineImage(item, letters) ensures false {
      InlineImageLetters(item, letters);
    }
  }

  /** Without `data:image/` at the start there is no inline image. */
  lemma NoInlineImageWithoutPrefix(item: string)
    requires !StartsWith(item, "data:image/")
    ensures forall letters :: !IsInlineImage(item, letters)
  {
    forall letters ensures !IsInlineImage(item, letters) {
      var p := "data:image/" + letters + ";base64,";
      assert p[..11] == "data:image/";
    }
  }

  /** The letter run after `data:image/`, followed by `;base64,`, makes an inline image. */
  lemma InlineImageFound(item: string, n: nat)
    requires StartsWith(item, "data:image/") && n == LetterRun(item, 11)
    requires n >= 1 && HasAt(item, 11 + n, ";base64,")
    ensures var mime := item[5..11 + n]; mime[..6] == "image/" && IsInlineImage(item, mime[6..])
  {
    var mime := item[5..11 + n];
    var letters := item[11..11 + n];
    assert mime[6..] == letters;
    forall k | 0 <= k < |letters| ensures IsAsciiLetter(letters[k]) {
      assert letters[k] == item[11 + k];
    }
    assert item[..11] == "data:image/";
    assert item[11 + n..11 + n + 8] == ";base64,";
    assert item[..11 + n + 8] == item[..11] + letters + item[11 + n..11 + n + 8];
    assert mime[..6] == item[5..11];
  }

  /** The letters of an inline image are exactly the letter run after `data:image/`. */
  lemma InlineImageLetters(item: string, letters: string)
    requires IsInlineImage(item, letters)
    ensures LetterRun(item, 11) == |letters|
    ensures HasAt(item, 11 + |letters|, ";base64,")
  {
    var p := "data:image/" + letters + ";base64,";
    assert item[..|p|] == p;
    forall j | 11 <= j < 11 + |letters| ensures IsAsciiLetter(item[j]) {
      assert item[j] == p[j] == letters[j - 11];
    }
    assert item[11 + |letters|] == p[11 + |letters|];
    assert item[11 + |letters|..11 + |letters| + 8] == p[11 + |letters|..];
  }

  /** `base64TypeMatch[1].split('/')[1]`: the subtype of the image. */
  function InlineImageType(mime: string): (subtype: string)
    requires |mime| > 6 && mime[..6] == "image/" && forall k :: 6 <= k < |mime| ==> IsAsciiLetter(mime[k])
    ensures subtype == mime[6..]
  {
    var letters := mime[6..];
    assert mime == "image" + ['/'] + letters;
    forall k | 0 <= k < |letters| ensures letters[k] != '/' {
      assert IsAsciiLetter(mime[6 + k]);
    }
    SplitAtFirstSeparator("image", '/', letters);
    SplitWithoutSeparator(letters, '/');
    Split(mime, '/')[1]
  }

  /** What happens to one item: kept as a link, or dropped. */
  function ClassifyItem(item: string, head: string -> HeadOutcome): (link: Option<FileLink>)
    ensures link.Some? ==> link.value.url == item
    ensures (exists letters :: IsInlineImage(item, letters)) ==>
      link.Some? && link.value.fileName.None? && IsInlineImage(item, link.value.kind)
    ensures (forall letters :: !IsInlineImage(item, letters)) && Test(HttpToken, item) ==>
      && (link.Some? <==> ProbeResult(head(item)).isDownloadable)
      && (link.Some? ==>
            && link.value.kind == LastSegment(ProbeResult(head(item)).fileType, '/')
            && link.value.fileName == Some(ProbeResult(head(item)).fileName))
    ensures (forall letters :: !IsInlineImage(item, letters)) && !Test(HttpToken, item) ==> link.None?
  {
    match InlineImageMime(item)
    case Some(mime) =>
      Some(FileLink(item, InlineImageType(mime), None))
    case None =>
      if Test(HttpToken, item) then
        var info := ProbeResult(head(item));
        if info.isDownloadable then
          Some(FileLink(item, LastSegment(info.fileType, '/'), if info.fileName != "" then Some(info.fileName) else None))
        else None
      else None
  }

  /** The links among a sequence of classification outcomes, in order. */
  function Kept(outcomes: seq<Option<FileLink>>): seq<FileLink>
  {
    if outcomes == [] then []
    else
      var rest := Kept(outcomes[..|outcomes| - 1]);
      match outcomes[|outcomes| - 1]
      case Some(link) => rest + [link]
      case None => rest
  }

  /** The positions of those links among the outcomes. */
  function KeptPositions(outcomes: seq<Option<FileLink>>): seq<nat>
  {
    if outcomes == [] then []
    else
      var rest := KeptPositions(outcomes[..|outcomes| - 1]);
      if outcomes[|outcomes| - 1].Some? then rest + [|outcomes| - 1] else rest
  }

  /**
   * The kept links are the outcomes that are links, in their order: at
   * strictly increasing positions, and no link left out.
   */
  lemma {:induction false} KeptInOrder(outcomes: seq<Option<FileLink>>)
    ensures var links, pos := Kept(outcomes), KeptPositions(outcomes);
      && |pos| == |links|
      && (forall j :: 0 <= j < |pos| ==> pos[j] < |outcomes| && outcomes[pos[j]] == Some(links[j]))
      && (forall j, j' :: 0 <= j < j' < |pos| ==> pos[j] < pos[j'])
      && (forall k :: 0 <= k < |outcomes| && outcomes[k].Some? ==> k in pos)
  {
    if outcomes != [] {
      var n := |outcomes| - 1;
      var init := outcomes[..n];
      KeptInOrder(init);
      assert forall k :: 0 <= k < n ==> init[k] == outcomes[k];
    }
  }

  /** A link is kept exactly when it is one of the outcomes. */
  lemma KeptMembership(outcomes: seq<Option<FileLink>>, link: FileLink)
    ensures link in Kept(outcomes) <==> exists k :: 0 <= k < |outcomes| && outcomes[k] == Some(link)
  {
    KeptInOrder(outcomes);
    var links, pos := Kept(outcomes), KeptPositions(outcomes);
    if link in links {
      var j :| 0 <= j < |links| && links[j] == link;
      assert outcomes[pos[j]] == Some(link);
    }
    if exists k :: 0 <= k < |outcomes| && outcomes[k] == Some(link) {
      var k :| 0 <= k < |outcomes| && outcomes[k] == Some(link);
      var j :| 0 <= j < |pos| && pos[j] == k;
      assert links[j] == link;
    }
  }

  /** What happens to each item, in order. */
  function Classified(items: seq<string>, head: string -> HeadOutcome): (outcomes: seq<Option<FileLink>>)
    ensures |outcomes| == |items|
    ensures forall k :: 0 <= k < |items| ==> outcomes[k] == ClassifyItem(items[k], head)
  {
    seq(|items|, k requires 0 <= k < |items| => ClassifyItem(items[k], head))
  }

  /** The links kept from a list of items, in order. */
  function FileLinksOf(items: seq<string>, head: string -> HeadOutcome): seq<FileLink>
  {
    Kept(Classified(items, head))
  }

  /** One more item adds its link, if it is kept, at the end. */
  lemma FileLinksOfStep(items: seq<string>, head: string -> HeadOutcome, k: nat)
    requires k < |items|
    ensures FileLinksOf(items[..k + 1], head) ==
      FileLinksOf(items[..k], head) + (match ClassifyItem(items[k], head) case Some(link) => [link] case None => [])
  {
    var outcomes := Classified(items[..k + 1], head);
    assert outcomes[..k] == Classified(items[..k], head);
  }

  /**
   * The links are the items ClassifyItem keeps, in their order: at strictly
   * increasing positions, and every item left out is one ClassifyItem drops.
   */
  lemma FileLinksAreKeptItemsInOrder(items: seq<string>, head: string -> HeadOutcome)
    ensures var links, pos := FileLinksOf(items, head), KeptPositions(Classified(items, head));
      && |pos| == |links|
      && (forall j :: 0 <= j < |pos| ==> pos[j] < |items| && ClassifyItem(items[pos[j]], head) == Some(links[j]))
      && (forall j, j' :: 0 <= j < j' < |pos| ==> pos[j] < pos[j'])
      && (forall k :: 0 <= k < |items| && ClassifyItem(items[k], head).Some? ==> k in pos)
  {
    KeptInOrder(Classified(items, head));
  }

  /** A link is in the reply exactly when some item is kept as that link. */
  lemma FileLinkMembership(items: seq<string>, head: string -> HeadOutcome, link: FileLink)
    ensures link in FileLinksOf(items, head) <==>
      exists k :: 0 <= k < |items| && ClassifyItem(items[k], head) == Some(link)
  {
    var outcomes := Classified(items, head);
    KeptMembership(outcomes, link);
    if exists k :: 0 <= k < |items| && ClassifyItem(items[k], head) == Some(link) {
      var k :| 0 <= k < |items| && ClassifyItem(items[k], head) == Some(link);
      assert outcomes[k] == Some(link);
    }
  }

  /**
   * `extractFileLinksFromText`: probe the items one at a time and push the
   * kept ones.  The probe never rejects, so the `catch` of the source has
   * nothing to do.
   */
  method ExtractFileLinksFromText(text: Option<string>, head: string -> HeadOutcome) returns (fileLinks: seq<FileLink>)
    ensures fileLinks == FileLinksOf(ExtractUrlsFromText(text), head)
  {
    var urlsAndBase64Strings := ExtractUrlsFromText(text);
    fileLinks := [];
    for k := 0 to |urlsAndBase64Strings|
      invariant fileLinks == FileLinksOf(urlsAndBase64Strings[..k], head)
    {
      var item := urlsAndBase64Strings[k];
      FileLinksOfStep(urlsAndBase64Strings, head, k);
      var linkInfo := FileLink(item, "unknown", None);
      match InlineImageMime(item)
      case Some(mime) =>
        linkInfo := linkInfo.(kind := InlineImageType(mime));
        fileLinks := fileLinks + [linkInfo];
      case None =>
        if Test(HttpToken, item) {
          var fileInfo := CheckIfDownloadable(item, head);
          if fileInfo.isDownloadable {
            linkInfo := linkInfo.(kind := LastSegment(fileInfo.fileType, '/'));
            if fileInfo.fileName != "" {
              linkInfo := linkInfo.(fileName := Some(fileInfo.fileName));
            }
            fileLinks := fileLinks + [linkInfo];
          }
        }
    }
    assert urlsAndBase64Strings[..|urlsAndBase64Strings|] == urlsAndBase64Strings;
  }

  /**
   * As the text scan is written, no item it yields is an inline image: every
   * item starts with `src="` or an http(s) scheme, never with `data:`.
   */
  lemma ExtractedItemsAreNotInlineImages(text: Option<string>)
    ensures forall item, letters :: item in ExtractUrlsFromText(text) ==> !IsInlineImage(item, letters)
  {
    ExtractedUrlsKeepTheirPrefix(text);
    forall item | item in ExtractUrlsFromText(text) ensures forall letters :: !IsInlineImage(item, letters) {
      PrefixedUrlIsNotInlineImage(item);
    }
  }

  /** A URL that starts with `src="` or a scheme does not start with `data:`. */
  lemma PrefixedUrlIsNotInlineImage(item: string)
    requires HasUrlPrefix(item)
    ensures forall letters :: !IsInlineImage(item, letters)
  {
    if HasAtIgnoringCase(item, 0, "src=\"") {
      HasAtIgnoringCaseFirst(item, 0, "src=\"");
    } else if HasAtIgnoringCase(item, 0, "http://") {
      HasAtIgnoringCaseFirst(item, 0, "http://");
    } else {
      HasAtIgnoringCaseFirst(item, 0, "https://");
    }
    forall letters ensures !IsInlineImage(item, letters) {
      var p := "data:image/" + letters + ";base64,";
      assert p[0] == 'd';
    }
  }

  /** So every link of the reply comes from the probe: its file name is always set. */
  lemma FileLinksAreProbed(text: Option<string>, head: string -> HeadOutcome)
    ensures forall link :: link in FileLinksOf(ExtractUrlsFromText(text), head) ==>
      && Test(HttpToken, link.url)
      && ProbeResult(head(link.url)).isDownloadable
      && link.fileName.Some?
  {
    var items := ExtractUrlsFromText(text);
    ExtractedItemsAreNotInlineImages(text);
    forall link | link in FileLinksOf(items, head)
      ensures Test(HttpToken, link.url) && ProbeResult(head(link.url)).isDownloadable && link.fileName.Some?
    {
      FileLinkMembership(items, head, link);
      var k :| 0 <= k < |items| && ClassifyItem(items[k], head) == Some(link);
      assert items[k] in items;
    }
  }
}
