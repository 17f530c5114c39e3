/**
 * `extractFileLinksFromText` of the files page
 * (src/app/components/files/files.component.ts): the links to files of the
 * known types found in clipboard text, as the global match of
 * `\bhttps?:\/\/\S+\.(pdf|zip|...|csv)\b` with the `i` flag.
 */
module ClipboardLinks {
  import opened Text
  import opened Patterns
  import opened UrlExtraction

  /** The token ends with a dot and the extension `x`, letter case ignored. */
  predicate EndsWithDotExtension(t: string, x: string)
  {
    |x| + 1 <= |t| && t[|t| - |x| - 1] == '.' && HasAtIgnoringCase(t, |t| - |x|, x)
  }

  /**
   * The shape of a link to a file with one of the extensions `exts`: an
   * http(s) scheme, at least one more character before the dot, no
   * whitespace after the scheme, and the extension at the end.
   */
  predicate IsFileLinkToken(t: string, exts: seq<string>)
  {
    && SchemeEnd(t, 0).Some?
    && (forall k :: SchemeEnd(t, 0).value <= k < |t| ==> !IsSpace(t[k]))
    && exists x :: x in exts && EndsWithDotExtension(t, x) && SchemeEnd(t, 0).value < |t| - |x| - 1
  }

  /** A non-empty run of word characters. */
  predicate IsWord(x: string)
  {
    |x| >= 1 && forall k :: 0 <= k < |x| ==> IsWordChar(x[k])
  }

  /** Every alternative of the extension group is a word. */
  lemma FileExtensionsAreWords()
    ensures forall x :: x in FileExtensions ==> IsWord(x)
  {
  }

  /** Comparing inside a slice is comparing in the text at the shifted position. */
  lemma HasAtIgnoringCaseShift(s: string, i: nat, e: nat, j: nat, x: string)
    requires i <= e <= |s| && i + j + |x| <= e
    ensures HasAtIgnoringCase(s[i..e], j, x) <==> HasAtIgnoringCase(s, i + j, x)
  {
    var t := s[i..e];
    assert forall k :: j <= k < j + |x| ==> t[k] == s[i + k];
  }

  /** The last characters of a match are the extension the regex saw. */
  lemma ExtensionAtEnd(s: string, i: nat, q: nat, e: nat, x: string)
    requires i <= q && q < |s| && s[q] == '.' && e == q + 1 + |x| && e <= |s|
    requires HasAtIgnoringCase(s, q + 1, x)
    ensures EndsWithDotExtension(s[i..e], x)
  {
    var t := s[i..e];
    HasAtIgnoringCaseShift(s, i, e, q + 1 - i, x);
    assert t[q - i] == s[q];
  }

  /** The characters the extension matched are word characters, whatever their case. */
  lemma ExtensionIsWord(s: string, q: nat, x: string)
    requires IsWord(x) && HasAtIgnoringCase(s, q + 1, x)
    ensures forall j :: q + 1 <= j < q + 1 + |x| ==> WordAt(s, j)
  {
    forall j | q + 1 <= j < q + 1 + |x| ensures WordAt(s, j) {
      assert Lower(s[j]) == Lower(x[j - (q + 1)]);
      LowerOfWordChar(s[j]);
    }
  }

  /** The text of a match, with its dot at q, has the shape of a file link. */
  lemma MatchIsFileLink(s: string, i: nat, q: nat, e: nat, exts: seq<string>)
    requires forall x :: x in exts ==> IsWord(x)
    requires IsExtensionTokenMatch(s, i, q, e, exts)
    ensures IsFileLinkToken(s[i..e], exts)
    ensures WordAt(s, e - 1)
  {
    var x := ExtensionOfMatch(s, i, q, e, exts);
    var p := SchemeEnd(s, i).value;
    ExtensionIsWord(s, q, x);
    NoSpaceInMatch(s, p, q, e, x);
    MatchWithExtensionIsFileLink(s, i, p, q, e, x, exts);
  }

  /** The alternative of the extension group a match ended with. */
  lemma ExtensionOfMatch(s: string, i: nat, q: nat, e: nat, exts: seq<string>) returns (x: string)
    requires IsExtensionTokenMatch(s, i, q, e, exts)
    ensures x in exts && HasAtIgnoringCase(s, q + 1, x) && e == q + 1 + |x|
  {
    x :| x in exts && HasAtIgnoringCase(s, q + 1, x) && e == q + 1 + |x| && Boundary(s, e);
  }

  /** No whitespace from the end of the scheme to the end of the match. */
  lemma NoSpaceInMatch(s: string, p: nat, q: nat, e: nat, x: string)
    requires p <= q < e <= |s| && s[q] == '.' && e == q + 1 + |x|
    requires forall k :: p <= k < q ==> !IsSpace(s[k])
    requires forall j :: q + 1 <= j < q + 1 + |x| ==> WordAt(s, j)
    ensures forall k :: p <= k < e ==> !IsSpace(s[k])
  {
    forall k | p <= k < e ensures !IsSpace(s[k]) {
      if k > q {
        assert WordAt(s, k);
      }
    }
  }

  /** The same, on the text of the match, once the extension is known. */
  lemma MatchWithExtensionIsFileLink(s: string, i: nat, p: nat, q: nat, e: nat, x: string, exts: seq<string>)
    requires i <= |s| && SchemeEnd(s, i) == Some(p)
    requires p < q < e <= |s| && s[q] == '.' && e == q + 1 + |x|
    requires forall k :: p <= k < e ==> !IsSpace(s[k])
    requires x in exts && HasAtIgnoringCase(s, q + 1, x)
    ensures IsFileLinkToken(s[i..e], exts)
  {
    var t := s[i..e];
    SchemeEndSlice(s, i, e);
    ExtensionAtEnd(s, i, q, e, x);
    assert forall k :: p - i <= k < |t| ==> t[k] == s[i + k];
    assert x in exts && EndsWithDotExtension(t, x) && SchemeEnd(t, 0).value < |t| - |x| - 1;
  }

  /**
   * Every match has the shape of a file link, and stands between non-word
   * characters (or the ends of the text), as the two `\b` demand.
   */
  lemma FileLinkMatchShape(s: string, i: nat, e: nat, exts: seq<string>)
    requires forall x :: x in exts ==> IsWord(x)
    requires i <= |s| && ExtensionTokenAt(s, i, exts) == Some(e)
    ensures IsFileLinkToken(s[i..e], exts)
    ensures i == 0 || !IsWordChar(s[i - 1])
    ensures e == |s| || !IsWordChar(s[e])
  {
    ExtensionTokenAtIsGreedy(s, i, exts);
    var q := ExtensionTokenDot(s, i, exts).value;
    MatchIsFileLink(s, i, q, e, exts);
    SchemeStartsWithWord(s, i);
  }

  /**
   * `text.match(regex) || []`: the matches left to right; the list is empty
   * exactly when the pattern matches nowhere in the text.
   */
  function ExtractFileLinksFromText(text: string): (links: seq<string>)
    ensures links == [] <==> forall i :: 0 <= i < |text| ==> MatchAt(FileLinkToken, text, i).None?
  {
    TestMeansSomeMatch(FileLinkToken, text);
    Matches(FileLinkToken, text)
  }

  /** Every link returned has the shape of a file link. */
  lemma ClipboardLinksAreFileLinks(text: string)
    ensures forall t :: t in ExtractFileLinksFromText(text) ==> IsFileLinkToken(t, FileExtensions)
  {
    var spans := Scan(FileLinkToken, text, 0);
    var links := ExtractFileLinksFromText(text);
    FileExtensionsAreWords();
    forall t | t in links ensures IsFileLinkToken(t, FileExtensions) {
      var k :| 0 <= k < |links| && links[k] == t;
      FileLinkMatchShape(text, spans[k].start, spans[k].end, FileExtensions);
    }
  }
}
