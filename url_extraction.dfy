/**
 * URL extraction in the Electron main process (app.js): `cleanUrl`, which
 * cuts a URL before its query or first parameter, `extractUrlsFromHtml`,
 * which collects `src="..."` attributes and bare http(s) tokens, and
 * `extractUrlsFromText`, which cleans every one of them.
 */
module UrlExtraction {
  import opened Text
  import opened Patterns

  /** The URL up to, and excluding, its first '?' or '&'. */
  function Cleaned(u: string): (r: string)
    ensures |r| <= |u| && r == u[..|r|]
    ensures '?' !in r && '&' !in r
    ensures |r| == |u| || u[|r|] == '?' || u[|r|] == '&'
  {
    if u == [] || u[0] == '?' || u[0] == '&' then []
    else [u[0]] + Cleaned(u[1..])
  }

  /** Any cut point free of '?' and '&' before it and standing on one of them (or at the end) is the one Cleaned picks. */
  lemma CleanedAt(u: string, k: nat)
    requires k <= |u| && '?' !in u[..k] && '&' !in u[..k]
    requires k == |u| || u[k] == '?' || u[k] == '&'
    ensures Cleaned(u) == u[..k]
  {
    var r := Cleaned(u);
    assert forall j :: 0 <= j < k ==> u[..k][j] == u[j];
    assert forall j :: 0 <= j < |r| ==> r[j] == u[j];
  }

  /**
   * `cleanUrl`: the positions of the first '?' and of the first '&', the
   * smaller of those that exist, and the text before it.
   */
  method CleanUrl(url: string) returns (r: string)
    ensures r == Cleaned(url)
  {
    var indexOfQueryStart := IndexOf(url, '?');
    var indexOfAmpStart := IndexOf(url, '&');
    var trimIndex := -1;
    if indexOfQueryStart > -1 && indexOfAmpStart > -1 {
      trimIndex := if indexOfQueryStart < indexOfAmpStart then indexOfQueryStart else indexOfAmpStart;
    } else if indexOfQueryStart > -1 {
      trimIndex := indexOfQueryStart;
    } else if indexOfAmpStart > -1 {
      trimIndex := indexOfAmpStart;
    }
    if trimIndex > -1 {
      CleanedAt(url, trimIndex);
      return url[..trimIndex];
    }
    CleanedAt(url, |url|);
    return url;
  }

  /** A URL with neither '?' nor '&' comes back unchanged, and only such a URL does. */
  lemma CleanedIsIdentityExactly(u: string)
    ensures Cleaned(u) == u <==> ('?' !in u && '&' !in u)
  {
    if '?' !in u && '&' !in u {
      CleanedAt(u, |u|);
    }
  }

  /** Cleaning twice is cleaning once. */
  lemma CleanedIdempotent(u: string)
    ensures Cleaned(Cleaned(u)) == Cleaned(u)
  {
    CleanedIsIdentityExactly(Cleaned(u));
  }

  // ------------------------------------------------------ token shapes

  /** A `src="..."` match: the attribute name in any case, a quote, at least one non-quote, a quote. */
  predicate IsSrcToken(t: string)
  {
    && |t| >= 7
    && HasAtIgnoringCase(t, 0, "src=\"")
    && t[|t| - 1] == '"'
    && forall k :: 5 <= k < |t| - 1 ==> t[k] != '"'
  }

  /** An http(s) token: the scheme in any case, then at least one non-whitespace character, the last a word character. */
  predicate IsHttpToken(t: string)
  {
    && SchemeEnd(t, 0).Some?
    && SchemeEnd(t, 0).value < |t|
    && (forall k :: SchemeEnd(t, 0).value <= k < |t| ==> !IsSpace(t[k]))
    && IsWordChar(t[|t| - 1])
  }

  /** A case-insensitive comparison at i only looks at the text up to e. */
  lemma HasAtIgnoringCaseSlice(s: string, i: nat, e: nat, x: string)
    requires i <= e <= |s|
    ensures HasAtIgnoringCase(s[i..e], 0, x) <==> (i + |x| <= e && HasAtIgnoringCase(s, i, x))
  {
    if i + |x| <= e {
      assert forall j :: 0 <= j < |x| ==> s[i..e][j] == s[i + j];
    }
  }

  /** The scheme seen inside a token is the scheme seen in the text. */
  lemma SchemeEndSlice(s: string, i: nat, e: nat)
    requires i <= e <= |s| && SchemeEnd(s, i).Some? && SchemeEnd(s, i).value <= e
    ensures SchemeEnd(s[i..e], 0) == Some(SchemeEnd(s, i).value - i)
  {
    HasAtIgnoringCaseSlice(s, i, e, "https://");
    HasAtIgnoringCaseSlice(s, i, e, "http://");
  }

  /** Every match of `src="([^"]+)"` has the shape of a src token. */
  lemma SrcMatchShape(s: string, i: nat, e: nat)
    requires i <= |s| && SrcMatchAt(s, i) == Some(e)
    ensures IsSrcToken(s[i..e])
  {
    SrcMatchAtIsTheMatch(s, i, e);
    HasAtIgnoringCaseSlice(s, i, e, "src=\"");
  }

  /**
   * Every match of `\bhttps?:\/\/\S+\b` has the shape of an http token and
   * stands at the start of the text or after a non-word character.
   */
  lemma HttpMatchShape(s: string, i: nat, e: nat)
    requires i <= |s| && HttpTokenAt(s, i) == Some(e)
    ensures IsHttpToken(s[i..e])
    ensures i == 0 || !IsWordChar(s[i - 1])
  {
    HttpTokenAtIsGreedy(s, i);
    SchemeEndSlice(s, i, e);
    assert WordAt(s, e - 1);
    // A scheme starts with a letter, so the boundary lies before it.
    SchemeStartsWithWord(s, i);
  }

  // ------------------------------------------------------ extraction

  /** `html?.match(regex) || []`: undefined input has no matches. */
  function MatchesOf(pat: Pattern, html: Option<string>): seq<string>
  {
    if html.None? then [] else Matches(pat, html.value)
  }

  /**
   * `extractUrlsFromHtml`: the whole `src="..."` matches, then the http(s)
   * tokens, each list left to right.
   */
  function ExtractUrlsFromHtml(html: Option<string>): (urls: seq<string>)
    ensures |urls| == |MatchesOf(SrcAttribute, html)| + |MatchesOf(HttpToken, html)|
    ensures forall k :: 0 <= k < |MatchesOf(SrcAttribute, html)| ==> IsSrcToken(urls[k])
    ensures forall k :: |MatchesOf(SrcAttribute, html)| <= k < |urls| ==> IsHttpToken(urls[k])
    ensures !Truthy(html) ==> urls == []
  {
    var src := MatchesOf(SrcAttribute, html);
    var norm := MatchesOf(HttpToken, html);
    forall k | 0 <= k < |src| ensures IsSrcToken(src[k]) {
      var sp := Scan(SrcAttribute, html.value, 0)[k];
      SrcMatchShape(html.value, sp.start, sp.end);
    }
    forall k | 0 <= k < |norm| ensures IsHttpToken(norm[k]) {
      var sp := Scan(HttpToken, html.value, 0)[k];
      HttpMatchShape(html.value, sp.start, sp.end);
    }
    src + norm
  }

  /** `extractUrlsFromText`: every extracted URL passed through cleanUrl. */
  function ExtractUrlsFromText(text: Option<string>): (urls: seq<string>)
    ensures |urls| == |ExtractUrlsFromHtml(text)|
    ensures forall k :: 0 <= k < |urls| ==>
      var raw := ExtractUrlsFromHtml(text)[k];
      && |urls[k]| <= |raw| && urls[k] == raw[..|urls[k]|]
      && '?' !in urls[k] && '&' !in urls[k]
      && (|urls[k]| == |raw| || raw[|urls[k]|] == '?' || raw[|urls[k]|] == '&')
    ensures !Truthy(text) ==> urls == []
  {
    var raw := ExtractUrlsFromHtml(text);
    seq(|raw|, k requires 0 <= k < |raw| => Cleaned(raw[k]))
  }

  /** A prefix without '?' or '&' survives cleaning, in any letter case. */
  lemma CleanedKeepsPrefix(u: string, x: string)
    requires HasAtIgnoringCase(u, 0, x) && '?' !in x && '&' !in x
    ensures HasAtIgnoringCase(Cleaned(u), 0, x)
  {
    var r := Cleaned(u);
    forall j | 0 <= j < |x| ensures u[j] != '?' && u[j] != '&' {
      assert x[j] in x;
    }
    HasAtIgnoringCaseSlice(u, 0, |r|, x);
    assert u[0..|r|] == r;
  }

  /** The prefix that marks a URL as found: `src="` or an http(s) scheme, in any letter case. */
  predicate HasUrlPrefix(u: string)
  {
    HasAtIgnoringCase(u, 0, "src=\"") || HasAtIgnoringCase(u, 0, "http://") || HasAtIgnoringCase(u, 0, "https://")
  }

  /** Cleaning a src or http token never cuts into its prefix. */
  lemma CleanedTokenKeepsPrefix(t: string)
    requires IsSrcToken(t) || IsHttpToken(t)
    ensures HasUrlPrefix(Cleaned(t))
  {
    if IsSrcToken(t) {
      CleanedKeepsPrefix(t, "src=\"");
    } else if HasAtIgnoringCase(t, 0, "https://") {
      CleanedKeepsPrefix(t, "https://");
    } else {
      CleanedKeepsPrefix(t, "http://");
    }
  }

  /**
   * Every URL extractUrlsFromText returns still begins with `src="` or with
   * an http(s) scheme (in any letter case).
   */
  lemma ExtractedUrlsKeepTheirPrefix(text: Option<string>)
    ensures forall u :: u in ExtractUrlsFromText(text) ==> HasUrlPrefix(u)
  {
    var raw := ExtractUrlsFromHtml(text);
    var urls := ExtractUrlsFromText(text);
    forall k | 0 <= k < |urls| ensures HasUrlPrefix(urls[k]) {
      assert urls[k] == Cleaned(raw[k]);
      CleanedTokenKeepsPrefix(raw[k]);
    }
  }
}
