/**
 * The three global regular expressions of the link scanners, as character
 * scanners.  For each pattern, MatchAt gives the end of the match a
 * backtracking JavaScript engine finds when it starts at a position (the
 * leftmost-first, greedy choice), and Scan strings matches together as
 * `String.prototype.match` does with the `g` flag: search from the last
 * index, take the leftmost match, continue after it.
 */
module Patterns {
  import opened Text

  /** A match: the text from `start` up to, and excluding, `end`. */
  datatype Span = Span(start: nat, end: nat)

  datatype Pattern =
    | SrcAttribute   // /src="([^"]+)"/gi  (app.js)
    | HttpToken      // /\bhttps?:\/\/\S+\b/gi  (app.js)
    | FileLinkToken  // /\bhttps?:\/\/\S+\.(pdf|zip|...|csv)\b/gi  (files.component.ts)

  /** There is a word character at position k (false outside the text). */
  predicate WordAt(s: string, k: int) { 0 <= k < |s| && IsWordChar(s[k]) }

  /** `\b`: position k lies between a word and a non-word character. */
  predicate Boundary(s: string, k: int) { WordAt(s, k - 1) != WordAt(s, k) }

  /** Where `https?:\/\/` (any letter case) ends when it starts at i; `s?` is tried first. */
  function SchemeEnd(s: string, i: nat): (p: Option<nat>)
    ensures p.Some? ==> p.value <= |s| && (p.value == i + 7 || p.value == i + 8)
  {
    if HasAtIgnoringCase(s, i, "https://") then Some(i + 8)
    else if HasAtIgnoringCase(s, i, "http://") then Some(i + 7)
    else None
  }

  /** A scheme starts with the letter h in either case, a word character. */
  lemma SchemeStartsWithWord(s: string, i: nat)
    requires SchemeEnd(s, i).Some?
    ensures i < |s| && Lower(s[i]) == 'h' && WordAt(s, i)
  {
    if HasAtIgnoringCase(s, i, "https://") {
      HasAtIgnoringCaseFirst(s, i, "https://");
    } else {
      HasAtIgnoringCaseFirst(s, i, "http://");
    }
    LowerOfWordChar(s[i]);
  }

  /** The end of the run of non-whitespace characters that starts at p. */
  function RunEnd(s: string, p: nat): (r: nat)
    requires p <= |s|
    ensures p <= r <= |s| && (r == |s| || IsSpace(s[r]))
    ensures forall k :: p <= k < r ==> !IsSpace(s[k])
    decreases |s| - p
  {
    if p == |s| || IsSpace(s[p]) then p else RunEnd(s, p + 1)
  }

  /** The first position at or after k holding a double quote, or |s|. */
  function NextQuote(s: string, k: nat): (q: nat)
    requires k <= |s|
    ensures k <= q <= |s| && (q == |s| || s[q] == '"')
    ensures forall j :: k <= j < q ==> s[j] != '"'
    decreases |s| - k
  {
    if k == |s| || s[k] == '"' then k else NextQuote(s, k + 1)
  }

  /** The last word character in [lo, hi), if any. */
  function LastWordIn(s: string, lo: nat, hi: nat): (w: Option<nat>)
    requires lo <= hi <= |s|
    ensures w.Some? ==> lo <= w.value < hi && IsWordChar(s[w.value])
    ensures w.Some? ==> forall k :: w.value < k < hi ==> !IsWordChar(s[k])
    ensures w.None? ==> forall k :: lo <= k < hi ==> !IsWordChar(s[k])
    decreases hi - lo
  {
    if lo == hi then None
    else if IsWordChar(s[hi - 1]) then Some(hi - 1)
    else LastWordIn(s, lo, hi - 1)
  }

  // ---------------------------------------------------------------- src="..."

  /** `src="([^"]+)"` at i: the match runs to the first quote after `src="`, which must not follow it at once. */
  function SrcMatchAt(s: string, i: nat): (e: Option<nat>)
    requires i <= |s|
    ensures e.Some? ==> i < e.value <= |s|
  {
    if HasAtIgnoringCase(s, i, "src=\"") then
      var q := NextQuote(s, i + 5);
      if i + 5 < q < |s| then Some(q + 1) else None
    else None
  }

  /** Reference: the text from i to e is `src="`, at least one non-quote, a quote. */
  ghost predicate IsSrcMatch(s: string, i: nat, e: nat)
  {
    && HasAtIgnoringCase(s, i, "src=\"")
    && i + 6 < e <= |s|
    && s[e - 1] == '"'
    && (forall k :: i + 5 <= k < e - 1 ==> s[k] != '"')
  }

  /** SrcMatchAt finds exactly the one way the pattern can match at i. */
  lemma SrcMatchAtIsTheMatch(s: string, i: nat, e: nat)
    requires i <= |s|
    ensures SrcMatchAt(s, i) == Some(e) <==> IsSrcMatch(s, i, e)
  {
    if IsSrcMatch(s, i, e) {
      var q := NextQuote(s, i + 5);
      assert q == e - 1;
    }
  }

  // ----------------------------------------------------------- http(s) tokens

  /**
   * `\bhttps?:\/\/\S+\b` at i.  `\S+` first takes the whole run of
   * non-whitespace and then gives characters back until a word boundary
   * follows; the last boundary in the run is right after its last word
   * character.
   */
  function HttpTokenAt(s: string, i: nat): (e: Option<nat>)
    requires i <= |s|
    ensures e.Some? ==> i < e.value <= |s|
  {
    if !Boundary(s, i) then None
    else match SchemeEnd(s, i)
      case None => None
      case Some(p) =>
        match LastWordIn(s, p, RunEnd(s, p))
        case None => None
        case Some(w) => Some(w + 1)
  }

  /** Reference: a boundary, the scheme, one or more non-whitespace characters, a boundary. */
  ghost predicate IsHttpTokenMatch(s: string, i: nat, e: nat)
  {
    && i <= |s| && Boundary(s, i)
    && SchemeEnd(s, i).Some?
    && SchemeEnd(s, i).value < e <= |s|
    && (forall k :: SchemeEnd(s, i).value <= k < e ==> !IsSpace(s[k]))
    && Boundary(s, e)
  }

  /** A word character in [lo, hi) is at or before the last one LastWordIn finds. */
  lemma LastWordInFinds(s: string, lo: nat, hi: nat, k: nat)
    requires lo <= k < hi <= |s| && IsWordChar(s[k])
    ensures LastWordIn(s, lo, hi).Some? && k <= LastWordIn(s, lo, hi).value
  {
  }

  /** Every way the pattern can match at i ends at or before the end HttpTokenAt returns. */
  lemma HttpMatchWithin(s: string, i: nat, e: nat)
    requires IsHttpTokenMatch(s, i, e)
    ensures HttpTokenAt(s, i).Some? && e <= HttpTokenAt(s, i).value
  {
    var p := SchemeEnd(s, i).value;
    var r := RunEnd(s, p);
    assert e <= r;
    if WordAt(s, e - 1) {
      LastWordInFinds(s, p, r, e - 1);
    } else {
      LastWordInFinds(s, p, r, e);
    }
  }

  /** The end HttpTokenAt returns is a way the pattern matches. */
  lemma HttpTokenAtMatches(s: string, i: nat)
    requires i <= |s| && HttpTokenAt(s, i).Some?
    ensures IsHttpTokenMatch(s, i, HttpTokenAt(s, i).value)
  {
    var p := SchemeEnd(s, i).value;
    var w := LastWordIn(s, p, RunEnd(s, p)).value;
    assert !WordAt(s, w + 1);
  }

  /** HttpTokenAt picks the longest of all the ways the pattern matches at i (greedy `\S+`), and finds one whenever there is one. */
  lemma HttpTokenAtIsGreedy(s: string, i: nat)
    requires i <= |s|
    ensures HttpTokenAt(s, i).Some? ==>
      && IsHttpTokenMatch(s, i, HttpTokenAt(s, i).value)
      && forall e: nat :: IsHttpTokenMatch(s, i, e) ==> e <= HttpTokenAt(s, i).value
    ensures HttpTokenAt(s, i).None? ==> forall e: nat :: !IsHttpTokenMatch(s, i, e)
  {
    forall e: nat | IsHttpTokenMatch(s, i, e)
      ensures HttpTokenAt(s, i).Some? && e <= HttpTokenAt(s, i).value
    {
      HttpMatchWithin(s, i, e);
    }
    if HttpTokenAt(s, i).Some? {
      HttpTokenAtMatches(s, i);
    }
  }

  // ----------------------------------------------------- file-link tokens

  /** The alternatives of the extension group, in the order the engine tries them. */
  const FileExtensions: seq<string> :=
    ["pdf", "zip", "tar", "gz", "docx", "xlsx", "pptx", "mp3", "mp4", "jpg", "jpeg", "png", "gif", "csv"]

  /** `(ext1|ext2|...)\b` at k: the end of the first alternative that matches and is followed by a boundary. */
  function ExtensionEnd(s: string, k: nat, exts: seq<string>): (e: Option<nat>)
    ensures e.Some? ==> k <= e.value <= |s|
    ensures e.Some? ==> exists x :: x in exts && HasAtIgnoringCase(s, k, x) && e.value == k + |x| && Boundary(s, e.value)
    ensures e.None? ==> forall x :: x in exts && HasAtIgnoringCase(s, k, x) ==> !Boundary(s, k + |x|)
    decreases |exts|
  {
    if exts == [] then None
    else if HasAtIgnoringCase(s, k, exts[0]) && Boundary(s, k + |exts[0]|) then Some(k + |exts[0]|)
    else
      var e := ExtensionEnd(s, k, exts[1..]);
      assert forall x :: x in exts ==> x == exts[0] || x in exts[1..];
      e
  }

  /** `\.(ext1|ext2|...)\b` at q. */
  function DotExtensionEnd(s: string, q: nat, exts: seq<string>): (e: Option<nat>)
    ensures e.Some? ==> q < |s| && s[q] == '.' && q < e.value <= |s|
  {
    if q < |s| && s[q] == '.' then ExtensionEnd(s, q + 1, exts) else None
  }

  /** The last position in [lo, hi) where a dot and an extension match. */
  function LastDotExtension(s: string, lo: nat, hi: nat, exts: seq<string>): (q: Option<nat>)
    requires lo <= hi
    ensures q.Some? ==> lo <= q.value < hi && DotExtensionEnd(s, q.value, exts).Some?
    ensures q.Some? ==> forall k :: q.value < k < hi ==> DotExtensionEnd(s, k, exts).None?
    ensures q.None? ==> forall k :: lo <= k < hi ==> DotExtensionEnd(s, k, exts).None?
    decreases hi - lo
  {
    if lo == hi then None
    else if DotExtensionEnd(s, hi - 1, exts).Some? then Some(hi - 1)
    else LastDotExtension(s, lo, hi - 1, exts)
  }

  /**
   * `\bhttps?:\/\/\S+\.(ext1|ext2|...)\b` at i.  `\S+` gives characters back
   * from the end of the whitespace-free run until a dot, an extension and a
   * boundary follow, so the match ends at the last such extension in the run.
   */
  function ExtensionTokenAt(s: string, i: nat, exts: seq<string>): (e: Option<nat>)
    requires i <= |s|
    ensures e.Some? ==> i < e.value <= |s|
  {
    if !Boundary(s, i) then None
    else match SchemeEnd(s, i)
      case None => None
      case Some(p) =>
        var r := RunEnd(s, p);
        if p + 1 > r then None
        else match LastDotExtension(s, p + 1, r, exts)
          case None => None
          case Some(q) => DotExtensionEnd(s, q, exts)
  }

  /** Reference: the regex matches from i to e with `\S+` ending at the dot at q. */
  ghost predicate IsExtensionTokenMatch(s: string, i: nat, q: nat, e: nat, exts: seq<string>)
  {
    && i <= |s| && Boundary(s, i)
    && SchemeEnd(s, i).Some?
    && SchemeEnd(s, i).value < q < |s|
    && (forall k :: SchemeEnd(s, i).value <= k < q ==> !IsSpace(s[k]))
    && s[q] == '.'
    && (exists x :: x in exts && HasAtIgnoringCase(s, q + 1, x) && e == q + 1 + |x| && Boundary(s, e))
  }

  /** The dot of the match ExtensionTokenAt returns at i, when there is one. */
  function ExtensionTokenDot(s: string, i: nat, exts: seq<string>): Option<nat>
    requires i <= |s|
  {
    if !Boundary(s, i) then None
    else match SchemeEnd(s, i)
      case None => None
      case Some(p) =>
        var r := RunEnd(s, p);
        if p + 1 > r then None else LastDotExtension(s, p + 1, r, exts)
  }

  /** A run of non-whitespace that reaches a dot extends past it. */
  lemma RunPassesDot(s: string, p: nat, q: nat)
    requires p <= q < |s| && s[q] == '.'
    requires forall k :: p <= k < q ==> !IsSpace(s[k])
    ensures q < RunEnd(s, p)
  {
    assert !IsSpace(s[q]);
  }

  /** A dot followed by an extension and a boundary is found by DotExtensionEnd. */
  lemma DotExtensionFound(s: string, q: nat, e: nat, exts: seq<string>)
    requires q < |s| && s[q] == '.'
    requires exists x :: x in exts && HasAtIgnoringCase(s, q + 1, x) && e == q + 1 + |x| && Boundary(s, e)
    ensures DotExtensionEnd(s, q, exts).Some?
  {
    var x :| x in exts && HasAtIgnoringCase(s, q + 1, x) && e == q + 1 + |x| && Boundary(s, e);
    assert ExtensionEnd(s, q + 1, exts).Some?;
  }

  /** Every way the pattern can match at i has its dot at or before the one ExtensionTokenAt chose. */
  lemma ExtensionTokenDotIsLast(s: string, i: nat, q: nat, e: nat, exts: seq<string>)
    requires IsExtensionTokenMatch(s, i, q, e, exts)
    ensures ExtensionTokenDot(s, i, exts).Some? && q <= ExtensionTokenDot(s, i, exts).value
  {
    var p := SchemeEnd(s, i).value;
    RunPassesDot(s, p, q);
    DotExtensionFound(s, q, e, exts);
  }

  /** ExtensionTokenAt finds a match whenever the pattern can match at i, and it is the one whose dot lies furthest right. */
  lemma ExtensionTokenAtIsGreedy(s: string, i: nat, exts: seq<string>)
    requires i <= |s|
    ensures ExtensionTokenAt(s, i, exts).Some? <==> ExtensionTokenDot(s, i, exts).Some?
    ensures ExtensionTokenAt(s, i, exts).Some? ==>
      IsExtensionTokenMatch(s, i, ExtensionTokenDot(s, i, exts).value, ExtensionTokenAt(s, i, exts).value, exts)
    ensures forall q: nat, e: nat :: IsExtensionTokenMatch(s, i, q, e, exts) ==>
      ExtensionTokenDot(s, i, exts).Some? && q <= ExtensionTokenDot(s, i, exts).value
  {
    forall q: nat, e: nat | IsExtensionTokenMatch(s, i, q, e, exts)
      ensures ExtensionTokenDot(s, i, exts).Some? && q <= ExtensionTokenDot(s, i, exts).value
    {
      ExtensionTokenDotIsLast(s, i, q, e, exts);
    }
  }

  // ------------------------------------------------------ global matching

  /** One pattern at one position. */
  function MatchAt(pat: Pattern, s: string, i: nat): (e: Option<nat>)
    requires i <= |s|
    ensures e.Some? ==> i < e.value <= |s|
  {
    match pat
    case SrcAttribute => SrcMatchAt(s, i)
    case HttpToken => HttpTokenAt(s, i)
    case FileLinkToken => ExtensionTokenAt(s, i, FileExtensions)
  }

  /** Every match recorded in the table ends after its start and within the text. */
  predicate EndsAhead(ms: seq<Option<nat>>)
  {
    forall k :: 0 <= k < |ms| && ms[k].Some? ==> k < ms[k].value <= |ms|
  }

  /** What the pattern gives at each position of the text. */
  function MatchTable(pat: Pattern, s: string): (ms: seq<Option<nat>>)
    ensures |ms| == |s| && EndsAhead(ms)
    ensures forall k :: 0 <= k < |s| ==> ms[k] == MatchAt(pat, s, k)
  {
    seq(|s|, k requires 0 <= k < |s| => MatchAt(pat, s, k))
  }

  /** The global search over a table of match results, from position `from` on. */
  function ScanTable(ms: seq<Option<nat>>, from: nat): (spans: seq<Span>)
    requires from <= |ms| && EndsAhead(ms)
    ensures forall k :: 0 <= k < |spans| ==>
      from <= spans[k].start < |ms| && ms[spans[k].start] == Some(spans[k].end)
    ensures forall k :: 0 < k < |spans| ==> spans[k - 1].end <= spans[k].start
    decreases |ms| - from
  {
    if from == |ms| then []
    else match ms[from]
      case Some(e) => [Span(from, e)] + ScanTable(ms, e)
      case None => ScanTable(ms, from + 1)
  }

  /** The matches of a global pattern from position `from` on, left to right, none overlapping. */
  function Scan(pat: Pattern, s: string, from: nat): (spans: seq<Span>)
    requires from <= |s|
    ensures forall k :: 0 <= k < |spans| ==>
      from <= spans[k].start < |s| && MatchAt(pat, s, spans[k].start) == Some(spans[k].end)
    ensures forall k :: 0 < k < |spans| ==> spans[k - 1].end <= spans[k].start
  {
    ScanTable(MatchTable(pat, s), from)
  }

  /** Position i lies inside one of the spans. */
  ghost predicate Covers(spans: seq<Span>, i: nat)
  {
    exists k :: 0 <= k < |spans| && spans[k].start <= i < spans[k].end
  }

  /** The search over a table skips no position where a match is recorded. */
  lemma {:induction false} ScanTableMissesNothing(ms: seq<Option<nat>>, from: nat, i: nat)
    requires EndsAhead(ms) && from <= i < |ms| && ms[i].Some?
    ensures Covers(ScanTable(ms, from), i)
    decreases |ms| - from
  {
    var spans := ScanTable(ms, from);
    match ms[from]
    case Some(e) =>
      if i < e {
        assert spans[0] == Span(from, e);
      } else {
        ScanTableMissesNothing(ms, e, i);
        var rest := ScanTable(ms, e);
        var k :| 0 <= k < |rest| && rest[k].start <= i < rest[k].end;
        assert spans[k + 1] == rest[k];
      }
    case None =>
      ScanTableMissesNothing(ms, from + 1, i);
  }

  /** No match is skipped: every position where the pattern matches lies inside one of the scanned matches. */
  lemma ScanMissesNothing(pat: Pattern, s: string, from: nat, i: nat)
    requires from <= i < |s| && MatchAt(pat, s, i).Some?
    ensures Covers(Scan(pat, s, from), i)
  {
    ScanTableMissesNothing(MatchTable(pat, s), from, i);
  }

  /** `text.match(regex)` with the `g` flag, `null` read as no matches. */
  function Matches(pat: Pattern, s: string): (tokens: seq<string>)
    ensures |tokens| == |Scan(pat, s, 0)|
    ensures forall k :: 0 <= k < |tokens| ==>
      tokens[k] == s[Scan(pat, s, 0)[k].start..Scan(pat, s, 0)[k].end]
  {
    var spans := Scan(pat, s, 0);
    seq(|spans|, k requires 0 <= k < |spans| => s[spans[k].start..spans[k].end])
  }

  /** `regex.test(text)`: the pattern matches somewhere. */
  predicate Test(pat: Pattern, s: string)
  {
    Scan(pat, s, 0) != []
  }

  /** A match anywhere makes the scan non-empty. */
  lemma MatchMeansTest(pat: Pattern, s: string, i: nat)
    requires i < |s| && MatchAt(pat, s, i).Some?
    ensures Test(pat, s)
  {
    ScanMissesNothing(pat, s, 0, i);
  }

  /** The first span of a non-empty scan starts at a match. */
  lemma TestMeansMatch(pat: Pattern, s: string)
    requires Test(pat, s)
    ensures Scan(pat, s, 0)[0].start < |s| && MatchAt(pat, s, Scan(pat, s, 0)[0].start).Some?
  {
  }

  /** Test holds exactly when the pattern matches at some position. */
  lemma TestMeansSomeMatch(pat: Pattern, s: string)
    ensures Test(pat, s) <==> exists i :: 0 <= i < |s| && MatchAt(pat, s, i).Some?
  {
    if exists i :: 0 <= i < |s| && MatchAt(pat, s, i).Some? {
      var i :| 0 <= i < |s| && MatchAt(pat, s, i).Some?;
      MatchMeansTest(pat, s, i);
    }
    if Test(pat, s) {
      TestMeansMatch(pat, s);
    }
  }
}
