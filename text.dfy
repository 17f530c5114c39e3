/**
 * Characters, strings and the few JavaScript string operations the link and
 * download logic relies on (`startsWith`, `includes`, `indexOf`, `split`,
 * number-to-string).  Strings are sequences of characters; the regular
 * expressions of the source are compiled without the `u` flag, so their
 * character classes are the ASCII ones defined here.
 */
module Text {

  datatype Option<+T> = None | Some(value: T)

  predicate IsAsciiLetter(c: char) { 'a' <= c <= 'z' || 'A' <= c <= 'Z' }

  predicate IsDigit(c: char) { '0' <= c <= '9' }

  /** `\w`: ASCII letters, digits and the underscore. */
  predicate IsWordChar(c: char) { IsAsciiLetter(c) || IsDigit(c) || c == '_' }

  /** `\s`: the WhiteSpace and LineTerminator code points of ECMAScript. */
  predicate IsSpace(c: char)
  {
    || c == '\t' || c == '\U{000B}' || c == '\U{000C}' || c == ' ' || c == '\U{00A0}'
    || c == '\U{1680}' || ('\U{2000}' <= c <= '\U{200A}') || c == '\U{202F}'
    || c == '\U{205F}' || c == '\U{3000}' || c == '\U{FEFF}'
    || IsLineTerminator(c)
  }

  /** The characters that `.` does not match. */
  predicate IsLineTerminator(c: char)
  {
    c == '\n' || c == '\r' || c == '\U{2028}' || c == '\U{2029}'
  }

  /**
   * Case folding under the `i` flag.  Only ASCII letters fold: without the
   * `u` flag a non-ASCII character never folds onto an ASCII one.
   */
  function Lower(c: char): char
  {
    if 'A' <= c <= 'Z' then (c as int + 32) as char else c
  }

  function LowerAll(s: string): (r: string)
    ensures |r| == |s|
    ensures forall k :: 0 <= k < |s| ==> r[k] == Lower(s[k])
  {
    if s == [] then [] else [Lower(s[0])] + LowerAll(s[1..])
  }

  lemma LowerOfWordChar(c: char)
    ensures IsWordChar(Lower(c)) ==> IsWordChar(c)
    ensures IsSpace(c) ==> Lower(c) == c
  {
  }

  /** `pat` occurs in `s` at position `i`. */
  predicate HasAt(s: string, i: nat, pat: string)
  {
    i + |pat| <= |s| && s[i..i + |pat|] == pat
  }

  /** `pat` occurs in `s` at position `i`, letter case ignored (the `i` flag). */
  predicate HasAtIgnoringCase(s: string, i: nat, pat: string)
  {
    i + |pat| <= |s| && forall j :: 0 <= j < |pat| ==> Lower(s[i + j]) == Lower(pat[j])
  }

  /** The first character of an occurrence matches the first of the pattern. */
  lemma HasAtIgnoringCaseFirst(s: string, i: nat, pat: string)
    requires HasAtIgnoringCase(s, i, pat) && pat != []
    ensures i < |s| && Lower(s[i]) == Lower(pat[0])
  {
    assert Lower(s[i + 0]) == Lower(pat[0]);
  }

  /** An exact occurrence is also one with letter case ignored. */
  lemma HasAtIgnoresCase(s: string, i: nat, pat: string)
    requires HasAt(s, i, pat)
    ensures HasAtIgnoringCase(s, i, pat)
  {
    var t := s[i..i + |pat|];
    assert forall j :: 0 <= j < |pat| ==> t[j] == s[i + j];
  }

  /** `String.prototype.startsWith`. */
  predicate StartsWith(s: string, prefix: string) { HasAt(s, 0, prefix) }

  /** `String.prototype.includes`. */
  predicate Contains(s: string, sub: string)
    decreases |s|
  {
    StartsWith(s, sub) || (s != [] && Contains(s[1..], sub))
  }

  /** JavaScript truthiness of a possibly undefined string: defined and non-empty. */
  predicate Truthy(o: Option<string>) { o.Some? && o.value != "" }

  /** The number of consecutive ASCII letters of `s` from position `k`. */
  function LetterRun(s: string, k: nat): (n: nat)
    requires k <= |s|
    ensures k + n <= |s|
    ensures forall j :: k <= j < k + n ==> IsAsciiLetter(s[j])
    ensures k + n == |s| || !IsAsciiLetter(s[k + n])
    decreases |s| - k
  {
    if k == |s| || !IsAsciiLetter(s[k]) then 0 else 1 + LetterRun(s, k + 1)
  }

  /** `String.prototype.indexOf` for one character: -1 when absent. */
  function IndexOf(s: string, c: char): (r: int)
    ensures -1 <= r < |s|
    ensures r == -1 <==> c !in s
    ensures r >= 0 ==> s[r] == c && c !in s[..r]
  {
    if s == [] then -1
    else if s[0] == c then 0
    else
      var t := IndexOf(s[1..], c);
      if t == -1 then -1
      else
        assert s[..t + 1] == [s[0]] + s[1..][..t];
        t + 1
  }

  /** The parts of `s` between occurrences of `sep`: `String.prototype.split`. */
  function Split(s: string, sep: char): (parts: seq<string>)
    ensures |parts| >= 1
    ensures forall k :: 0 <= k < |parts| ==> sep !in parts[k]
    decreases |s|
  {
    if s == [] then [""]
    else if s[0] == sep then [""] + Split(s[1..], sep)
    else
      var rest := Split(s[1..], sep);
      var parts := [[s[0]] + rest[0]] + rest[1..];
      assert parts[1..] == rest[1..];
      parts
  }

  /** `Array.prototype.join`. */
  function Join(parts: seq<string>, sep: char): string
    requires |parts| >= 1
  {
    if |parts| == 1 then parts[0] else parts[0] + [sep] + Join(parts[1..], sep)
  }

  /** Joining the parts with the separator gives the string back. */
  lemma {:induction false} SplitJoin(s: string, sep: char)
    ensures Join(Split(s, sep), sep) == s
    decreases |s|
  {
    if s != [] {
      var rest := Split(s[1..], sep);
      SplitJoin(s[1..], sep);
      if s[0] == sep {
        assert ([""] + rest)[1..] == rest;
      } else {
        var parts := [[s[0]] + rest[0]] + rest[1..];
        assert parts[1..] == rest[1..];
        assert [s[0]] + s[1..] == s;
      }
    }
  }

  /** A string free of the separator splits into itself alone. */
  lemma {:induction false} SplitWithoutSeparator(s: string, sep: char)
    requires sep !in s
    ensures Split(s, sep) == [s]
    decreases |s|
  {
    if s != [] {
      SplitWithoutSeparator(s[1..], sep);
      assert [s[0]] + s[1..] == s;
    }
  }

  /** Splitting at the first separator peels off the text before it. */
  lemma {:induction false} SplitAtFirstSeparator(a: string, sep: char, b: string)
    requires sep !in a
    ensures Split(a + [sep] + b, sep) == [a] + Split(b, sep)
    decreases |a|
  {
    var s := a + [sep] + b;
    if a == [] {
      assert s[1..] == b;
    } else {
      assert s[1..] == a[1..] + [sep] + b;
      SplitAtFirstSeparator(a[1..], sep, b);
      assert [a[0]] + a[1..] == a;
    }
  }

  function Last<T>(xs: seq<T>): T
    requires |xs| >= 1
  {
    xs[|xs| - 1]
  }

  /** `s.split(sep).pop()`: the text after the last separator. */
  function LastSegment(s: string, sep: char): string
  {
    Last(Split(s, sep))
  }

  /** A joined string is at least as long as its last part plus one separator per other part. */
  lemma {:induction false} JoinLength(parts: seq<string>, sep: char)
    requires |parts| >= 1
    ensures |Join(parts, sep)| >= |Last(parts)| + |parts| - 1
    decreases |parts|
  {
    if |parts| > 1 {
      JoinLength(parts[1..], sep);
      assert Last(parts[1..]) == Last(parts);
    }
  }

  /**
   * The last segment of a non-empty string is all of it, or the last segment
   * of its tail, which is then shorter than the tail unless the string starts
   * with the separator.
   */
  lemma LastSegmentStep(s: string, sep: char)
    requires s != []
    ensures var r, rt := LastSegment(s, sep), LastSegment(s[1..], sep);
      r == s || (r == rt && (s[0] == sep || |rt| < |s| - 1))
  {
    var rest := Split(s[1..], sep);
    var parts := Split(s, sep);
    if s[0] == sep {
      assert parts == [""] + rest;
    } else {
      assert parts == [[s[0]] + rest[0]] + rest[1..];
      SplitJoin(s[1..], sep);
      if |rest| == 1 {
        assert [s[0]] + s[1..] == s;
      } else {
        JoinLength(rest, sep);
      }
    }
  }

  /**
   * The last segment is the suffix of `s` after its last separator, or all of
   * `s` when it has none.
   */
  lemma LastSegmentIsFinalPart(s: string, sep: char)
    ensures var r := LastSegment(s, sep);
      && sep !in r
      && |r| <= |s| && s[|s| - |r|..] == r
      && (|r| == |s| || s[|s| - |r| - 1] == sep)
  {
    LastSegmentIsSuffix(s, sep);
  }

  /** The suffix part, by induction on the string. */
  lemma {:induction false} LastSegmentIsSuffix(s: string, sep: char)
    ensures var r := LastSegment(s, sep);
      && |r| <= |s| && s[|s| - |r|..] == r
      && (|r| == |s| || s[|s| - |r| - 1] == sep)
    decreases |s|
  {
    if s != [] {
      var t := s[1..];
      LastSegmentIsSuffix(t, sep);
      LastSegmentStep(s, sep);
      if LastSegment(s, sep) != s {
        SuffixOfTail(s, |LastSegment(t, sep)|);
      }
    }
  }

  /** A suffix of the tail is the suffix of the same length. */
  lemma SuffixOfTail(s: string, n: nat)
    requires n < |s|
    ensures s[|s| - n..] == s[1..][|s| - 1 - n..]
  {
  }

  /** The decimal digit for 0 <= d < 10. */
  function DigitChar(d: nat): char
    requires d < 10
  {
    (48 + d) as char
  }

  /** `String(n)` for a non-negative integer. */
  function NatToString(n: nat): (r: string)
    ensures |r| >= 1 && forall k :: 0 <= k < |r| ==> IsDigit(r[k])
  {
    if n < 10 then [DigitChar(n)] else NatToString(n / 10) + [DigitChar(n % 10)]
  }

  /** `String(n)` for an integer: a minus sign, then the digits of |n|. */
  function IntToString(n: int): (r: string)
    ensures |r| >= 1 && (IsDigit(r[0]) || r[0] == '-')
  {
    if n < 0 then "-" + NatToString(-n) else NatToString(n)
  }

  /** The value of a string of decimal digits. */
  function DecimalValue(s: string): int
    requires forall k :: 0 <= k < |s| ==> IsDigit(s[k])
  {
    if s == [] then 0 else 10 * DecimalValue(s[..|s| - 1]) + (s[|s| - 1] as int - 48)
  }

  /** Reading back the digits NatToString writes gives the number. */
  lemma {:induction false} NatToStringRoundTrip(n: nat)
    ensures DecimalValue(NatToString(n)) == n
  {
    var r := NatToString(n);
    if n >= 10 {
      NatToStringRoundTrip(n / 10);
      assert r[..|r| - 1] == NatToString(n / 10);
    }
  }
}
