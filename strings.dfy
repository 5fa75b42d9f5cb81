/**
 * The Python `str` operations the scraper relies on: `in`, `startswith`,
 * `endswith`, `split()`, `split("/")[-1]`, concatenation with `+=`, and
 * `str(int)` in an f-string.
 */
module Strings {

  /** Python's `str.isspace` on one character: the ASCII whitespace
      characters, the four information separators and the Unicode spaces. */
  predicate IsSpace(c: char) {
    c == ' ' || ('\t' <= c <= '\r') || ('\U{1C}' <= c <= '\U{1F}')
    || c == '\U{85}' || c == '\U{A0}' || c == '\U{1680}'
    || ('\U{2000}' <= c <= '\U{200A}') || c == '\U{2028}' || c == '\U{2029}'
    || c == '\U{202F}' || c == '\U{205F}' || c == '\U{3000}'
  }

  /** The character class `[a-zA-Z]`. */
  predicate IsLetter(c: char) {
    'a' <= c <= 'z' || 'A' <= c <= 'Z'
  }

  predicate IsDigit(c: char) {
    '0' <= c <= '9'
  }

  predicate StartsWith(s: string, prefix: string) {
    |prefix| <= |s| && s[..|prefix|] == prefix
  }

  predicate EndsWith(s: string, suffix: string) {
    |suffix| <= |s| && s[|s| - |suffix|..] == suffix
  }

  /** `sub` occurs in `s` starting at index `i`. */
  predicate OccursAt(s: string, sub: string, i: int) {
    0 <= i <= |s| - |sub| && s[i..i + |sub|] == sub
  }

  /** Python's `sub in s`. */
  predicate Contains(s: string, sub: string) {
    exists i :: 0 <= i <= |s| - |sub| && OccursAt(s, sub, i)
  }

  predicate NoSpace(w: string) {
    forall i :: 0 <= i < |w| ==> !IsSpace(w[i])
  }

  /** The characters of `s` that are not whitespace, in order. */
  function NonSpace(s: string): string {
    if s == [] then []
    else (if IsSpace(s[0]) then [] else [s[0]]) + NonSpace(s[1..])
  }

  /** Concatenation of `parts` in order with no separator: what a loop of
      `text += part` starting from `""` builds. */
  function Concat(parts: seq<string>): string {
    if parts == [] then "" else Concat(parts[..|parts| - 1]) + parts[|parts| - 1]
  }

  lemma {:induction false} ConcatAppend(a: seq<string>, b: seq<string>)
    ensures Concat(a + b) == Concat(a) + Concat(b)
    decreases |b|
  {
    if b == [] {
      assert a + b == a;
    } else {
      var front, last := b[..|b| - 1], b[|b| - 1];
      assert (a + b)[..|a + b| - 1] == a + front;
      assert (a + b)[|a + b| - 1] == last;
      ConcatAppend(a, front);
      assert Concat(b) == Concat(front) + last;
    }
  }

  lemma {:induction false} NonSpaceAppend(a: string, b: string)
    ensures NonSpace(a + b) == NonSpace(a) + NonSpace(b)
    decreases |a|
  {
    if a == [] {
      assert a + b == b;
    } else {
      assert (a + b)[1..] == a[1..] + b;
      NonSpaceAppend(a[1..], b);
    }
  }

  lemma {:induction false} NonSpaceOfSpaces(s: string)
    requires forall i :: 0 <= i < |s| ==> IsSpace(s[i])
    ensures NonSpace(s) == []
    decreases |s|
  {
    if s != [] {
      NonSpaceOfSpaces(s[1..]);
    }
  }

  lemma {:induction false} NonSpaceOfWord(w: string)
    requires NoSpace(w)
    ensures NonSpace(w) == w
    decreases |w|
  {
    if w != [] {
      NonSpaceOfWord(w[1..]);
      assert w == [w[0]] + w[1..];
    }
  }

  /** Length of the leading run of non-whitespace characters. */
  function WordEnd(s: string): (k: nat)
    ensures k <= |s|
    ensures forall i :: 0 <= i < k ==> !IsSpace(s[i])
    ensures k < |s| ==> IsSpace(s[k])
  {
    if s == [] || IsSpace(s[0]) then 0 else 1 + WordEnd(s[1..])
  }

  /** Length of the leading run of whitespace characters. */
  function SpaceEnd(s: string): (k: nat)
    ensures k <= |s|
    ensures forall i :: 0 <= i < k ==> IsSpace(s[i])
    ensures k < |s| ==> !IsSpace(s[k])
  {
    if s == [] || !IsSpace(s[0]) then 0 else 1 + SpaceEnd(s[1..])
  }

  /** Python's `s.split()` with no separator: the maximal runs of
      non-whitespace characters, in order. */
  function Split(s: string): (words: seq<string>)
    ensures forall w :: w in words ==> w != [] && NoSpace(w)
    decreases |s|
  {
    var k := SpaceEnd(s);
    if k == |s| then []
    else
      var t := s[k..];
      var e := WordEnd(t);
      [t[..e]] + Split(t[e..])
  }

  /** `len(s.split())`. */
  function WordCount(s: string): nat {
    |Split(s)|
  }

  lemma ConcatPrepend(w: string, rest: seq<string>)
    ensures Concat([w] + rest) == w + Concat(rest)
  {
    ConcatAppend([w], rest);
    assert Concat([w]) == Concat([]) + w;
  }

  lemma NonSpaceSkipSpaces(s: string, k: nat)
    requires k <= |s|
    requires forall i :: 0 <= i < k ==> IsSpace(s[i])
    ensures NonSpace(s) == NonSpace(s[k..])
  {
    assert s == s[..k] + s[k..];
    NonSpaceAppend(s[..k], s[k..]);
    NonSpaceOfSpaces(s[..k]);
  }

  lemma NonSpaceTakeWord(t: string, e: nat)
    requires e <= |t|
    requires forall i :: 0 <= i < e ==> !IsSpace(t[i])
    ensures NonSpace(t) == t[..e] + NonSpace(t[e..])
  {
    assert t == t[..e] + t[e..];
    NonSpaceAppend(t[..e], t[e..]);
    NonSpaceOfWord(t[..e]);
  }

  /** Splitting drops exactly the whitespace: the words, put back together,
      are the non-whitespace characters of `s` in their original order. */
  lemma {:induction false} SplitKeepsNonSpace(s: string)
    ensures Concat(Split(s)) == NonSpace(s)
    decreases |s|
  {
    var k := SpaceEnd(s);
    NonSpaceSkipSpaces(s, k);
    if k < |s| {
      var t := s[k..];
      var e := WordEnd(t);
      NonSpaceTakeWord(t, e);
      SplitKeepsNonSpace(t[e..]);
      ConcatPrepend(t[..e], Split(t[e..]));
    } else {
      assert s[k..] == [];
    }
  }

  /** `s` holds a non-whitespace character. */
  predicate HasWord(s: string) {
    exists i :: 0 <= i < |s| && !IsSpace(s[i])
  }

  /** Non-whitespace at `i`, whitespace at `j` and non-whitespace at `k`,
      in that order. */
  predicate SeparatedAt(s: string, i: int, j: int, k: int) {
    0 <= i < j < k < |s| && !IsSpace(s[i]) && IsSpace(s[j]) && !IsSpace(s[k])
  }

  /** `s` holds two non-whitespace characters with whitespace between them. */
  ghost predicate HasTwoWords(s: string) {
    exists i, j, k :: SeparatedAt(s, i, j, k)
  }

  lemma SplitNonEmptyIff(s: string)
    ensures WordCount(s) >= 1 <==> HasWord(s)
  {
    var k := SpaceEnd(s);
    if k < |s| {
      assert !IsSpace(s[k]);
    }
  }

  /** Unfolds `Split` once on a text that holds a word: the first word
      runs from `k` to `k + e`, and the rest of the text starts at `k + e`. */
  lemma SplitFirstWord(s: string) returns (k: nat, e: nat)
    requires HasWord(s)
    ensures k + e <= |s| && e >= 1
    ensures forall i :: 0 <= i < k ==> IsSpace(s[i])
    ensures forall i :: k <= i < k + e ==> !IsSpace(s[i])
    ensures k + e < |s| ==> IsSpace(s[k + e])
    ensures WordCount(s) == 1 + WordCount(s[k + e..])
  {
    SplitNonEmptyIff(s);
    k := SpaceEnd(s);
    var t := s[k..];
    e := WordEnd(t);
    assert t[e..] == s[k + e..];
    forall i | k <= i < k + e ensures !IsSpace(s[i]) {
      assert s[i] == t[i - k];
    }
  }

  lemma TwoWordsFromRest(s: string, k: nat, e: nat, m: nat)
    requires k + e + m < |s| && e >= 1 && m >= 1
    requires forall i :: k <= i < k + e ==> !IsSpace(s[i])
    requires IsSpace(s[k + e]) && !IsSpace(s[k + e + m])
    ensures HasTwoWords(s)
  {
    assert SeparatedAt(s, k, k + e, k + e + m);
  }

  lemma RestFromTwoWords(s: string, k: nat, e: nat, i: int, j: int, m: int)
    requires k + e <= |s| && e >= 1
    requires forall x :: 0 <= x < k ==> IsSpace(s[x])
    requires forall x :: k <= x < k + e ==> !IsSpace(s[x])
    requires SeparatedAt(s, i, j, m)
    ensures k + e < m && HasWord(s[k + e..])
  {
    assert i >= k;
    assert j >= k + e;
    assert s[k + e..][m - k - e] == s[m];
  }

  /** A text has at least two words exactly when some whitespace separates
      two non-whitespace characters. */
  lemma {:induction false} SplitTwoWordsIff(s: string)
    ensures WordCount(s) >= 2 <==> HasTwoWords(s)
  {
    SplitNonEmptyIff(s);
    if HasWord(s) {
      var k, e := SplitFirstWord(s);
      var rest := s[k + e..];
      SplitNonEmptyIff(rest);
      if HasWord(rest) {
        var m :| 0 <= m < |rest| && !IsSpace(rest[m]);
        assert s[k + e + m] == rest[m];
        TwoWordsFromRest(s, k, e, m);
      }
      if HasTwoWords(s) {
        var i, j, m :| SeparatedAt(s, i, j, m);
        RestFromTwoWords(s, k, e, i, j, m);
      }
    }
  }

  /** Index just after the last `/` of `s`, or 0 when it has none. */
  function SegmentStart(s: string): (k: nat)
    ensures k <= |s|
    ensures forall i :: k <= i < |s| ==> s[i] != '/'
    ensures k > 0 ==> s[k - 1] == '/'
  {
    if s == [] || s[|s| - 1] == '/' then |s| else SegmentStart(s[..|s| - 1])
  }

  /** Python's `s.split("/")[-1]`: the text after the last `/`, or all of
      `s` when it has none. */
  function LastSegment(s: string): (r: string)
    ensures EndsWith(s, r)
    ensures forall i :: 0 <= i < |r| ==> r[i] != '/'
    ensures |r| < |s| ==> s[|s| - |r| - 1] == '/'
  {
    s[SegmentStart(s)..]
  }

  /** A suffix without `/`, such as ".pdf", survives taking the last segment. */
  lemma LastSegmentKeepsSuffix(s: string, suffix: string)
    requires EndsWith(s, suffix)
    requires forall i :: 0 <= i < |suffix| ==> suffix[i] != '/'
    ensures EndsWith(LastSegment(s), suffix)
  {
    var k := SegmentStart(s);
    assert k <= |s| - |suffix|;
    var r := LastSegment(s);
    assert r[|r| - |suffix|..] == s[|s| - |suffix|..];
  }

  function DigitChar(d: nat): (c: char)
    requires d < 10
    ensures IsDigit(c)
  {
    ('0' as int + d) as char
  }

  function DigitValue(c: char): int {
    c as int - '0' as int
  }

  /** Decimal digits of `n` without leading zeros. */
  function NatToDecimal(n: nat): (s: string)
    ensures |s| >= 1
    ensures forall i :: 0 <= i < |s| ==> IsDigit(s[i])
    decreases n
  {
    if n < 10 then [DigitChar(n)] else NatToDecimal(n / 10) + [DigitChar(n % 10)]
  }

  /** Python's `str(n)` for an integer. */
  function IntToDecimal(n: int): string {
    if n < 0 then "-" + NatToDecimal(-n) else NatToDecimal(n)
  }

  /** The value of a string of decimal digits. */
  function DecimalValue(s: string): int {
    if s == [] then 0 else 10 * DecimalValue(s[..|s| - 1]) + DigitValue(s[|s| - 1])
  }

  lemma {:induction false} DecimalRoundTrip(n: nat)
    ensures DecimalValue(NatToDecimal(n)) == n
    decreases n
  {
    if n >= 10 {
      var s := NatToDecimal(n);
      assert s[..|s| - 1] == NatToDecimal(n / 10);
      DecimalRoundTrip(n / 10);
    }
  }

  /** A printed integer starts with `-` exactly when it is negative. */
  lemma DecimalSign(n: int)
    ensures |IntToDecimal(n)| >= 1
    ensures (n < 0) == (IntToDecimal(n)[0] == '-')
  {
    if n >= 0 {
      assert IsDigit(NatToDecimal(n)[0]);
    }
  }

  lemma NatToDecimalInjective(x: nat, y: nat)
    requires NatToDecimal(x) == NatToDecimal(y)
    ensures x == y
  {
    DecimalRoundTrip(x);
    DecimalRoundTrip(y);
  }

  /** Distinct integers print differently. */
  lemma IntToDecimalInjective(a: int, b: int)
    requires IntToDecimal(a) == IntToDecimal(b)
    ensures a == b
  {
    var sa, sb := IntToDecimal(a), IntToDecimal(b);
    DecimalSign(a);
    DecimalSign(b);
    if a < 0 {
      assert NatToDecimal(-a) == sa[1..];
      assert NatToDecimal(-b) == sb[1..];
      NatToDecimalInjective(-a, -b);
    } else {
      NatToDecimalInjective(a, b);
    }
  }
}
