/**
 String helpers used by the signup handler: `String.prototype.trim`, modelled
 over `seq<char>` with a fixed whitespace set, and decimal rendering of the
 size bounds that appear in error messages.
 */
module Strings {

  /** The characters `trim` removes. JavaScript's set also contains the other
      Unicode space separators; this model keeps the common ones. */
  predicate IsWhitespace(c: char) {
    c == ' ' || c == '\t' || c == '\n' || c == '\r' || c == '\U{B}' || c == '\U{C}'
    || c == '\U{A0}' || c == '\U{2028}' || c == '\U{2029}' || c == '\U{FEFF}'
  }

  /** Every character of `s` in `[lo, hi)` is whitespace. */
  ghost predicate AllWhitespace(s: string, lo: int, hi: int)
    requires 0 <= lo <= hi <= |s|
  {
    forall k :: lo <= k < hi ==> IsWhitespace(s[k])
  }

  /** `s` consists of whitespace only. */
  ghost predicate Blank(s: string) {
    AllWhitespace(s, 0, |s|)
  }

  /** A concatenation is blank exactly when both parts are. */
  lemma BlankConcat(a: string, b: string)
    ensures Blank(a + b) <==> Blank(a) && Blank(b)
  {
    if Blank(a) && Blank(b) {
      forall k | 0 <= k < |a + b| ensures IsWhitespace((a + b)[k]) {
        if k < |a| { assert (a + b)[k] == a[k]; } else { assert (a + b)[k] == b[k - |a|]; }
      }
    }
    if Blank(a + b) {
      forall k | 0 <= k < |a| ensures IsWhitespace(a[k]) { assert (a + b)[k] == a[k]; }
      forall k | 0 <= k < |b| ensures IsWhitespace(b[k]) { assert (a + b)[|a| + k] == b[k]; }
    }
  }

  /** `s` neither starts nor ends with whitespace. */
  predicate Tight(s: string) {
    |s| == 0 || (!IsWhitespace(s[0]) && !IsWhitespace(s[|s| - 1]))
  }

  /** Index of the first non-whitespace character of `s` at or after `i`
      (or `|s|` when there is none). */
  function SkipStart(s: string, i: nat): (j: nat)
    requires i <= |s|
    ensures i <= j <= |s|
    ensures AllWhitespace(s, i, j)
    ensures j == |s| || !IsWhitespace(s[j])
    decreases |s| - i
  {
    if i == |s| || !IsWhitespace(s[i]) then i else SkipStart(s, i + 1)
  }

  /** Index just past the last non-whitespace character of `s` before `j`,
      not going below `lo`. */
  function SkipEnd(s: string, lo: nat, j: nat): (k: nat)
    requires lo <= j <= |s|
    ensures lo <= k <= j
    ensures AllWhitespace(s, k, j)
    ensures k == lo || !IsWhitespace(s[k - 1])
    decreases j
  {
    if j == lo || !IsWhitespace(s[j - 1]) then j else SkipEnd(s, lo, j - 1)
  }

  /** Where the trimmed text starts. */
  function TrimLo(s: string): nat
    ensures TrimLo(s) <= |s|
  {
    SkipStart(s, 0)
  }

  /** Where the trimmed text ends. */
  function TrimHi(s: string): nat
    ensures TrimLo(s) <= TrimHi(s) <= |s|
  {
    SkipEnd(s, TrimLo(s), |s|)
  }

  /** `String.prototype.trim`: the result is the slice of `s` left after
      removing whitespace on both ends; everything removed is whitespace and
      the result is `Tight`. */
  function Trim(s: string): (r: string)
    ensures TrimLo(s) + |r| <= |s|
    ensures Tight(r)
    ensures r == s[TrimLo(s)..TrimLo(s) + |r|]
    ensures AllWhitespace(s, 0, TrimLo(s))
    ensures AllWhitespace(s, TrimLo(s) + |r|, |s|)
  {
    s[TrimLo(s)..TrimHi(s)]
  }

  /** Trimming leaves a string unchanged exactly when it has no surrounding
      whitespace; this is the test the signup handler applies to `username`
      and `password`. */
  lemma TrimFixedIffTight(s: string)
    ensures Trim(s) == s <==> Tight(s)
  {
    if Tight(s) && |s| > 0 {
      assert TrimLo(s) == 0;
      assert TrimHi(s) == |s|;
    }
  }

  /** `SkipStart` finds the first non-whitespace position: any `k` with only
      whitespace in `[i, k)` and a non-whitespace `s[k]` is that position. */
  lemma SkipStartIsFirst(s: string, i: nat, k: nat)
    requires i <= k < |s|
    requires AllWhitespace(s, i, k) && !IsWhitespace(s[k])
    ensures SkipStart(s, i) == k
  {
  }

  /** `SkipEnd` finds the position just past the last non-whitespace
      character. */
  lemma SkipEndIsLast(s: string, lo: nat, j: nat, k: nat)
    requires lo < k <= j <= |s|
    requires AllWhitespace(s, k, j) && !IsWhitespace(s[k - 1])
    ensures SkipEnd(s, lo, j) == k
  {
  }

  /** Whitespace around a non-empty tight core is exactly what `Trim`
      removes. */
  lemma TrimFindsCore(pre: string, core: string, post: string)
    requires Blank(pre) && Blank(post)
    requires |core| > 0 && Tight(core)
    ensures Trim(pre + core + post) == core
  {
    var s := pre + core + post;
    var hi := |pre| + |core|;
    assert s[..|pre|] == pre && s[hi..] == post && s[|pre|..hi] == core;
    SkipStartIsFirst(s, 0, |pre|);
    SkipEndIsLast(s, |pre|, |s|, hi);
  }

  /** Surrounding a string with more whitespace does not change its trimmed
      form. */
  lemma TrimIgnoresPadding(pre: string, s: string, post: string)
    requires Blank(pre) && Blank(post)
    ensures Trim(pre + s + post) == Trim(s)
  {
    var lo, core := TrimLo(s), Trim(s);
    var left, right := s[..lo], s[lo + |core|..];
    assert s == left + core + right;
    assert Blank(left) && Blank(right);
    BlankConcat(pre, left);
    BlankConcat(right, post);
    if |core| == 0 {
      BlankConcat(left, right);
      BlankConcat(pre, s);
      BlankConcat(pre + s, post);
      TrimAllWhitespace(pre + s + post);
    } else {
      assert pre + s + post == (pre + left) + core + (right + post);
      TrimFindsCore(pre + left, core, right + post);
    }
  }

  /** Trimming twice is trimming once. */
  lemma TrimIdempotent(s: string)
    ensures Trim(Trim(s)) == Trim(s)
  {
    TrimFixedIffTight(Trim(s));
  }

  /** A string made only of whitespace trims to the empty string. */
  lemma TrimAllWhitespace(s: string)
    requires Blank(s)
    ensures Trim(s) == []
  {
    assert TrimLo(s) == |s|;
  }

  /** The decimal digit for `d`. */
  function Digit(d: nat): (c: char)
    requires d < 10
    ensures '0' <= c <= '9' && DigitValue(c) == d
  {
    (d + '0' as int) as char
  }

  /** The value of a decimal digit character. */
  function DigitValue(c: char): nat
    requires '0' <= c <= '9'
  {
    c as int - '0' as int
  }

  /** The number a string of decimal digits spells, most significant first. */
  function DigitsValue(s: string): nat
    requires forall k :: 0 <= k < |s| ==> '0' <= s[k] <= '9'
  {
    if |s| == 0 then 0 else DigitsValue(s[..|s| - 1]) * 10 + DigitValue(s[|s| - 1])
  }

  /** Decimal rendering of a natural number, as template-literal interpolation
      produces it. */
  function Decimal(n: nat): (r: string)
    ensures |r| >= 1
    ensures forall k :: 0 <= k < |r| ==> '0' <= r[k] <= '9'
    ensures DigitsValue(r) == n
    ensures n > 0 ==> r[0] != '0'
    decreases n
  {
    if n < 10 then
      assert [Digit(n)][..0] == [];
      [Digit(n)]
    else
      var hi := Decimal(n / 10);
      var r := hi + [Digit(n % 10)];
      assert r[..|r| - 1] == hi;
      r
  }
}
