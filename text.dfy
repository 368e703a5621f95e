/**
 * The pieces of .NET string behaviour the movie core relies on:
 * `char.IsWhiteSpace`, `string.IsNullOrWhiteSpace`, `string.Trim`,
 * `string.Split(c)[0]`, `int.TryParse` (NumberStyles.Integer, 32-bit),
 * integer formatting and `string.Contains`.
 * A `char` is a Unicode scalar value, so lengths count scalar values, where .NET
 * counts UTF-16 code units: the two differ for text outside the Basic
 * Multilingual Plane.
 */
module Text {
  import opened Wrappers

  /** `char.IsWhiteSpace`: the Unicode space, line and paragraph separators,
      U+0009..U+000D and U+0085. */
  predicate IsWhiteSpace(c: char) {
    || c == ' '
    || ('\t' <= c <= '\r')
    || c == '\U{0085}'
    || c == '\U{00A0}'
    || c == '\U{1680}'
    || ('\U{2000}' <= c <= '\U{200A}')
    || c == '\U{2028}'
    || c == '\U{2029}'
    || c == '\U{202F}'
    || c == '\U{205F}'
    || c == '\U{3000}'
  }

  predicate AllWhiteSpace(s: string) {
    forall i :: 0 <= i < |s| ==> IsWhiteSpace(s[i])
  }

  /** `string.IsNullOrWhiteSpace`. */
  predicate IsNullOrWhiteSpace(s: Option<string>) {
    s.None? || AllWhiteSpace(s.value)
  }

  /** `string.TrimStart()`: drops the leading white space. */
  function TrimStart(s: string): string {
    if |s| > 0 && IsWhiteSpace(s[0]) then TrimStart(s[1..]) else s
  }

  /** What `TrimStart` keeps is a suffix that does not start with white space,
      and what it drops is all white space. */
  lemma {:induction false} TrimStartFacts(s: string)
    ensures var r := TrimStart(s);
            && |r| <= |s| && r == s[|s| - |r|..]
            && AllWhiteSpace(s[..|s| - |r|])
            && (r == [] || !IsWhiteSpace(r[0]))
  {
    if |s| > 0 && IsWhiteSpace(s[0]) {
      TrimStartFacts(s[1..]);
      var r := TrimStart(s);
      assert s[1..][|s| - 1 - |r|..] == s[|s| - |r|..];
    }
  }

  /** `string.TrimEnd()`: drops the trailing white space. */
  function TrimEnd(s: string): string {
    if |s| > 0 && IsWhiteSpace(s[|s| - 1]) then TrimEnd(s[..|s| - 1]) else s
  }

  /** What `TrimEnd` keeps is a prefix that does not end with white space,
      and what it drops is all white space. */
  lemma {:induction false} TrimEndFacts(s: string)
    ensures var r := TrimEnd(s);
            && |r| <= |s| && r == s[..|r|]
            && AllWhiteSpace(s[|r|..])
            && (r == [] || !IsWhiteSpace(r[|r| - 1]))
  {
    if |s| > 0 && IsWhiteSpace(s[|s| - 1]) {
      TrimEndFacts(s[..|s| - 1]);
      var r := TrimEnd(s);
      assert s[..|s| - 1][..|r|] == s[..|r|];
      assert forall i :: 0 <= i < |s| - 1 - |r| ==> s[|r|..][i] == s[..|s| - 1][|r|..][i];
    }
  }

  /** `string.Trim()`: `TrimStart` then `TrimEnd`. */
  function Trim(s: string): string {
    TrimEnd(TrimStart(s))
  }

  /** A string that `Trim` leaves as it is. */
  predicate IsTrimmed(s: string) {
    s == [] || (!IsWhiteSpace(s[0]) && !IsWhiteSpace(s[|s| - 1]))
  }

  /** `t` is `s` with exactly its leading and trailing white space cut off: it
      occurs in `s` at `i`, with nothing but white space before and after it. */
  ghost predicate StripsTo(s: string, t: string, i: int) {
    OccursAt(s, t, i) && AllWhiteSpace(s[..i]) && AllWhiteSpace(s[i + |t|..])
  }

  /** `Trim` gives a slice of `s` that neither starts nor ends with white space,
      everything cut off being white space; it is empty exactly for
      all-white-space input. */
  lemma TrimFacts(s: string)
    ensures Contains(s, Trim(s))
    ensures IsTrimmed(Trim(s))
    ensures Trim(s) == [] <==> AllWhiteSpace(s)
    ensures exists i :: StripsTo(s, Trim(s), i)
  {
    var front := TrimStart(s);
    var r := TrimEnd(front);
    var i := |s| - |front|;
    TrimStartFacts(s);
    TrimEndFacts(front);
    assert r == s[i..][..|r|] == s[i..i + |r|];
    assert OccursAt(s, r, i);
    assert s[i + |r|..] == front[|r|..];
    assert StripsTo(s, r, i);
    if r == [] {
      assert AllWhiteSpace(front);
      assert s == s[..i] + front;
    } else {
      assert r[0] == front[0];
    }
  }

  lemma {:induction false} TrimStartAfterWhiteSpace(w: string, r: string)
    requires AllWhiteSpace(w) && (r == [] || !IsWhiteSpace(r[0]))
    ensures TrimStart(w + r) == r
  {
    if w != [] {
      assert (w + r)[0] == w[0] && (w + r)[1..] == w[1..] + r;
      TrimStartAfterWhiteSpace(w[1..], r);
    }
  }

  lemma {:induction false} TrimEndBeforeWhiteSpace(r: string, w: string)
    requires AllWhiteSpace(w) && (r == [] || !IsWhiteSpace(r[|r| - 1]))
    ensures TrimEnd(r + w) == r
  {
    if w != [] {
      assert (r + w)[|r + w| - 1] == w[|w| - 1] && (r + w)[..|r + w| - 1] == r + w[..|w| - 1];
      TrimEndBeforeWhiteSpace(r, w[..|w| - 1]);
    } else {
      assert r + w == r;
    }
  }

  /** `Trim` is the only way to strip `s` to a string without surrounding white
      space: any trimmed `t` that `s` strips to is `Trim(s)`. */
  lemma TrimUnique(s: string, t: string, i: int)
    requires IsTrimmed(t) && StripsTo(s, t, i)
    ensures t == Trim(s)
  {
    var before, after := s[..i], s[i + |t|..];
    assert s == before + (t + after);
    if t == [] {
      assert AllWhiteSpace(s) by {
        forall k | 0 <= k < |s| ensures IsWhiteSpace(s[k]) {
          if k < i { assert s[k] == before[k]; } else { assert s[k] == after[k - i]; }
        }
      }
      TrimFacts(s);
    } else {
      TrimStartAfterWhiteSpace(before, t + after);
      TrimEndBeforeWhiteSpace(t, after);
    }
  }

  lemma {:induction false} TrimStartOfTrimmed(s: string)
    requires IsTrimmed(s)
    ensures TrimStart(s) == s
  {
  }

  lemma {:induction false} TrimEndOfTrimmed(s: string)
    requires IsTrimmed(s)
    ensures TrimEnd(s) == s
  {
  }

  /** A string without surrounding white space trims to itself. */
  lemma TrimOfTrimmed(s: string)
    requires IsTrimmed(s)
    ensures Trim(s) == s
  {
    TrimStartOfTrimmed(s);
    TrimEndOfTrimmed(s);
  }

  /** `Trim` is idempotent: a trimmed string trims to itself. */
  lemma {:induction false} TrimIdempotent(s: string)
    ensures Trim(Trim(s)) == Trim(s)
  {
    TrimFacts(s);
    TrimOfTrimmed(Trim(s));
  }

  /** `s.Split(c)[0]`: the text before the first `c`, or all of `s` when there is none. */
  function BeforeFirst(s: string, c: char): (r: string)
    ensures |r| <= |s| && r == s[..|r|]
    ensures c !in r
    ensures |r| < |s| ==> s[|r|] == c
  {
    if s == [] then []
    else if s[0] == c then []
    else [s[0]] + BeforeFirst(s[1..], c)
  }

  /** Without `c`, `Split(c)[0]` is the whole string. */
  lemma {:induction false} BeforeFirstAbsent(s: string, c: char)
    requires c !in s
    ensures BeforeFirst(s, c) == s
  {
    if s != [] {
      assert c !in s[1..];
      BeforeFirstAbsent(s[1..], c);
    }
  }

  /** `Split(c)[0]` stops at the first `c`. */
  lemma {:induction false} BeforeFirstSplit(a: string, c: char, b: string)
    requires c !in a
    ensures BeforeFirst(a + [c] + b, c) == a
  {
    if a != [] {
      assert (a + [c] + b)[1..] == a[1..] + [c] + b;
      assert c !in a[1..];
      BeforeFirstSplit(a[1..], c, b);
    } else {
      assert (a + [c] + b)[0] == c;
    }
  }

  // ---- integers

  const Int32Min: int := -0x8000_0000
  const Int32Max: int := 0x7FFF_FFFF

  predicate IsDigit(c: char) {
    '0' <= c <= '9'
  }

  predicate AllDigits(s: string) {
    forall i :: 0 <= i < |s| ==> IsDigit(s[i])
  }

  /** The value of a run of decimal digits, most significant first. */
  function DigitsValue(s: string): nat
    requires AllDigits(s)
  {
    if s == [] then 0
    else DigitsValue(s[..|s| - 1]) * 10 + (s[|s| - 1] as int - '0' as int)
  }

  /** `int.TryParse(s, out v)` on a string without surrounding white space:
      an optional `+` or `-`, then one or more ASCII digits, whose value must fit
      in 32 bits; anything else fails. */
  function TryParseInt32(s: string): (r: Option<int>)
    ensures r.Some? ==> Int32Min <= r.value <= Int32Max
    ensures r.Some? ==> s != [] && (IsDigit(s[0]) || s[0] == '+' || s[0] == '-')
    ensures r.Some? ==> AllDigits(s[1..])
  {
    var signed := |s| > 0 && (s[0] == '+' || s[0] == '-');
    var digits := if signed then s[1..] else s;
    if digits == [] || !AllDigits(digits) then None
    else
      var magnitude: int := DigitsValue(digits);
      var v: int := if signed && s[0] == '-' then -magnitude else magnitude;
      if Int32Min <= v <= Int32Max then Some(v) else None
  }

  function DigitChar(d: nat): (c: char)
    requires d < 10
    ensures IsDigit(c) && c as int - '0' as int == d
  {
    ['0', '1', '2', '3', '4', '5', '6', '7', '8', '9'][d]
  }

  /** Decimal text of a natural number, without leading zeros. */
  function NatToString(n: nat): string
  {
    if n < 10 then [DigitChar(n)] else NatToString(n / 10) + [DigitChar(n % 10)]
  }

  /** `int.ToString()` (invariant culture): a `-` sign, then the digits of the magnitude. */
  function IntToString(n: int): string
  {
    if n < 0 then "-" + NatToString(-n) else NatToString(n)
  }

  lemma {:induction false} NatToStringDigits(n: nat)
    ensures NatToString(n) != [] && AllDigits(NatToString(n))
    ensures DigitsValue(NatToString(n)) == n
  {
    if n >= 10 {
      NatToStringDigits(n / 10);
      var s := NatToString(n);
      assert s[..|s| - 1] == NatToString(n / 10);
    }
  }

  lemma ParseUnsigned(d: string)
    requires d != [] && AllDigits(d) && DigitsValue(d) <= Int32Max
    ensures TryParseInt32(d) == Some(DigitsValue(d))
  {
    assert IsDigit(d[0]);
  }

  lemma ParseNegative(d: string)
    requires d != [] && AllDigits(d) && DigitsValue(d) <= -Int32Min
    ensures TryParseInt32("-" + d) == Some(0 - DigitsValue(d))
  {
    var s := "-" + d;
    assert s[0] == '-' && s[1..] == d;
  }

  /** Formatting and parsing are inverse on the 32-bit range. */
  lemma IntToStringRoundTrip(n: int)
    requires Int32Min <= n <= Int32Max
    ensures TryParseInt32(IntToString(n)) == Some(n)
  {
    if n < 0 {
      NatToStringDigits(-n);
      ParseNegative(NatToString(-n));
    } else {
      NatToStringDigits(n);
      ParseUnsigned(NatToString(n));
    }
  }

  // ---- substrings

  ghost predicate OccursAt(s: string, sub: string, i: int) {
    0 <= i && i + |sub| <= |s| && s[i..i + |sub|] == sub
  }

  /** `s.Contains(sub)` (ordinal). */
  ghost predicate Contains(s: string, sub: string) {
    exists i :: OccursAt(s, sub, i)
  }

  lemma ContainsMiddle(a: string, b: string, c: string)
    ensures Contains(a + b + c, b)
  {
    assert (a + b + c)[|a|..|a| + |b|] == b;
    assert OccursAt(a + b + c, b, |a|);
  }
}
