/** Character classes and decimal conversions shared by the regular-expression scanners. */
module Text {

  /** Python's `\d`, restricted to ASCII. */
  predicate IsDigit(c: char) { '0' <= c <= '9' }

  /** Python's `\s` on ASCII characters: space, tab, line feed, vertical tab, form feed,
      carriage return, and the four separators U+001C..U+001F (which `str.isspace` accepts). */
  predicate IsSpace(c: char) { c == ' ' || '\t' <= c <= '\r' || '\U{1C}' <= c <= '\U{1F}' }

  predicate AllDigits(s: string) { forall i :: 0 <= i < |s| ==> IsDigit(s[i]) }

  predicate AllSpaces(s: string) { forall i :: 0 <= i < |s| ==> IsSpace(s[i]) }

  function DigitValue(c: char): (d: nat)
    requires IsDigit(c)
    ensures d < 10
  {
    c as int - '0' as int
  }

  function DigitChar(d: nat): (c: char)
    requires d < 10
    ensures IsDigit(c) && DigitValue(c) == d
  {
    ('0' as int + d) as char
  }

  /** Python's `int(ds)` for a string of ASCII digits (leading zeros allowed). */
  function DecimalValue(ds: string): nat
    requires AllDigits(ds)
  {
    if ds == [] then 0 else 10 * DecimalValue(ds[..|ds| - 1]) + DigitValue(ds[|ds| - 1])
  }

  /** Python's `str(n)` for a natural number. */
  function NatToString(n: nat): (s: string)
    ensures s != [] && AllDigits(s)
    decreases n
  {
    if n < 10 then [DigitChar(n)] else NatToString(n / 10) + [DigitChar(n % 10)]
  }

  /** Python's `str(n)` for an integer: a minus sign before the digits of a negative number. */
  function IntToString(n: int): (s: string)
    ensures s != []
  {
    if n < 0 then "-" + NatToString(-n) else NatToString(n)
  }

  /** `int(str(n)) == n`: the decimal rendering reads back as the same number. */
  lemma {:induction false} NatToStringRoundTrip(n: nat)
    ensures DecimalValue(NatToString(n)) == n
    decreases n
  {
    if n >= 10 {
      var s := NatToString(n / 10) + [DigitChar(n % 10)];
      assert s[..|s| - 1] == NatToString(n / 10);
      NatToStringRoundTrip(n / 10);
    }
  }

  function Pow10(k: nat): (p: nat)
    ensures p >= 1
  {
    if k == 0 then 1 else 10 * Pow10(k - 1)
  }

  /** Positional notation read from the left: the leading digit weighs `10^(number of digits after it)`. */
  lemma {:induction false} DecimalValueCons(c: char, ds: string)
    requires IsDigit(c) && AllDigits(ds)
    ensures DecimalValue([c] + ds) == DigitValue(c) * Pow10(|ds|) + DecimalValue(ds)
    decreases |ds|
  {
    var s := [c] + ds;
    if ds == [] {
      assert s[..|s| - 1] == [];
    } else {
      var init := ds[..|ds| - 1];
      assert s[..|s| - 1] == [c] + init;
      assert ds[..|ds| - 1] == init;
      DecimalValueCons(c, init);
      ShiftDigit(DigitValue(c), Pow10(|init|), DecimalValue(init), DigitValue(ds[|ds| - 1]));
    }
  }

  /** Appending a digit `l` to a number whose leading digit `d` weighs `p`. */
  lemma ShiftDigit(d: int, p: int, v: int, l: int)
    ensures 10 * (d * p + v) + l == d * (10 * p) + (10 * v + l)
  {
  }

  /** `int()` of `k` digits is below `10^k`. */
  lemma {:induction false} DecimalValueBound(ds: string)
    requires AllDigits(ds)
    ensures DecimalValue(ds) < Pow10(|ds|)
    decreases |ds|
  {
    if ds != [] {
      DecimalValueBound(ds[..|ds| - 1]);
    }
  }

  /** `int(str(n)) == n` for every integer: a non-negative number renders as digits only and
      reads back, a negative one as a minus sign before the digits of its magnitude. */
  lemma IntToStringReadsBack(n: int)
    ensures n >= 0 <==> IsDigit(IntToString(n)[0])
    ensures n >= 0 ==> AllDigits(IntToString(n)) && DecimalValue(IntToString(n)) == n
    ensures n < 0 ==>
      IntToString(n)[0] == '-' && AllDigits(IntToString(n)[1..]) && DecimalValue(IntToString(n)[1..]) == -n
  {
    if n < 0 {
      assert IntToString(n)[1..] == NatToString(-n);
      NatToStringRoundTrip(-n);
    } else {
      NatToStringRoundTrip(n);
    }
  }

  /** Number of consecutive ASCII digits in `s` starting at position `k`. */
  function DigitRunLen(s: string, k: nat): (r: nat)
    requires k <= |s|
    ensures k + r <= |s|
    ensures AllDigits(s[k..k + r])
    ensures k + r == |s| || !IsDigit(s[k + r])
    decreases |s| - k
  {
    if k < |s| && IsDigit(s[k]) then
      var rest := DigitRunLen(s, k + 1);
      assert s[k..k + 1 + rest] == [s[k]] + s[k + 1..k + 1 + rest];
      1 + rest
    else 0
  }

  /** A digit run that cannot be extended is the one DigitRunLen measures. */
  lemma {:induction false} MaximalDigitRun(s: string, k: nat, m: nat)
    requires k + m <= |s| && AllDigits(s[k..k + m])
    requires k + m == |s| || !IsDigit(s[k + m])
    ensures DigitRunLen(s, k) == m
    decreases m
  {
    if m > 0 {
      assert IsDigit(s[k..k + m][0]);
      assert s[k + 1..k + m] == s[k..k + m][1..];
      MaximalDigitRun(s, k + 1, m - 1);
    }
  }

  /** Number of consecutive `\s` characters in `s` starting at position `k`. */
  function SpaceRunLen(s: string, k: nat): (r: nat)
    requires k <= |s|
    ensures k + r <= |s|
    ensures AllSpaces(s[k..k + r])
    ensures k + r == |s| || !IsSpace(s[k + r])
    decreases |s| - k
  {
    if k < |s| && IsSpace(s[k]) then
      var rest := SpaceRunLen(s, k + 1);
      assert s[k..k + 1 + rest] == [s[k]] + s[k + 1..k + 1 + rest];
      1 + rest
    else 0
  }

  predicate OccursAt(s: string, sub: string, i: nat)
  {
    i + |sub| <= |s| && s[i..i + |sub|] == sub
  }

  /** Python's `sub in s` for strings. */
  predicate Contains(s: string, sub: string)
  {
    exists i: nat | i <= |s| :: OccursAt(s, sub, i)
  }

  /** Python's `s.endswith(suffix)`. */
  predicate EndsWith(s: string, suffix: string)
  {
    |suffix| <= |s| && s[|s| - |suffix|..] == suffix
  }
}
