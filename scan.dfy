/** Explicit scanners for the regular expressions the scraper runs with `re.search`:
    a literal prefix followed by a digit run (`tt\d+`, `season=(\d+)`, `E(\d+)`)
    and the first number of a text (`(\d+\.?\d*)`). `re.search` returns the match that
    starts leftmost; for that start, the one its backtracking finds first. */
module Scan {
  import opened Wrappers
  import opened Text

  // ---------------------------------------------------------------------------
  // prefix followed by one or more digits

  /** The literal `prefix` followed by at least one digit starts at position `i` of `s`. */
  predicate PrefixedDigitsAt(s: string, prefix: string, i: nat)
  {
    i + |prefix| < |s| && s[i..i + |prefix|] == prefix && IsDigit(s[i + |prefix|])
  }

  /** Leftmost position at or after `from` where `prefix` and a digit start. */
  function FindPrefixedDigits(s: string, prefix: string, from: nat): (r: Option<nat>)
    requires from <= |s|
    ensures r.Some? ==> from <= r.value && PrefixedDigitsAt(s, prefix, r.value)
    ensures r.Some? ==> forall j: nat :: from <= j < r.value ==> !PrefixedDigitsAt(s, prefix, j)
    ensures r.None? ==> forall j: nat :: from <= j ==> !PrefixedDigitsAt(s, prefix, j)
    decreases |s| - from
  {
    if from == |s| then None
    else if PrefixedDigitsAt(s, prefix, from) then Some(from)
    else FindPrefixedDigits(s, prefix, from + 1)
  }

  /** A match of `prefix(\d+)`: where it starts and the captured digits. */
  datatype DigitsMatch = DigitsMatch(start: nat, digits: string)

  /** `m` is the match `re.search` reports for `prefix(\d+)` in `s`: no match starts
      earlier, and the digit run is maximal. */
  ghost predicate IsFirstDigitsMatch(s: string, prefix: string, m: DigitsMatch)
  {
    var end := m.start + |prefix| + |m.digits|;
    && PrefixedDigitsAt(s, prefix, m.start)
    && (forall j: nat :: j < m.start ==> !PrefixedDigitsAt(s, prefix, j))
    && m.digits != [] && AllDigits(m.digits)
    && end <= |s| && s[m.start + |prefix|..end] == m.digits
    && (end == |s| || !IsDigit(s[end]))
  }

  /** `re.search(prefix + r"(\d+)", s)`. */
  function SearchPrefixedDigits(s: string, prefix: string): (r: Option<DigitsMatch>)
    ensures r.Some? <==> exists i: nat :: PrefixedDigitsAt(s, prefix, i)
    ensures r.Some? ==> IsFirstDigitsMatch(s, prefix, r.value)
  {
    match FindPrefixedDigits(s, prefix, 0)
    case None => None
    case Some(i) =>
      var k := i + |prefix|;
      Some(DigitsMatch(i, s[k..k + DigitRunLen(s, k)]))
  }

  /** IsFirstDigitsMatch admits one match only, so it specifies SearchPrefixedDigits. */
  lemma FirstDigitsMatchUnique(s: string, prefix: string, a: DigitsMatch, b: DigitsMatch)
    requires IsFirstDigitsMatch(s, prefix, a) && IsFirstDigitsMatch(s, prefix, b)
    ensures a == b
  {
    assert a.start == b.start;
    var k := a.start + |prefix|;
    MaximalDigitRun(s, k, |a.digits|);
    MaximalDigitRun(s, k, |b.digits|);
  }

  // ---------------------------------------------------------------------------
  // the first number: (\d+\.?\d*)

  /** Leftmost ASCII digit at or after `from`. */
  function FindDigit(s: string, from: nat): (r: Option<nat>)
    requires from <= |s|
    ensures r.Some? ==> from <= r.value < |s| && IsDigit(s[r.value])
    ensures r.Some? ==> forall j :: from <= j < r.value ==> !IsDigit(s[j])
    ensures r.None? ==> forall j :: from <= j < |s| ==> !IsDigit(s[j])
    decreases |s| - from
  {
    if from == |s| then None
    else if IsDigit(s[from]) then Some(from)
    else FindDigit(s, from + 1)
  }

  /** A match of `(\d+\.?\d*)`: its start, the digits before the point, whether a point
      follows them, and the digits after it. */
  datatype NumberMatch = NumberMatch(start: nat, whole: string, point: bool, fraction: string)
  {
    /** The captured group as text. */
    function Text(): string { whole + (if point then "." else "") + fraction }
  }

  lemma SliceConcat(s: string, a: nat, b: nat, c: nat)
    requires a <= b <= c <= |s|
    ensures s[a..b] + s[b..c] == s[a..c]
  {
  }

  /** `x` is the whole digit run of `s` that starts at position `k`. */
  predicate MaximalRunAt(s: string, k: nat, x: string)
  {
    && k + |x| <= |s| && s[k..k + |x|] == x && AllDigits(x)
    && (k + |x| == |s| || !IsDigit(s[k + |x|]))
  }

  /** Two whole digit runs from the same position are the same text. */
  lemma MaximalRunUnique(s: string, k: nat, x: string, y: string)
    requires MaximalRunAt(s, k, x) && MaximalRunAt(s, k, y)
    ensures x == y
  {
    MaximalDigitRun(s, k, |x|);
    MaximalDigitRun(s, k, |y|);
  }

  /** `m` is the match of `(\d+\.?\d*)` that starts at `m.start`: the digit run there,
      then a point exactly when one follows it, then the digit run after the point. */
  ghost predicate IsGreedyNumber(s: string, m: NumberMatch)
  {
    var w := m.start + |m.whole|;
    && m.whole != [] && MaximalRunAt(s, m.start, m.whole)
    && (m.point <==> w < |s| && s[w] == '.')
    && (m.point ==> MaximalRunAt(s, w + 1, m.fraction))
    && (!m.point ==> m.fraction == [])
  }

  /** The whole digit run of `s` that starts at position `k`. */
  function RunAt(s: string, k: nat): (x: string)
    requires k <= |s|
    ensures MaximalRunAt(s, k, x)
    ensures k < |s| && IsDigit(s[k]) ==> x != []
  {
    s[k..k + DigitRunLen(s, k)]
  }

  /** The captured text of a greedy number is the text of `s` it covers. */
  lemma GreedyNumberText(s: string, m: NumberMatch)
    requires IsGreedyNumber(s, m)
    ensures m.start + |m.Text()| <= |s| && s[m.start..m.start + |m.Text()|] == m.Text()
  {
    var w := m.start + |m.whole|;
    if m.point {
      SliceConcat(s, m.start, w, w + 1);
      assert s[w..w + 1] == ".";
      SliceConcat(s, m.start, w + 1, w + 1 + |m.fraction|);
    }
  }

  /** The number starting at the digit at `i`: the digit run, a point if one follows, and
      the digit run after it. */
  function NumberAt(s: string, i: nat): (m: NumberMatch)
    requires i < |s| && IsDigit(s[i])
    ensures m.start == i && IsGreedyNumber(s, m)
  {
    var whole := RunAt(s, i);
    var k := i + |whole|;
    if k < |s| && s[k] == '.' then NumberMatch(i, whole, true, RunAt(s, k + 1))
    else NumberMatch(i, whole, false, [])
  }

  /** Two greedy numbers that start at the same position are the same match. */
  lemma GreedyNumberUnique(s: string, a: NumberMatch, b: NumberMatch)
    requires IsGreedyNumber(s, a) && IsGreedyNumber(s, b) && a.start == b.start
    ensures a == b
  {
    MaximalRunUnique(s, a.start, a.whole, b.whole);
    if a.point {
      MaximalRunUnique(s, a.start + |a.whole| + 1, a.fraction, b.fraction);
    }
  }

  /** `re.search(r'(\d+\.?\d*)', s)`: the match begins at the first digit and each
      part of it is as long as possible (with GreedyNumberUnique, this fixes the match). */
  function SearchNumber(s: string): (r: Option<NumberMatch>)
    ensures r.Some? <==> exists i :: 0 <= i < |s| && IsDigit(s[i])
    ensures r.Some? ==> var m := r.value;
      && m.start < |s| && IsDigit(s[m.start])
      && (forall j :: 0 <= j < m.start ==> !IsDigit(s[j]))
      && IsGreedyNumber(s, m)
      && m.start + |m.Text()| <= |s| && s[m.start..m.start + |m.Text()|] == m.Text()
  {
    match FindDigit(s, 0)
    case None => None
    case Some(i) =>
      var m := NumberAt(s, i);
      GreedyNumberText(s, m);
      Some(m)
  }

  /** `float(m.Text())`, exactly: the digits before the point plus the fraction. */
  function NumberValue(m: NumberMatch): (v: real)
    requires AllDigits(m.whole) && AllDigits(m.fraction)
    ensures v >= DecimalValue(m.whole) as real
  {
    var scale := Pow10(|m.fraction|) as real;
    var part := DecimalValue(m.fraction) as real / scale;
    assert part >= 0.0 by {
      assert part * scale == DecimalValue(m.fraction) as real;
    }
    DecimalValue(m.whole) as real + part
  }
}
