/** PHP's `round($x, $digits)` on the non-negative ratios the controllers
    compute, in scaled integers: grades and grade averages are tenths
    (`decimal(3,1)`), attendance percentages are hundredths of a percent. */
module Rounding {
  import opened Seqs

  /** `r` is `n / d` to the nearest integer, halves rounded up:
      `d * (r - 1/2) <= n < d * (r + 1/2)`. */
  predicate Redondeado(n: int, d: int, r: int)
  {
    d * (2 * r - 1) <= 2 * n < d * (2 * r + 1)
  }

  /** `n / d` rounded to the nearest integer, halves away from zero. */
  function RoundDiv(n: nat, d: nat): (r: nat)
    requires d > 0
    ensures Redondeado(n, d, r)
  {
    var q := (2 * n + d) / (2 * d);
    var m := (2 * n + d) % (2 * d);
    assert 2 * n + d == 2 * d * q + m && 0 <= m < 2 * d;
    assert d * (2 * q - 1) == 2 * d * q - d;
    assert d * (2 * q + 1) == 2 * d * q + d;
    q
  }

  lemma PositiveFactor(d: int, x: int)
    requires d > 0 && d * x <= 0
    ensures x <= 0
  {
  }

  /** A ratio that lies in [lo, hi] rounds into [lo, hi]. */
  lemma RoundDivWithin(n: nat, d: nat, lo: int, hi: int)
    requires d > 0
    requires d * lo <= n <= d * hi
    ensures lo <= RoundDiv(n, d) <= hi
  {
    var r := RoundDiv(n, d);
    assert d * (2 * r - 1 - 2 * hi) == d * (2 * r - 1) - 2 * (d * hi);
    PositiveFactor(d, 2 * r - 1 - 2 * hi);
    assert d * (2 * lo - 1 - 2 * r) == 2 * (d * lo) - d * (2 * r + 1);
    PositiveFactor(d, 2 * lo - 1 - 2 * r);
  }

  /** Hundredths of a percent: `$total > 0 ? round(($part / $total) * 100, 2) : 0`. */
  function Percent(part: nat, total: nat): (r: nat)
    requires part <= total
    ensures r <= 10000
    ensures total == 0 ==> r == 0
    ensures total > 0 ==> Redondeado(10000 * part, total, r)
    ensures 0 < part == total ==> r == 10000
  {
    if total == 0 then 0
    else
      RoundDivWithin(10000 * part, total, 0, 10000);
      RoundDivWithin(10000 * part, total, if part == total then 10000 else 0, 10000);
      RoundDiv(10000 * part, total)
  }

  /** `round($values->avg(), 1)` on values already in tenths (or
      `round(avg, 2)` on hundredths), and 0 for an empty collection. */
  function MeanRounded(s: seq<nat>): (r: nat)
    ensures s == [] ==> r == 0
    ensures s != [] ==> Redondeado(Sum(s), |s|, r)
  {
    if |s| == 0 then 0 else RoundDiv(SumNat(s), |s|)
  }

  function SumNat(s: seq<nat>): (r: nat)
    ensures r == Sum(s)
  {
    if s == [] then 0 else s[0] + SumNat(s[1..])
  }

  /** The rounded mean of a non-empty collection lies between its smallest and largest value. */
  lemma MeanWithinMinMax(s: seq<nat>)
    requires |s| > 0
    ensures Min(s) <= MeanRounded(s) <= Max(s)
  {
    SumBounds(s, Min(s), Max(s));
    RoundDivWithin(SumNat(s), |s|, Min(s), Max(s));
  }

  /** Values bounded by [lo, hi] have a rounded mean in [lo, hi] (0 when empty). */
  lemma MeanWithin(s: seq<nat>, lo: int, hi: int)
    requires |s| > 0
    requires forall i :: 0 <= i < |s| ==> lo <= s[i] <= hi
    ensures lo <= MeanRounded(s) <= hi
  {
    SumBounds(s, lo, hi);
    RoundDivWithin(SumNat(s), |s|, lo, hi);
  }
}
