/**
 * Exact-real models of the two roundings the portal relies on, and of the
 * text form in which a Postgres `numeric` reaches JavaScript.
 *
 * - `Math.round` (used for the course percentage) rounds halves up, towards
 *   plus infinity.
 * - Postgres `ROUND(numeric, 2)` (CLO, GA and averaged GA percentages) rounds
 *   halves away from zero and yields a value whose display scale is 2.
 */
module Numeric {

  /** Math.round: the integer nearest to `x`, halves going up. */
  function JsRound(x: real): (n: int)
    ensures n as real - 0.5 <= x < n as real + 0.5
  {
    (x + 0.5).Floor
  }

  /** Postgres ROUND(x): the integer nearest to `x`, halves going away from zero. */
  function PgRound(x: real): (n: int)
    ensures x >= 0.0 ==> n as real - 0.5 <= x < n as real + 0.5
    ensures x < 0.0 ==> n as real - 0.5 < x <= n as real + 0.5
  {
    if x >= 0.0 then (x + 0.5).Floor else -((-x + 0.5).Floor)
  }

  /** On non-negative inputs the two roundings coincide. */
  lemma RoundingsAgreeOnNonNegatives(x: real)
    requires x >= 0.0
    ensures JsRound(x) == PgRound(x)
  {
  }

  /** Rounding halves away from zero is symmetric; Math.round is not (-2.5 goes to -2). */
  lemma PgRoundIsOdd(x: real)
    ensures PgRound(-x) == -PgRound(x)
  {
  }

  /** Both roundings are monotone. */
  lemma RoundingsMonotone(x: real, y: real)
    requires x <= y
    ensures JsRound(x) <= JsRound(y)
    ensures PgRound(x) <= PgRound(y)
  {
  }

  /**
   * The display scale of a numeric the portal produces: the literal `0` of
   * a CASE has none, every ROUND(_, 2) has two decimals.
   */
  datatype Scale = Units | Hundredths {

    function Divisor(): (d: nat)
      ensures d >= 1
    {
      if Units? then 1 else 100
    }
  }

  /**
   * A Postgres numeric as the driver hands it over: an integer of
   * `unscaled` digits and a display scale (`Decimal(3000, Hundredths)` is
   * "30.00", `Decimal(0, Units)` is "0").
   */
  datatype Decimal = Decimal(unscaled: int, scale: Scale) {

    function Value(): real
    {
      if scale.Units? then unscaled as real else unscaled as real / 100.0
    }

    /** The text Postgres prints for the value: sign, integer part, and the scale's decimals. */
    function Text(): string
    {
      var mag: nat := if unscaled < 0 then -unscaled else unscaled;
      (if unscaled < 0 then "-" else "")
      + (if scale.Units? then NatText(mag) else NatText(mag / 100) + "." + PadLeft(NatText(mag % 100), 2))
    }

    /** `value < bound`, decided on the digits. */
    predicate Below(bound: int)
    {
      unscaled < bound * scale.Divisor()
    }
  }

  /** The digit comparison is the comparison of values. */
  lemma BelowIsValueBelow(d: Decimal, bound: int)
    ensures d.Below(bound) <==> d.Value() < bound as real
  {
    var p := d.scale.Divisor() as real;
    assert d.Value() * p == d.unscaled as real;
  }

  /** ROUND(x, 2): `x` to the nearest hundredth, halves away from zero, at display scale 2. */
  function PgRound2(x: real): (d: Decimal)
    ensures d.scale == Hundredths
    ensures x >= 0.0 ==> -0.005 < d.Value() - x <= 0.005
    ensures x < 0.0 ==> -0.005 <= d.Value() - x < 0.005
  {
    Decimal(PgRound(100.0 * x), Hundredths)
  }

  /** A value that is already a whole number of hundredths is left unchanged by ROUND(_, 2). */
  lemma PgRound2Exact(cents: int)
    ensures PgRound2(cents as real / 100.0) == Decimal(cents, Hundredths)
  {
    assert 100.0 * (cents as real / 100.0) == cents as real;
  }

  /** A ratio whose numerator lies between 0 and `bound` times its positive denominator lies in [0, bound]. */
  lemma RatioWithin(num: real, den: real, bound: real)
    requires den > 0.0 && 0.0 <= num <= bound * den
    ensures 0.0 <= num / den <= bound
  {
    var q := num / den;
    assert q * den == num;
    if q > bound {
      assert q * den > bound * den;
    }
  }

  /** Rounding keeps a value inside [0, 100]. */
  lemma PgRound2StaysInPercentRange(x: real)
    requires 0.0 <= x <= 100.0
    ensures 0.0 <= PgRound2(x).Value() <= 100.0
  {
    var n := PgRound(100.0 * x);
    assert 0 <= n <= 10000;
  }

  function DigitChar(d: nat): (c: char)
    requires d < 10
    ensures '0' <= c <= '9'
  {
    ('0' as int + d) as char
  }

  function DigitValue(c: char): (d: nat)
    requires '0' <= c <= '9'
    ensures d < 10
  {
    (c as int - '0' as int) as nat
  }

  /** The decimal digits of `n`, most significant first, without leading zeros. */
  function NatText(n: nat): (s: string)
    ensures |s| >= 1
    ensures forall i :: 0 <= i < |s| ==> '0' <= s[i] <= '9'
    ensures n > 0 ==> s[0] != '0'
  {
    if n < 10 then [DigitChar(n)] else NatText(n / 10) + [DigitChar(n % 10)]
  }

  /** The number a string of decimal digits denotes. */
  function DigitsValue(s: string): nat
    requires forall i :: 0 <= i < |s| ==> '0' <= s[i] <= '9'
  {
    if |s| == 0 then 0 else 10 * DigitsValue(s[..|s| - 1]) + DigitValue(s[|s| - 1])
  }

  /** Reading back the digits of a number gives the number. */
  lemma {:induction false} NatTextRoundTrip(n: nat)
    ensures DigitsValue(NatText(n)) == n
  {
    if n >= 10 {
      var s := NatText(n);
      NatTextRoundTrip(n / 10);
      assert s[..|s| - 1] == NatText(n / 10);
    }
  }

  /** `s` left-padded with zeros to at least `width` characters. */
  function PadLeft(s: string, width: nat): (r: string)
    ensures |r| == if |s| >= width then |s| else width
    ensures r[|r| - |s|..] == s
    ensures forall i :: 0 <= i < |r| - |s| ==> r[i] == '0'
  {
    if |s| >= width then s else seq(width - |s|, _ => '0') + s
  }
}
