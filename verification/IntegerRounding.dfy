/** Rounding of real numbers to integers, in the five modes. */
module IntegerRounding {
  import opened Arith
  import opened Rounding

  /** n is the magnitude v, of the given sign, rounded to an integer. */
  predicate RoundsToInt(rm: RM, negative: bool, v: real, n: int) {
    var error := Abs(n as real - v);
    if rm == 0 then error <= 0.5 && (error == 0.5 ==> n % 2 == 0)
    else if rm == 4 then error <= 0.5 && (error == 0.5 ==> n as real > v)
    else if AwayFromZero(rm, negative) then v <= n as real < v + 1.0
    else n as real <= v < n as real + 1.0
  }

  function Fractional(v: real): real { v - v.Floor as real }

  /** One of the two neighbours is the rounded integer. */
  predicate GoesUp(rm: RM, negative: bool, v: real) {
    if rm == 0 then Fractional(v) > 0.5 || (Fractional(v) == 0.5 && v.Floor % 2 == 1)
    else if rm == 4 then Fractional(v) >= 0.5
    else AwayFromZero(rm, negative) && Fractional(v) > 0.0
  }

  lemma IntegerRounded(rm: RM, negative: bool, v: real, n: int)
    ensures RoundsToInt(rm, negative, v, n) <==> n == v.Floor + if GoesUp(rm, negative, v) then 1 else 0
  {
    var q := v.Floor;
    assert 0.0 <= Fractional(v) < 1.0;
    if n <= q - 1 {
      assert n as real <= q as real - 1.0;
    } else if n >= q + 2 {
      assert n as real >= q as real + 2.0;
    }
  }

  /** A significand over 2^s is a whole number and a fraction. */
  lemma WholeAndFraction(sig: nat, s: nat, v: real)
    requires v == Units(sig, P2(-(s as int)))
    ensures var whole, rem := sig / Pow2(s), sig % Pow2(s);
      && v.Floor == whole && whole >= 0 && Fractional(v) == Units(rem, P2(-(s as int)))
      && (Fractional(v) >= 0.5 <==> 2 * rem >= Pow2(s)) && (Fractional(v) == 0.5 <==> 2 * rem == Pow2(s))
  {
    hide P2, Units, Pow2;
    var q, rem, d, u := sig / Pow2(s), sig % Pow2(s), Pow2(s), P2(-(s as int));
    P2Scale(-(s as int), s);
    P2Zero();
    QuotientNonnegative(sig, d);
    assert sig == q * d + rem;
    UnitsPlus(q * d, rem, u);
    UnitsScale(q, d, u);
    UnitsOfOne(q);
    UnitsOne(u);
    UnitsLe(0, rem, u);
    UnitsLess(rem, d, u);
    FloorIs(v, q, Units(rem, u));
    UnitsScale(rem, 2, u);
    UnitsPlus(rem, rem, u);
    if 2 * rem < d {
      UnitsLess(2 * rem, d, u);
    } else {
      UnitsLe(d, 2 * rem, u);
      UnitsInjective(2 * rem, d, u);
    }
  }

  lemma UnitsOfOne(q: int)
    ensures Units(q, 1.0) == q as real
  {
  }

  lemma FloorIs(v: real, q: int, phi: real)
    requires v == q as real + phi && 0.0 <= phi < 1.0
    ensures v.Floor == q && Fractional(v) == phi
  {
  }
}
