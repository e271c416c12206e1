/** Conversion of any double to a 32-bit integer, against the rounding of real numbers to integers. */
module FToInt {
  import opened Arith
  import opened Rounding
  import opened IntegerRounding
  import opened FloatFormat
  import opened FCvt
  import FloatResult

  function Least(unsigned: bool): int { if unsigned then 0 else -0x8000_0000 }

  function Greatest(unsigned: bool): int { if unsigned then 0xFFFF_FFFF else 0x7FFF_FFFF }

  function Clamp(unsigned: bool, n: int): int {
    if n < Least(unsigned) then Least(unsigned) else if n > Greatest(unsigned) then Greatest(unsigned) else n
  }

  function Signed(negative: bool, n: int): int { if negative then 0 - n else n }

  /** What FCVT.W.D and FCVT.WU.D ask for (unprivileged ISA 20191213, sections 11.7 and 12.5). */
  ghost predicate IsConverted(unsigned: bool, rm: RM, x: RawFloat, bits: Bits32) {
    var c, result := ClassOf(DOUBLE, x), IntOf(unsigned, bits);
    if c.QNAN? || c.SNAN? then result == Greatest(unsigned)
    else if c.INF? then result == if x.sign then Least(unsigned) else Greatest(unsigned)
    else exists n: nat ::
      RoundsToInt(rm, x.sign, Magnitude(DOUBLE, x), n) && result == Clamp(unsigned, Signed(x.sign, n))
  }

  /** The first magnitude past the range. */
  function Limit(unsigned: bool): real { if unsigned then 4294967296.0 else 2147483648.0 }

  /**
   What the unit gets wrong: a directed rounding away from zero of a fraction of at most a half,
   and a rounding up of the greatest integer of the format.
   */
  predicate Misrounds(unsigned: bool, rm: RM, negative: bool, v: real) {
    && !(negative && unsigned) && v < Limit(unsigned)
    && if !negative && v >= Limit(unsigned) - 1.0
       then (if rm == 3 then Fractional(v) > 0.5 else (rm == 0 || rm == 4) && Fractional(v) >= 0.5)
       else AwayFromZero(rm, negative) && 0.0 < Fractional(v) <= 0.5
  }

  // ---------------------------------------------------------------------------------------
  // Integer and fraction of a significand
  // ---------------------------------------------------------------------------------------

  /** The bits below the point, left-aligned: the round bit and the sticky bit under it. */
  lemma FractionBits(rem: nat, s: nat)
    requires s <= 53 && rem < Pow2(s)
    ensures var bits := rem * Pow2(53 - s);
      && bits < 0x20_0000_0000_0000
      && (bits >= 0x10_0000_0000_0000 <==> 2 * rem >= Pow2(s))
      && (bits >= 0x10_0000_0000_0000 ==> (bits % 0x10_0000_0000_0000 != 0 <==> 2 * rem != Pow2(s)))
  {
    hide Pow2;
    Widths();
    Pow2Add(s, 53 - s);
    var d, t := Pow2(s), Pow2(53 - s);
    assert d * t == 0x20_0000_0000_0000;
    assert 2 * rem * t == 2 * (rem * t);
    MulMono(rem + 1, d, t);
    assert (rem + 1) * t == rem * t + t;
    if 2 * rem >= d {
      MulMono(d, 2 * rem, t);
      if 2 * rem > d {
        MulMono(d + 1, 2 * rem, t);
        assert (d + 1) * t == d * t + t;
      }
    } else {
      MulMono(2 * rem + 1, d, t);
      assert (2 * rem + 1) * t == 2 * rem * t + t;
    }
  }

  lemma FractionIs(sig: nat, s: nat)
    requires s <= 53
    ensures Fraction(sig, s) == sig % Pow2(s) * Pow2(53 - s)
  {
    hide Pow2;
    Widths();
    Pow2Add(s, 53 - s);
    LeftAligned(sig, Pow2(s), Pow2(53 - s));
  }

  lemma LeftAligned(sig: nat, d: nat, t: nat)
    requires d > 0 && t > 0
    ensures sig * t % (d * t) == sig % d * t
  {
    var q, rem := sig / d, sig % d;
    assert sig == q * d + rem;
    Distribute(q, d, rem, t);
    MulMono(rem + 1, d, t);
    assert (rem + 1) * t == rem * t + t;
    MulMono(0, rem, t);
    DivUnique(sig * t, d * t, q, rem * t);
  }

  lemma Distribute(q: nat, d: nat, rem: nat, t: nat)
    ensures (q * d + rem) * t == q * (d * t) + rem * t
  {
  }

  /** The unit's whole number, round bit and sticky bit, of a value in range. */
  lemma Parts(sig: nat, exp: int, v: real)
    requires 0 < sig < 0x20_0000_0000_0000 && exp < 52 && v == Units(sig, P2(exp - 52))
    ensures var s, bits := 52 - exp, Fraction(sig, 52 - exp);
      && ShiftRight(sig, s) == v.Floor && v.Floor >= 0
      && (bits >= 0x10_0000_0000_0000 <==> Fractional(v) >= 0.5)
      && (bits >= 0x10_0000_0000_0000 ==> (bits % 0x10_0000_0000_0000 != 0 <==> Fractional(v) != 0.5))
  {
    hide Pow2, P2, Units, Fraction, Fractional;
    var s: nat := 52 - exp;
    WholeAndFraction(sig, s, v);
    if s <= 53 {
      FractionIs(sig, s);
      FractionBits(sig % Pow2(s), s);
    } else {
      FarBelow(sig, s);
    }
  }

  lemma FarBelow(sig: nat, s: nat)
    requires sig < 0x20_0000_0000_0000 && s > 53
    ensures Fraction(sig, s) == 0 && 2 * (sig % Pow2(s)) < Pow2(s)
  {
    hide Pow2;
    Widths();
    Doubling(s);
    Pow2Mono(53, s - 1);
    DivUnique(sig, Pow2(s), 0, sig);
  }

  // ---------------------------------------------------------------------------------------
  // Rounding to an integer
  // ---------------------------------------------------------------------------------------

  /** The unit's rounding decision, of its round and sticky bits. */
  predicate UnitGoesUp(rm: RM, negative: bool, v: real) {
    if rm == 0 then Fractional(v) > 0.5 || (Fractional(v) == 0.5 && v.Floor % 2 == 1)
    else if rm == 4 then Fractional(v) >= 0.5
    else AwayFromZero(rm, negative) && Fractional(v) > 0.5
  }

  lemma UnitRounds(negative: bool, rm: RM, whole: nat, v: real, bits: nat)
    requires whole == v.Floor < 0x1_0000_0000
    requires bits >= 0x10_0000_0000_0000 <==> Fractional(v) >= 0.5
    requires bits >= 0x10_0000_0000_0000 ==> (bits % 0x10_0000_0000_0000 != 0 <==> Fractional(v) != 0.5)
    ensures RoundInt(negative, whole, bits >= 0x10_0000_0000_0000, bits % 0x10_0000_0000_0000 != 0, rm)
      == (v.Floor + if UnitGoesUp(rm, negative, v) then 1 else 0) % 0x1_0000_0000
  {
    hide Fractional;
  }

  // ---------------------------------------------------------------------------------------
  // The conversion
  // ---------------------------------------------------------------------------------------

  /** In range the unit rounds the integer part by its own decision and restores the sign. */
  lemma InRange(unsigned: bool, rm: RM, x: RawFloat)
    requires Fits(DOUBLE, x) && IsFinite(DOUBLE, x) && !(x.sign && unsigned) && Magnitude(DOUBLE, x) < Limit(unsigned)
    ensures var v := Magnitude(DOUBLE, x);
      var n := (v.Floor + if UnitGoesUp(rm, x.sign, v) then 1 else 0) % 0x1_0000_0000;
      0 <= v.Floor && ToInt(unsigned, rm, x) == if x.sign then (0x1_0000_0000 - n) % 0x1_0000_0000 else n
  {
    hide Pow2, P2, Units, Decode, Magnitude, ClassOf, Fraction, Fractional, ShiftRight, RoundInt, UnitGoesUp;
    var v, d := Magnitude(DOUBLE, x), Decode(DOUBLE, x);
    if ClassOf(DOUBLE, x).ZERO? {
      ZeroParts(x);
      UnitRounds(x.sign, rm, 0, v, 0);
    } else {
      DecodeKeepsValue(DOUBLE, x);
      Widths();
      LimitBinade(unsigned, d, v);
      Parts(d.sig, d.exp, v);
      UnitRounds(x.sign, rm, v.Floor, v, Fraction(d.sig, 52 - d.exp));
    }
  }

  /** The exponent tells whether a value is past the range. */
  lemma LimitBinade(unsigned: bool, d: Decoded, v: real)
    requires 0x10_0000_0000_0000 <= d.sig < 0x20_0000_0000_0000 && v == Units(d.sig, P2(d.exp - 52))
    ensures v < Limit(unsigned) <==> d.exp < if unsigned then 32 else 31
  {
    hide Pow2, P2, Units;
    Widths();
    Words();
    P2Zero();
    P2Scale(0, 31);
    P2Scale(0, 32);
    UnitsOfOne(Pow2(31));
    UnitsOfOne(Pow2(32));
    FloatResult.BinadeOf(52, d.sig, d.exp, if unsigned then 32 else 31);
  }

  lemma ZeroParts(x: RawFloat)
    requires Fits(DOUBLE, x) && ClassOf(DOUBLE, x).ZERO?
    ensures var d, v := Decode(DOUBLE, x), Magnitude(DOUBLE, x);
      && v == 0.0 && v.Floor == 0 && Fractional(v) == 0.0
      && d.exp < 0 && ShiftRight(d.sig, 52 - d.exp) == 0 && Fraction(d.sig, 52 - d.exp) == 0
  {
    hide P2, Pow2, Fraction, ShiftRight;
    Widths();
    UnitsOne(P2(DOUBLE.EMin() - DOUBLE.nsig));
    ZeroSignificand();
    ZeroDecoded(x);
  }

  /** Out of range, and for what is no number, the unit answers at once. */
  lemma OutOfRange(unsigned: bool, rm: RM, x: RawFloat)
    requires Fits(DOUBLE, x)
    requires !IsFinite(DOUBLE, x) || (x.sign && unsigned) || Magnitude(DOUBLE, x) >= Limit(unsigned)
    ensures var c := ClassOf(DOUBLE, x);
      ToInt(unsigned, rm, x) ==
        if x.sign && unsigned then 0
        else if x.sign && (IsFinite(DOUBLE, x) || c.INF?) then 0x8000_0000
        else if IsFinite(DOUBLE, x) then Greatest(unsigned)
        else if x.sign then 1
        else if unsigned then 0x7FFF_FFFF else 0xFFFF_FFFF
  {
    hide Pow2, P2, Units, Decode, Magnitude, ClassOf, Fraction, ShiftRight;
    var v, d := Magnitude(DOUBLE, x), Decode(DOUBLE, x);
    if IsFinite(DOUBLE, x) && !(x.sign && unsigned) {
      if ClassOf(DOUBLE, x).ZERO? {
        ZeroParts(x);
      } else {
        DecodeKeepsValue(DOUBLE, x);
        Widths();
        LimitBinade(unsigned, d, v);
      }
    }
  }

  /** The decision is wrong exactly on the fractions named, and shows unless the result is clamped. */
  lemma DecisionsDiffer(unsigned: bool, rm: RM, negative: bool, v: real)
    requires 0.0 <= v < Limit(unsigned) && !(negative && unsigned)
    ensures var m := v.Floor + if UnitGoesUp(rm, negative, v) then 1 else 0;
      var n := v.Floor + if GoesUp(rm, negative, v) then 1 else 0;
      var bits := if negative then (0x1_0000_0000 - m % 0x1_0000_0000) % 0x1_0000_0000 else m % 0x1_0000_0000;
      IntOf(unsigned, bits) == Clamp(unsigned, Signed(negative, n)) <==> !Misrounds(unsigned, rm, negative, v)
  {
    var top := v.Floor == Greatest(unsigned);
    assert 0 <= v.Floor <= Greatest(unsigned);
    assert top <==> v >= Limit(unsigned) - 1.0;
    assert Greatest(unsigned) % 2 == 1;
  }

  /**
   The conversion is right on every double but: a NaN, positive infinity, a fraction of at most
   a half that the mode rounds away from zero, and a magnitude just below the range that the unit
   rounds past it.
   */
  lemma ConvertedExactlyWhen(unsigned: bool, rm: RM, x: RawFloat)
    requires Fits(DOUBLE, x)
    ensures IsConverted(unsigned, rm, x, ToInt(unsigned, rm, x)) <==>
      if IsFinite(DOUBLE, x) then !Misrounds(unsigned, rm, x.sign, Magnitude(DOUBLE, x)) else ClassOf(DOUBLE, x).INF? && x.sign
  {
    hide Pow2, P2, Units, ToInt, Magnitude, ClassOf, Misrounds, RoundsToInt, GoesUp, UnitGoesUp, Limit, Clamp, Signed;
    var v := Magnitude(DOUBLE, x);
    if !IsFinite(DOUBLE, x) {
      OutOfRange(unsigned, rm, x);
    } else {
      MagnitudeNonnegative(x);
      var n: nat := v.Floor + if GoesUp(rm, x.sign, v) then 1 else 0;
      IntegerRounded(rm, x.sign, v, n);
      forall k: nat
        ensures RoundsToInt(rm, x.sign, v, k) <==> k == n
      {
        IntegerRounded(rm, x.sign, v, k);
      }
      if (x.sign && unsigned) || v >= Limit(unsigned) {
        OutOfRange(unsigned, rm, x);
        Clamped(unsigned, rm, x.sign, v, n);
      } else {
        InRange(unsigned, rm, x);
        DecisionsDiffer(unsigned, rm, x.sign, v);
      }
    }
  }

  lemma MagnitudeNonnegative(x: RawFloat)
    ensures Magnitude(DOUBLE, x) >= 0.0 && Magnitude(DOUBLE, x).Floor >= 0
  {
    hide P2, Pow2, Units;
    var u := P2(if x.exp == 0 then DOUBLE.EMin() - DOUBLE.nsig else x.exp - DOUBLE.Bias() - DOUBLE.nsig);
    UnitsOne(u);
    UnitsLe(0, if x.exp == 0 then x.frac else Pow2(DOUBLE.nsig) + x.frac, u);
  }

  lemma Clamped(unsigned: bool, rm: RM, negative: bool, v: real, n: nat)
    requires (negative && unsigned) || v >= Limit(unsigned)
    requires n >= v.Floor
    ensures Clamp(unsigned, Signed(negative, n)) == if negative then Least(unsigned) else Greatest(unsigned)
    ensures !Misrounds(unsigned, rm, negative, v)
  {
  }
}
