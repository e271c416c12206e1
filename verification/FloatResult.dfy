/** Packing a rounded significand, and what a correctly rounded register is. */
module FloatResult {
  import opened Arith
  import opened Rounding
  import opened FloatFormat
  import FRound

  function Infinity(f: Format, sign: bool): RawFloat {
    Float(sign, Pow2(f.nexp) - 1, 0)
  }

  function MaxFinite(f: Format, sign: bool): RawFloat {
    Float(sign, Pow2(f.nexp) - 2, Pow2(f.nsig) - 1)
  }

  /** The mode rounds magnitudes of this sign down. */
  predicate TowardZero(rm: RM, sign: bool) {
    rm != 0 && rm != 4 && !AwayFromZero(rm, sign)
  }

  /** The finite register of this sign of which none is larger. */
  ghost predicate IsLargest(f: Format, sign: bool, out: RawFloat) {
    && Fits(f, out) && IsFinite(f, out) && out.sign == sign
    && forall x :: Fits(f, x) && IsFinite(f, x) ==> Magnitude(f, x) <= Magnitude(f, out)
  }

  /** What an overflow delivers (IEEE 754-2008, section 7.4): rounded down, the largest finite number; else infinity. */
  ghost predicate IsOverflow(f: Format, rm: RM, sign: bool, out: RawFloat) {
    if rm == 0 || rm == 4 || (rm == 2 && sign) || (rm == 3 && !sign)
    then Fits(f, out) && ClassOf(f, out).INF? && out.frac == 0 && out.sign == sign
    else IsLargest(f, sign, out)
  }

  lemma MaxFiniteIsLargest(f: Format, sign: bool)
    ensures IsLargest(f, sign, MaxFinite(f, sign))
  {
    hide P2, Units, Pow2, Magnitude, IsFinite;
    MaxFiniteValue(f, sign);
    forall x | Fits(f, x) && IsFinite(f, x)
      ensures Magnitude(f, x) <= Magnitude(f, MaxFinite(f, sign))
    {
      BelowLargest(f, x);
    }
  }

  lemma MaxFiniteValue(f: Format, sign: bool)
    ensures var out := MaxFinite(f, sign);
      Fits(f, out) && IsFinite(f, out) && Magnitude(f, out) == Units(Pow2(f.nsig + 1) - 1, P2(f.EMax() - f.nsig))
  {
    hide P2, Units;
    FieldBounds(f);
    Doubling(f.nsig + 1);
  }

  lemma BelowLargest(f: Format, x: RawFloat)
    requires Fits(f, x) && IsFinite(f, x)
    ensures Magnitude(f, x) <= Units(Pow2(f.nsig + 1) - 1, P2(f.EMax() - f.nsig))
  {
    hide P2, Units, Pow2;
    FieldBounds(f);
    Doubling(f.nsig + 1);
    var sig, e := if x.exp == 0 then x.frac else Pow2(f.nsig) + x.frac, if x.exp == 0 then f.EMin() else x.exp - f.Bias();
    UnitsLe(sig, Pow2(f.nsig + 1) - 1, P2(e - f.nsig));
    P2Mono(e - f.nsig, f.EMax() - f.nsig);
    UnitsGrow(Pow2(f.nsig + 1) - 1, P2(e - f.nsig), P2(f.EMax() - f.nsig));
  }

  lemma UnitsGrow(m: nat, u: real, u': real)
    requires u <= u'
    ensures Units(m, u) <= Units(m, u')
  {
  }

  lemma OverflowRegisters(f: Format, rm: RM, sign: bool)
    ensures TowardZero(rm, sign) ==> IsOverflow(f, rm, sign, MaxFinite(f, sign))
    ensures !TowardZero(rm, sign) ==> IsOverflow(f, rm, sign, Infinity(f, sign))
  {
    hide IsLargest, MaxFinite;
    FieldBounds(f);
    MaxFiniteIsLargest(f, sign);
  }

  /** There is one such register. */
  lemma OverflowUnique(f: Format, rm: RM, sign: bool, x: RawFloat, y: RawFloat)
    requires IsOverflow(f, rm, sign, x) && IsOverflow(f, rm, sign, y)
    ensures x == y
  {
    hide Magnitude, Pow2;
    if TowardZero(rm, sign) {
      MagnitudeInjective(f, x, y);
    }
  }

  /** The register is the value v, of the given sign, correctly rounded into the format. */
  ghost predicate IsRounded(f: Format, rm: RM, sign: bool, v: real, out: RawFloat) {
    exists r :: Rounds(rm, sign, f.nsig + 1, v, r) && IsResult(f, rm, sign, r, out)
  }

  ghost predicate IsResult(f: Format, rm: RM, sign: bool, r: real, out: RawFloat) {
    if r < P2(f.EMax() + 1) then
      Fits(f, out) && IsFinite(f, out) && out.sign == sign && Magnitude(f, out) == r
    else IsOverflow(f, rm, sign, out)
  }

  /** {sign, exp + BIAS, sig}, with the hidden bit dropped and each field cut to its width. */
  function PackRounded(f: Format, sign: bool, r: FRound.Rounded): RawFloat {
    Float(sign, (r.exp + f.Bias()) % Pow2(f.nexp), r.sig % Pow2(f.nsig))
  }

  lemma FieldBounds(f: Format)
    ensures Pow2(f.nexp) == 2 * f.Bias() + 2 && f.Bias() >= 1 && Pow2(f.nsig) >= 4
  {
    assert Pow2(f.nexp) == 2 * Pow2(f.nexp - 1) && Pow2(f.nexp - 1) == 2 * Pow2(f.nexp - 2);
    assert Pow2(f.nsig) == 2 * Pow2(f.nsig - 1) && Pow2(f.nsig - 1) == 2 * Pow2(f.nsig - 2);
  }

  lemma SignificandSplit(n: nat, s: nat)
    requires Pow2(n) <= s < Pow2(n + 1)
    ensures s % Pow2(n) == s - Pow2(n)
  {
    DivUnique(s, Pow2(n), 1, s - Pow2(n));
  }

  /** A rounded significand with an exponent in range is packed without changing its value. */
  lemma PackInRange(f: Format, sign: bool, r: FRound.Rounded)
    requires f.EMin() <= r.exp <= f.EMax() && Pow2(f.nsig) <= r.sig < Pow2(f.nsig + 1)
    ensures var out := PackRounded(f, sign, r);
      && Fits(f, out) && ClassOf(f, out).NORM? && out.sign == sign
      && Magnitude(f, out) == Units(r.sig, P2(r.exp - f.nsig)) < P2(f.EMax() + 1)
  {
    hide P2, Units;
    FieldBounds(f);
    SignificandSplit(f.nsig, r.sig);
    SmallResidue(r.exp + f.Bias(), Pow2(f.nexp));
    BelowNextBinade(f.nsig, r.sig, r.exp, f.EMax());
  }

  lemma SmallResidue(x: nat, m: nat)
    requires x < m
    ensures x % m == x
  {
    DivUnique(x, m, 0, x);
  }

  lemma BelowNextBinade(n: nat, s: nat, e: int, top: int)
    requires s < Pow2(n + 1) && e <= top
    ensures Units(s, P2(e - n)) < P2(top + 1)
  {
    hide P2, Units;
    P2Scale(e - n, n + 1);
    UnitsNext(s, P2(e - n));
    UnitsLe(s + 1, Pow2(n + 1), P2(e - n));
    P2Mono(e + 1, top + 1);
  }

  lemma AtLeastBinade(n: nat, s: nat, e: int, bottom: int)
    requires Pow2(n) <= s && bottom <= e
    ensures Units(s, P2(e - n)) >= P2(bottom)
  {
    hide P2, Units;
    P2Scale(e - n, n);
    UnitsLe(Pow2(n), s, P2(e - n));
    P2Mono(bottom, e);
  }

  lemma {:induction false} P2Mono(a: int, b: int)
    requires a <= b
    ensures P2(a) <= P2(b)
    decreases b - a
  {
    if a == b {
    } else {
      P2Mono(a, b - 1);
      P2Next(b - 1);
    }
  }

  /** Rounding up past the largest finite number packs to infinity. */
  lemma PackCarry(f: Format, sign: bool, r: FRound.Rounded)
    requires r.exp == f.EMax() + 1 && r.sig == Pow2(f.nsig)
    ensures PackRounded(f, sign, r) == Infinity(f, sign)
  {
    FieldBounds(f);
    SmallResidue(r.exp + f.Bias(), Pow2(f.nexp));
    DivUnique(r.sig, Pow2(f.nsig), 1, 0);
  }

  /**
   The packing of the normal range: a correctly rounded significand whose exponent was in range
   before rounding is a correct result, also when rounding carries it out of range.
   */
  lemma PackCorrect(f: Format, rm: RM, sign: bool, v: real, exp: int, r: FRound.Rounded)
    requires f.EMin() <= exp <= f.EMax()
    requires Rounds(rm, sign, f.nsig + 1, v, Units(r.sig, P2(r.exp - f.nsig)))
    requires Pow2(f.nsig) <= r.sig < Pow2(f.nsig + 1)
    requires r.exp == exp || (r.exp == exp + 1 && r.sig == Pow2(f.nsig) && !TowardZero(rm, sign))
    ensures IsRounded(f, rm, sign, v, PackRounded(f, sign, r))
  {
    hide P2, Units, Rounds;
    if r.exp <= f.EMax() {
      PackInRange(f, sign, r);
    } else {
      PackCarry(f, sign, r);
      AtLeastBinade(f.nsig, r.sig, r.exp, f.EMax() + 1);
    }
    assert IsResult(f, rm, sign, Units(r.sig, P2(r.exp - f.nsig)), PackRounded(f, sign, r));
  }

  /** Above the range, the overflow register is the correct result. */
  lemma OverflowCorrect(f: Format, rm: RM, sign: bool, v: real, r: FRound.Rounded, out: RawFloat)
    requires r.exp > f.EMax() && Pow2(f.nsig) <= r.sig
    requires Rounds(rm, sign, f.nsig + 1, v, Units(r.sig, P2(r.exp - f.nsig)))
    requires out == if TowardZero(rm, sign) then MaxFinite(f, sign) else Infinity(f, sign)
    ensures IsRounded(f, rm, sign, v, out)
  {
    hide P2, Units, Pow2, Rounds, IsOverflow, MaxFinite, Infinity, TowardZero;
    AtLeastBinade(f.nsig, r.sig, r.exp, f.EMax() + 1);
    OverflowRegisters(f, rm, sign);
    assert IsResult(f, rm, sign, Units(r.sig, P2(r.exp - f.nsig)), out);
  }

  /** Choosing between packing and overflow after rounding is correct as well. */
  lemma ChoiceCorrect(f: Format, rm: RM, sign: bool, v: real, r: FRound.Rounded, over: RawFloat)
    requires r.exp >= f.EMin() && Pow2(f.nsig) <= r.sig < Pow2(f.nsig + 1)
    requires Rounds(rm, sign, f.nsig + 1, v, Units(r.sig, P2(r.exp - f.nsig)))
    requires over == if TowardZero(rm, sign) then MaxFinite(f, sign) else Infinity(f, sign)
    ensures IsRounded(f, rm, sign, v, if r.exp > f.EMax() then over else PackRounded(f, sign, r))
  {
    hide P2, Units, Rounds, MaxFinite, Infinity, TowardZero;
    if r.exp > f.EMax() {
      OverflowCorrect(f, rm, sign, v, r, over);
    } else {
      PackInRange(f, sign, r);
      assert IsResult(f, rm, sign, Units(r.sig, P2(r.exp - f.nsig)), PackRounded(f, sign, r));
    }
  }

  /** The exponent of a normalised significand is the binade of its value. */
  lemma BinadeOf(n: nat, s: nat, e: int, b: int)
    requires Pow2(n) <= s < Pow2(n + 1)
    ensures Units(s, P2(e - n)) >= P2(b) <==> e >= b
  {
    hide P2, Units, Pow2;
    if e >= b {
      AtLeastBinade(n, s, e, b);
    } else {
      BelowNextBinade(n, s, e, b - 1);
    }
  }

  /** So is the exponent of the cell a value lies in. */
  lemma BinadeOfCell(n: nat, lo: nat, e: int, v: real, b: int)
    requires InCell(n + 1, lo, e - n, v)
    ensures v >= P2(b) <==> e >= b
  {
    hide P2, Units, Pow2;
    if e >= b {
      AtLeastBinade(n, lo, e, b);
    } else {
      P2Scale(e - n, n + 1);
      UnitsLe(lo + 1, Pow2(n + 1), P2(e - n));
      P2Mono(e + 1, b);
    }
  }

  /** Packing one end of the cell is correct exactly when that is the end the mode calls for. */
  lemma PackedRounding(f: Format, rm: RM, sign: bool, v: real, out: FRound.Rounded, lo: nat, e: int, truth: bool, up: bool)
    requires InCell(f.nsig + 1, lo, e, v) && Rounds(rm, sign, f.nsig + 1, v, Units(lo + if truth then 1 else 0, P2(e)))
    requires Units(out.sig, P2(out.exp - f.nsig)) == Units(lo + if up then 1 else 0, P2(e))
    requires f.EMin() <= out.exp <= f.EMax() && Pow2(f.nsig) <= out.sig < Pow2(f.nsig + 1)
    requires TowardZero(rm, sign) ==> up == truth
    ensures IsRounded(f, rm, sign, v, PackRounded(f, sign, out)) <==> up == truth
  {
    hide P2, Units, Pow2, Magnitude, PackRounded, InCell, Rounds;
    PackInRange(f, sign, out);
    var packed := PackRounded(f, sign, out);
    UnitsInjective(lo + if truth then 1 else 0, lo + if up then 1 else 0, P2(e));
    if up == truth {
      assert IsResult(f, rm, sign, Units(out.sig, P2(out.exp - f.nsig)), packed);
    } else if IsRounded(f, rm, sign, v, packed) {
      var x :| Rounds(rm, sign, f.nsig + 1, v, x) && IsResult(f, rm, sign, x, packed);
      RoundsUnique(rm, sign, f.nsig + 1, lo, e, v, x, Units(lo + if truth then 1 else 0, P2(e)));
      FieldBounds(f);
    }
  }

  /** Answering infinity above the range is correct exactly when the mode does not round down. */
  lemma InfinityCorrect(f: Format, rm: RM, sign: bool, v: real, lo: nat, exp: int, truth: bool)
    requires exp > f.EMax()
    requires InCell(f.nsig + 1, lo, exp - f.nsig, v)
    requires Rounds(rm, sign, f.nsig + 1, v, Units(lo + if truth then 1 else 0, P2(exp - f.nsig)))
    ensures IsRounded(f, rm, sign, v, Infinity(f, sign)) <==> !TowardZero(rm, sign)
  {
    hide P2, Units, Pow2, Rounds, IsRounded;
    var r := FRound.Carry(f.nsig, lo + if truth then 1 else 0, exp);
    FRound.CarryKeepsValue(f.nsig, lo + if truth then 1 else 0, exp);
    OverflowCorrect(f, rm, sign, v, r, if TowardZero(rm, sign) then MaxFinite(f, sign) else Infinity(f, sign));
    InfinityIsNotMax(f, sign);
    if TowardZero(rm, sign) && IsRounded(f, rm, sign, v, Infinity(f, sign)) {
      AtLeastBinade(f.nsig, lo, exp, f.EMin());
      ResultUnique(f, rm, sign, v, lo, exp - f.nsig, Infinity(f, sign), MaxFinite(f, sign));
    }
  }

  lemma InfinityIsNotMax(f: Format, sign: bool)
    ensures Infinity(f, sign) != MaxFinite(f, sign)
  {
  }

  /** Rounding and packing from the normal range up: too large a value becomes infinity at once. */
  function PackNormal(f: Format, w: nat, rm: RM, sign: bool, p: Decoded): RawFloat
    requires w >= f.nsig + 3
  {
    if p.exp > f.EMax() then Infinity(f, sign)
    else PackRounded(f, sign, FRound.Round(w, f.nsig, sign, p.sig, p.exp, rm))
  }

  /** For an exact normalised p that is wrong only for an overflow in a mode that rounds it down. */
  lemma PackNormalCorrect(f: Format, w: nat, rm: RM, sign: bool, p: Decoded, v: real)
    requires w >= f.nsig + 3
    requires Pow2(w - 1) <= p.sig < Pow2(w) && v == Units(p.sig, P2(p.exp - w + 1))
    requires p.exp >= f.EMin()
    ensures IsRounded(f, rm, sign, v, PackNormal(f, w, rm, sign, p)) <==> !(p.exp > f.EMax() && TowardZero(rm, sign))
  {
    hide P2, Units, Rounds, PackRounded, IsRounded, Pow2, FRound.RoundBit, FRound.StickyBit, FRound.Kept, RoundUp, Describes;
    var n := f.nsig;
    var kept := FRound.Kept(w, n, p.sig);
    var roundBit, sticky := FRound.RoundBit(w, n, p.sig), FRound.StickyBit(w, n, p.sig);
    FRound.ExactDescribes(w, n, sign, p.sig, p.exp, rm);
    if p.exp > f.EMax() {
      DecisionCorrect(rm, sign, n + 1, kept, p.exp - n, v, roundBit, sticky);
      InfinityCorrect(f, rm, sign, v, kept, p.exp, RoundUp(rm, sign, kept % 2 == 1, roundBit, sticky));
    } else {
      FRound.KeptBounds(w, n, p.sig);
      FRound.NoCarry(w, n, sign, p.sig, p.exp, rm);
      FRound.RoundExact(w, n, sign, p.sig, p.exp, rm);
      PackCorrect(f, rm, sign, v, p.exp, FRound.Round(w, n, sign, p.sig, p.exp, rm));
    }
  }

  /** A correct result is the only one: the register is determined, bit for bit. */
  lemma ResultUnique(f: Format, rm: RM, sign: bool, v: real, lo: nat, e: int, x: RawFloat, y: RawFloat)
    requires InCell(f.nsig + 1, lo, e, v) && IsRounded(f, rm, sign, v, x) && IsRounded(f, rm, sign, v, y)
    requires v >= P2(f.EMin())
    ensures x == y
  {
    hide P2, Units, Rounds, Magnitude, IsOverflow;
    var r :| Rounds(rm, sign, f.nsig + 1, v, r) && IsResult(f, rm, sign, r, x);
    var r' :| Rounds(rm, sign, f.nsig + 1, v, r') && IsResult(f, rm, sign, r', y);
    RoundsUnique(rm, sign, f.nsig + 1, lo, e, v, r, r');
    if r < P2(f.EMax() + 1) {
      MagnitudeInjective(f, x, y);
    } else {
      OverflowUnique(f, rm, sign, x, y);
    }
  }

  lemma MagnitudeInjective(f: Format, x: RawFloat, y: RawFloat)
    requires Fits(f, x) && Fits(f, y) && x.sign == y.sign && Magnitude(f, x) == Magnitude(f, y)
    ensures x == y
  {
    hide P2, Units, Pow2;
    Doubling(f.nsig + 1);
    if x.exp == 0 && y.exp == 0 {
      UnitsInjective(x.frac, y.frac, P2(f.EMin() - f.nsig));
    } else if x.exp == 0 {
      SubnormalBelow(f, x, y);
    } else if y.exp == 0 {
      SubnormalBelow(f, y, x);
    } else {
      NormalisedUnique(f.nsig + 1, Pow2(f.nsig) + x.frac, x.exp - f.Bias() - f.nsig,
                       Pow2(f.nsig) + y.frac, y.exp - f.Bias() - f.nsig);
    }
  }

  lemma SubnormalBelow(f: Format, x: RawFloat, y: RawFloat)
    requires Fits(f, x) && Fits(f, y) && x.exp == 0 && y.exp != 0
    ensures Magnitude(f, x) < Magnitude(f, y)
  {
    hide P2, Units, Pow2;
    P2Scale(f.EMin() - f.nsig, f.nsig);
    UnitsNext(x.frac, P2(f.EMin() - f.nsig));
    UnitsLe(x.frac + 1, Pow2(f.nsig), P2(f.EMin() - f.nsig));
    AtLeastBinade(f.nsig, Pow2(f.nsig) + y.frac, y.exp - f.Bias(), f.EMin());
  }
}
