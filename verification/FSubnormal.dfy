/**
 Results below the normal range. The multiplier and the narrowing conversion shift the exact
 significand down before they round it, and what is shifted out no longer counts.
 */
module FSubnormal {
  import opened Arith
  import opened Rounding
  import opened IntegerRounding
  import opened FloatFormat
  import opened FloatResult
  import FRound
  import FMul
  import FCvt

  /** The smallest subnormal, of which every number below the normal range is a multiple. */
  function Step(f: Format): (u: real)
    ensures u > 0.0
  {
    P2(f.EMin() - f.nsig)
  }

  function InSteps(f: Format, v: real): real { v / Step(f) }

  /** The register is the value v, of the given sign, correctly rounded to a number of steps. */
  ghost predicate IsSubnormalRounded(f: Format, rm: RM, sign: bool, v: real, out: RawFloat) {
    && Fits(f, out) && IsFinite(f, out) && out.sign == sign
    && exists n: nat :: RoundsToInt(rm, sign, InSteps(f, v), n) && Magnitude(f, out) == Units(n, Step(f))
  }

  function PackSubnormal(f: Format, w: nat, rm: RM, sign: bool, p: Decoded): RawFloat
    requires w >= f.nsig + 3 && p.exp < f.EMin()
  {
    var shifted := ShiftRight(p.sig, f.EMin() - p.exp);
    Float(sign, 0, FRound.Round(w, f.nsig, sign, shifted, p.exp, rm).sig % Pow2(f.nsig))
  }

  /** The decision of the rounder, which sees no fraction below the grain. */
  predicate UnitGoesUp(rm: RM, negative: bool, q: real, grain: real) {
    if rm == 0 then Fractional(q) >= 0.5 && (Fractional(q) >= 0.5 + grain || q.Floor % 2 == 1)
    else if rm == 4 then Fractional(q) >= 0.5
    else AwayFromZero(rm, negative) && Fractional(q) >= grain
  }

  /**
   What goes wrong: the bits shifted out would have broken a tie or made the number inexact, or
   the rounding carries into the smallest normal number, whose exponent is not set.
   */
  predicate Spoiled(f: Format, rm: RM, negative: bool, q: real, grain: real) {
    || (rm == 0 && q.Floor % 2 == 0 && 0.5 < Fractional(q) < 0.5 + grain)
    || (AwayFromZero(rm, negative) && 0.0 < Fractional(q) < grain)
    || (q.Floor == Pow2(f.nsig) - 1 && UnitGoesUp(rm, negative, q, grain))
  }

  /** Zero is what q rounds to. */
  predicate RoundsToZero(rm: RM, negative: bool, q: real) {
    if rm == 0 then q <= 0.5 else if rm == 4 then q < 0.5 else if AwayFromZero(rm, negative) then q == 0.0 else q < 1.0
  }

  // ---------------------------------------------------------------------------------------
  // What the rounder is given
  // ---------------------------------------------------------------------------------------

  lemma QuotientAtLeast(x: nat, d: nat, k: nat)
    requires d > 0
    ensures x / d >= k <==> x >= k * d
  {
    var q := x / d;
    assert x == q * d + x % d;
    if q >= k {
      MulMono(k, q, d);
    } else {
      MulMono(q + 1, k, d);
      assert (q + 1) * d == q * d + d;
    }
  }

  lemma UnitsOrder(a: int, b: int, u: real)
    requires u > 0.0
    ensures Units(a, u) >= Units(b, u) <==> a >= b
  {
    hide Units;
    if a >= b {
      UnitsLe(b, a, u);
    } else {
      UnitsLess(a, b, u);
    }
  }

  /** Quotient and remainder of the shifted significand. */
  lemma ShiftedQuotient(sig: nat, d: nat, n: nat)
    requires d > 0 && n > 0
    ensures n * d > 0
    ensures sig / d == sig / (n * d) * n + sig % (n * d) / d && 0 <= sig % (n * d) / d < n
  {
    MulMono(1, n, d);
    var t := n * d;
    var whole, rem := sig / t, sig % t;
    assert sig == whole * t + rem;
    QuotientNonnegative(rem, d);
    QuotientAtLeast(rem, d, n);
    assert rem == rem / d * d + rem % d;
    assert whole * (n * d) == whole * n * d;
    assert (whole * n + rem / d) * d == whole * n * d + rem / d * d;
    DivUnique(sig, d, whole * n + rem / d, rem % d);
  }

  /** Fractions of the grain, of a half, and of a half and a grain, as remainders. */
  lemma Thresholds(rem: nat, half: nat, d: nat, u: real, grain: real)
    requires u > 0.0 && Units(d, u) == grain && Units(half, u) == 0.5
    ensures Units(rem, u) >= grain <==> rem >= d
    ensures Units(rem, u) >= 0.5 <==> rem >= half
    ensures Units(rem, u) >= 0.5 + grain <==> rem >= half + d
  {
    hide Units;
    UnitsPlus(half, d, u);
    UnitsOrder(rem, d, u);
    UnitsOrder(rem, half, u);
    UnitsOrder(rem, half + d, u);
  }

  /** Kept bits, round bit and sticky bit of a shifted significand, with l bits dropped by the rounder. */
  lemma ShiftedBits(w: nat, n: nat, sig: nat, s: nat, l: nat)
    requires l >= 2 && w == n + 1 + l
    ensures var shifted, rem, half, d := ShiftRight(sig, s), sig % Pow2(l + s), Pow2(l - 1) * Pow2(s), Pow2(s);
      && FRound.Kept(w, n, shifted) == sig / Pow2(l + s) && 2 * half == Pow2(l + s)
      && (FRound.RoundBit(w, n, shifted) <==> rem >= half)
      && (FRound.StickyBit(w, n, shifted) <==> if rem >= half then rem >= half + d else rem >= d)
  {
    hide Pow2, FRound.Kept, FRound.RoundBit, FRound.StickyBit;
    Pow2Add(l, s);
    Doubling(l);
    Twice(Pow2(l - 1), Pow2(s));
    var whole, high, low := SplitBits(sig, Pow2(s), Pow2(l - 1));
    FRound.PartsOf(w, n, sig / Pow2(s), whole, high, low);
  }

  lemma SplitBits(sig: nat, d: nat, h: nat) returns (whole: nat, high: bool, low: nat)
    requires d > 0 && h > 0
    ensures sig / d == whole * (2 * h) + (if high then h else 0) + low && low < h
    ensures 2 * h * d > 0 && whole == sig / (2 * h * d)
    ensures var rem := sig % (2 * h * d);
      && (high <==> rem >= h * d) && (low != 0 <==> if high then rem >= h * d + d else rem >= d)
  {
    ShiftedQuotient(sig, d, 2 * h);
    var rem := sig % (2 * h * d);
    TopBits(rem, d, h);
    QuotientNonnegative(sig, 2 * h * d);
    whole, high := sig / (2 * h * d), rem / d >= h;
    low := if high then rem / d - h else rem / d;
  }

  lemma TopBits(rem: nat, d: nat, h: nat)
    requires d > 0
    ensures rem / d >= h <==> rem >= h * d
    ensures rem / d > h <==> rem >= h * d + d
    ensures rem / d > 0 <==> rem >= d
  {
    QuotientAtLeast(rem, d, 1);
    QuotientAtLeast(rem, d, h);
    QuotientAtLeast(rem, d, h + 1);
    assert (h + 1) * d == h * d + d;
  }

  lemma Twice(h: nat, d: nat)
    ensures 2 * h * d == 2 * (h * d)
  {
  }

  /** The value in steps, cut by the shift: integer part, round bit and sticky bit. */
  lemma ShiftedParts(w: nat, n: nat, sig: nat, s: nat, q: real)
    requires w >= n + 3 && q == Units(sig, P2(n + 1 - w - s))
    ensures var shifted, grain := ShiftRight(sig, s), P2(n + 1 - w);
      && 0.0 < grain <= 0.5 && q.Floor == FRound.Kept(w, n, shifted)
      && (FRound.RoundBit(w, n, shifted) <==> Fractional(q) >= 0.5)
      && (FRound.StickyBit(w, n, shifted) <==> if Fractional(q) >= 0.5 then Fractional(q) >= 0.5 + grain else Fractional(q) >= grain)
  {
    hide P2, Units, Pow2, FRound.Kept, FRound.RoundBit, FRound.StickyBit, Fractional, ShiftRight;
    var l: nat := w - n - 1;
    var t: nat := l + s;
    var u, half := P2(-(t as int)), Pow2(l - 1) * Pow2(s);
    ShiftedBits(w, n, sig, s, l);
    P2Scale(-(t as int), s);
    P2Scale(-(t as int), t);
    P2Zero();
    SmallGrain(l);
    WholeAndFraction(sig, t, q);
    HalfOfOne(half, u);
    Thresholds(sig % Pow2(t), half, Pow2(s), u, P2(-(l as int)));
  }

  lemma SmallGrain(l: nat)
    requires l >= 2
    ensures 0.0 < P2(-(l as int)) <= 0.5
  {
    hide P2;
    P2Zero();
    P2Next(-1);
    P2Mono(-(l as int), -1);
  }

  lemma HalfOfOne(half: nat, u: real)
    requires Units(2 * half, u) == 1.0
    ensures Units(half, u) == 0.5
  {
    UnitsPlus(half, half, u);
  }

  lemma RounderGoesUp(w: nat, n: nat, sig: nat, s: nat, exp: int, q: real, rm: RM, sign: bool)
    requires w >= n + 3 && q == Units(sig, P2(n + 1 - w - s)) && 0 <= q.Floor < Pow2(n)
    ensures FRound.Round(w, n, sign, ShiftRight(sig, s), exp, rm).sig
      == q.Floor + if UnitGoesUp(rm, sign, q, P2(n + 1 - w)) then 1 else 0
  {
    hide P2, Units, FRound.Kept, FRound.RoundBit, FRound.StickyBit, Fractional, ShiftRight;
    ShiftedParts(w, n, sig, s, q);
    Doubling(n + 1);
  }

  // ---------------------------------------------------------------------------------------
  // The packed register
  // ---------------------------------------------------------------------------------------

  /** A value in steps of the format. */
  lemma StepsOf(f: Format, w: nat, sig: nat, exp: int, v: real)
    requires v == Units(sig, P2(exp - w + 1))
    ensures InSteps(f, v) == Units(sig, P2(f.nsig + 1 - w - (f.EMin() - exp)))
  {
    hide P2;
    var e := f.nsig + 1 - w - (f.EMin() - exp);
    P2Product(e, f.EMin() - f.nsig);
    Quotient(sig as real, P2(e), Step(f));
  }

  lemma Quotient(m: real, a: real, b: real)
    requires b > 0.0
    ensures m * (a * b) / b == m * a
  {
    assert m * (a * b) == (m * a) * b;
  }

  lemma SubnormalRegister(f: Format, sign: bool, m: nat)
    requires m < Pow2(f.nsig)
    ensures var out := Float(sign, 0, m);
      Fits(f, out) && IsFinite(f, out) && Magnitude(f, out) == Units(m, Step(f))
  {
    hide P2, Units;
    FieldBounds(f);
  }

  /** A register of m steps is right exactly when m is the rounded number of steps. */
  lemma RightRegister(f: Format, rm: RM, sign: bool, v: real, m: nat)
    requires m < Pow2(f.nsig)
    ensures IsSubnormalRounded(f, rm, sign, v, Float(sign, 0, m)) <==> RoundsToInt(rm, sign, InSteps(f, v), m)
  {
    hide P2, Units, Pow2, RoundsToInt, Step, InSteps, Magnitude, IsFinite;
    SubnormalRegister(f, sign, m);
    forall n: nat
      ensures Units(n, Step(f)) == Units(m, Step(f)) <==> n == m
    {
      UnitsInjective(n, m, Step(f));
    }
  }

  /** In the subnormal range the register is right exactly when nothing named spoils it. */
  lemma PackedExactlyWhen(f: Format, w: nat, rm: RM, sign: bool, p: Decoded, v: real)
    requires w >= f.nsig + 3 && Pow2(w - 1) <= p.sig < Pow2(w)
    requires f.EMin() - f.nsig <= p.exp < f.EMin() && v == Units(p.sig, P2(p.exp - w + 1))
    ensures IsSubnormalRounded(f, rm, sign, v, PackSubnormal(f, w, rm, sign, p)) <==>
      !Spoiled(f, rm, sign, InSteps(f, v), P2(f.nsig + 1 - w))
  {
    hide P2, Units, Pow2, RoundsToInt, InSteps, IsSubnormalRounded, Fractional, FRound.Round, ShiftRight;
    var q, grain := InSteps(f, v), P2(f.nsig + 1 - w);
    StepsOf(f, w, p.sig, p.exp, v);
    FieldBounds(f);
    StepsBound(f, w, p, v);
    RounderGoesUp(w, f.nsig, p.sig, f.EMin() - p.exp, p.exp, q, rm, sign);
    var rounded := q.Floor + if UnitGoesUp(rm, sign, q, grain) then 1 else 0;
    var m := if rounded == Pow2(f.nsig) then 0 else rounded;
    if rounded == Pow2(f.nsig) {
      DivUnique(rounded, Pow2(f.nsig), 1, 0);
    } else {
      SmallResidue(rounded, Pow2(f.nsig));
    }
    RightRegister(f, rm, sign, v, m);
    IntegerRounded(rm, sign, q, m);
    DecisionSpoiled(f, rm, sign, q, grain);
  }

  lemma DecisionSpoiled(f: Format, rm: RM, sign: bool, q: real, grain: real)
    requires 0.0 < grain <= 0.5
    ensures UnitGoesUp(rm, sign, q, grain) == GoesUp(rm, sign, q) <==>
      !((rm == 0 && q.Floor % 2 == 0 && 0.5 < Fractional(q) < 0.5 + grain) || (AwayFromZero(rm, sign) && 0.0 < Fractional(q) < grain))
  {
    hide Fractional;
    FractionalBounds(q);
  }

  lemma FractionalBounds(q: real)
    ensures 0.0 <= Fractional(q) < 1.0
  {
  }

  /** Below the normal range there are fewer steps than fit the fraction. */
  lemma StepsBound(f: Format, w: nat, p: Decoded, v: real)
    requires w >= f.nsig + 3 && Pow2(w - 1) <= p.sig < Pow2(w)
    requires p.exp < f.EMin() && v == Units(p.sig, P2(p.exp - w + 1))
    ensures 0 <= InSteps(f, v).Floor < Pow2(f.nsig) && 0.0 < P2(f.nsig + 1 - w) <= 0.5
  {
    hide P2, Units, Pow2, InSteps, Fractional;
    var n := f.nsig;
    var t: nat := w - n - 1 + (f.EMin() - p.exp);
    StepsOf(f, w, p.sig, p.exp, v);
    WholeAndFraction(p.sig, t, InSteps(f, v));
    Pow2Mono(w, n + t);
    Pow2Add(n, t);
    QuotientAtLeast(p.sig, Pow2(t), Pow2(n));
    SmallGrain(w - n - 1);
  }

  /** Zero is right exactly when the value is so small that the mode rounds it to zero. */
  lemma FlushedExactlyWhen(f: Format, rm: RM, sign: bool, v: real)
    requires v >= 0.0
    ensures IsSubnormalRounded(f, rm, sign, v, Float(sign, 0, 0)) <==> RoundsToZero(rm, sign, InSteps(f, v))
  {
    hide P2, IsSubnormalRounded, Step;
    FieldBounds(f);
    RightRegister(f, rm, sign, v, 0);
    assert InSteps(f, v) >= 0.0;
  }

  // ---------------------------------------------------------------------------------------
  // The two units
  // ---------------------------------------------------------------------------------------

  /** The multiplier on every pair of finite nonzero operands whose product is below the normal range. */
  lemma SubnormalProductExactlyWhen(f: Format, rm: RM, a: RawFloat, b: RawFloat)
    requires Fits(f, a) && Fits(f, b) && IsFinite(f, a) && IsFinite(f, b)
    requires !ClassOf(f, a).ZERO? && !ClassOf(f, b).ZERO?
    requires Magnitude(f, a) * Magnitude(f, b) < P2(f.EMin())
    ensures var v, sign := Magnitude(f, a) * Magnitude(f, b), a.sign != b.sign;
      IsSubnormalRounded(f, rm, sign, v, FMul.Multiply(f, rm, a, b)) <==>
        if (ClassOf(f, a).SUB? && ClassOf(f, b).SUB?) || v < Step(f) then RoundsToZero(rm, sign, InSteps(f, v))
        else !Spoiled(f, rm, sign, InSteps(f, v), P2(-(f.nsig as int) - 1))
  {
    hide P2, Units, Pow2, Magnitude, Decode, ClassOf, FMul.Product, IsSubnormalRounded, Spoiled, RoundsToZero, InSteps, PackSubnormal, FRound.Round;
    var v, sign := Magnitude(f, a) * Magnitude(f, b), a.sign != b.sign;
    var p := FMul.Product(f, Decode(f, a), Decode(f, b));
    DecodeKeepsValue(f, a);
    DecodeKeepsValue(f, b);
    FMul.ProductExact(f, Decode(f, a), Decode(f, b));
    BinadeOf(FMul.Width(f) - 1, p.sig, p.exp, f.EMin());
    BinadeOf(FMul.Width(f) - 1, p.sig, p.exp, f.EMin() - f.nsig);
    PositiveUnits(p.sig, P2(p.exp - FMul.Width(f) + 1));
    FlushedExactlyWhen(f, rm, sign, v);
    if p.exp >= f.EMin() - f.nsig {
      PackedExactlyWhen(f, FMul.Width(f), rm, sign, p, v);
      SamePacking(f, rm, sign, p);
    }
  }

  lemma PositiveUnits(m: nat, u: real)
    requires u > 0.0
    ensures Units(m, u) >= 0.0
  {
    UnitsLe(0, m, u);
  }

  lemma SamePacking(f: Format, rm: RM, sign: bool, p: Decoded)
    requires f.EMin() - f.nsig <= p.exp < f.EMin()
    ensures FMul.Pack(f, rm, sign, p) == PackSubnormal(f, FMul.Width(f), rm, sign, p)
  {
    hide FRound.Round, Pow2;
  }

  /** The narrowing conversion on every finite double below the normal range of single. */
  lemma SubnormalNarrowExactlyWhen(rm: RM, x: RawFloat)
    requires Fits(DOUBLE, x) && IsFinite(DOUBLE, x) && Magnitude(DOUBLE, x) < P2(-126)
    ensures var v := Magnitude(DOUBLE, x);
      IsSubnormalRounded(SINGLE, rm, x.sign, v, FCvt.Narrow(rm, x)) <==>
        if v < P2(-149) then RoundsToZero(rm, x.sign, v / P2(-149)) else !Spoiled(SINGLE, rm, x.sign, v / P2(-149), P2(-29))
  {
    hide P2, Units, Pow2, Magnitude, Decode, ClassOf, IsSubnormalRounded, Spoiled, RoundsToZero, PackSubnormal, FRound.Round;
    var v, d := Magnitude(DOUBLE, x), Decode(DOUBLE, x);
    ExponentRanges();
    if ClassOf(DOUBLE, x).ZERO? {
      ZeroNarrowed(x);
      FlushedExactlyWhen(SINGLE, rm, x.sign, v);
    } else {
      DecodeKeepsValue(DOUBLE, x);
      BinadeOf(52, d.sig, d.exp, -126);
      BinadeOf(52, d.sig, d.exp, -149);
      PositiveUnits(d.sig, P2(d.exp - 52));
      FlushedExactlyWhen(SINGLE, rm, x.sign, v);
      if d.exp >= -149 {
        PackedExactlyWhen(SINGLE, 53, rm, x.sign, d, v);
        SameNarrowing(rm, x.sign, d);
      }
    }
  }

  lemma SameNarrowing(rm: RM, sign: bool, d: Decoded)
    requires -149 <= d.exp < -126
    ensures FCvt.NarrowSubnormal(rm, sign, d) == PackSubnormal(SINGLE, 53, rm, sign, d)
  {
    hide FRound.Round, Pow2;
    FCvt.Widths();
    ExponentRanges();
  }

  lemma ZeroNarrowed(x: RawFloat)
    requires Fits(DOUBLE, x) && ClassOf(DOUBLE, x).ZERO?
    ensures Magnitude(DOUBLE, x) == 0.0 < P2(-149) && Decode(DOUBLE, x).exp < -149
  {
    hide P2, Pow2;
    FCvt.Widths();
    UnitsOne(P2(DOUBLE.EMin() - DOUBLE.nsig));
    FCvt.ZeroDecoded(x);
  }
}
