/**
 The restoring floating-point divider: one quotient digit a clock, then a normalising clock,
 then a clock that rounds and packs. One activation on finite nonzero operands held stable.
 */
module FDiv {
  import opened Arith
  import opened Rounding
  import opened FloatFormat
  import opened FloatResult
  import FRound

  datatype Regs = Regs(counter: nat, aSig: nat, qSig: nat, expIn: int, divOut: RawFloat)

  /** One digit: subtract if it fits, and shift the remainder up. */
  function Digit(bSig: nat, aSig: nat, qSig: nat): (nat, nat) {
    if aSig >= bSig then (2 * (aSig - bSig), 2 * qSig + 1) else (2 * aSig, 2 * qSig)
  }

  /** Width of the significand handed to the rounder, {qSig, aSig}. */
  function RoundWidth(f: Format): nat { 2 * (f.nsig + 3) }

  function RoundInput(f: Format, r: Regs): nat {
    r.qSig * Pow2(f.nsig + 3) + r.aSig
  }

  function RoundedInfinity(f: Format, rm: RM, sign: bool): RawFloat {
    var si := rm == 1 || (rm == 2 && !sign) || (rm == 3 && sign);
    if si then MaxFinite(f, sign) else Infinity(f, sign)
  }

  function Output(f: Format, rm: RM, sign: bool, r: FRound.Rounded): RawFloat {
    if r.sig == 0 then Float(rm == 2, 0, 0)
    else if r.exp < f.EMin() then Float(sign, 0, r.sig % Pow2(f.nsig))
    else if r.exp > f.EMax() then RoundedInfinity(f, rm, sign)
    else PackRounded(f, sign, r)
  }

  function Clock(f: Format, rm: RM, a: RawFloat, b: RawFloat, r: Regs): Regs {
    var x, y := Decode(f, a), Decode(f, b);
    var sign := a.sign != b.sign;
    if r.counter == 0 then
      var (aSig, qSig) := Digit(y.sig, x.sig, 0);
      r.(counter := f.nsig + 4, aSig := aSig, qSig := qSig)
    else if r.counter > 2 then
      var (aSig, qSig) := Digit(y.sig, r.aSig, r.qSig);
      r.(counter := r.counter - 1, aSig := aSig, qSig := qSig)
    else if r.counter == 2 then
      var expNorm := if r.qSig >= Pow2(f.nsig + 2) then 0 else 1;
      r.(counter := 1, expIn := x.exp - y.exp - expNorm, qSig := if expNorm == 1 then 2 * r.qSig else r.qSig)
    else
      r.(counter := 0,
         divOut := Output(f, rm, sign, FRound.Round(RoundWidth(f), f.nsig, sign, RoundInput(f, r), r.expIn, rm)))
  }

  function Clocks(f: Format, rm: RM, a: RawFloat, b: RawFloat, r: Regs, n: nat): Regs {
    if n == 0 then r else Clock(f, rm, a, b, Clocks(f, rm, a, b, r, n - 1))
  }

  // ---------------------------------------------------------------------------------------
  // The recurrence
  // ---------------------------------------------------------------------------------------

  /** After n digits: A * 2^(n-1) = q * B + rem, with the remainder kept doubled. */
  ghost predicate Digits(A: nat, B: nat, aSig: nat, qSig: nat, n: nat, rem: nat) {
    && n >= 1 && aSig == 2 * rem && rem < B && qSig < Pow2(n)
    && A * Pow2(n - 1) == qSig * B + rem
  }

  lemma FirstDigit(A: nat, B: nat) returns (rem: nat)
    requires A < 2 * B
    ensures var (a, q) := Digit(B, A, 0); Digits(A, B, a, q, 1, rem)
  {
    rem := if A >= B then A - B else A;
    assert Pow2(1) == 2;
  }

  lemma NextDigit(A: nat, B: nat, aSig: nat, qSig: nat, n: nat, rem: nat) returns (next: nat)
    requires Digits(A, B, aSig, qSig, n, rem)
    ensures var (a, q) := Digit(B, aSig, qSig); Digits(A, B, a, q, n + 1, next)
  {
    next := if aSig >= B then aSig - B else aSig;
    assert Pow2(n) == 2 * Pow2(n - 1);
    assert A * Pow2(n) == 2 * (A * Pow2(n - 1));
    assert (2 * qSig) * B == 2 * (qSig * B);
    assert (2 * qSig + 1) * B == 2 * (qSig * B) + B;
  }

  /** The operands of an activation: finite, nonzero. */
  predicate Operand(f: Format, a: RawFloat) {
    Fits(f, a) && IsFinite(f, a) && !ClassOf(f, a).ZERO?
  }

  lemma {:induction false} DigitsAfter(f: Format, rm: RM, a: RawFloat, b: RawFloat, r: Regs, n: nat) returns (rem: nat)
    requires r.counter == 0 && Operand(f, a) && Operand(f, b) && 1 <= n <= f.nsig + 3
    ensures var s := Clocks(f, rm, a, b, r, n);
      s.counter == f.nsig + 5 - n && Digits(Decode(f, a).sig, Decode(f, b).sig, s.aSig, s.qSig, n, rem)
  {
    hide Decode, Digits, Digit, Pow2, Output, Operand;
    if n == 1 {
      BothNormalised(f, a, b);
      assert Clocks(f, rm, a, b, r, 0) == r;
      rem := FirstDigit(Decode(f, a).sig, Decode(f, b).sig);
    } else {
      var before := DigitsAfter(f, rm, a, b, r, n - 1);
      var s := Clocks(f, rm, a, b, r, n - 1);
      rem := NextDigit(Decode(f, a).sig, Decode(f, b).sig, s.aSig, s.qSig, n - 1, before);
    }
  }

  lemma BothNormalised(f: Format, a: RawFloat, b: RawFloat)
    requires Operand(f, a) && Operand(f, b)
    ensures Decode(f, a).sig < 2 * Decode(f, b).sig
  {
    hide Decode, Magnitude, P2, Units, Pow2;
    DecodeKeepsValue(f, a);
    DecodeKeepsValue(f, b);
    Doubling(f.nsig + 1);
  }

  // ---------------------------------------------------------------------------------------
  // From digits to a rounded quotient
  // ---------------------------------------------------------------------------------------

  /** The digits are the quotient: q units of w, and a part of one more unless the remainder is zero. */
  lemma QuotientInUnits(A: nat, B: nat, q: nat, rem: nat, k: nat, e: int, v: real)
    requires B > 0 && A * Pow2(k) == q * B + rem && rem < B
    requires v * (B as real) == Units(A, P2(e + k))
    ensures Units(q, P2(e)) <= v < Units(q + 1, P2(e)) && (rem != 0 <==> v != Units(q, P2(e)))
  {
    hide P2, Pow2;
    var w := P2(e);
    P2Scale(e, k);
    UnitsScale(A, Pow2(k), w);
    assert v * (B as real) == Units(q * B + rem, w);
    UnitsPlus(q * B, rem, w);
    UnitsTimes(q, B, w);
    Divide(v, Units(q, w), B as real, rem as real, w);
    UnitsNext(q, w);
  }

  lemma UnitsTimes(q: nat, B: nat, w: real)
    ensures Units(q * B, w) == Units(q, w) * (B as real)
  {
    assert (q * B) as real == q as real * B as real;
  }

  lemma Divide(v: real, base: real, b: real, rem: real, w: real)
    requires b > 0.0 && w > 0.0 && 0.0 <= rem < b && v * b == base * b + rem * w
    ensures base <= v < base + w && (rem != 0.0 <==> v != base)
  {
    var x := v - base;
    assert x * b == rem * w;
    assert w * b == b * w;
    if x < 0.0 {
      MulLt(x, 0.0, b);
      MulLe(0.0, rem, w);
    }
    if x >= w {
      MulLe(w, x, b);
      MulLt(rem, b, w);
    }
    if x > 0.0 {
      MulLt(0.0, x, b);
    }
    if rem > 0.0 {
      MulLt(0.0, rem, w);
    }
  }

  /** Taking {qSig, aSig} apart again: kept bits, round bit and sticky bit. */
  lemma RoundInputParts(f: Format, q: nat, a: nat, hi: nat, lo: nat)
    requires q == 4 * hi + lo && lo < 4 && a < Pow2(f.nsig + 3)
    ensures var sig := q * Pow2(f.nsig + 3) + a;
      && FRound.Kept(RoundWidth(f), f.nsig, sig) == hi
      && (FRound.RoundBit(RoundWidth(f), f.nsig, sig) <==> lo >= 2)
      && (FRound.StickyBit(RoundWidth(f), f.nsig, sig) <==> (lo % 2 == 1 || a != 0))
  {
    hide Pow2, FRound.Kept, FRound.RoundBit, FRound.StickyBit;
    var n := Pow2(f.nsig + 3);
    Doubling(f.nsig + 4);
    Doubling(f.nsig + 5);
    Spread(hi, lo, n, a);
    FRound.PartsOf(RoundWidth(f), f.nsig, q * n + a, hi, lo >= 2, if lo >= 2 then (lo - 2) * n + a else lo * n + a);
  }

  lemma Spread(hi: nat, lo: nat, n: nat, a: nat)
    requires lo < 4 && a < n
    ensures (4 * hi + lo) * n + a == hi * (4 * n) + (lo * n + a)
    ensures 0 <= lo * n + a < 4 * n && (lo >= 2 ==> lo * n + a == 2 * n + ((lo - 2) * n + a) && (lo - 2) * n + a < 2 * n)
    ensures lo < 2 ==> lo * n + a < 2 * n
    ensures lo % 2 == 1 || a != 0 <==> (if lo >= 2 then (lo - 2) * n + a else lo * n + a) != 0
  {
    if lo == 0 {} else if lo == 1 {} else if lo == 2 {} else {}
  }

  /** What the rounder is given describes the exact quotient to every mode. */
  lemma QuotientDescribed(f: Format, r: Regs, A: nat, B: nat, rem: nat, e: int, v: real, rm: RM, sign: bool)
    requires Pow2(f.nsig) <= A < Pow2(f.nsig + 1) && Pow2(f.nsig) <= B < Pow2(f.nsig + 1)
    requires Digits(A, B, r.aSig, r.qSig, f.nsig + 3, rem)
    requires v * (B as real) == Units(A, P2(e))
    ensures var expNorm := if r.qSig >= Pow2(f.nsig + 2) then 0 else 1;
      var q := if expNorm == 1 then 2 * r.qSig else r.qSig;
      var sig := RoundInput(f, r.(qSig := q));
      var kept := FRound.Kept(RoundWidth(f), f.nsig, sig);
      && InCell(f.nsig + 1, kept, e - expNorm - f.nsig, v)
      && Describes(rm, sign, kept, e - expNorm - f.nsig, v,
                   FRound.RoundBit(RoundWidth(f), f.nsig, sig), FRound.StickyBit(RoundWidth(f), f.nsig, sig))
  {
    hide P2, Units, Describes, InCell, FRound.Kept, FRound.RoundBit, FRound.StickyBit, Pow2;
    var n := f.nsig;
    var q, w := r.qSig, P2(e - n - 2);
    QuotientRange(A, B, q, rem, n);
    QuotientInUnits(A, B, q, rem, n + 2, e - n - 2, v);
    Doubling(n + 1);
    Doubling(n + 2);
    Doubling(n + 3);
    UnitsTwice(w);
    P2Next(e - n - 2);
    if q >= Pow2(n + 2) {
      FourUnits(e - n - 2);
      RoundInputParts(f, q, r.aSig, q / 4, q % 4);
      FRound.DigitsDescribe(n + 1, q, q / 4, q % 4, 4, e - n, w, v, rm, sign, rem != 0);
    } else {
      RoundInputParts(f, 2 * q, r.aSig, q / 2, 2 * (q % 2));
      FRound.DigitsDescribe(n + 1, q, q / 2, q % 2, 2, e - 1 - n, w, v, rm, sign, rem != 0);
    }
  }

  lemma FourUnits(e: int)
    ensures P2(e + 2) == Units(4, P2(e))
  {
    hide P2;
    P2Next(e);
    P2Next(e + 1);
  }

  /** The first digit may be zero, the second is not then: the quotient fills its register or misses one bit. */
  lemma QuotientRange(A: nat, B: nat, q: nat, rem: nat, n: nat)
    requires Pow2(n) <= A && B < Pow2(n + 1) && A * Pow2(n + 2) == q * B + rem && rem < B
    ensures q >= Pow2(n + 1)
  {
    assert (q + 1) * B == q * B + B;
    if q + 1 <= Pow2(n + 1) {
      MulMono(q + 1, Pow2(n + 1), B);
      MulMono(Pow2(n), A, Pow2(n + 2));
    }
  }

  /** The exponent the divider assigns to the quotient. */
  function QuotientExp(f: Format, a: RawFloat, b: RawFloat): int {
    Decode(f, a).exp - Decode(f, b).exp - if Decode(f, a).sig < Decode(f, b).sig then 1 else 0
  }

  /** The top digit says which significand was the larger. */
  lemma TopDigit(A: nat, B: nat, q: nat, rem: nat, n: nat)
    requires B > 0 && A * Pow2(n) == q * B + rem && rem < B
    ensures q >= Pow2(n) <==> A >= B
  {
    if A >= B {
      if q + 1 <= Pow2(n) {
        assert (q + 1) * B == q * B + B;
        MulMono(q + 1, Pow2(n), B);
        MulMono(B, A, Pow2(n));
      }
    } else if q >= Pow2(n) {
      assert (A + 1) * Pow2(n) == A * Pow2(n) + Pow2(n);
      MulMono(Pow2(n), q, B);
      MulMono(A + 1, B, Pow2(n));
    }
  }

  /** x / y, for a divisor that is not zero. */
  function Ratio(x: real, y: real): real { if y == 0.0 then 0.0 else x / y }

  /** Decoded significands stand in the ratio of the magnitudes. */
  lemma RatioOfMagnitudes(f: Format, a: RawFloat, b: RawFloat)
    requires Operand(f, a) && Operand(f, b)
    ensures Ratio(Magnitude(f, a), Magnitude(f, b)) * (Decode(f, b).sig as real)
      == Units(Decode(f, a).sig, P2(Decode(f, a).exp - Decode(f, b).exp))
  {
    hide Decode, Magnitude, P2, Pow2, Units;
    DecodeKeepsValue(f, a);
    DecodeKeepsValue(f, b);
    var x, y := Decode(f, a), Decode(f, b);
    P2Product(y.exp - f.nsig, x.exp - y.exp);
    Cancel(x.sig, y.sig, P2(x.exp - f.nsig), P2(y.exp - f.nsig), P2(x.exp - y.exp));
  }

  lemma Cancel(a: nat, b: nat, p: real, q: real, r: real)
    requires b >= 1 && p == q * r && q > 0.0
    ensures Units(b, q) > 0.0 && Ratio(Units(a, p), Units(b, q)) * b as real == Units(a, r)
  {
    var x, y := a as real, b as real;
    MulLt(0.0, y, q);
    var d := Ratio(Units(a, p), Units(b, q));
    RatioTimes(Units(a, p), Units(b, q));
    assert d * (y * q) == d * y * q;
    assert x * p == x * r * q;
    CancelFactor(d * y, x * r, q);
  }

  lemma RatioTimes(x: real, y: real)
    requires y > 0.0
    ensures Ratio(x, y) * y == x
  {
  }

  lemma CancelFactor(x: real, y: real, q: real)
    requires q > 0.0 && x * q == y * q
    ensures x == y
  {
    if x < y { MulLt(x, y, q); } else if y < x { MulLt(y, x, q); }
  }

  /** The quotient lies in the binade of its exponent. */
  lemma NormalisedQuotient(f: Format, r: Regs, a: RawFloat, b: RawFloat, rem: nat)
    requires Operand(f, a) && Operand(f, b)
    requires Digits(Decode(f, a).sig, Decode(f, b).sig, r.aSig, r.qSig, f.nsig + 3, rem)
    ensures QuotientExp(f, a, b) ==
      Decode(f, a).exp - Decode(f, b).exp - (if r.qSig >= Pow2(f.nsig + 2) then 0 else 1)
  {
    hide Decode;
    TopDigit(Decode(f, a).sig, Decode(f, b).sig, r.qSig, rem, f.nsig + 2);
  }

  /** The clock after the last digit normalises the quotient and describes it to the rounder. */
  lemma NormaliseClock(f: Format, rm: RM, a: RawFloat, b: RawFloat, s: Regs, rem: nat)
    requires s.counter == 2 && Operand(f, a) && Operand(f, b)
    requires Digits(Decode(f, a).sig, Decode(f, b).sig, s.aSig, s.qSig, f.nsig + 3, rem)
    ensures var t := Clock(f, rm, a, b, s);
      && t.counter == 1 && t.expIn == QuotientExp(f, a, b)
      && Described(f, rm, a.sign != b.sign, t, Ratio(Magnitude(f, a), Magnitude(f, b)))
  {
    hide Decode, Magnitude, P2, Units, Digits, Digit, Operand, QuotientExp, Ratio, Describes, InCell, Pow2, Output,
      FRound.Kept, FRound.RoundBit, FRound.StickyBit, FRound.Round;
    var v := Ratio(Magnitude(f, a), Magnitude(f, b));
    RatioOfMagnitudes(f, a, b);
    Normalised(f, a);
    Normalised(f, b);
    QuotientDescribed(f, s, Decode(f, a).sig, Decode(f, b).sig, rem, Decode(f, a).exp - Decode(f, b).exp, v, rm, a.sign != b.sign);
    NormalisedQuotient(f, s, a, b, rem);
  }

  /** What the rounder needs to know of v. */
  ghost predicate Described(f: Format, rm: RM, sign: bool, t: Regs, v: real) {
    var sig := RoundInput(f, t);
    var kept := FRound.Kept(RoundWidth(f), f.nsig, sig);
    && InCell(f.nsig + 1, kept, t.expIn - f.nsig, v)
    && Describes(rm, sign, kept, t.expIn - f.nsig, v,
                 FRound.RoundBit(RoundWidth(f), f.nsig, sig), FRound.StickyBit(RoundWidth(f), f.nsig, sig))
  }

  /**
   One activation takes nsig + 5 clocks and leaves the exact quotient correctly rounded in every
   mode, the overflow value included, whenever the quotient is not below the normal range.
   */
  lemma DivideCorrect(f: Format, rm: RM, a: RawFloat, b: RawFloat, r: Regs)
    requires r.counter == 0 && Operand(f, a) && Operand(f, b) && rm <= 4
    requires Ratio(Magnitude(f, a), Magnitude(f, b)) >= P2(f.EMin())
    ensures var s := Clocks(f, rm, a, b, r, f.nsig + 5);
      && s.counter == 0
      && IsRounded(f, rm, a.sign != b.sign, Ratio(Magnitude(f, a), Magnitude(f, b)), s.divOut)
  {
    hide Decode, Magnitude, Digits, Digit, Operand, QuotientExp, Described, FRound.Round, RoundInput, Output, IsRounded, Ratio, Pow2, P2;
    var rem := DigitsAfter(f, rm, a, b, r, f.nsig + 3);
    var s := Clocks(f, rm, a, b, r, f.nsig + 3);
    var t := Clock(f, rm, a, b, s);
    assert Clocks(f, rm, a, b, r, f.nsig + 4) == t;
    assert Clocks(f, rm, a, b, r, f.nsig + 5) == Clock(f, rm, a, b, t);
    NormaliseClock(f, rm, a, b, s, rem);
    InNormalRange(f, rm, a.sign != b.sign, t, Ratio(Magnitude(f, a), Magnitude(f, b)));
    OutputCorrect(f, rm, a.sign != b.sign, t, Ratio(Magnitude(f, a), Magnitude(f, b)));
  }

  lemma InNormalRange(f: Format, rm: RM, sign: bool, t: Regs, v: real)
    requires Described(f, rm, sign, t, v)
    ensures v >= P2(f.EMin()) <==> t.expIn >= f.EMin()
  {
    hide P2, Units, Pow2, Describes, InCell, FRound.Kept, FRound.RoundBit, FRound.StickyBit;
    BinadeOfCell(f.nsig, FRound.Kept(RoundWidth(f), f.nsig, RoundInput(f, t)), t.expIn, v, f.EMin());
  }

  lemma Normalised(f: Format, a: RawFloat)
    requires Operand(f, a)
    ensures Pow2(f.nsig) <= Decode(f, a).sig < Pow2(f.nsig + 1)
  {
    hide Decode, Magnitude, P2, Units, Pow2;
    DecodeKeepsValue(f, a);
  }

  lemma OutputCorrect(f: Format, rm: RM, sign: bool, t: Regs, v: real)
    requires rm <= 4 && t.expIn >= f.EMin()
    requires Described(f, rm, sign, t, v)
    ensures IsRounded(f, rm, sign, v, Output(f, rm, sign, FRound.Round(RoundWidth(f), f.nsig, sign, RoundInput(f, t), t.expIn, rm)))
  {
    hide P2, Units, Rounds, Describes, InCell, FRound.Round, RoundInput, IsRounded, PackRounded, FRound.Kept, FRound.RoundBit, FRound.StickyBit;
    FRound.RoundCorrect(RoundWidth(f), f.nsig, sign, RoundInput(f, t), t.expIn, rm, v);
    ChoiceCorrect(f, rm, sign, v, FRound.Round(RoundWidth(f), f.nsig, sign, RoundInput(f, t), t.expIn, rm),
                  RoundedInfinity(f, rm, sign));
  }

  // ---------------------------------------------------------------------------------------
  // The registers, updated in place
  // ---------------------------------------------------------------------------------------

  class Divider {
    const f: Format
    var counter: nat
    var aSig: nat
    var bSig: nat
    var qSig: nat
    var expIn: int
    var divOut: RawFloat

    constructor (f: Format)
      ensures this.f == f && counter == 0
    {
      this.f, counter, aSig, bSig, qSig, expIn, divOut := f, 0, 0, 0, 0, 0, Float(false, 0, 0);
    }

    function Snapshot(): Regs
      reads this
    {
      Regs(counter, aSig, qSig, expIn, divOut)
    }

    /** A rising edge with divEnable high and both operands finite and nonzero. */
    method Tick(rm: RM, a: RawFloat, b: RawFloat)
      requires counter != 0 ==> bSig == Decode(f, b).sig
      modifies `counter, `aSig, `bSig, `qSig, `expIn, `divOut
      ensures Snapshot() == Clock(f, rm, a, b, old(Snapshot())) && bSig == Decode(f, b).sig
    {
      hide Decode, FRound.Round, Output;
      if counter == 0 {
        counter := f.nsig + 4;
        aSig, bSig, qSig := Decode(f, a).sig, Decode(f, b).sig, 0;
        TakeDigit();
      } else if counter > 2 {
        counter := counter - 1;
        TakeDigit();
      } else if counter > 1 {
        counter := counter - 1;
        var expNorm := if qSig >= Pow2(f.nsig + 2) then 0 else 1;
        expIn := Decode(f, a).exp - Decode(f, b).exp - expNorm;
        if expNorm == 1 {
          qSig := 2 * qSig;
        }
      } else {
        var sign := a.sign != b.sign;
        var rounded := FRound.Round(RoundWidth(f), f.nsig, sign, RoundInput(f, Snapshot()), expIn, rm);
        counter := 0;
        divOut := Output(f, rm, sign, rounded);
      }
    }

    /** An activation from rest to the packed quotient, with the operands held stable. */
    method Activate(rm: RM, a: RawFloat, b: RawFloat)
      requires counter == 0
      modifies `counter, `aSig, `bSig, `qSig, `expIn, `divOut
      ensures Snapshot() == Clocks(f, rm, a, b, old(Snapshot()), f.nsig + 5)
      ensures Operand(f, a) && Operand(f, b) && rm <= 4 && Ratio(Magnitude(f, a), Magnitude(f, b)) >= P2(f.EMin()) ==>
        counter == 0 && IsRounded(f, rm, a.sign != b.sign, Ratio(Magnitude(f, a), Magnitude(f, b)), divOut)
    {
      hide Clock, Operand, Decode, IsRounded, Ratio, Magnitude, P2;
      for t := 0 to f.nsig + 5
        invariant t > 0 ==> bSig == Decode(f, b).sig
        invariant Snapshot() == Clocks(f, rm, a, b, old(Snapshot()), t)
      {
        Tick(rm, a, b);
      }
      if Operand(f, a) && Operand(f, b) && rm <= 4 && Ratio(Magnitude(f, a), Magnitude(f, b)) >= P2(f.EMin()) {
        DivideCorrect(f, rm, a, b, old(Snapshot()));
      }
    }

    method TakeDigit()
      modifies `aSig, `qSig
      ensures (aSig, qSig) == Digit(bSig, old(aSig), old(qSig))
    {
      if aSig >= bSig {
        qSig := 2 * qSig + 1;
        aSig := 2 * (aSig - bSig);
      } else {
        qSig := 2 * qSig;
        aSig := 2 * aSig;
      }
    }
  }
}
