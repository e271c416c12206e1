/** Binary interchange formats, their decoding into exponent and significand, and leading zeros. */
module FloatFormat {
  import opened Arith
  import opened Rounding

  // ---------------------------------------------------------------------------------------
  // Leading zeros
  // ---------------------------------------------------------------------------------------

  /** The recursive counter over 2^k bits: one bit of the answer per halving. */
  function CLZ(k: nat, x: nat): nat
    requires k >= 1
  {
    if k == 1 then (if x / 2 % 2 == 1 then 0 else 1)
    else
      var half := Pow2(Pow2(k - 1));
      var lhs, rhs := x / half % half, x % half;
      if lhs == 0 then Pow2(k - 1) + CLZ(k - 1, rhs) else CLZ(k - 1, lhs)
  }

  /** x, in w bits, has c leading zeros. */
  predicate HasLeadingZeros(w: nat, x: nat, c: nat) {
    c < w && Pow2(w - 1 - c) <= x < Pow2(w - c)
  }

  /** For every nonzero input of any power-of-two width it is the true count of leading zeros. */
  lemma {:induction false} CLZCorrect(k: nat, x: nat)
    requires k >= 1 && 0 < x < Pow2(Pow2(k))
    ensures HasLeadingZeros(Pow2(k), x, CLZ(k, x))
  {
    if k == 1 {
      assert Pow2(1) == 2 && Pow2(2) == 4;
    } else {
      var h := Pow2(k - 1);
      Pow2Add(h, h);
      SplitHalves(x, Pow2(h));
      CLZHalves(k, x);
    }
  }

  lemma {:induction false} CLZHalves(k: nat, x: nat)
    requires k >= 2 && 0 < x < Pow2(Pow2(k))
    requires var half := Pow2(Pow2(k - 1));
      x == x / half * half + x % half && 0 <= x % half < half && x / half % half == x / half && x / half < half
    ensures HasLeadingZeros(Pow2(k), x, CLZ(k, x))
    decreases k, 0
  {
    var h := Pow2(k - 1);
    var half := Pow2(h);
    var lhs, rhs := x / half, x % half;
    if lhs == 0 {
      CLZCorrect(k - 1, rhs);
      assert CLZ(k, x) == h + CLZ(k - 1, rhs);
    } else {
      CLZCorrect(k - 1, lhs);
      assert CLZ(k, x) == CLZ(k - 1, lhs);
      LeadingZerosOfHigh(h, lhs, rhs, CLZ(k - 1, lhs));
    }
  }

  lemma LeadingZerosOfHigh(h: nat, lhs: nat, rhs: nat, c: nat)
    requires HasLeadingZeros(h, lhs, c) && rhs < Pow2(h)
    ensures HasLeadingZeros(2 * h, lhs * Pow2(h) + rhs, c)
  {
    hide Pow2;
    Pow2Bracket(h - 1 - c, lhs, h - c, h, rhs);
    assert h - 1 - c + h == 2 * h - 1 - c && h - c + h == 2 * h - c;
  }

  lemma SplitHalves(x: nat, half: nat)
    requires half > 0 && x < half * half
    ensures x == x / half * half + x % half && 0 <= x % half < half
    ensures x / half % half == x / half && x / half < half
  {
    var q := x / half;
    if q >= half {
      MulMono(half, q, half);
    }
    DivUnique(q, half, 0, q);
  }

  // ---------------------------------------------------------------------------------------
  // Formats
  // ---------------------------------------------------------------------------------------

  /** Exponent and fraction widths: (8, 23) for single, (11, 52) for double. */
  datatype RawFormat = Format(nexp: nat, nsig: nat) {
    function Bias(): nat
      requires nexp >= 1
    {
      Pow2(nexp - 1) - 1
    }
    function EMin(): int
      requires nexp >= 1
    {
      1 - Bias()
    }
    function EMax(): int
      requires nexp >= 1
    {
      Bias()
    }
  }

  /** The counter of the decoder is 64 bits wide, so the fraction must fit it. */
  type Format = f: RawFormat | 2 <= f.nexp && 2 <= f.nsig <= 62 witness Format(8, 23)

  const SINGLE: Format := Format(8, 23)
  const DOUBLE: Format := Format(11, 52)

  /** The three fields of a register. */
  datatype RawFloat = Float(sign: bool, exp: nat, frac: nat)

  predicate Fits(f: Format, x: RawFloat) {
    x.exp < Pow2(f.nexp) && x.frac < Pow2(f.nsig)
  }

  /** The register image {sign, exp, frac}, and back. */
  function Pack(f: Format, x: RawFloat): nat {
    ((if x.sign then Pow2(f.nexp) else 0) + x.exp) * Pow2(f.nsig) + x.frac
  }

  function Unpack(f: Format, bits: nat): RawFloat {
    var top := bits / Pow2(f.nsig);
    Float(top / Pow2(f.nexp) % 2 == 1, top % Pow2(f.nexp), bits % Pow2(f.nsig))
  }

  lemma UnpackOfPack(f: Format, x: RawFloat)
    requires Fits(f, x)
    ensures Unpack(f, Pack(f, x)) == x
  {
    var top := (if x.sign then Pow2(f.nexp) else 0) + x.exp;
    DivUnique(Pack(f, x), Pow2(f.nsig), top, x.frac);
    DivUnique(top, Pow2(f.nexp), if x.sign then 1 else 0, x.exp);
  }

  datatype Class = ZERO | SUB | NORM | INF | SNAN | QNAN

  function ClassOf(f: Format, x: RawFloat): Class {
    if x.exp == Pow2(f.nexp) - 1 then
      if x.frac == 0 then INF else if x.frac >= Pow2(f.nsig - 1) then QNAN else SNAN
    else if x.exp == 0 then if x.frac == 0 then ZERO else SUB
    else NORM
  }

  predicate IsFinite(f: Format, x: RawFloat) {
    ClassOf(f, x).ZERO? || ClassOf(f, x).SUB? || ClassOf(f, x).NORM?
  }

  /** The magnitude a finite register stands for. */
  function Magnitude(f: Format, x: RawFloat): real {
    if x.exp == 0 then Units(x.frac, P2(f.EMin() - f.nsig))
    else Units(Pow2(f.nsig) + x.frac, P2(x.exp - f.Bias() - f.nsig))
  }

  /** The exponent ranges of single and double (IEEE 754-2008, section 3.4). */
  lemma ExponentRanges()
    ensures SINGLE.EMax() == 127 && SINGLE.EMin() == -126
    ensures DOUBLE.EMax() == 1023 && DOUBLE.EMin() == -1022
  {
    assert Pow2(7) == 128;
    Pow2Add(7, 3);
  }

  /**
   What makes the numbers of a format: one is where the bias says, numbers grow in equal steps
   within a binade and double from one to the next, and the steps of the lowest binade lead
   through the subnormals to zero.
   */
  lemma ValuesOfFormat(f: Format, x: RawFloat)
    requires Fits(f, x)
    ensures Magnitude(f, Float(x.sign, Pow2(f.nexp - 1) - 1, 0)) == 1.0
    ensures x.exp >= 1 ==> Units(Pow2(f.nsig), Magnitude(f, x)) == Units(Pow2(f.nsig) + x.frac, Magnitude(f, x.(frac := 0)))
    ensures x.exp >= 1 ==> Magnitude(f, x.(exp := x.exp + 1)) == 2.0 * Magnitude(f, x)
    ensures x.exp <= 1 ==> Magnitude(f, x) == Units(Pack(f, x.(sign := false)), Magnitude(f, Float(x.sign, 0, 1)))
  {
    hide P2, Units, Pow2;
    var n := f.nsig;
    Doubling(f.nexp - 1);
    P2Zero();
    P2Scale(-(n as int), n);
    if x.exp >= 1 {
      var e := x.exp - f.Bias() - n;
      UnitsScale(Pow2(n), Pow2(n) + x.frac, P2(e));
      UnitsScale(Pow2(n) + x.frac, Pow2(n), P2(e));
      P2Next(e);
      UnitsTwice(P2(e));
      UnitsTwice(Units(Pow2(n) + x.frac, P2(e)));
      UnitsScale(2, Pow2(n) + x.frac, P2(e));
      UnitsScale(Pow2(n) + x.frac, 2, P2(e));
    }
    UnitsOne(P2(f.EMin() - n));
  }

  /** The classes are ranges of the register without its sign. */
  lemma ClassByImage(f: Format, x: RawFloat)
    requires Fits(f, x)
    ensures var image, infinity := Pack(f, x.(sign := false)), (Pow2(f.nexp) - 1) * Pow2(f.nsig);
      && (ClassOf(f, x).ZERO? <==> image == 0)
      && (ClassOf(f, x).SUB? <==> 0 < image < Pow2(f.nsig))
      && (ClassOf(f, x).NORM? <==> Pow2(f.nsig) <= image < infinity)
      && (ClassOf(f, x).INF? <==> image == infinity)
      && (ClassOf(f, x).SNAN? <==> infinity < image < infinity + Pow2(f.nsig - 1))
      && (ClassOf(f, x).QNAN? <==> infinity + Pow2(f.nsig - 1) <= image)
  {
    hide Pow2;
    var d, top := Pow2(f.nsig), Pow2(f.nexp) - 1;
    Doubling(f.nexp);
    Doubling(f.nsig);
    if x.exp < top {
      MulMono(x.exp + 1, top, d);
      assert (x.exp + 1) * d == x.exp * d + d;
    }
    if x.exp >= 1 {
      MulMono(1, x.exp, d);
    }
  }

  // ---------------------------------------------------------------------------------------
  // Decoding
  // ---------------------------------------------------------------------------------------

  datatype Decoded = Decoded(exp: int, sig: nat)

  /** lshamt: how far a subnormal fraction is from having its leading one in place. */
  function NormaliseShift(f: Format, frac: nat): int {
    CLZ(6, frac) - (63 - f.nsig)
  }

  function Decode(f: Format, x: RawFloat): Decoded {
    var sig := Pow2(f.nsig) + x.frac;
    if ClassOf(f, x).SUB? then
      var shift := NormaliseShift(f, x.frac);
      Decoded(f.EMin() - shift, (if shift >= 0 then sig * Pow2(shift) else sig) % Pow2(f.nsig + 1))
    else
      Decoded(x.exp - f.Bias(), sig)
  }

  lemma NormaliseShiftCorrect(f: Format, frac: nat)
    requires 0 < frac < Pow2(f.nsig)
    ensures var shift := NormaliseShift(f, frac);
      1 <= shift <= f.nsig && Pow2(f.nsig) <= frac * Pow2(shift) < Pow2(f.nsig + 1)
  {
    hide Pow2, CLZ;
    SixtyFour();
    Pow2Mono(f.nsig, 64);
    CLZCorrect(6, frac);
    var top := 63 - CLZ(6, frac);
    if f.nsig <= top {
      Pow2Mono(f.nsig, top);
    }
    Pow2Bracket(top, frac, top + 1, f.nsig - top, 0);
  }

  lemma SixtyFour()
    ensures Pow2(6) == 64
  {
  }

  /** Shifting a subnormal up pushes the spurious hidden bit out of the register. */
  lemma HiddenBitLost(n: nat, s: nat, frac: nat)
    requires s >= 1 && frac * Pow2(s) < Pow2(n + 1)
    ensures (Pow2(n) + frac) * Pow2(s) % Pow2(n + 1) == frac * Pow2(s)
  {
    hide Pow2;
    var h, t, m := Pow2(n), Pow2(s - 1), Pow2(n + 1);
    Doubling(n + 1);
    Doubling(s);
    HiddenPart(h, t, frac);
    DivUnique((h + frac) * Pow2(s), m, t, frac * Pow2(s));
  }

  lemma HiddenPart(h: nat, t: nat, frac: nat)
    ensures (h + frac) * (2 * t) == t * (2 * h) + frac * (2 * t)
  {
  }

  /** Decoding keeps the value of every finite nonzero operand and normalises its significand. */
  lemma DecodeKeepsValue(f: Format, x: RawFloat)
    requires Fits(f, x) && IsFinite(f, x) && !ClassOf(f, x).ZERO?
    ensures var d := Decode(f, x);
      && Pow2(f.nsig) <= d.sig < Pow2(f.nsig + 1)
      && f.EMin() - f.nsig <= d.exp <= f.EMax()
      && Units(d.sig, P2(d.exp - f.nsig)) == Magnitude(f, x)
  {
    hide P2, Units;
    if ClassOf(f, x).SUB? {
      var shift := NormaliseShift(f, x.frac);
      NormaliseShiftCorrect(f, x.frac);
      HiddenBitLost(f.nsig, shift, x.frac);
      P2Scale(f.EMin() - shift - f.nsig, shift);
      UnitsScale(x.frac, Pow2(shift), P2(f.EMin() - shift - f.nsig));
    } else {
      assert Pow2(f.nexp) == 2 * Pow2(f.nexp - 1);
    }
  }
}
