/** The floating-point multiplier on finite nonzero operands. */
module FMul {
  import opened Arith
  import opened Rounding
  import opened FloatFormat
  import opened FloatResult
  import FRound

  /** NFULLSIG + 1: the product of two significands is this wide. */
  function Width(f: Format): nat { 2 * f.nsig + 2 }

  /** The normalised, unrounded product. */
  function Product(f: Format, x: Decoded, y: Decoded): Decoded {
    var sigProd := x.sig * y.sig;
    var expSum := x.exp + y.exp;
    if sigProd >= Pow2(Width(f) - 1) then Decoded(expSum + 1, sigProd) else Decoded(expSum, 2 * sigProd)
  }

  /** fmulOut for operands that are neither NaN, infinite nor zero. */
  function Multiply(f: Format, rm: RM, a: RawFloat, b: RawFloat): RawFloat {
    var sign := a.sign != b.sign;
    if ClassOf(f, a).SUB? && ClassOf(f, b).SUB? then Float(sign, 0, 0)
    else
      Pack(f, rm, sign, Product(f, Decode(f, a), Decode(f, b)))
  }

  function Pack(f: Format, rm: RM, sign: bool, p: Decoded): RawFloat {
    if p.exp < f.EMin() - f.nsig then Float(sign, 0, 0)
    else if p.exp < f.EMin() then
      var shifted := ShiftRight(p.sig, f.EMin() - p.exp);
      Float(sign, 0, FRound.Round(Width(f), f.nsig, sign, shifted, p.exp, rm).sig % Pow2(f.nsig))
    else PackNormal(f, Width(f), rm, sign, p)
  }

  /** Normalising loses nothing: the product is exact. */
  lemma ProductExact(f: Format, x: Decoded, y: Decoded)
    requires Pow2(f.nsig) <= x.sig < Pow2(f.nsig + 1) && Pow2(f.nsig) <= y.sig < Pow2(f.nsig + 1)
    ensures var p := Product(f, x, y);
      && Pow2(Width(f) - 1) <= p.sig < Pow2(Width(f))
      && Units(p.sig, P2(p.exp - Width(f) + 1))
           == Units(x.sig, P2(x.exp - f.nsig)) * Units(y.sig, P2(y.exp - f.nsig))
  {
    hide P2, Units, Pow2;
    var n := f.nsig;
    var w := Width(f);
    Pow2Add(n, n);
    Pow2Add(n + 1, n + 1);
    Doubling(w);
    Doubling(w - 1);
    MulMono(Pow2(n), x.sig, Pow2(n));
    MulMono(Pow2(n), y.sig, x.sig);
    BelowProduct(x.sig, y.sig, Pow2(n + 1));
    var e := x.exp + y.exp - 2 * n;
    UnitsProduct(x.sig, x.exp - n, y.sig, y.exp - n);
    P2Next(e - 1);
    UnitsTwice(P2(e - 1));
    UnitsScale(x.sig * y.sig, 2, P2(e - 1));
  }

  lemma BelowProduct(a: nat, b: nat, m: nat)
    requires a < m && b < m
    ensures a * b < m * m
  {
    MulMono(a + 1, m, m);
    MulMono(b, m, a);
    assert (a + 1) * m == a * m + m;
  }

  /**
   For every pair of finite nonzero operands whose product is at or above the smallest normal
   number, the multiplier delivers the exact product correctly rounded, bit for bit, unless the
   product overflows in a mode that rounds it down: there the standard asks for the largest
   finite number and the multiplier always answers infinity.
   */
  lemma MultiplyCorrect(f: Format, rm: RM, a: RawFloat, b: RawFloat)
    requires Fits(f, a) && Fits(f, b) && IsFinite(f, a) && IsFinite(f, b)
    requires !ClassOf(f, a).ZERO? && !ClassOf(f, b).ZERO?
    requires Magnitude(f, a) * Magnitude(f, b) >= P2(f.EMin())
    ensures IsRounded(f, rm, a.sign != b.sign, Magnitude(f, a) * Magnitude(f, b), Multiply(f, rm, a, b)) <==>
      !(Magnitude(f, a) * Magnitude(f, b) >= P2(f.EMax() + 1) && TowardZero(rm, a.sign != b.sign))
  {
    hide P2, Units, Rounds, Magnitude, Decode, IsRounded, Pow2, ClassOf, Product, PackNormal;
    var p := Product(f, Decode(f, a), Decode(f, b));
    DecodeKeepsValue(f, a);
    DecodeKeepsValue(f, b);
    ProductExact(f, Decode(f, a), Decode(f, b));
    BinadeOf(Width(f) - 1, p.sig, p.exp, f.EMin());
    BinadeOf(Width(f) - 1, p.sig, p.exp, f.EMax() + 1);
    if ClassOf(f, a).SUB? && ClassOf(f, b).SUB? {
      NotBothSubnormal(f, a, b);
    }
    PackNormalCorrect(f, Width(f), rm, a.sign != b.sign, p, Magnitude(f, a) * Magnitude(f, b));
  }

  /** A product of two subnormals is far below the normal range. */
  lemma NotBothSubnormal(f: Format, a: RawFloat, b: RawFloat)
    requires Fits(f, a) && Fits(f, b) && ClassOf(f, a).SUB? && ClassOf(f, b).SUB?
    ensures Product(f, Decode(f, a), Decode(f, b)).exp < f.EMin()
  {
    NormaliseShiftCorrect(f, a.frac);
    NormaliseShiftCorrect(f, b.frac);
    FieldBounds(f);
  }
}
