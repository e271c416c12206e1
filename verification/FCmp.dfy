/** Ordered comparison of decoded floating-point operands. */
module FCmp {
  import opened Arith
  import opened Rounding
  import opened FloatFormat
  import opened FloatResult

  /** {FLT, FLE, FEQ}. */
  datatype Flags = Flags(lt: bool, le: bool, eq: bool)

  predicate IsNaN(f: Format, x: RawFloat) {
    ClassOf(f, x).QNAN? || ClassOf(f, x).SNAN?
  }

  /** fabsX_LT_fabsY on exponents and significands. */
  predicate Below(x: Decoded, y: Decoded) {
    x.exp < y.exp || (x.exp == y.exp && x.sig < y.sig)
  }

  /** fcmp_o: exponents and significands are compared as they were decoded. */
  function Compare(f: Format, a: RawFloat, b: RawFloat): Flags {
    var x, y := Decode(f, a), Decode(f, b);
    if IsNaN(f, a) || IsNaN(f, b) then Flags(false, false, false)
    else if ClassOf(f, a).INF? then
      if !a.sign then (if ClassOf(f, b).INF? && !b.sign then Flags(false, true, true) else Flags(false, false, false))
      else if ClassOf(f, b).INF? && b.sign then Flags(false, true, true)
      else Flags(true, true, false)
    else if ClassOf(f, b).INF? then (if b.sign then Flags(false, false, false) else Flags(true, true, false))
    else if ClassOf(f, a).ZERO? && ClassOf(f, b).ZERO? then Flags(false, true, true)
    else
      Flags((a.sign && !b.sign) || (a.sign && b.sign && Below(y, x)) || (!a.sign && !b.sign && Below(x, y)),
            (a.sign && !b.sign) || (a.sign && b.sign && !Below(x, y)) || (!a.sign && !b.sign && !Below(y, x)),
            x == y && a.sign == b.sign)
  }

  // ---------------------------------------------------------------------------------------
  // The order of the extended reals
  // ---------------------------------------------------------------------------------------

  datatype Extended = NegInf | Finite(value: real) | PosInf

  predicate Less(x: Extended, y: Extended) {
    match (x, y)
    case (Finite(r), Finite(s)) => r < s
    case (NegInf, NegInf) => false
    case (PosInf, _) => false
    case (_, NegInf) => false
    case _ => true
  }

  /** What a register that is no NaN stands for. */
  function ValueOf(f: Format, x: RawFloat): Extended {
    if ClassOf(f, x).INF? then (if x.sign then NegInf else PosInf)
    else Finite(if x.sign then -Magnitude(f, x) else Magnitude(f, x))
  }

  function Order(x: Extended, y: Extended): Flags {
    Flags(Less(x, y), !Less(y, x), !Less(x, y) && !Less(y, x))
  }

  /** A zero is decoded as if it were half the smallest normal number. */
  function Seen(f: Format, x: RawFloat): real {
    if ClassOf(f, x).ZERO? then P2(f.EMin() - 1) else Magnitude(f, x)
  }

  lemma SeenIsDecoded(f: Format, x: RawFloat)
    requires Fits(f, x) && IsFinite(f, x)
    ensures var d := Decode(f, x);
      && Pow2(f.nsig) <= d.sig < Pow2(f.nsig + 1)
      && Units(d.sig, P2(d.exp - f.nsig)) == Seen(f, x)
  {
    hide P2, Units, Magnitude;
    if ClassOf(f, x).ZERO? {
      P2Scale(f.EMin() - 1 - f.nsig, f.nsig);
      Doubling(f.nsig + 1);
    } else {
      DecodeKeepsValue(f, x);
    }
  }

  /** Normalised significands are ordered by exponent first. */
  lemma LexicographicOrder(n: nat, x: Decoded, y: Decoded)
    requires Pow2(n) <= x.sig < Pow2(n + 1) && Pow2(n) <= y.sig < Pow2(n + 1)
    ensures Below(x, y) <==> Units(x.sig, P2(x.exp - n)) < Units(y.sig, P2(y.exp - n))
  {
    hide P2, Units, Pow2;
    if x.exp < y.exp {
      BelowNextBinade(n, x.sig, x.exp, y.exp - 1);
      AtLeastBinade(n, y.sig, y.exp, y.exp);
    } else if y.exp < x.exp {
      BelowNextBinade(n, y.sig, y.exp, x.exp - 1);
      AtLeastBinade(n, x.sig, x.exp, x.exp);
    } else if x.sig < y.sig {
      UnitsLess(x.sig, y.sig, P2(x.exp - n));
    } else {
      UnitsLe(y.sig, x.sig, P2(x.exp - n));
    }
  }

  lemma SeenOrder(f: Format, a: RawFloat, b: RawFloat)
    requires Fits(f, a) && IsFinite(f, a) && Fits(f, b) && IsFinite(f, b)
    ensures Below(Decode(f, a), Decode(f, b)) <==> Seen(f, a) < Seen(f, b)
    ensures Decode(f, a) == Decode(f, b) <==> Seen(f, a) == Seen(f, b)
  {
    hide P2, Units, Pow2, Seen, Decode, IsFinite;
    SeenIsDecoded(f, a);
    SeenIsDecoded(f, b);
    LexicographicOrder(f.nsig, Decode(f, a), Decode(f, b));
    LexicographicOrder(f.nsig, Decode(f, b), Decode(f, a));
  }

  /** A zero against a subnormal of its own sign in the lower half of the subnormal range. */
  predicate ZeroSeenTooLarge(f: Format, a: RawFloat, b: RawFloat) {
    ClassOf(f, a).ZERO? && ClassOf(f, b).SUB? && a.sign == b.sign && b.frac <= Pow2(f.nsig - 1)
  }

  lemma MagnitudeBounds(f: Format, x: RawFloat)
    requires Fits(f, x) && IsFinite(f, x)
    ensures ClassOf(f, x).ZERO? <==> Magnitude(f, x) == 0.0
    ensures Magnitude(f, x) >= 0.0
    ensures ClassOf(f, x).NORM? ==> Magnitude(f, x) > P2(f.EMin() - 1)
    ensures ClassOf(f, x).SUB? ==> (Magnitude(f, x) <= P2(f.EMin() - 1) <==> x.frac <= Pow2(f.nsig - 1))
  {
    hide P2, Units, Pow2;
    var u := P2(f.EMin() - f.nsig);
    UnitsOne(u);
    if x.exp == 0 {
      P2Scale(f.EMin() - f.nsig, f.nsig - 1);
      UnitsLe(0, x.frac, u);
      if x.frac <= Pow2(f.nsig - 1) {
        UnitsLe(x.frac, Pow2(f.nsig - 1), u);
      } else {
        UnitsLess(Pow2(f.nsig - 1), x.frac, u);
      }
      if x.frac > 0 {
        UnitsLess(0, x.frac, u);
      }
    } else {
      AtLeastBinade(f.nsig, Pow2(f.nsig) + x.frac, x.exp - f.Bias(), f.EMin());
      P2Next(f.EMin() - 1);
    }
  }

  /**
   For every pair of registers that are no NaN, infinities and signed zeros included, the three
   flags are the order of the extended reals, except exactly for a zero against a subnormal of
   the same sign not above half the smallest normal number, on either side.
   */
  lemma CompareOrders(f: Format, a: RawFloat, b: RawFloat)
    requires Fits(f, a) && Fits(f, b) && !IsNaN(f, a) && !IsNaN(f, b)
    ensures Compare(f, a, b) == Order(ValueOf(f, a), ValueOf(f, b)) <==>
      !ZeroSeenTooLarge(f, a, b) && !ZeroSeenTooLarge(f, b, a)
  {
    hide P2, Pow2, Magnitude, Decode, ClassOf, Below, Fits;
    if !ClassOf(f, a).INF? && !ClassOf(f, b).INF? {
      MagnitudeBounds(f, a);
      MagnitudeBounds(f, b);
      if !(ClassOf(f, a).ZERO? && ClassOf(f, b).ZERO?) {
        SeenOrder(f, a, b);
        SeenOrder(f, b, a);
      }
    }
  }
}
