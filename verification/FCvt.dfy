/** Conversions between single and double precision, and between 32-bit integers and doubles. */
module FCvt {
  import opened Arith
  import opened Rounding
  import opened FloatFormat
  import opened FloatResult
  import FRound

  // ---------------------------------------------------------------------------------------
  // Single to double and back
  // ---------------------------------------------------------------------------------------

  /** FCVTDS: exact; the infinity branch leaves the lowest exponent bit clear. */
  function Widen(x: RawFloat): RawFloat {
    var d := Decode(SINGLE, x);
    var frac := d.sig % 0x80_0000 * 0x2000_0000;
    match ClassOf(SINGLE, x)
    case QNAN => Float(x.sign, 2047, 0x8_0000_0000_0000)
    case SNAN => Float(x.sign, 2047, frac)
    case INF => Float(x.sign, 2046, 0)
    case ZERO => Float(x.sign, 0, 0)
    case _ => Float(x.sign, (d.exp + 1023) % 2048, frac)
  }

  /** FCVTSD: the exponent tests override what the class tests before them chose. */
  function Narrow(rm: RM, x: RawFloat): RawFloat {
    var d := Decode(DOUBLE, x);
    if d.exp < -149 then Float(x.sign, 0, 0)
    else if d.exp < -126 then NarrowSubnormal(rm, x.sign, d)
    else PackNormal(SINGLE, 53, rm, x.sign, d)
  }

  function NarrowSubnormal(rm: RM, sign: bool, d: Decoded): RawFloat
    requires d.exp < -126
  {
    Float(sign, 0, FRound.Round(53, 23, sign, ShiftRight(d.sig, -126 - d.exp), d.exp, rm).sig % 0x80_0000)
  }

  lemma Widths()
    ensures Pow2(23) == 0x80_0000 && Pow2(24) == 0x100_0000 && Pow2(29) == 0x2000_0000 && Pow2(7) == 128 && Pow2(8) == 256
    ensures Pow2(10) == 1024 && Pow2(11) == 2048 && Pow2(51) == 0x8_0000_0000_0000 && Pow2(52) == 0x10_0000_0000_0000
    ensures Pow2(53) == 0x20_0000_0000_0000
  {
    assert Pow2(5) == 32;
    Pow2Add(5, 5);
    Pow2Add(10, 10);
    Pow2Add(20, 3);
    Pow2Add(23, 5);
    Pow2Add(28, 23);
  }

  /** Widening keeps the value of every finite single, subnormals and signed zeros included. */
  lemma WidenKeepsValue(x: RawFloat)
    requires Fits(SINGLE, x) && IsFinite(SINGLE, x)
    ensures var y := Widen(x);
      && Fits(DOUBLE, y) && IsFinite(DOUBLE, y) && y.sign == x.sign
      && Magnitude(DOUBLE, y) == Magnitude(SINGLE, x)
      && (!ClassOf(SINGLE, x).ZERO? ==>
            Decode(DOUBLE, y) == Decoded(Decode(SINGLE, x).exp, Decode(SINGLE, x).sig * 0x2000_0000))
  {
    hide P2, Units, Pow2, Decode;
    Widths();
    if ClassOf(SINGLE, x).ZERO? {
      UnitsOne(P2(-149));
      UnitsOne(P2(-1074));
    } else {
      var d := Decode(SINGLE, x);
      DecodeKeepsValue(SINGLE, x);
      WidenFields(x);
      P2Scale(d.exp - 52, 29);
      UnitsScale(d.sig, 0x2000_0000, P2(d.exp - 52));
    }
  }

  lemma WidenFields(x: RawFloat)
    requires Fits(SINGLE, x) && IsFinite(SINGLE, x) && !ClassOf(SINGLE, x).ZERO?
    requires var d := Decode(SINGLE, x); 0x80_0000 <= d.sig < 0x100_0000 && -149 <= d.exp <= 127
    ensures var d, y := Decode(SINGLE, x), Widen(x);
      && y == Float(x.sign, d.exp + 1023, (d.sig - 0x80_0000) * 0x2000_0000)
      && Fits(DOUBLE, y) && ClassOf(DOUBLE, y).NORM?
      && Decode(DOUBLE, y) == Decoded(d.exp, d.sig * 0x2000_0000)
  {
    hide Pow2, Decode;
    Widths();
    var d := Decode(SINGLE, x);
    DivUnique(d.sig, 0x80_0000, 1, d.sig - 0x80_0000);
    DivUnique(d.exp + 1023, 2048, 0, d.exp + 1023);
    NormalDouble(Float(x.sign, d.exp + 1023, (d.sig - 0x80_0000) * 0x2000_0000));
  }

  /** Narrowing a widened single rounds nothing away. */
  lemma NarrowExact(rm: RM, sign: bool, sig: nat, exp: int)
    requires sig < 0x100_0000
    ensures FRound.Round(53, 23, sign, sig * 0x2000_0000, exp, rm) == FRound.Rounded(sig, exp)
  {
    hide Pow2;
    Widths();
    Doubling(29);
    FRound.PartsOf(53, 23, sig * 0x2000_0000, sig, false, 0);
  }

  /**
   From single to double and back, in every rounding mode: the identity on everything but a NaN,
   which comes back as an infinity.
   */
  lemma SingleRoundTrip(rm: RM, x: RawFloat)
    requires Fits(SINGLE, x)
    ensures Narrow(rm, Widen(x)) == x <==> !(ClassOf(SINGLE, x).QNAN? || ClassOf(SINGLE, x).SNAN?)
  {
    hide P2, Pow2, Decode, FRound.Round, PackRounded;
    Widths();
    if IsFinite(SINGLE, x) {
      FiniteRoundTrip(rm, x);
    } else {
      SpecialRoundTrip(rm, x);
    }
  }

  lemma SpecialRoundTrip(rm: RM, x: RawFloat)
    requires Fits(SINGLE, x) && !IsFinite(SINGLE, x)
    ensures Narrow(rm, Widen(x)) == Infinity(SINGLE, x.sign)
  {
    hide FRound.Round;
    Widths();
  }

  /** The infinity branch of the widening builds a finite number. */
  lemma InfinityWidensToFinite(sign: bool)
    ensures var y := Widen(Infinity(SINGLE, sign));
      IsFinite(DOUBLE, y) && y.sign == sign && Magnitude(DOUBLE, y) == P2(1023)
  {
    hide P2, Units;
    Widths();
    P2Scale(1023 - 52, 52);
  }

  /** A NaN stays a NaN of its kind and sign; a signalling one keeps its payload at the top of the fraction. */
  lemma NaNWidens(x: RawFloat)
    requires Fits(SINGLE, x) && (ClassOf(SINGLE, x).QNAN? || ClassOf(SINGLE, x).SNAN?)
    ensures var y := Widen(x);
      && Fits(DOUBLE, y) && ClassOf(DOUBLE, y) == ClassOf(SINGLE, x) && y.sign == x.sign
      && (ClassOf(SINGLE, x).SNAN? ==> y.frac == x.frac * 0x2000_0000)
  {
    hide Pow2, P2;
    Widths();
    Doubling(23);
    DivUnique(0x80_0000 + x.frac, 0x80_0000, 1, x.frac);
  }

  lemma FiniteRoundTrip(rm: RM, x: RawFloat)
    requires Fits(SINGLE, x) && IsFinite(SINGLE, x)
    ensures Narrow(rm, Widen(x)) == x
  {
    hide P2, Units, Pow2, Decode, FRound.Round, Magnitude;
    Widths();
    WidenKeepsValue(x);
    var d := Decode(SINGLE, x);
    if ClassOf(SINGLE, x).ZERO? {
      ZeroDecoded(Widen(x));
    } else {
      DecodeKeepsValue(SINGLE, x);
      if ClassOf(SINGLE, x).SUB? {
        SubnormalDecoded(x);
        ShiftBack(x.frac, -126 - d.exp);
        NarrowExact(rm, x.sign, x.frac, d.exp);
        DivUnique(x.frac, 0x80_0000, 0, x.frac);
      } else {
        NormalDecoded(x);
        NarrowExact(rm, x.sign, d.sig, d.exp);
        DivUnique(d.sig, 0x80_0000, 1, x.frac);
        DivUnique(d.exp + 127, 256, 0, x.exp);
      }
    }
  }

  lemma ZeroDecoded(y: RawFloat)
    requires y.exp == 0 && y.frac == 0
    ensures Decode(DOUBLE, y).exp == -1023
  {
    Widths();
  }

  lemma NormalDecoded(x: RawFloat)
    requires Fits(SINGLE, x) && ClassOf(SINGLE, x).NORM?
    ensures Decode(SINGLE, x) == Decoded(x.exp - 127, 0x80_0000 + x.frac) && 1 <= x.exp <= 254
  {
    Widths();
  }

  lemma SubnormalDecoded(x: RawFloat)
    requires Fits(SINGLE, x) && ClassOf(SINGLE, x).SUB?
    ensures var d := Decode(SINGLE, x);
      -149 <= d.exp < -126 && d.sig == x.frac * Pow2(-126 - d.exp) && x.exp == 0
  {
    hide Pow2;
    Widths();
    NormaliseShiftCorrect(SINGLE, x.frac);
    HiddenBitLost(23, NormaliseShift(SINGLE, x.frac), x.frac);
  }

  lemma ShiftBack(frac: nat, s: nat)
    ensures ShiftRight(frac * Pow2(s) * 0x2000_0000, s) == frac * 0x2000_0000
  {
    hide Pow2;
    Pow2Mono(0, s);
    assert frac * Pow2(s) * 0x2000_0000 == frac * 0x2000_0000 * Pow2(s);
    SmallPowers();
    DivUnique(frac * Pow2(s) * 0x2000_0000, Pow2(s), frac * 0x2000_0000, 0);
  }

  /** Narrowing to the normal range or above rounds correctly, overflow apart as in the multiplier. */
  lemma NarrowCorrect(rm: RM, x: RawFloat)
    requires Fits(DOUBLE, x) && IsFinite(DOUBLE, x) && Magnitude(DOUBLE, x) >= P2(-126)
    ensures IsRounded(SINGLE, rm, x.sign, Magnitude(DOUBLE, x), Narrow(rm, x)) <==>
      !(Magnitude(DOUBLE, x) >= P2(128) && TowardZero(rm, x.sign))
  {
    hide P2, Units, Pow2, Decode, Magnitude, IsRounded, PackNormal, TowardZero, IsFinite;
    Widths();
    NonzeroMagnitude(x);
    var d := Decode(DOUBLE, x);
    DecodeKeepsValue(DOUBLE, x);
    BinadeOf(52, d.sig, d.exp, -126);
    BinadeOf(52, d.sig, d.exp, 128);
    PackNormalCorrect(SINGLE, 53, rm, x.sign, d, Magnitude(DOUBLE, x));
  }

  lemma NonzeroMagnitude(x: RawFloat)
    requires Magnitude(DOUBLE, x) >= P2(-126)
    ensures !ClassOf(DOUBLE, x).ZERO?
  {
    hide P2;
    UnitsOne(P2(DOUBLE.EMin() - DOUBLE.nsig));
  }

  // ---------------------------------------------------------------------------------------
  // Integer to double and back
  // ---------------------------------------------------------------------------------------

  /** A 32-bit register, read as unsigned or in two's complement. */
  type Bits32 = x: int | 0 <= x < 0x1_0000_0000

  function IntOf(unsigned: bool, bits: Bits32): int {
    if unsigned || bits < 0x8000_0000 then bits else bits - 0x1_0000_0000
  }

  /** What is normalised: the two's complement magnitude of a negative number. */
  function MagnitudeOf(unsigned: bool, bits: Bits32): Bits32 {
    if !unsigned && bits >= 0x8000_0000 then 0x1_0000_0000 - bits else bits
  }

  /** FCVT.D.W and FCVT.D.WU. */
  function FromInt(unsigned: bool, bits: Bits32): RawFloat {
    if bits == 0 then Float(false, 0, 0)
    else
      var magnitude := MagnitudeOf(unsigned, bits);
      Normalised(!unsigned && bits >= 0x8000_0000, magnitude, CLZ(5, magnitude))
  }

  /** The leading one at the top of the significand, the exponent 1054 - clz. */
  function Normalised(sign: bool, magnitude: nat, clz: nat): RawFloat {
    var outSig := magnitude * Pow2(clz) % 0x1_0000_0000 * 0x20_0000;
    Float(sign, if clz <= 1054 then 1054 - clz else 0, outSig % 0x10_0000_0000_0000)
  }

  /** FRoundInt: the directed modes ask for both bits. */
  function RoundInt(sign: bool, x: nat, roundBit: bool, sticky: bool, rm: RM): Bits32 {
    var up := if rm == 0 then roundBit && (sticky || x % 2 == 1)
              else if rm == 2 then sign && roundBit && sticky
              else if rm == 3 then !sign && roundBit && sticky
              else rm == 4 && roundBit;
    (x + if up then 1 else 0) % 0x1_0000_0000
  }

  /** The part of the significand below the binary point, left-aligned in 53 bits. */
  function Fraction(sig: nat, shift: nat): nat {
    if shift <= 53 then sig * Pow2(53 - shift) % 0x20_0000_0000_0000 else 0
  }

  /** FCVT.W.D and FCVT.WU.D, the low half of the result register. */
  function ToInt(unsigned: bool, rm: RM, x: RawFloat): Bits32 {
    var d := Decode(DOUBLE, x);
    var c := ClassOf(DOUBLE, x);
    var whole := IntegerPart(unsigned, x.sign, c, d);
    var converted := !(x.sign && unsigned) && !c.INF? && !c.QNAN? && !c.SNAN? && d.exp < if unsigned then 32 else 31;
    var bits := if converted then Fraction(d.sig, 52 - d.exp) else 0;
    var rounded := RoundInt(x.sign, whole, bits >= 0x10_0000_0000_0000, bits % 0x10_0000_0000_0000 != 0, rm);
    if x.sign then (0x1_0000_0000 - rounded) % 0x1_0000_0000 else rounded
  }

  /** ftoiNormal: saturation first, otherwise the significand shifted down. */
  function IntegerPart(unsigned: bool, sign: bool, c: Class, d: Decoded): nat {
    if sign && unsigned then 0
    else if sign && c.INF? then 0x8000_0000
    else if c.INF? || c.QNAN? || c.SNAN? then (if unsigned then 0x7FFF_FFFF else 0xFFFF_FFFF)
    else if sign && d.exp >= 31 then 0x8000_0000
    else if unsigned && d.exp >= 32 then 0xFFFF_FFFF
    else if !unsigned && d.exp >= 31 then 0x7FFF_FFFF
    else ShiftRight(d.sig, 52 - d.exp) % 0x1_0000_0000
  }

  /** {unsignedRs1 << intClz, 21'b0}. */
  function Significand(m: nat, clz: nat): nat { m * Pow2(clz) * 0x20_0000 }

  /** m shifted to the top of the significand and read back: nothing below the binary point. */
  lemma ShiftedBack(m: nat, c: nat)
    requires 0 < m < 0x1_0000_0000 && HasLeadingZeros(32, m, c)
    ensures c < 32 && m * Pow2(c) < 0x1_0000_0000
    ensures 0x10_0000_0000_0000 <= Significand(m, c) < 0x20_0000_0000_0000
    ensures ShiftRight(Significand(m, c), 21 + c) == m && Fraction(Significand(m, c), 21 + c) == 0
  {
    hide Pow2, ShiftRight, Fraction, Significand;
    TopOfWord(m, c);
    SignificandIs(m, c);
    ShiftDown(m, Significand(m, c), 21 + c);
    NoFraction(m, Significand(m, c), 21 + c);
  }

  lemma TopOfWord(m: nat, c: nat)
    requires HasLeadingZeros(32, m, c)
    ensures c < 32 && 0x8000_0000 <= m * Pow2(c) < 0x1_0000_0000
  {
    hide Pow2;
    Words();
    SmallPowers();
    Pow2Mono(0, c);
    Pow2Bracket(31 - c, m, 32 - c, c, 0);
  }

  lemma SignificandIs(m: nat, c: nat)
    ensures Significand(m, c) == m * Pow2(21 + c)
    ensures 0x8000_0000 <= m * Pow2(c) < 0x1_0000_0000 ==> 0x10_0000_0000_0000 <= Significand(m, c) < 0x20_0000_0000_0000
  {
    hide Pow2;
    Words();
    Pow2Add(c, 21);
    assert m * (Pow2(c) * 0x20_0000) == m * Pow2(c) * 0x20_0000;
  }

  lemma ShiftDown(m: nat, sig: nat, k: nat)
    requires sig == m * Pow2(k)
    ensures ShiftRight(sig, k) == m
  {
    hide Pow2;
    DivUnique(sig, Pow2(k), m, 0);
  }

  lemma NoFraction(m: nat, sig: nat, k: nat)
    requires sig == m * Pow2(k) && k <= 53
    ensures Fraction(sig, k) == 0
  {
    hide Pow2;
    Widths();
    Pow2Add(k, 53 - k);
    assert m * Pow2(k) * Pow2(53 - k) == m * (Pow2(k) * Pow2(53 - k));
    DivUnique(sig * Pow2(53 - k), 0x20_0000_0000_0000, m, 0);
  }

  lemma Words()
    ensures Pow2(31) == 0x8000_0000 && Pow2(32) == 0x1_0000_0000 && Pow2(21) == 0x20_0000 && Pow2(5) == 32
  {
    assert Pow2(5) == 32;
    Pow2Add(5, 5);
    Pow2Add(10, 10);
    Pow2Add(20, 10);
  }

  /** The fields of a normalised integer. */
  lemma NormalisedFields(sign: bool, m: nat, c: nat)
    requires 0 < m < 0x1_0000_0000 && HasLeadingZeros(32, m, c)
    ensures var sig := Significand(m, c);
      && c < 32 && 0x10_0000_0000_0000 <= sig < 0x20_0000_0000_0000
      && Normalised(sign, m, c) == Float(sign, 1054 - c, sig - 0x10_0000_0000_0000)
  {
    hide Pow2;
    ShiftedBack(m, c);
    DivUnique(m * Pow2(c), 0x1_0000_0000, 0, m * Pow2(c));
    var sig := Significand(m, c);
    DivUnique(sig, 0x10_0000_0000_0000, 1, sig - 0x10_0000_0000_0000);
  }

  lemma LeadingZeros32(m: nat)
    requires 0 < m < 0x1_0000_0000
    ensures HasLeadingZeros(32, m, CLZ(5, m))
  {
    Words();
    CLZCorrect(5, m);
  }

  /** A normalised integer is a double of its value. */
  lemma NormalisedValue(sign: bool, m: nat, c: nat)
    requires 0 < m < 0x1_0000_0000 && HasLeadingZeros(32, m, c)
    ensures var y := Normalised(sign, m, c);
      && Fits(DOUBLE, y) && ClassOf(DOUBLE, y).NORM? && y.sign == sign
      && Decode(DOUBLE, y) == Decoded(31 - c, Significand(m, c))
      && Magnitude(DOUBLE, y) == m as real
  {
    hide Pow2, P2, Units, Normalised, Decode, Magnitude, Significand, ClassOf, Fits, HasLeadingZeros;
    NormalisedFields(sign, m, c);
    NormalDouble(Normalised(sign, m, c));
    ExactValue(Normalised(sign, m, c), m, c);
  }

  lemma ExactValue(y: RawFloat, m: nat, c: nat)
    requires Fits(DOUBLE, y) && ClassOf(DOUBLE, y).NORM? && Decode(DOUBLE, y) == Decoded(31 - c, Significand(m, c))
    ensures Magnitude(DOUBLE, y) == m as real
  {
    hide Pow2, P2, Units, Decode, Magnitude, Significand;
    DecodeKeepsValue(DOUBLE, y);
    SignificandIs(m, c);
    var low: int := -21 - c;
    P2Scale(low, 21 + c);
    UnitsScale(m, Pow2(21 + c), P2(low));
    UnitOfOne(m);
  }

  lemma NormalDouble(y: RawFloat)
    requires 1 <= y.exp <= 2046 && y.frac < 0x10_0000_0000_0000
    ensures Fits(DOUBLE, y) && ClassOf(DOUBLE, y).NORM?
    ensures Decode(DOUBLE, y) == Decoded(y.exp - 1023, 0x10_0000_0000_0000 + y.frac)
  {
    Widths();
  }

  /** An integer becomes a double of exactly its value. */
  lemma FromIntExact(unsigned: bool, bits: Bits32)
    ensures var y := FromInt(unsigned, bits);
      && Fits(DOUBLE, y) && IsFinite(DOUBLE, y)
      && (if y.sign then -Magnitude(DOUBLE, y) else Magnitude(DOUBLE, y)) == IntOf(unsigned, bits) as real
  {
    hide Pow2, P2, Units, Normalised, Decode, Magnitude, Significand, CLZ, ClassOf, Fits, HasLeadingZeros;
    if bits == 0 {
      ZeroInt(unsigned);
    } else {
      var m := MagnitudeOf(unsigned, bits);
      LeadingZeros32(m);
      NormalisedValue(!unsigned && bits >= 0x8000_0000, m, CLZ(5, m));
    }
  }

  lemma ZeroInt(unsigned: bool)
    ensures FromInt(unsigned, 0) == Float(false, 0, 0) && Magnitude(DOUBLE, Float(false, 0, 0)) == 0.0
    ensures ClassOf(DOUBLE, Float(false, 0, 0)).ZERO? && IsFinite(DOUBLE, Float(false, 0, 0)) && Fits(DOUBLE, Float(false, 0, 0))
  {
    hide P2;
    Widths();
    UnitsOne(P2(DOUBLE.EMin() - DOUBLE.nsig));
  }

  lemma UnitOfOne(m: int)
    ensures Units(m, P2(0)) == m as real
  {
  }

  /**
   From a 32-bit integer to double and back: the identity on every bit pattern, signed and
   unsigned, in every rounding mode.
   */
  lemma IntRoundTrip(unsigned: bool, rm: RM, bits: Bits32)
    ensures ToInt(unsigned, rm, FromInt(unsigned, bits)) == bits
  {
    hide Pow2, Decode, Normalised, CLZ, Magnitude, ToInt, HasLeadingZeros, ClassOf, Significand, Fits;
    if bits == 0 {
      ZeroInt(unsigned);
      ZeroComesBack(unsigned, rm);
    } else {
      var m := MagnitudeOf(unsigned, bits);
      LeadingZeros32(m);
      NormalisedValue(!unsigned && bits >= 0x8000_0000, m, CLZ(5, m));
      ComesBack(unsigned, rm, FromInt(unsigned, bits), m, CLZ(5, m));
    }
  }

  lemma ZeroComesBack(unsigned: bool, rm: RM)
    ensures ToInt(unsigned, rm, Float(false, 0, 0)) == 0
  {
    hide Pow2, Decode, Fraction, ShiftRight;
    ZeroInt(unsigned);
    ZeroDecoded(Float(false, 0, 0));
    ZeroSignificand();
  }

  /** The magnitude m is read back from the double, and given its sign again. */
  lemma ComesBack(unsigned: bool, rm: RM, y: RawFloat, m: nat, c: nat)
    requires 0 < m < 0x1_0000_0000 && HasLeadingZeros(32, m, c) && (y.sign ==> !unsigned && m <= 0x8000_0000)
    requires !unsigned && !y.sign ==> m < 0x8000_0000
    requires ClassOf(DOUBLE, y).NORM? && Decode(DOUBLE, y) == Decoded(31 - c, Significand(m, c))
    ensures ToInt(unsigned, rm, y) == if y.sign then 0x1_0000_0000 - m else m
  {
    hide Pow2, Decode, Fraction, ShiftRight, Significand, HasLeadingZeros, ClassOf, RoundInt, IntegerPart;
    ShiftedBack(m, c);
    TopClear(m, c);
    WholeIs(unsigned, y.sign, m, c);
    NothingRounded(y.sign, m, rm);
  }

  lemma NothingRounded(sign: bool, m: nat, rm: RM)
    requires m < 0x1_0000_0000
    ensures RoundInt(sign, m, false, false, rm) == m
  {
    DivUnique(m, 0x1_0000_0000, 0, m);
  }

  lemma WholeIs(unsigned: bool, sign: bool, m: nat, c: nat)
    requires c < 32 && (c == 0 <==> m >= 0x8000_0000) && 0 < m < 0x1_0000_0000 && (sign ==> !unsigned && m <= 0x8000_0000)
    requires ShiftRight(Significand(m, c), 21 + c) == m && (!unsigned && !sign ==> m < 0x8000_0000)
    ensures IntegerPart(unsigned, sign, NORM, Decoded(31 - c, Significand(m, c))) == m
  {
    hide ShiftRight, Significand;
    DivUnique(m, 0x1_0000_0000, 0, m);
  }

  lemma TopClear(m: nat, c: nat)
    requires HasLeadingZeros(32, m, c)
    ensures c < 32 && (c == 0 <==> m >= 0x8000_0000)
  {
    hide Pow2;
    Words();
    if c > 0 {
      Pow2Mono(32 - c, 31);
    }
  }

  lemma ZeroSignificand()
    ensures ShiftRight(Decode(DOUBLE, Float(false, 0, 0)).sig, 1075) == 0 && Fraction(Decode(DOUBLE, Float(false, 0, 0)).sig, 1075) == 0
  {
    hide Pow2;
    Widths();
    Pow2Mono(53, 1075);
    var sig := 0x10_0000_0000_0000;
    assert Decode(DOUBLE, Float(false, 0, 0)).sig == sig;
    DivUnique(sig, Pow2(1075), 0, sig);
  }
}
