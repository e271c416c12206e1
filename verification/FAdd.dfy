/**
 The floating-point adder on finite nonzero operands: align, add or subtract, normalise by a
 leading-zero count, round, pack. The alignment is a floor shift that keeps no sticky bit.
 */
module FAdd {
  import opened Arith
  import opened Rounding
  import opened FloatFormat
  import opened FloatResult
  import FRound

  /** NFULLSIG: significands enter with nsig + 1 zero bits below them, their leading one here. */
  function Top(f: Format): nat { 2 * f.nsig + 1 }

  /** addendSig >>> shamt, for either sign. */
  function FloorShift(x: int, s: nat): int { x / Pow2(s) }

  /** sumSig: the larger significand plus or minus the aligned smaller one. */
  function Sum(n: nat, subtract: bool, s1: nat, s2: nat, d: nat): int {
    var wide := s2 * Pow2(n + 1);
    s1 * Pow2(n + 1) + FloorShift(if subtract then -wide else wide, d)
  }

  /** rs2_lt_rs1. */
  predicate SecondSmaller(x: Decoded, y: Decoded) {
    y.exp < x.exp || (x.exp == y.exp && y.sig < x.sig)
  }

  /** The sum before normalisation: sign, exponent of the augend and integer significand. */
  datatype Aligned = Aligned(sign: bool, exp: int, sum: int)

  function Align(f: Format, a: RawFloat, b: RawFloat): Aligned {
    var x, y := Decode(f, a), Decode(f, b);
    if SecondSmaller(x, y) then Aligned(a.sign, x.exp, Sum(f.nsig, a.sign != b.sign, x.sig, y.sig, x.exp - y.exp))
    else Aligned(b.sign, y.exp, Sum(f.nsig, a.sign != b.sign, y.sig, x.sig, if y.exp >= x.exp then y.exp - x.exp else 0))
  }

  /** sumSigNorm and adjExpNorm. */
  function Normalise(f: Format, exp: int, sum: nat): Decoded {
    var clz := CLZ(7, sum);
    var norm := exp + (127 - Top(f)) - clz;
    if sum >= Pow2(Top(f) + 1) then Decoded(norm, sum / 2)
    else Decoded(norm, if clz >= 127 - Top(f) then sum * Pow2(clz - (127 - Top(f))) else sum)
  }

  /** faddOut for operands that are neither NaN, infinite nor zero. */
  function Add(f: Format, rm: RM, a: RawFloat, b: RawFloat): RawFloat {
    var s := Align(f, a, b);
    if s.sum <= 0 then Float(false, 0, 0) else PackSum(f, rm, s.sign, Normalise(f, s.exp, s.sum))
  }

  /** Below the normal range the sum is cleared, above it the answer is infinity. */
  function PackSum(f: Format, rm: RM, sign: bool, z: Decoded): RawFloat {
    if z.exp < f.EMin() then Float(false, 0, 0)
    else PackNormal(f, Top(f) + 1, rm, sign, z)
  }

  // ---------------------------------------------------------------------------------------
  // Normalisation
  // ---------------------------------------------------------------------------------------

  /** The counter finds the leading one t, the shift brings it to the top, the exponent follows. */
  lemma NormaliseFinds(f: Format, exp: int, sum: nat) returns (t: nat)
    requires 0 < sum < Pow2(Top(f) + 2)
    ensures Pow2(t) <= sum < Pow2(t + 1) && t <= Top(f) + 1
    ensures Normalise(f, exp, sum) == Decoded(exp + t - Top(f),
      if t == Top(f) + 1 then sum / 2 else sum * Pow2(Top(f) - t))
  {
    hide Pow2, CLZ;
    Pow2Of7();
    Pow2Mono(Top(f) + 2, 128);
    CLZCorrect(7, sum);
    t := 127 - CLZ(7, sum);
    if t > Top(f) + 1 {
      Pow2Mono(Top(f) + 2, t);
    }
    if t <= Top(f) {
      Pow2Mono(t + 1, Top(f) + 1);
    }
  }

  lemma Pow2Of7()
    ensures Pow2(7) == 128
  {
  }

  lemma LeadingBitUnique(x: nat, t: nat, u: nat)
    requires Pow2(t) <= x < Pow2(t + 1) && Pow2(u) <= x < Pow2(u + 1)
    ensures t == u
  {
    hide Pow2;
    if t < u {
      Pow2Mono(t + 1, u);
    } else if u < t {
      Pow2Mono(u + 1, t);
    }
  }

  /** Normalising loses nothing, unless a carry meets an odd sum. */
  lemma NormaliseExact(f: Format, exp: int, sum: nat)
    requires 0 < sum < Pow2(Top(f) + 2) && (sum >= Pow2(Top(f) + 1) ==> sum % 2 == 0)
    ensures var z := Normalise(f, exp, sum);
      && Pow2(Top(f)) <= z.sig < Pow2(Top(f) + 1)
      && Units(z.sig, P2(z.exp - Top(f))) == Units(sum, P2(exp - Top(f)))
  {
    hide Pow2, P2, Units, Normalise;
    var t := NormaliseFinds(f, exp, sum);
    if t == Top(f) + 1 {
      Doubling(Top(f) + 2);
      Doubling(Top(f) + 1);
      P2Next(exp - Top(f));
      UnitsTwice(P2(exp - Top(f)));
      UnitsScale(sum / 2, 2, P2(exp - Top(f)));
    } else {
      var k := Top(f) - t;
      Pow2Bracket(t, sum, t + 1, k, 0);
      P2Scale(exp + t - 2 * Top(f), k);
      UnitsScale(sum, Pow2(k), P2(exp + t - 2 * Top(f)));
    }
  }

  // ---------------------------------------------------------------------------------------
  // The aligned sum
  // ---------------------------------------------------------------------------------------

  /** The exact sum or difference of two significands, the second d binades below the first. */
  function ExactSum(n: nat, e: int, subtract: bool, s1: nat, s2: nat, d: nat): real {
    var x, y := Units(s1, P2(e - n)), Units(s2, P2(e - d - n));
    if subtract then x - y else x + y
  }

  /** Up to a distance of n + 1 nothing is shifted out. */
  lemma NearSum(n: nat, e: int, subtract: bool, s1: nat, s2: nat, d: nat)
    requires d <= n + 1
    ensures var low := s2 * Pow2(n + 1 - d);
      && Sum(n, subtract, s1, s2, d) == s1 * Pow2(n + 1) + (if subtract then -low else low)
      && Units(Sum(n, subtract, s1, s2, d), P2(e - 2 * n - 1)) == ExactSum(n, e, subtract, s1, s2, d)
  {
    hide Pow2, P2, Units;
    var k := n + 1 - d;
    var low, w := s2 * Pow2(k), P2(e - 2 * n - 1);
    Pow2Add(k, d);
    assert s2 * (Pow2(k) * Pow2(d)) == low * Pow2(d);
    DivUnique(low * Pow2(d), Pow2(d), low, 0);
    assert (-low) * Pow2(d) == -(low * Pow2(d));
    DivUnique(-(low * Pow2(d)), Pow2(d), -low, 0);
    P2Scale(e - 2 * n - 1, n + 1);
    P2Scale(e - 2 * n - 1, k);
    UnitsScale(s1, Pow2(n + 1), w);
    UnitsScale(s2, Pow2(k), w);
    UnitsPlus(s1 * Pow2(n + 1), low, w);
  }

  /** Beyond it the second operand is cut to g units of the sum and a rest r below one unit. */
  lemma FarSum(n: nat, e: int, subtract: bool, s1: nat, s2: nat, d: nat, g: nat, r: nat)
    requires d >= n + 2 && s2 == g * Pow2(d - n - 1) + r && r < Pow2(d - n - 1)
    ensures var top, w := s1 * Pow2(n + 1), P2(e - 2 * n - 1);
      var rest := Units(r, P2(e - d - n));
      && Sum(n, subtract, s1, s2, d) == (if !subtract then top + g else if r == 0 then top - g else top - g - 1)
      && ExactSum(n, e, subtract, s1, s2, d)
           == (if subtract then Units(top, w) - Units(g, w) - rest else Units(top, w) + Units(g, w) + rest)
      && 0.0 <= rest < w && (rest == 0.0 <==> r == 0)
  {
    hide Pow2, P2, Units;
    var c, y, b := Pow2(d - n - 1), P2(e - d - n), Pow2(n + 1);
    Pow2Add(d - n - 1, n + 1);
    FarFloor(s2, g, r, c, b);
    P2Scale(e - d - n, d - n - 1);
    P2Scale(e - 2 * n - 1, n + 1);
    UnitsScale(s1, b, P2(e - 2 * n - 1));
    UnitsScale(g, c, y);
    UnitsPlus(g * c, r, y);
    UnitsLess(r, c, y);
    UnitsLe(0, r, y);
    UnitsOne(y);
    UnitsInjective(r, 0, y);
  }

  lemma FarFloor(s2: nat, g: nat, r: nat, c: nat, b: nat)
    requires s2 == g * c + r && r < c && b > 0
    ensures c * b > 0 && (s2 * b) / (c * b) == g
    ensures (-(s2 * b)) / (c * b) == if r == 0 then 0 - g else 0 - g - 1
  {
    MulMono(1, c, b);
    MulMono(r + 1, c, b);
    assert (r + 1) * b == r * b + b;
    assert s2 * b == g * (c * b) + r * b;
    DivUnique(s2 * b, c * b, g, r * b);
    if r == 0 {
      assert -(s2 * b) == (0 - g) * (c * b);
      DivUnique(-(s2 * b), c * b, 0 - g, 0);
    } else {
      MulMono(1, r, b);
      assert (0 - g - 1) * (c * b) == -(g * (c * b)) - c * b;
      DivUnique(-(s2 * b), c * b, 0 - g - 1, c * b - r * b);
    }
  }

  // ---------------------------------------------------------------------------------------
  // Rounding a sum that lost something
  // ---------------------------------------------------------------------------------------

  /** v lies strictly inside the g units above sig, so its round bit is right and it is inexact. */
  lemma InexactDescribes(n: nat, kept: nat, bits: nat, g: nat, exp: int, v: real, rm: RM, sign: bool)
    requires n >= 1 && bits < Pow2(n + 1) && Pow2(n) <= kept < Pow2(n + 1)
    requires g == 1 || (g == 2 && bits % 2 == 0)
    requires var sig, w := kept * Pow2(n + 1) + bits, P2(exp - 2 * n - 1);
      Units(sig, w) < v < Units(sig + g, w)
    ensures InCell(n + 1, kept, exp - n, v)
    ensures Describes(rm, sign, kept, exp - n, v, bits >= Pow2(n), true)
  {
    hide Pow2, P2, Units;
    InexactPlace(n, kept, bits, g, exp, v);
  }

  lemma InexactPlace(n: nat, kept: nat, bits: nat, g: nat, exp: int, v: real)
    requires n >= 1 && bits < Pow2(n + 1)
    requires g == 1 || (g == 2 && bits % 2 == 0)
    requires var sig, w := kept * Pow2(n + 1) + bits, P2(exp - 2 * n - 1);
      Units(sig, w) < v < Units(sig + g, w)
    ensures var u := P2(exp - n);
      && Units(kept, u) < v < Units(kept + 1, u)
      && (if bits >= Pow2(n) then v > Units(kept, u) + u / 2.0 else v < Units(kept, u) + u / 2.0)
  {
    hide Pow2, P2, Units;
    var w, u := P2(exp - 2 * n - 1), P2(exp - n);
    var b, h, base := Pow2(n + 1), Pow2(n), kept * Pow2(n + 1);
    Doubling(n + 1);
    Doubling(n);
    P2Scale(exp - 2 * n - 1, n + 1);
    UnitsScale(kept, b, w);
    UnitsNext(kept, u);
    UnitsPlus(h, h, w);
    GridPlace(base, bits, g, h, w, v);
  }

  /** Between two grid points, none of the even ones is crossed. */
  lemma GridPlace(base: int, bits: nat, g: nat, h: nat, w: real, v: real)
    requires w > 0.0 && bits < 2 * h && (g == 1 || (g == 2 && bits % 2 == 0 && h % 2 == 0))
    requires Units(base + bits, w) < v < Units(base + bits + g, w)
    ensures Units(base, w) < v < Units(base, w) + Units(2 * h, w)
    ensures if bits >= h then v > Units(base, w) + Units(h, w) else v < Units(base, w) + Units(h, w)
  {
    hide Units;
    UnitsPlus(base, 2 * h, w);
    UnitsPlus(base, h, w);
    UnitsLe(base, base + bits, w);
    UnitsLe(base + bits + g, base + 2 * h, w);
    if bits >= h {
      UnitsLe(base + h, base + bits, w);
    } else {
      UnitsLe(base + bits + g, base + h, w);
    }
  }

  /** Only a sticky bit that misses the loss can lead to another decision. */
  predicate StickyMissed(n: nat, rm: RM, sign: bool, odd: bool, bits: nat) {
    (rm == 0 && bits == Pow2(n) && !odd) || (AwayFromZero(rm, sign) && bits == 0)
  }

  lemma DecisionMissed(n: nat, kept: nat, bits: nat, rm: RM, sign: bool)
    requires bits < Pow2(n + 1) && n >= 1
    ensures var sig := kept * Pow2(n + 1) + bits;
      var code := RoundUp(rm, sign, kept % 2 == 1, FRound.RoundBit(2 * n + 2, n, sig), FRound.StickyBit(2 * n + 2, n, sig));
      && FRound.Kept(2 * n + 2, n, sig) == kept
      && (RoundUp(rm, sign, kept % 2 == 1, bits >= Pow2(n), true) == code <==> !StickyMissed(n, rm, sign, kept % 2 == 1, bits))
      && (code ==> RoundUp(rm, sign, kept % 2 == 1, bits >= Pow2(n), true))
  {
    hide Pow2, FRound.RoundBit, FRound.StickyBit, FRound.Kept;
    Doubling(n + 1);
    var high := bits >= Pow2(n);
    FRound.PartsOf(2 * n + 2, n, kept * Pow2(n + 1) + bits, kept, high, if high then bits - Pow2(n) else bits);
  }

  /** Where a far operand reaches: never half a unit of the kept bits, exactly half only when rounded up. */
  lemma FarReach(n: nat, s2: nat, d: nat, g: nat, r: nat)
    requires n >= 2 && d >= n + 2 && Pow2(n) <= s2 < Pow2(n + 1)
    requires s2 == g * Pow2(d - n - 1) + r && r < Pow2(d - n - 1)
    ensures g < Pow2(n) && (g == 0 <==> d > 2 * n + 1)
    ensures r > 0 ==> (g + 1 == Pow2(n) <==> d == n + 2 && s2 == Pow2(n + 1) - 1)
  {
    hide Pow2;
    var c := Pow2(d - n - 1);
    Doubling(n + 1);
    Pow2Mono(1, d - n - 1);
    Pow2Mono(2, n);
    SmallPowers();
    if d > 2 * n + 1 {
      Pow2Mono(n + 1, d - n - 1);
    } else {
      Pow2Mono(d - n - 1, n);
    }
    QuotientRange(Pow2(n), c, g, r, s2);
    if d > n + 2 {
      Pow2Mono(2, d - n - 1);
    }
    TopQuotient(Pow2(n), c, g, r, s2);
  }

  lemma QuotientRange(h: nat, c: nat, g: nat, r: nat, s2: nat)
    requires c >= 2 && h <= s2 < 2 * h && s2 == g * c + r && r < c
    ensures g < h && (c >= 2 * h ==> g == 0) && (c <= h ==> g >= 1)
  {
    MulMono(2, c, g);
    if g > 0 {
      MulMono(1, g, c);
    }
  }

  lemma TopQuotient(h: nat, c: nat, g: nat, r: nat, s2: nat)
    requires h >= 4 && s2 < 2 * h && s2 == g * c + r && r < c
    ensures c == 2 && r > 0 ==> (g + 1 == h <==> s2 == 2 * h - 1)
    ensures c >= 4 ==> g + 1 != h
  {
    if c >= 4 {
      MulMono(4, c, g);
    }
  }

  /**
   The operands for which the missing sticky bit misleads the rounder: a directed mode loses an
   addend that is shifted out altogether; and with a subtrahend of all ones at distance nsig + 2
   the floored difference falls on a boundary it was not on.
   */
  predicate Lost(n: nat, rm: RM, sign: bool, subtract: bool, s1: nat, s2: nat, d: nat) {
    if subtract then
      d == n + 2 && s2 == Pow2(n + 1) - 1 &&
      ((rm == 0 && s1 % 2 == 1) || (AwayFromZero(rm, sign) && s1 == Pow2(n)))
    else AwayFromZero(rm, sign) && d > 2 * n + 1
  }

  /** What the rounder is given: its two parts, and how far above them the exact sum may be. */
  datatype Cut = Cut(kept: nat, bits: nat, grain: nat, down: nat)

  function CutOf(n: nat, subtract: bool, s1: nat, g: nat): Cut
    requires g < Pow2(n) <= s1
  {
    if !subtract then Cut(s1, g, 1, 0)
    else if s1 > Pow2(n) then Cut(s1 - 1, Pow2(n + 1) - g - 1, 1, 0)
    else Cut(Pow2(n + 1) - 1, Pow2(n + 1) - 2 * (g + 1), 2, 1)
  }

  lemma CutShape(n: nat, subtract: bool, s1: nat, g: nat)
    requires n >= 2 && Pow2(n) <= s1 < Pow2(n + 1) && g < Pow2(n)
    ensures var c := CutOf(n, subtract, s1, g);
      && c.bits < Pow2(n + 1) && Pow2(n) <= c.kept < Pow2(n + 1)
      && (c.grain == 1 || (c.grain == 2 && c.bits % 2 == 0))
  {
    Doubling(n + 1);
    Doubling(n);
  }

  lemma CutMissed(n: nat, rm: RM, sign: bool, subtract: bool, s1: nat, s2: nat, d: nat, g: nat, r: nat)
    requires n >= 2 && d >= n + 2 && Pow2(n) <= s1 < Pow2(n + 1) && Pow2(n) <= s2 < Pow2(n + 1)
    requires s2 == g * Pow2(d - n - 1) + r && 0 < r < Pow2(d - n - 1) && g < Pow2(n)
    ensures var c := CutOf(n, subtract, s1, g);
      StickyMissed(n, rm, sign, c.kept % 2 == 1, c.bits) <==> Lost(n, rm, sign, subtract, s1, s2, d)
  {
    hide Pow2, AwayFromZero;
    FarReach(n, s2, d, g, r);
    Doubling(n + 1);
    Doubling(n);
  }

  /** The sum of far operands that lost something. */
  function FarTotal(n: nat, subtract: bool, s1: nat, g: nat): int {
    s1 * Pow2(n + 1) + if subtract then -1 - g else g
  }

  /** Normalised, it is the cut. */
  lemma FarNormalised(f: Format, e: int, subtract: bool, s1: nat, g: nat)
    requires Pow2(f.nsig) <= s1 < Pow2(f.nsig + 1) && g < Pow2(f.nsig)
    ensures var c := CutOf(f.nsig, subtract, s1, g);
      var sum := FarTotal(f.nsig, subtract, s1, g);
      sum > 0 && Normalise(f, e, sum) == Decoded(e - c.down, c.kept * Pow2(f.nsig + 1) + c.bits)
  {
    hide Pow2, Normalise, CutOf, FarTotal;
    CutBracket(f.nsig, subtract, s1, g);
    NormaliseAt(f, e, FarTotal(f.nsig, subtract, s1, g), CutOf(f.nsig, subtract, s1, g).down);
  }

  lemma NormaliseAt(f: Format, e: int, sum: nat, down: nat)
    requires down <= 1 && 0 < Pow2(Top(f) - down) <= sum < Pow2(Top(f) + 1 - down)
    ensures Normalise(f, e, sum) == Decoded(e - down, if down == 1 then sum * 2 else sum)
  {
    hide Pow2, Normalise;
    Doubling(Top(f) + 1);
    Doubling(Top(f) + 2);
    var t := NormaliseFinds(f, e, sum);
    LeadingBitUnique(sum, t, Top(f) - down);
    SmallPowers();
    assert sum * 1 == sum;
  }

  lemma CutBracket(n: nat, subtract: bool, s1: nat, g: nat)
    requires Pow2(n) <= s1 < Pow2(n + 1) && g < Pow2(n)
    ensures var c, sum := CutOf(n, subtract, s1, g), FarTotal(n, subtract, s1, g);
      && c.down <= 1 && 0 < Pow2(2 * n + 1 - c.down) <= sum < Pow2(2 * n + 2 - c.down)
      && c.kept * Pow2(n + 1) + c.bits == if c.down == 1 then sum * 2 else sum
  {
    hide Pow2;
    Doubling(n + 1);
    Doubling(2 * n + 1);
    Doubling(2 * n + 2);
    Pow2Add(n, n);
    CutAlgebra(Pow2(n), s1, g);
  }

  lemma CutAlgebra(h: nat, s1: nat, g: nat)
    requires h <= s1 < 2 * h && g < h
    ensures (s1 - 1) * (2 * h) == s1 * (2 * h) - 2 * h && (2 * h - 1) * (2 * h) == 4 * (h * h) - 2 * h
    ensures h * (2 * h) == 2 * (h * h) && 2 * (h * h) <= s1 * (2 * h) <= 4 * (h * h) - 2 * h
    ensures s1 > h ==> 2 * (h * h) + 2 * h <= s1 * (2 * h)
    ensures 0 < h <= h * h
  {
    MulMono(1, h, h);
    MulMono(h, s1, 2 * h);
    MulMono(s1 + 1, 2 * h, 2 * h);
    assert (s1 + 1) * (2 * h) == s1 * (2 * h) + 2 * h;
    if s1 > h {
      MulMono(h + 1, s1, 2 * h);
      assert (h + 1) * (2 * h) == h * (2 * h) + 2 * h;
    }
  }

  // ---------------------------------------------------------------------------------------
  // Rounding and packing
  // ---------------------------------------------------------------------------------------

  /**
   What PackSum makes of a normalised sum, when the true round and sticky bits of v are known:
   a cleared register below the range; above it infinity; within it the correct result exactly
   when the rounder decides as the true bits would.
   */
  lemma PackDecision(f: Format, rm: RM, sign: bool, v: real, z: Decoded, roundBit: bool, sticky: bool)
    requires var kept := FRound.Kept(Top(f) + 1, f.nsig, z.sig);
      var odd := kept % 2 == 1;
      && InCell(f.nsig + 1, kept, z.exp - f.nsig, v)
      && Describes(rm, sign, kept, z.exp - f.nsig, v, roundBit, sticky)
      && (Decision(f, rm, sign, z) ==> RoundUp(rm, sign, odd, roundBit, sticky))
    ensures var odd := FRound.Kept(Top(f) + 1, f.nsig, z.sig) % 2 == 1;
      && (v < P2(f.EMin()) ==> PackSum(f, rm, sign, z) == Float(false, 0, 0))
      && (v >= P2(f.EMin()) ==>
            (IsRounded(f, rm, sign, v, PackSum(f, rm, sign, z)) <==>
              if v >= P2(f.EMax() + 1) then !TowardZero(rm, sign)
              else Decision(f, rm, sign, z) == RoundUp(rm, sign, odd, roundBit, sticky)))
  {
    hide P2, Units, Pow2, Rounds, Describes, RoundUp, FRound.Kept, IsRounded, PackRounded, Decision, FRound.Carry, TowardZero;
    var n, e := f.nsig, z.exp - f.nsig;
    var kept := FRound.Kept(Top(f) + 1, n, z.sig);
    var truth := RoundUp(rm, sign, kept % 2 == 1, roundBit, sticky);
    BinadeOfCell(n, kept, z.exp, v, f.EMin());
    BinadeOfCell(n, kept, z.exp, v, f.EMax() + 1);
    DecisionCorrect(rm, sign, n + 1, kept, e, v, roundBit, sticky);
    NeverUp(rm, sign, kept % 2 == 1, roundBit, sticky);
    if z.exp > f.EMax() {
      InfinityCorrect(f, rm, sign, v, kept, z.exp, truth);
    } else if z.exp >= f.EMin() {
      InRangeDecision(f, rm, sign, v, z, truth);
    }
  }

  /** The rounder's own decision. */
  predicate Decision(f: Format, rm: RM, sign: bool, z: Decoded) {
    RoundUp(rm, sign, FRound.Kept(Top(f) + 1, f.nsig, z.sig) % 2 == 1,
            FRound.RoundBit(Top(f) + 1, f.nsig, z.sig), FRound.StickyBit(Top(f) + 1, f.nsig, z.sig))
  }

  lemma NeverUp(rm: RM, sign: bool, odd: bool, roundBit: bool, sticky: bool)
    ensures RoundUp(rm, sign, odd, roundBit, sticky) ==> !TowardZero(rm, sign)
  {
  }

  lemma InRangeDecision(f: Format, rm: RM, sign: bool, v: real, z: Decoded, truth: bool)
    requires var kept := FRound.Kept(Top(f) + 1, f.nsig, z.sig);
      && InCell(f.nsig + 1, kept, z.exp - f.nsig, v)
      && Rounds(rm, sign, f.nsig + 1, v, Units(kept + if truth then 1 else 0, P2(z.exp - f.nsig)))
    requires f.EMin() <= z.exp <= f.EMax()
    requires (Decision(f, rm, sign, z) ==> truth) && (truth ==> !TowardZero(rm, sign))
    ensures IsRounded(f, rm, sign, v, PackSum(f, rm, sign, z)) <==> Decision(f, rm, sign, z) == truth
  {
    hide P2, Units, Pow2, Rounds, FRound.Kept, IsRounded, PackRounded, FRound.Carry, TowardZero;
    hide RoundUp, FRound.RoundBit, FRound.StickyBit;
    var n := f.nsig;
    var kept, up := FRound.Kept(Top(f) + 1, n, z.sig), Decision(f, rm, sign, z);
    var r := FRound.Carry(n, kept + if up then 1 else 0, z.exp);
    FRound.CarryKeepsValue(n, kept + if up then 1 else 0, z.exp);
    assert r == FRound.Round(Top(f) + 1, n, sign, z.sig, z.exp, rm);
    if up {
      PackCorrect(f, rm, sign, v, z.exp, r);
    } else {
      PackedRounding(f, rm, sign, v, r, kept, z.exp - n, truth, up);
    }
  }

  // ---------------------------------------------------------------------------------------
  // Near and far operands
  // ---------------------------------------------------------------------------------------

  /** What the adder delivers for the nonzero exact sum v, of the given sign. */
  ghost predicate Delivers(f: Format, rm: RM, sign: bool, v: real, lost: bool, out: RawFloat) {
    if v < P2(f.EMin()) then out == Float(false, 0, 0)
    else IsRounded(f, rm, sign, v, out) <==> (if v >= P2(f.EMax() + 1) then !TowardZero(rm, sign) else !lost)
  }

  /** A sum the normalisation got exactly is always rounded correctly. */
  lemma ExactDelivers(f: Format, rm: RM, sign: bool, z: Decoded)
    requires Pow2(Top(f)) <= z.sig < Pow2(Top(f) + 1)
    ensures Delivers(f, rm, sign, Units(z.sig, P2(z.exp - Top(f))), false, PackSum(f, rm, sign, z))
  {
    hide P2, Units, Pow2, IsRounded, PackSum, TowardZero, RoundUp, Describes, InCell, FRound.Kept, FRound.RoundBit, FRound.StickyBit;
    FRound.ExactDescribes(Top(f) + 1, f.nsig, sign, z.sig, z.exp, rm);
    PackDecision(f, rm, sign, Units(z.sig, P2(z.exp - Top(f))), z,
                 FRound.RoundBit(Top(f) + 1, f.nsig, z.sig), FRound.StickyBit(Top(f) + 1, f.nsig, z.sig));
  }

  lemma NearBounds(n: nat, subtract: bool, s1: nat, s2: nat, d: nat)
    requires d <= n + 1 && Pow2(n) <= s1 < Pow2(n + 1) && s2 < Pow2(n + 1)
    requires subtract && d == 0 ==> s2 <= s1
    ensures var low, top := s2 * Pow2(n + 1 - d), s1 * Pow2(n + 1);
      var sum := if subtract then top - low else top + low;
      && 0 <= sum < Pow2(2 * n + 3)
      && (sum >= Pow2(2 * n + 2) ==> sum % 2 == 0)
  {
    hide Pow2;
    var h, k := Pow2(n), n + 1 - d;
    Doubling(n + 1);
    Doubling(2 * n + 3);
    Doubling(2 * n + 2);
    Doubling(2 * n + 1);
    Pow2Add(n, n);
    SmallPowers();
    if d > 0 {
      Pow2Mono(k, n);
    }
    if k > 0 {
      Doubling(k);
    }
    NearProducts(h, subtract, s1, s2, Pow2(k));
  }

  lemma NearProducts(h: nat, subtract: bool, s1: nat, s2: nat, p: nat)
    requires h <= s1 < 2 * h && s2 < 2 * h && (p == 1 || p % 2 == 0) && (p <= h || p == 2 * h)
    requires subtract && p == 2 * h ==> s2 <= s1
    ensures var low, top := s2 * p, s1 * (2 * h);
      var sum := if subtract then top - low else top + low;
      && 0 <= sum < 8 * (h * h)
      && (sum >= 4 * (h * h) ==> sum % 2 == 0)
  {
    LowBounds(h, s2, p);
    CutAlgebra(h, s1, 0);
    LowIsEven(s1, h);
    LowParity(s2, p);
    if p == 2 * h {
      SameShift(s2, s1, h);
    }
    NearLinear(h, h * h, subtract, s1 * (2 * h), s2 * p, s2, p);
  }

  lemma SameShift(a: nat, b: nat, h: nat)
    ensures a <= b ==> a * (2 * h) <= b * (2 * h)
  {
    if a <= b {
      MulMono(a, b, 2 * h);
    }
  }

  lemma LowParity(s: nat, p: nat)
    requires p == 1 || p % 2 == 0
    ensures if p == 1 then s * p == s else s * p % 2 == 0
  {
    if p != 1 {
      LowIsEven(s, p / 2);
    }
  }

  lemma NearLinear(h: nat, hh: nat, subtract: bool, top: nat, low: nat, s2: nat, p: nat)
    requires 0 < h <= hh && s2 < 2 * h && 2 * hh <= top <= 4 * hh - 2 * h && top % 2 == 0
    requires (if p == 1 then low == s2 else low % 2 == 0)
    requires (p <= h && low <= 2 * hh) || (p == 2 * h && low <= 4 * hh && (subtract ==> low <= top))
    ensures var sum := if subtract then top - low else top + low;
      && 0 <= sum < 8 * hh
      && (sum >= 4 * hh ==> sum % 2 == 0)
  {
  }

  lemma LowBounds(h: nat, s2: nat, p: nat)
    requires s2 < 2 * h
    ensures (p <= h ==> s2 * p <= 2 * (h * h)) && (p == 2 * h ==> s2 * p <= 4 * (h * h))
  {
    if p <= h {
      MulMono(p, h, s2);
      MulMono(s2, 2 * h, h);
    } else if p == 2 * h {
      MulMono(s2, 2 * h, p);
    }
  }

  lemma LowIsEven(s: nat, p: nat)
    ensures s * (2 * p) % 2 == 0
  {
    assert s * (2 * p) == 2 * (s * p);
  }

  lemma NearDelivers(f: Format, rm: RM, sign: bool, e: int, subtract: bool, s1: nat, s2: nat, d: nat)
    requires d <= f.nsig + 1 && Pow2(f.nsig) <= s1 < Pow2(f.nsig + 1) && Pow2(f.nsig) <= s2 < Pow2(f.nsig + 1)
    requires subtract && d == 0 ==> s2 <= s1
    ensures var v, sum := ExactSum(f.nsig, e, subtract, s1, s2, d), Sum(f.nsig, subtract, s1, s2, d);
      && sum >= 0 && v == Units(sum, P2(e - Top(f)))
      && (sum > 0 ==> Delivers(f, rm, sign, v, false, PackSum(f, rm, sign, Normalise(f, e, sum))))
  {
    hide P2, Units, Pow2, Delivers, Normalise, PackSum, ExactSum, Sum;
    var sum := Sum(f.nsig, subtract, s1, s2, d);
    NearSum(f.nsig, e, subtract, s1, s2, d);
    NearBounds(f.nsig, subtract, s1, s2, d);
    if sum > 0 {
      NormaliseExact(f, e, sum);
      ExactDelivers(f, rm, sign, Normalise(f, e, sum));
    }
  }

  /** Where v lies above the cut of a sum that lost something. */
  lemma CutValue(n: nat, e: int, subtract: bool, s1: nat, g: nat, rest: real, v: real)
    requires Pow2(n) <= s1 < Pow2(n + 1) && g < Pow2(n)
    requires var w := P2(e - 2 * n - 1);
      && 0.0 < rest < w
      && v == (if subtract then Units(s1 * Pow2(n + 1), w) - Units(g, w) - rest
               else Units(s1 * Pow2(n + 1), w) + Units(g, w) + rest)
    ensures var c := CutOf(n, subtract, s1, g);
      var sig, w := c.kept * Pow2(n + 1) + c.bits, P2(e - c.down - 2 * n - 1);
      Units(sig, w) < v < Units(sig + c.grain, w)
  {
    hide Pow2, P2, Units;
    var w, top := P2(e - 2 * n - 1), s1 * Pow2(n + 1);
    CutBracket(n, subtract, s1, g);
    var total := FarTotal(n, subtract, s1, g);
    UnitsPlus(top, g, w);
    UnitsNext(total, w);
    P2Next(e - 2 * n - 2);
    UnitsTwice(P2(e - 2 * n - 2));
    UnitsScale(total, 2, P2(e - 2 * n - 2));
    UnitsScale(total + 1, 2, P2(e - 2 * n - 2));
  }

  lemma FarDelivers(f: Format, rm: RM, sign: bool, e: int, subtract: bool, s1: nat, s2: nat, d: nat)
    requires d >= f.nsig + 2 && Pow2(f.nsig) <= s1 < Pow2(f.nsig + 1) && Pow2(f.nsig) <= s2 < Pow2(f.nsig + 1)
    ensures var v, sum := ExactSum(f.nsig, e, subtract, s1, s2, d), Sum(f.nsig, subtract, s1, s2, d);
      && sum > 0 && v > 0.0
      && Delivers(f, rm, sign, v, Lost(f.nsig, rm, sign, subtract, s1, s2, d), PackSum(f, rm, sign, Normalise(f, e, sum)))
  {
    hide P2, Units, Pow2, Delivers, Normalise, PackSum, ExactSum, Sum, Lost;
    var n := f.nsig;
    var c := Pow2(d - n - 1);
    var g, r := Divide(s2, c);
    FarSum(n, e, subtract, s1, s2, d, g, r);
    FarReach(n, s2, d, g, r);
    if r == 0 {
      FarExact(f, rm, sign, e, subtract, s1, s2, d, g);
    } else {
      FarInexact(f, rm, sign, e, subtract, s1, s2, d, g, r);
    }
  }

  lemma Divide(x: nat, c: nat) returns (g: nat, r: nat)
    requires c >= 1
    ensures x == g * c + r && r < c
  {
    QuotientNonnegative(x, c);
    g, r := x / c, x % c;
  }

  lemma FarBounds(n: nat, subtract: bool, s1: nat, g: nat)
    requires Pow2(n) <= s1 < Pow2(n + 1) && g < Pow2(n)
    ensures var top := s1 * Pow2(n + 1);
      0 < (if subtract then top - g else top + g) < Pow2(2 * n + 2) < Pow2(2 * n + 3)
  {
    hide Pow2;
    Doubling(n + 1);
    Doubling(2 * n + 1);
    Doubling(2 * n + 2);
    Doubling(2 * n + 3);
    Pow2Add(n, n);
    CutAlgebra(Pow2(n), s1, g);
  }

  lemma NothingLostExactly(n: nat, rm: RM, sign: bool, subtract: bool, s1: nat, s2: nat, d: nat, g: nat)
    requires n >= 2 && d >= n + 2 && Pow2(n) <= s2 < Pow2(n + 1) && s2 == g * Pow2(d - n - 1)
    ensures !Lost(n, rm, sign, subtract, s1, s2, d)
  {
    hide Pow2, AwayFromZero;
    Pow2Mono(0, d - n - 1);
    Doubling(n + 1);
    FarReach(n, s2, d, g, 0);
    SmallPowers();
    Pow2Mono(0, n);
  }

  lemma FarExact(f: Format, rm: RM, sign: bool, e: int, subtract: bool, s1: nat, s2: nat, d: nat, g: nat)
    requires d >= f.nsig + 2 && Pow2(f.nsig) <= s1 < Pow2(f.nsig + 1) && Pow2(f.nsig) <= s2 < Pow2(f.nsig + 1)
    requires s2 == g * Pow2(d - f.nsig - 1) && g < Pow2(f.nsig)
    ensures var top, w := s1 * Pow2(f.nsig + 1), P2(e - 2 * f.nsig - 1);
      var sum := if subtract then top - g else top + g;
      var v := if subtract then Units(top, w) - Units(g, w) else Units(top, w) + Units(g, w);
      && sum > 0 && v > 0.0
      && Delivers(f, rm, sign, v, Lost(f.nsig, rm, sign, subtract, s1, s2, d), PackSum(f, rm, sign, Normalise(f, e, sum)))
  {
    hide P2, Units, Pow2, Delivers, Normalise, PackSum, Lost;
    var n := f.nsig;
    var top, w := s1 * Pow2(n + 1), P2(e - 2 * n - 1);
    var sum := if subtract then top - g else top + g;
    NothingLostExactly(n, rm, sign, subtract, s1, s2, d, g);
    FarBounds(n, subtract, s1, g);
    UnitsPlus(top, g, w);
    UnitsLess(0, sum, w);
    UnitsOne(w);
    NormaliseExact(f, e, sum);
    ExactDelivers(f, rm, sign, Normalise(f, e, sum));
  }

  lemma FarInexact(f: Format, rm: RM, sign: bool, e: int, subtract: bool, s1: nat, s2: nat, d: nat, g: nat, r: nat)
    requires d >= f.nsig + 2 && Pow2(f.nsig) <= s1 < Pow2(f.nsig + 1) && Pow2(f.nsig) <= s2 < Pow2(f.nsig + 1)
    requires s2 == g * Pow2(d - f.nsig - 1) + r && 0 < r < Pow2(d - f.nsig - 1) && g < Pow2(f.nsig)
    requires 0.0 < Units(r, P2(e - d - f.nsig)) < P2(e - 2 * f.nsig - 1)
    ensures var top, w := s1 * Pow2(f.nsig + 1), P2(e - 2 * f.nsig - 1);
      var rest := Units(r, P2(e - d - f.nsig));
      var sum := if subtract then top - g - 1 else top + g;
      var v := if subtract then Units(top, w) - Units(g, w) - rest else Units(top, w) + Units(g, w) + rest;
      && sum > 0 && v > 0.0
      && Delivers(f, rm, sign, v, Lost(f.nsig, rm, sign, subtract, s1, s2, d), PackSum(f, rm, sign, Normalise(f, e, sum)))
  {
    hide P2, Units, Pow2, Normalise, PackSum, CutOf, Lost, InCell, Describes, RoundUp, StickyMissed, IsRounded, TowardZero, FRound.Kept, FRound.RoundBit, FRound.StickyBit;
    var n := f.nsig;
    var top, w := s1 * Pow2(n + 1), P2(e - 2 * n - 1);
    var rest := Units(r, P2(e - d - n));
    var v := if subtract then Units(top, w) - Units(g, w) - rest else Units(top, w) + Units(g, w) + rest;
    var c := CutOf(n, subtract, s1, g);
    var sig := c.kept * Pow2(n + 1) + c.bits;
    CutShape(n, subtract, s1, g);
    CutMissed(n, rm, sign, subtract, s1, s2, d, g, r);
    CutValue(n, e, subtract, s1, g, rest, v);
    UnitsLe(0, sig, P2(e - c.down - 2 * n - 1));
    UnitsOne(P2(e - c.down - 2 * n - 1));
    FarNormalised(f, e, subtract, s1, g);
    InexactDescribes(n, c.kept, c.bits, c.grain, e - c.down, v, rm, sign);
    DecisionMissed(n, c.kept, c.bits, rm, sign);
    PackDecision(f, rm, sign, v, Decoded(e - c.down, sig), c.bits >= Pow2(n), true);
  }

  // ---------------------------------------------------------------------------------------
  // The adder
  // ---------------------------------------------------------------------------------------

  /** What a finite register stands for, with its sign. */
  function Value(f: Format, x: RawFloat): real {
    if x.sign then -Magnitude(f, x) else Magnitude(f, x)
  }

  predicate Operand(f: Format, x: RawFloat) {
    Fits(f, x) && IsFinite(f, x) && !ClassOf(f, x).ZERO?
  }

  /** The pairs of registers whose sum the missing sticky bit spoils in this mode. */
  predicate LosesBits(f: Format, rm: RM, a: RawFloat, b: RawFloat) {
    var x, y := Decode(f, a), Decode(f, b);
    if SecondSmaller(x, y) then Lost(f.nsig, rm, a.sign, a.sign != b.sign, x.sig, y.sig, x.exp - y.exp)
    else y.exp >= x.exp && Lost(f.nsig, rm, b.sign, a.sign != b.sign, y.sig, x.sig, y.exp - x.exp)
  }

  /** The exact sum vanishes exactly when the aligned significands cancel; otherwise it is positive. */
  lemma SumDelivers(f: Format, rm: RM, sign: bool, e: int, subtract: bool, s1: nat, s2: nat, d: nat)
    requires Pow2(f.nsig) <= s1 < Pow2(f.nsig + 1) && Pow2(f.nsig) <= s2 < Pow2(f.nsig + 1)
    requires subtract && d == 0 ==> s2 <= s1
    ensures var v, sum := ExactSum(f.nsig, e, subtract, s1, s2, d), Sum(f.nsig, subtract, s1, s2, d);
      && sum >= 0 && v >= 0.0 && (sum == 0 <==> v == 0.0)
      && (sum > 0 ==> Delivers(f, rm, sign, v, Lost(f.nsig, rm, sign, subtract, s1, s2, d), PackSum(f, rm, sign, Normalise(f, e, sum))))
  {
    hide P2, Units, Pow2, Delivers, Normalise, PackSum, ExactSum, Sum, AwayFromZero;
    if d <= f.nsig + 1 {
      NearDelivers(f, rm, sign, e, subtract, s1, s2, d);
      var sum := Sum(f.nsig, subtract, s1, s2, d);
      UnitsOne(P2(e - Top(f)));
      UnitsLe(0, sum, P2(e - Top(f)));
      UnitsInjective(sum, 0, P2(e - Top(f)));
    } else {
      FarDelivers(f, rm, sign, e, subtract, s1, s2, d);
    }
  }

  /** Both registers, the larger first, seen as an exact sum of their decoded significands. */
  lemma LargerFirst(f: Format, rm: RM, a: RawFloat, b: RawFloat, sign: bool)
    requires Operand(f, a) && Operand(f, b) && sign == a.sign
    requires var x, y := Decode(f, a), Decode(f, b); x.exp > y.exp || (x.exp == y.exp && x.sig >= y.sig)
    ensures var x, y := Decode(f, a), Decode(f, b);
      var subtract, d := a.sign != b.sign, x.exp - y.exp;
      var v := ExactSum(f.nsig, x.exp, subtract, x.sig, y.sig, d);
      && Value(f, a) + Value(f, b) == (if sign then -v else v)
      && Sum(f.nsig, subtract, x.sig, y.sig, d) >= 0 && v >= 0.0
      && (Sum(f.nsig, subtract, x.sig, y.sig, d) == 0 <==> v == 0.0)
      && (v > 0.0 ==> Delivers(f, rm, sign, v, Lost(f.nsig, rm, sign, subtract, x.sig, y.sig, d),
                               PackSum(f, rm, sign, Normalise(f, x.exp, Sum(f.nsig, subtract, x.sig, y.sig, d)))))
  {
    hide P2, Units, Pow2, Delivers, Normalise, PackSum, Sum, Lost, Magnitude, Decode, IsFinite, ClassOf;
    DecodeKeepsValue(f, a);
    DecodeKeepsValue(f, b);
    var x, y := Decode(f, a), Decode(f, b);
    SumDelivers(f, rm, sign, x.exp, a.sign != b.sign, x.sig, y.sig, x.exp - y.exp);
  }

  /**
   For every pair of finite nonzero operands of either sign: a vanishing or subnormal sum comes
   out as zero; any other is correctly rounded, bit for bit, exactly when it is neither an
   overflow in a mode that rounds it down nor one of the sums the missing sticky bit spoils.
   */
  lemma AddCorrect(f: Format, rm: RM, a: RawFloat, b: RawFloat)
    requires Operand(f, a) && Operand(f, b)
    ensures var v := Value(f, a) + Value(f, b);
      && (Abs(v) < P2(f.EMin()) ==> Add(f, rm, a, b) == Float(false, 0, 0))
      && (Abs(v) >= P2(f.EMin()) ==>
            (IsRounded(f, rm, v < 0.0, Abs(v), Add(f, rm, a, b)) <==>
              if Abs(v) >= P2(f.EMax() + 1) then !TowardZero(rm, v < 0.0) else !LosesBits(f, rm, a, b)))
  {
    hide P2, Pow2, IsRounded, Normalise, PackSum, Sum, ExactSum, Lost, Value, Decode, Operand, TowardZero;
    if SecondSmaller(Decode(f, a), Decode(f, b)) {
      LargerFirst(f, rm, a, b, a.sign);
    } else {
      LargerFirst(f, rm, b, a, b.sign);
    }
  }

  /**
   Truncation and nearest with ties to the larger magnitude lose nothing at any distance, because
   the floor shift commutes with them; and no mode loses anything up to a distance of nsig + 1.
   */
  lemma NearAndTruncatedCorrect(f: Format, rm: RM, a: RawFloat, b: RawFloat)
    requires Operand(f, a) && Operand(f, b)
    requires var d := Decode(f, a).exp - Decode(f, b).exp;
      rm == 1 || rm == 4 || (0 - f.nsig - 1 <= d <= f.nsig + 1)
    requires P2(f.EMin()) <= Abs(Value(f, a) + Value(f, b)) < P2(f.EMax() + 1)
    ensures IsRounded(f, rm, Value(f, a) + Value(f, b) < 0.0, Abs(Value(f, a) + Value(f, b)), Add(f, rm, a, b))
  {
    hide P2, Pow2, IsRounded, Add, Value, Decode, Operand;
    AddCorrect(f, rm, a, b);
  }

  /** For example, in single precision: 1 + 2^-60 rounded up comes out as 1. */
  lemma RoundUpMissesTiny()
    ensures var a, b := Float(false, 127, 0), Float(false, 67, 0);
      !IsRounded(SINGLE, 3, false, Value(SINGLE, a) + Value(SINGLE, b), Add(SINGLE, 3, a, b))
  {
    hide P2, IsRounded, Add;
    Width23();
    var a, b := Float(false, 127, 0), Float(false, 67, 0);
    Decoded23(a);
    Decoded23(b);
    AtLeastBinade(23, 0x80_0000, 0, 0);
    BelowNextBinade(23, 0x80_0000, 0, 0);
    BelowNextBinade(23, 0x80_0000, -60, 0);
    P2Next(1);
    P2Mono(-126, 0);
    P2Mono(2, 128);
    AddCorrect(SINGLE, 3, a, b);
  }

  /** And the nearest single to 1 + 2^-23 minus the all-ones significand 25 binades below is missed. */
  lemma NearestMissesAllOnes()
    ensures var a, b := Float(false, 127, 1), Float(true, 102, 0x7F_FFFF);
      !IsRounded(SINGLE, 0, false, Value(SINGLE, a) + Value(SINGLE, b), Add(SINGLE, 0, a, b))
  {
    hide P2, IsRounded, Add;
    Width23();
    var a, b := Float(false, 127, 1), Float(true, 102, 0x7F_FFFF);
    Decoded23(a);
    Decoded23(b);
    AtLeastBinade(23, 0x80_0001, 0, 0);
    BelowNextBinade(23, 0x80_0001, 0, 0);
    BelowNextBinade(23, 0xFF_FFFF, -25, -2);
    P2Next(-1);
    P2Mono(-126, -1);
    P2Mono(1, 128);
    AddCorrect(SINGLE, 0, a, b);
  }

  lemma Decoded23(x: RawFloat)
    requires 0 < x.exp < 255 && x.frac < 0x80_0000
    ensures Decode(SINGLE, x) == Decoded(x.exp - 127, 0x80_0000 + x.frac) && Operand(SINGLE, x)
    ensures Magnitude(SINGLE, x) == Units(0x80_0000 + x.frac, P2(x.exp - 127 - 23))
  {
    Width23();
  }

  lemma Width23()
    ensures Pow2(23) == 0x80_0000 && Pow2(24) == 0x100_0000 && Pow2(8) == 256 && Pow2(7) == 128
  {
    SmallPowers();
    assert Pow2(4) == 16 && Pow2(8) == 256;
    Pow2Add(8, 8);
    Pow2Add(16, 7);
  }
}
