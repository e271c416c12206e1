/** The shared rounder of the floating-point unit, for any widths. */
module FRound {
  import opened Arith
  import opened Rounding

  /** A normalised significand of nInt bits is cut to nSig + 1 bits; these many are dropped. */
  function RoundLength(nInt: nat, nSig: nat): nat
    requires nInt >= nSig + 3
  {
    nInt - nSig - 1
  }

  function Kept(nInt: nat, nSig: nat, sig: nat): nat
    requires nInt >= nSig + 3
  {
    ShiftRight(sig, RoundLength(nInt, nSig))
  }

  function RoundBits(nInt: nat, nSig: nat, sig: nat): nat
    requires nInt >= nSig + 3
  {
    sig % Pow2(RoundLength(nInt, nSig))
  }

  predicate RoundBit(nInt: nat, nSig: nat, sig: nat)
    requires nInt >= nSig + 3
  {
    RoundBits(nInt, nSig, sig) / Pow2(RoundLength(nInt, nSig) - 1) == 1
  }

  predicate StickyBit(nInt: nat, nSig: nat, sig: nat)
    requires nInt >= nSig + 3
  {
    RoundBits(nInt, nSig, sig) % Pow2(RoundLength(nInt, nSig) - 1) != 0
  }

  datatype Rounded = Rounded(sig: nat, exp: int)

  function Round(nInt: nat, nSig: nat, sign: bool, sig: nat, exp: int, rm: RM): Rounded
    requires nInt >= nSig + 3
  {
    var kept := Kept(nInt, nSig, sig);
    var roundUp := RoundUp(rm, sign, kept % 2 == 1, RoundBit(nInt, nSig, sig), StickyBit(nInt, nSig, sig));
    Carry(nSig, kept + if roundUp then 1 else 0, exp)
  }

  /** A carry out of the significand goes into the exponent. */
  function Carry(nSig: nat, rounded: nat, exp: int): Rounded {
    if rounded >= Pow2(nSig + 1) then Rounded(rounded / 2, exp + 1) else Rounded(rounded, exp)
  }

  lemma CarryKeepsValue(nSig: nat, rounded: nat, exp: int)
    requires Pow2(nSig) <= rounded <= Pow2(nSig + 1)
    ensures var r := Carry(nSig, rounded, exp);
      && Units(r.sig, P2(r.exp - nSig)) == Units(rounded, P2(exp - nSig))
      && Pow2(nSig) <= r.sig < Pow2(nSig + 1)
      && (r.exp == exp || (r.exp == exp + 1 && r.sig == Pow2(nSig) && rounded == Pow2(nSig + 1)))
  {
    hide P2, Units, Pow2;
    Doubling(nSig + 1);
    Pow2Mono(0, nSig);
    if rounded == Pow2(nSig + 1) {
      CarryOut(nSig, exp);
    }
  }

  /** A normalised input, whose dropped bits describe v, comes out as v correctly rounded. */
  lemma RoundCorrect(nInt: nat, nSig: nat, sign: bool, sig: nat, exp: int, rm: RM, v: real)
    requires nSig >= 1 && nInt >= nSig + 3
    requires var kept := Kept(nInt, nSig, sig);
      && InCell(nSig + 1, kept, exp - nSig, v)
      && Describes(rm, sign, kept, exp - nSig, v, RoundBit(nInt, nSig, sig), StickyBit(nInt, nSig, sig))
    ensures var r := Round(nInt, nSig, sign, sig, exp, rm);
      && Rounds(rm, sign, nSig + 1, v, Units(r.sig, P2(r.exp - nSig)))
      && Pow2(nSig) <= r.sig < Pow2(nSig + 1)
      && (r.exp == exp || (r.exp == exp + 1 && r.sig == Pow2(nSig)))
  {
    hide P2, Units, Rounds, Describes, RoundBit, StickyBit, Kept, RoundUp, Carry;
    var kept := Kept(nInt, nSig, sig);
    DecisionCorrect(rm, sign, nSig + 1, kept, exp - nSig, v, RoundBit(nInt, nSig, sig), StickyBit(nInt, nSig, sig));
    var up := RoundUp(rm, sign, kept % 2 == 1, RoundBit(nInt, nSig, sig), StickyBit(nInt, nSig, sig));
    CarryKeepsValue(nSig, kept + if up then 1 else 0, exp);
  }

  lemma CarryOut(nSig: nat, exp: int)
    ensures Units(Pow2(nSig + 1), P2(exp - nSig)) == Units(Pow2(nSig), P2(exp + 1 - nSig))
    ensures Pow2(nSig + 1) / 2 == Pow2(nSig)
  {
    hide P2, Units;
    P2Next(exp - nSig);
    UnitsTwice(P2(exp - nSig));
    UnitsScale(Pow2(nSig), 2, P2(exp - nSig));
  }

  // ---------------------------------------------------------------------------------------
  // Exact and truncated inputs
  // ---------------------------------------------------------------------------------------

  lemma KeptBounds(nInt: nat, nSig: nat, sig: nat)
    requires nInt >= nSig + 3 && Pow2(nInt - 1) <= sig < Pow2(nInt)
    ensures var n := Pow2(RoundLength(nInt, nSig));
      && sig == Kept(nInt, nSig, sig) * n + RoundBits(nInt, nSig, sig) && 0 <= RoundBits(nInt, nSig, sig) < n
      && Pow2(nSig) <= Kept(nInt, nSig, sig) < Pow2(nSig + 1)
  {
    var k := RoundLength(nInt, nSig);
    var n := Pow2(k);
    var q := sig / n;
    Pow2Add(nSig, k);
    Pow2Add(nSig + 1, k);
    assert sig == q * n + sig % n;
    assert (q + 1) * n == q * n + n;
    if q < Pow2(nSig) {
      MulMono(q + 1, Pow2(nSig), n);
    }
    if q >= Pow2(nSig + 1) {
      MulMono(Pow2(nSig + 1), q, n);
    }
  }

  lemma HalfBits(h: nat, b: nat)
    requires h > 0 && b < 2 * h
    ensures (b / h == 1 <==> b >= h) && (b % h == if b >= h then b - h else b)
  {
    if b >= h {
      DivUnique(b, h, 1, b - h);
    } else {
      DivUnique(b, h, 0, b);
    }
  }

  /**
   The unit w of the full-width significand divides the unit of the kept one, so a value within
   one unit w above the significand is in the cell of its kept bits, and on the right side of
   the middle.
   */
  lemma TruncatedInCell(nInt: nat, nSig: nat, sig: nat, exp: int, v: real)
    requires nSig >= 1 && nInt >= nSig + 3 && Pow2(nInt - 1) <= sig < Pow2(nInt)
    requires Units(sig, P2(exp - nInt + 1)) <= v < Units(sig + 1, P2(exp - nInt + 1))
    ensures var kept, u := Kept(nInt, nSig, sig), P2(exp - nSig);
      && InCell(nSig + 1, kept, exp - nSig, v)
      && (RoundBit(nInt, nSig, sig) <==> v >= Units(kept, u) + u / 2.0)
      && Units(kept, u) + Units(RoundBits(nInt, nSig, sig), P2(exp - nInt + 1)) == Units(sig, P2(exp - nInt + 1))
  {
    hide P2, Units, Pow2;
    var k := RoundLength(nInt, nSig);
    var w, u := P2(exp - nInt + 1), P2(exp - nSig);
    var kept, bits := Kept(nInt, nSig, sig), RoundBits(nInt, nSig, sig);
    var n, h := Pow2(k), Pow2(k - 1);
    KeptBounds(nInt, nSig, sig);
    Doubling(k);
    HalfBits(h, bits);
    P2Scale(exp - nInt + 1, k);
    P2Scale(exp - nInt + 1, k - 1);
    assert u == Units(n, w);
    UnitsScale(kept, n, w);
    UnitsScale(kept + 1, n, w);
    assert (kept + 1) * n == kept * n + n;
    UnitsPlus(kept * n, bits, w);
    UnitsPlus(h, h, w);
    assert u / 2.0 == Units(h, w);
    UnitsPlus(kept * n, h, w);
    UnitsLe(sig + 1, (kept + 1) * n, w);
    UnitsLe(kept * n, sig, w);
    if bits >= h {
      UnitsLe(kept * n + h, sig, w);
    } else {
      UnitsLe(sig + 1, kept * n + h, w);
    }
  }

  /** Kept bits, round bit and the rest, read off a sum. */
  lemma PartsOf(nInt: nat, nSig: nat, sig: nat, kept: nat, high: bool, low: nat)
    requires nInt >= nSig + 3
    requires var k := RoundLength(nInt, nSig);
      sig == kept * Pow2(k) + (if high then Pow2(k - 1) else 0) + low && low < Pow2(k - 1)
    ensures Kept(nInt, nSig, sig) == kept && RoundBit(nInt, nSig, sig) == high
    ensures StickyBit(nInt, nSig, sig) <==> low != 0
  {
    hide Pow2;
    var k := RoundLength(nInt, nSig);
    var bits := (if high then Pow2(k - 1) else 0) + low;
    Doubling(k);
    DivUnique(sig, Pow2(k), kept, bits);
    DivUnique(bits, Pow2(k - 1), if high then 1 else 0, low);
  }

  /** An exact input describes itself to every mode. */
  lemma ExactDescribes(nInt: nat, nSig: nat, sign: bool, sig: nat, exp: int, rm: RM)
    requires nSig >= 1 && nInt >= nSig + 3 && Pow2(nInt - 1) <= sig < Pow2(nInt)
    ensures var v := Units(sig, P2(exp - nInt + 1));
      && InCell(nSig + 1, Kept(nInt, nSig, sig), exp - nSig, v)
      && Describes(rm, sign, Kept(nInt, nSig, sig), exp - nSig, v, RoundBit(nInt, nSig, sig), StickyBit(nInt, nSig, sig))
  {
    hide P2, Units;
    var w := P2(exp - nInt + 1);
    UnitsNext(sig, w);
    TruncatedInCell(nInt, nSig, sig, exp, Units(sig, w));
    var bits, k := RoundBits(nInt, nSig, sig), RoundLength(nInt, nSig);
    KeptBounds(nInt, nSig, sig);
    HalfBits(Pow2(k - 1), bits);
    P2Scale(exp - nInt + 1, k - 1);
    P2Next(exp - nSig - 1);
    assert P2(exp - nSig) / 2.0 == Units(Pow2(k - 1), w);
    UnitsInjective(bits, Pow2(k - 1), w);
    UnitsInjective(bits, 0, w);
    UnitsOne(w);
  }

  /** Rounding an exact significand of any width is correct in every mode, carry-out included. */
  lemma RoundExact(nInt: nat, nSig: nat, sign: bool, sig: nat, exp: int, rm: RM)
    requires nSig >= 1 && nInt >= nSig + 3 && Pow2(nInt - 1) <= sig < Pow2(nInt)
    ensures var r := Round(nInt, nSig, sign, sig, exp, rm);
      && Rounds(rm, sign, nSig + 1, Units(sig, P2(exp - nInt + 1)), Units(r.sig, P2(r.exp - nSig)))
      && Pow2(nSig) <= r.sig < Pow2(nSig + 1)
      && (r.exp == exp || (r.exp == exp + 1 && r.sig == Pow2(nSig)))
  {
    hide P2, Units, Rounds, Describes, RoundBit, StickyBit, Kept, Round, InCell;
    ExactDescribes(nInt, nSig, sign, sig, exp, rm);
    RoundCorrect(nInt, nSig, sign, sig, exp, rm, Units(sig, P2(exp - nInt + 1)));
  }

  /** A mode that does not round up never carries. */
  lemma NoCarry(nInt: nat, nSig: nat, sign: bool, sig: nat, exp: int, rm: RM)
    requires nInt >= nSig + 3 && Kept(nInt, nSig, sig) < Pow2(nSig + 1)
    ensures !(rm == 0 || rm == 4 || AwayFromZero(rm, sign)) ==> Round(nInt, nSig, sign, sig, exp, rm).exp == exp
  {
    hide RoundBit, StickyBit, Kept;
  }

  /**
   A digit recurrence hands over q whole units w of the value and the news whether anything is
   left over. With g (2 or 4) of those units to the unit of the last kept bit, the round and
   sticky bits read off q and the news describe the value to every mode.
   */
  lemma DigitsDescribe(p: nat, q: nat, lo: nat, rest: nat, g: nat, e: int, w: real, v: real, rm: RM, sign: bool, inexact: bool)
    requires (g == 2 && q == 2 * lo + rest) || (g == 4 && q == 4 * lo + rest)
    requires rest < g && w > 0.0 && P2(e) == Units(g, w)
    requires p > 1 && Pow2(p - 1) <= lo < Pow2(p)
    requires Units(q, w) <= v < Units(q + 1, w) && (inexact <==> v != Units(q, w))
    ensures InCell(p, lo, e, v)
    ensures Describes(rm, sign, lo, e, v, if g == 2 then rest == 1 else rest >= 2,
                      (g == 4 && rest % 2 == 1) || inexact)
  {
    hide P2, Units, Pow2;
    SmallUnits(w);
    UnitsScale(lo, g, w);
    UnitsNext(lo, P2(e));
    UnitsPlus(g * lo, rest, w);
    UnitsNext(q, w);
  }

  lemma SmallUnits(w: real)
    ensures Units(0, w) == 0.0 && Units(1, w) == w && Units(2, w) == 2.0 * w && Units(3, w) == 3.0 * w && Units(4, w) == 4.0 * w
  {
  }
}
