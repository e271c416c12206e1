/**
 Correct rounding of a real number to p significant bits (IEEE 754-2008, section 4.3),
 stated without reference to any algorithm: the exponent range is unbounded here.
 */
module Rounding {
  import opened Arith

  /** 2^e for any integer e. */
  function P2(e: int): (x: real)
    ensures x > 0.0
    decreases if e < 0 then -e else e
  {
    if e == 0 then 1.0 else if e > 0 then 2.0 * P2(e - 1) else P2(e + 1) / 2.0
  }

  lemma P2Next(e: int)
    ensures P2(e + 1) == 2.0 * P2(e)
  {
  }

  /** m units of size u. */
  function Units(m: int, u: real): real { m as real * u }

  lemma UnitsLe(a: int, b: int, u: real)
    requires a <= b && u >= 0.0
    ensures Units(a, u) <= Units(b, u)
  {
    MulLe(a as real, b as real, u);
  }

  lemma UnitsLess(a: int, b: int, u: real)
    requires a < b && u > 0.0
    ensures Units(a, u) < Units(b, u)
  {
    MulLt(a as real, b as real, u);
  }

  lemma UnitsPlus(a: int, b: int, u: real)
    ensures Units(a + b, u) == Units(a, u) + Units(b, u) && Units(a - b, u) == Units(a, u) - Units(b, u)
    ensures Units(a - b - 1, u) == Units(a, u) - Units(b, u) - u
  {
  }

  lemma UnitsInjective(a: int, b: int, u: real)
    requires u > 0.0
    ensures Units(a, u) == Units(b, u) <==> a == b
  {
    if a < b {
      MulLt(a as real, b as real, u);
    } else if b < a {
      MulLt(b as real, a as real, u);
    }
  }

  lemma UnitsScale(m: int, k: int, u: real)
    ensures Units(m, Units(k, u)) == Units(m * k, u)
  {
    assert (m * k) as real == m as real * k as real;
  }

  lemma {:induction false} P2Scale(e: int, n: nat)
    ensures P2(e + n) == Units(Pow2(n), P2(e))
  {
    hide P2, Units;
    if n == 0 {
      UnitsOne(P2(e));
    } else {
      P2Scale(e, n - 1);
      P2Next(e + n - 1);
      UnitsTwice(P2(e + n - 1));
      UnitsScale(2, Pow2(n - 1), P2(e));
    }
  }

  lemma UnitsOne(u: real)
    ensures Units(1, u) == u && Units(0, u) == 0.0
  {
  }

  lemma UnitsTwice(u: real)
    ensures Units(2, u) == 2.0 * u
  {
  }

  lemma UnitsNext(m: int, u: real)
    ensures Units(m + 1, u) == Units(m, u) + u
  {
  }

  lemma {:induction false} P2Product(a: int, b: int)
    ensures P2(a + b) == P2(a) * P2(b)
    decreases if b < 0 then -b else b
  {
    hide P2;
    if b == 0 {
      P2Zero();
    } else if b > 0 {
      P2Product(a, b - 1);
      P2Next(a + b - 1);
      P2Next(b - 1);
    } else {
      P2Product(a, b + 1);
      P2Next(a + b);
      P2Next(b);
    }
  }

  lemma P2Zero()
    ensures P2(0) == 1.0
  {
  }

  lemma UnitsProduct(m: int, a: int, k: int, b: int)
    ensures Units(m, P2(a)) * Units(k, P2(b)) == Units(m * k, P2(a + b))
  {
    hide P2;
    P2Product(a, b);
    assert (m * k) as real == m as real * k as real;
    Regroup(m as real, P2(a), k as real, P2(b));
  }

  lemma Regroup(a: real, b: real, c: real, d: real)
    ensures (a * b) * (c * d) == (a * c) * (b * d)
  {
  }

  lemma MulLe(a: real, b: real, u: real)
    requires a <= b && u >= 0.0
    ensures a * u <= b * u
  {
  }

  /** A product whose factors the prover is not to look into. */
  function Times(a: real, b: real): real { a * b }

  lemma TimesLt(a: real, b: real, u: real)
    requires a < b && u > 0.0
    ensures Times(a, u) < Times(b, u)
  {
  }

  lemma TimesLe(a: real, b: real, u: real)
    requires a <= b && u >= 0.0
    ensures Times(a, u) <= Times(b, u)
  {
  }

  lemma TimesFacts(a: real, b: real)
    ensures Times(a, b) == Times(b, a) && Times(0.0, b) == 0.0
  {
  }

  lemma MulLt(a: real, b: real, u: real)
    requires a < b && u > 0.0
    ensures a * u < b * u
  {
  }

  /** x is m * 2^e with m of at most p bits. */
  ghost predicate FloatAs(p: nat, x: real, m: nat, e: int) {
    m < Pow2(p) && x == Units(m, P2(e))
  }

  ghost predicate IsFloat(p: nat, x: real) {
    exists m: nat, e: int :: FloatAs(p, x, m, e)
  }

  /** The leading p-bit significand of x is even. */
  ghost predicate EvenSignificand(p: nat, x: real) {
    p > 0 && exists m: nat, e: int :: FloatAs(p, x, m, e) && Pow2(p - 1) <= m && m % 2 == 0
  }

  function Abs(x: real): real { if x < 0.0 then -x else x }

  ghost predicate IsFloor(p: nat, v: real, r: real) {
    IsFloat(p, r) && r <= v && forall x :: IsFloat(p, x) && x <= v ==> x <= r
  }

  ghost predicate IsCeiling(p: nat, v: real, r: real) {
    IsFloat(p, r) && v <= r && forall x :: IsFloat(p, x) && v <= x ==> r <= x
  }

  ghost predicate IsNearest(p: nat, v: real, r: real) {
    IsFloat(p, r) && forall x :: IsFloat(p, x) ==> Abs(r - v) <= Abs(x - v)
  }

  /** Another float is just as near. */
  ghost predicate IsTie(p: nat, v: real, r: real, x: real) {
    IsFloat(p, x) && x != r && Abs(x - v) == Abs(r - v)
  }

  /** The rounding modes by their encoding: 0 RNE, 1 RTZ, 2 RDN, 3 RUP, 4 RMM; the rest truncate. */
  type RM = x: int | 0 <= x < 8

  /** A directed mode that rounds magnitudes of this sign upwards. */
  predicate AwayFromZero(rm: RM, negative: bool) {
    (rm == 2 && negative) || (rm == 3 && !negative)
  }

  /** r is the magnitude v, of the given sign, rounded to p bits. */
  ghost predicate Rounds(rm: RM, negative: bool, p: nat, v: real, r: real) {
    if rm == 0 then IsNearest(p, v, r) && forall x :: IsTie(p, v, r, x) ==> EvenSignificand(p, r)
    else if rm == 4 then IsNearest(p, v, r) && forall x :: IsTie(p, v, r, x) ==> x < r
    else if AwayFromZero(rm, negative) then IsCeiling(p, v, r)
    else IsFloor(p, v, r)
  }

  // ---------------------------------------------------------------------------------------
  // The grid around a value
  // ---------------------------------------------------------------------------------------

  /** Floats with a p-bit leading significand lo are one unit apart: none lies in between. */
  lemma NoFloatBetween(p: nat, lo: nat, e: int, x: real)
    requires p > 0 && Pow2(p - 1) <= lo && IsFloat(p, x)
    ensures x <= Units(lo, P2(e)) || x >= Units(lo + 1, P2(e))
  {
    hide P2, Units;
    var m: nat, f: int :| FloatAs(p, x, m, f);
    if f >= e {
      P2Scale(e, f - e);
      UnitsScale(m, Pow2(f - e), P2(e));
      var k := m * Pow2(f - e);
      if k <= lo {
        UnitsLe(k, lo, P2(e));
      } else {
        UnitsLe(lo + 1, k, P2(e));
      }
    } else {
      BelowTheGrid(p, m, f, e);
      UnitsLe(Pow2(p - 1), lo, P2(e));
    }
  }

  /** A float of a finer grain is below every p-bit significand of this one. */
  lemma BelowTheGrid(p: nat, m: nat, f: int, e: int)
    requires p > 0 && m < Pow2(p) && f < e
    ensures Units(m, P2(f)) < Units(Pow2(p - 1), P2(e))
  {
    hide P2, Units;
    var n := Pow2(p - 1) * Pow2(e - f);
    P2Scale(f, e - f);
    UnitsScale(Pow2(p - 1), Pow2(e - f), P2(f));
    Pow2Strict(0, e - f);
    MulMono(2, Pow2(e - f), Pow2(p - 1));
    UnitsLe(m + 1, n, P2(f));
    UnitsNext(m, P2(f));
  }

  lemma GridPointIsFloat(p: nat, k: nat, e: int)
    requires p > 0 && k <= Pow2(p)
    ensures IsFloat(p, Units(k, P2(e)))
  {
    hide P2, Units;
    if k < Pow2(p) {
      assert FloatAs(p, Units(k, P2(e)), k, e);
    } else {
      P2Scale(e, p);
      Pow2Strict(0, p);
      UnitsOne(P2(e + p));
      assert FloatAs(p, Units(k, P2(e)), 1, e + p);
    }
  }

  lemma GridPointEven(p: nat, k: nat, e: int)
    requires p > 1 && Pow2(p - 1) <= k <= Pow2(p) && k % 2 == 0
    ensures EvenSignificand(p, Units(k, P2(e)))
  {
    hide P2, Units;
    if k < Pow2(p) {
      assert FloatAs(p, Units(k, P2(e)), k, e);
    } else {
      P2Next(e);
      UnitsTwice(P2(e));
      UnitsScale(Pow2(p - 1), 2, P2(e));
      assert Pow2(p) == 2 * Pow2(p - 1) && Pow2(p - 1) == 2 * Pow2(p - 2);
      assert FloatAs(p, Units(k, P2(e)), Pow2(p - 1), e + 1);
    }
  }

  // ---------------------------------------------------------------------------------------
  // Rounding on the grid
  // ---------------------------------------------------------------------------------------

  /** v lies in the grid cell above lo units of 2^e, where lo is a normalised p-bit significand. */
  ghost predicate InCell(p: nat, lo: nat, e: int, v: real) {
    p > 1 && Pow2(p - 1) <= lo < Pow2(p) && Units(lo, P2(e)) <= v < Units(lo + 1, P2(e))
  }

  lemma CellBounds(p: nat, lo: nat, e: int, v: real, x: real)
    requires InCell(p, lo, e, v) && IsFloat(p, x)
    ensures x <= Units(lo, P2(e)) || Units(lo, P2(e)) + P2(e) == Units(lo + 1, P2(e)) <= x
  {
    hide P2, Units;
    NoFloatBetween(p, lo, e, x);
    UnitsNext(lo, P2(e));
  }

  lemma CellFloor(p: nat, lo: nat, e: int, v: real)
    requires InCell(p, lo, e, v)
    ensures IsFloor(p, v, Units(lo, P2(e)))
  {
    hide P2, Units, IsFloat;
    GridPointIsFloat(p, lo, e);
    forall x | IsFloat(p, x) && x <= v
      ensures x <= Units(lo, P2(e))
    {
      CellBounds(p, lo, e, v, x);
    }
  }

  lemma CellCeiling(p: nat, lo: nat, e: int, v: real)
    requires InCell(p, lo, e, v)
    ensures IsCeiling(p, v, Units(if v == Units(lo, P2(e)) then lo else lo + 1, P2(e)))
  {
    hide P2, Units, IsFloat;
    GridPointIsFloat(p, lo, e);
    GridPointIsFloat(p, lo + 1, e);
    forall x | IsFloat(p, x) && v <= x
      ensures Units(if v == Units(lo, P2(e)) then lo else lo + 1, P2(e)) <= x
    {
      CellBounds(p, lo, e, v, x);
    }
  }

  /** The middle of the cell decides which end is nearest; only in the middle is the other end a tie. */
  lemma CellNearest(p: nat, lo: nat, e: int, v: real, up: bool)
    requires InCell(p, lo, e, v)
    requires if up then v >= Units(lo, P2(e)) + P2(e) / 2.0 else v <= Units(lo, P2(e)) + P2(e) / 2.0
    ensures var r := Units(if up then lo + 1 else lo, P2(e));
      && IsNearest(p, v, r)
      && (forall x :: IsTie(p, v, r, x) ==>
            v == Units(lo, P2(e)) + P2(e) / 2.0 && x == Units(if up then lo else lo + 1, P2(e)))
  {
    hide P2, Units, IsFloat;
    GridPointIsFloat(p, lo, e);
    GridPointIsFloat(p, lo + 1, e);
    UnitsNext(lo, P2(e));
    forall x | IsFloat(p, x)
      ensures x <= Units(lo, P2(e)) || Units(lo + 1, P2(e)) <= x
    {
      CellBounds(p, lo, e, v, x);
    }
  }

  // ---------------------------------------------------------------------------------------
  // The rounding decision
  // ---------------------------------------------------------------------------------------

  /** roundUp of the rounder: round bit, sticky bit and the parity of the kept significand decide. */
  function RoundUp(rm: RM, negative: bool, odd: bool, roundBit: bool, sticky: bool): bool {
    if rm == 0 then roundBit && (sticky || odd)
    else if rm == 2 then negative && (roundBit || sticky)
    else if rm == 3 then !negative && (roundBit || sticky)
    else if rm == 4 then roundBit
    else false
  }

  /**
   The round and sticky bits describe where v lies in its cell, as far as the mode looks at them:
   truncation looks at neither, ties-to-max only at the round bit, the directed modes only at
   whether either is set.
   */
  ghost predicate Describes(rm: RM, negative: bool, lo: nat, e: int, v: real, roundBit: bool, sticky: bool) {
    var a, half := Units(lo, P2(e)), Units(lo, P2(e)) + P2(e) / 2.0;
    if rm == 0 then (roundBit <==> v >= half) && (roundBit && !sticky <==> v == half)
    else if rm == 4 then roundBit <==> v >= half
    else if AwayFromZero(rm, negative) then (roundBit || sticky) <==> v != a
    else true
  }

  lemma DecisionCorrect(rm: RM, negative: bool, p: nat, lo: nat, e: int, v: real, roundBit: bool, sticky: bool)
    requires InCell(p, lo, e, v) && Describes(rm, negative, lo, e, v, roundBit, sticky)
    ensures var up := RoundUp(rm, negative, lo % 2 == 1, roundBit, sticky);
      Rounds(rm, negative, p, v, Units(if up then lo + 1 else lo, P2(e)))
  {
    hide P2, Units, IsFloat, IsNearest, IsFloor, IsCeiling, IsTie, EvenSignificand;
    var up := RoundUp(rm, negative, lo % 2 == 1, roundBit, sticky);
    UnitsNext(lo, P2(e));
    if rm == 0 {
      CellNearest(p, lo, e, v, up);
      if lo % 2 == 0 {
        GridPointEven(p, lo, e);
      } else {
        GridPointEven(p, lo + 1, e);
      }
    } else if rm == 4 {
      CellNearest(p, lo, e, v, up);
    } else if AwayFromZero(rm, negative) {
      CellCeiling(p, lo, e, v);
    } else {
      CellFloor(p, lo, e, v);
    }
  }

  // ---------------------------------------------------------------------------------------
  // The specification leaves no choice
  // ---------------------------------------------------------------------------------------

  lemma NormalisedUnique(p: nat, m: nat, f: int, k: nat, e: int)
    requires p > 0 && Pow2(p - 1) <= m < Pow2(p) && Pow2(p - 1) <= k < Pow2(p)
    requires Units(m, P2(f)) == Units(k, P2(e))
    ensures m == k && f == e
  {
    hide P2, Units;
    if f < e {
      BelowTheGrid(p, m, f, e);
      UnitsLe(Pow2(p - 1), k, P2(e));
    } else if e < f {
      BelowTheGrid(p, k, e, f);
      UnitsLe(Pow2(p - 1), m, P2(f));
    } else if m < k {
      UnitsLe(m + 1, k, P2(e));
      UnitsNext(m, P2(e));
    } else if k < m {
      UnitsLe(k + 1, m, P2(e));
      UnitsNext(k, P2(e));
    }
  }

  lemma NotBothEven(p: nat, lo: nat, e: int)
    requires p > 1 && Pow2(p - 1) <= lo < Pow2(p)
    ensures !(EvenSignificand(p, Units(lo, P2(e))) && EvenSignificand(p, Units(lo + 1, P2(e))))
  {
    hide P2, Units;
    assert Pow2(p) == 2 * Pow2(p - 1);
    if EvenSignificand(p, Units(lo, P2(e))) && EvenSignificand(p, Units(lo + 1, P2(e))) {
      var m: nat, f: int :| FloatAs(p, Units(lo, P2(e)), m, f) && Pow2(p - 1) <= m && m % 2 == 0;
      NormalisedUnique(p, m, f, lo, e);
      var m': nat, f': int :| FloatAs(p, Units(lo + 1, P2(e)), m', f') && Pow2(p - 1) <= m' && m' % 2 == 0;
      assert lo + 1 < Pow2(p);
      NormalisedUnique(p, m', f', lo + 1, e);
    }
  }

  /** A value has one correct rounding. */
  lemma RoundsUnique(rm: RM, negative: bool, p: nat, lo: nat, e: int, v: real, r: real, r': real)
    requires InCell(p, lo, e, v) && Rounds(rm, negative, p, v, r) && Rounds(rm, negative, p, v, r')
    ensures r == r'
  {
    hide P2, Units, IsFloat, EvenSignificand;
    if (rm == 0 || rm == 4) && r != r' {
      assert IsTie(p, v, r, r') && IsTie(p, v, r', r);
      if rm == 0 {
        CellBounds(p, lo, e, v, r);
        CellBounds(p, lo, e, v, r');
        GridPointIsFloat(p, lo, e);
        GridPointIsFloat(p, lo + 1, e);
        NotBothEven(p, lo, e);
      }
    }
  }
}
