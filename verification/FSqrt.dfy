/**
 The digit-by-digit floating-point square root: one root digit a clock, then a clock that
 hands root and remainder to the rounder, then a clock that packs.

 The hardware fixes the single format; the widths are kept in terms of its 23 fraction bits.
 One activation on a positive finite operand held stable.
 */
module FSqrt {
  import opened Arith
  import opened Rounding
  import opened FloatFormat
  import opened FloatResult
  import FRound

  /** The formats whose square roots are always normal; single and double are among them. */
  predicate Suitable(f: Format) {
    f.nsig < Pow2(f.nexp - 1) - 1
  }

  datatype Regs = Regs(counter: nat, ac: int, x: nat, q: nat, expIn: int, rootIn: nat, sqrtOut: RawFloat)

  /** The significand with room for a whole digit pair, shifted right for an odd exponent. */
  function SqrtSig(d: Decoded): nat {
    if d.exp % 2 == 1 then d.sig else 2 * d.sig
  }

  /** acNext, xNext, qNext: try the digit one, bring down the next pair. */
  function Next(n: nat, ac: int, x: nat, q: nat): (int, nat, nat) {
    var test := ac - (4 * q + 1);
    var pair, rest := 4 * x / Pow2(n + 3), 4 * x % Pow2(n + 3);
    if test >= 0 then (4 * test + pair, rest, 2 * q + 1) else (4 * ac + pair, rest, 2 * q)
  }

  /** Width of the significand handed to the rounder. */
  function RoundWidth(f: Format): nat { 2 * (f.nsig + 2) }

  /** rootIn: the kept root digits above the remainder, acNext without its last pair. */
  function RootIn(f: Format, odd: bool, ac: int, q: nat): int {
    (if odd then q else q / 2) * Pow2(f.nsig + 3) + ac / 4
  }

  function Output(f: Format, rm: RM, r: FRound.Rounded): RawFloat {
    if r.sig == 0 then Float(rm == 2, 0, 0)
    else if r.exp < f.EMin() then Float(false, 0, r.sig % Pow2(f.nsig))
    else if r.exp > f.EMax() then (if rm == 1 || rm == 2 then MaxFinite(f, false) else Infinity(f, false))
    else PackRounded(f, false, r)
  }

  function Clock(f: Format, rm: RM, a: RawFloat, r: Regs): Regs {
    var d := Decode(f, a);
    if r.counter == 0 then
      var s := 4 * SqrtSig(d);
      r.(counter := f.nsig + 3, expIn := d.exp / 2, q := 0, ac := s / Pow2(f.nsig + 3), x := s % Pow2(f.nsig + 3))
    else if r.counter > 2 then
      var (ac, x, q) := Next(f.nsig, r.ac, r.x, r.q);
      r.(counter := r.counter - 1, ac := ac, x := x, q := q)
    else if r.counter == 2 then
      var (ac, x, q) := Next(f.nsig, r.ac, r.x, r.q);
      var root := RootIn(f, d.exp % 2 == 1, ac, q);
      r.(counter := 1, rootIn := if root >= 0 then root else 0)
    else
      r.(counter := 0, sqrtOut := Output(f, rm, FRound.Round(RoundWidth(f), f.nsig, false, r.rootIn, r.expIn, rm)))
  }

  function Clocks(f: Format, rm: RM, a: RawFloat, r: Regs, n: nat): Regs {
    if n == 0 then r else Clock(f, rm, a, Clocks(f, rm, a, r, n - 1))
  }

  // ---------------------------------------------------------------------------------------
  // The recurrence
  // ---------------------------------------------------------------------------------------

  /**
   k digits of the root of R are found: with s the radicand prefix of k + 1 pairs, the partial
   remainder ac is s - (2q)^2, small enough for the next digit to be 0 or 1, and x holds the
   pairs still to be brought down.
   */
  ghost predicate Digits(n: nat, R: nat, ac: int, x: nat, q: nat, k: nat, s: nat) {
    && R * Pow2(2 * k + 2) == s * Pow2(n + 3) + x && x < Pow2(n + 3)
    && ac == s - 4 * (q * q) && 0 <= ac <= 8 * q + 3 && q < Pow2(k)
  }

  lemma FirstPair(n: nat, R: nat, s: nat, x: nat)
    requires R < Pow2(n + 3) && s == 4 * R / Pow2(n + 3) && x == 4 * R % Pow2(n + 3)
    ensures Digits(n, R, s, x, 0, 0, s)
  {
    assert Pow2(2) == 4 && Pow2(0) == 1;
    FirstPairBound(R, Pow2(n + 3), s, x);
  }

  lemma FirstPairBound(R: nat, m: nat, s: nat, x: nat)
    requires m > 0 && R < m && s == 4 * R / m && x == 4 * R % m
    ensures R * 4 == s * m + x && x < m && s <= 3
  {
    if s >= 4 {
      MulMono(4, s, m);
    }
  }

  lemma NextDigit(n: nat, R: nat, ac: int, x: nat, q: nat, k: nat, s: nat) returns (s': nat)
    requires Digits(n, R, ac, x, q, k, s)
    ensures var (ac', x', q') := Next(n, ac, x, q);
      Digits(n, R, ac', x', q', k + 1, s') && ac' / 4 == s - q' * q' && 0 <= s - q' * q' <= 2 * q'
  {
    var m := Pow2(n + 3);
    var pair, rest := 4 * x / m, 4 * x % m;
    s' := 4 * s + pair;
    Pow2Add(2 * k + 2, 2);
    assert Pow2(2) == 4;
    BringDown(R, Pow2(2 * k + 2), s, m, x, pair, rest);
    assert (2 * q) * (2 * q) == 4 * (q * q);
    assert (2 * q + 1) * (2 * q + 1) == 4 * (q * q + q) + 1;
  }

  /** The same step on registers of n + 5 bits for ac and test and n + 3 for x and q, every slice cut. */
  function NextCut(n: nat, ac: int, x: nat, q: nat): (int, nat, nat) {
    var test := (ac - (4 * q + 1)) % Pow2(n + 5);
    var pair, rest := x / Pow2(n + 1), 4 * x % Pow2(n + 3);
    if test < Pow2(n + 4) then (4 * (test % Pow2(n + 3)) + pair, rest, 2 * (q % Pow2(n + 2)) + 1)
    else (4 * (ac % Pow2(n + 3)) + pair, rest, 2 * q % Pow2(n + 3))
  }

  /** Every digit of an activation fits the registers: nothing is cut and the sign bit of test is its sign. */
  lemma RegistersFit(n: nat, R: nat, ac: int, x: nat, q: nat, k: nat, s: nat)
    requires Digits(n, R, ac, x, q, k, s) && k <= n + 1
    ensures NextCut(n, ac, x, q) == Next(n, ac, x, q)
    ensures var (ac', x', q') := Next(n, ac, x, q);
      0 <= ac' < Pow2(n + 5) && x' < Pow2(n + 3) && q' < Pow2(n + 2)
  {
    hide Pow2;
    Pow2Mono(k, n + 1);
    Doubling(n + 2);
    Doubling(n + 3);
    Doubling(n + 4);
    Doubling(n + 5);
    var test := ac - (4 * q + 1);
    var s' := NextDigit(n, R, ac, x, q, k, s);
    TopPair(x, Pow2(n + 1), Pow2(n + 3));
    if test >= 0 {
      DivUnique(test, Pow2(n + 5), 0, test);
      DivUnique(test, Pow2(n + 3), 0, test);
      DivUnique(q, Pow2(n + 2), 0, q);
    } else {
      DivUnique(test, Pow2(n + 5), -1, test + Pow2(n + 5));
      DivUnique(ac, Pow2(n + 3), 0, ac);
      DivUnique(2 * q, Pow2(n + 3), 0, 2 * q);
    }
  }

  /** The top pair of x. */
  lemma TopPair(x: nat, m: nat, w: nat)
    requires m > 0 && w == 4 * m
    ensures x / m == 4 * x / w
  {
    var q := x / m;
    assert x == q * m + x % m;
    assert q * w == 4 * (q * m);
    DivUnique(4 * x, w, q, 4 * (x % m));
  }

  lemma BringDown(R: nat, p: nat, s: nat, m: nat, x: nat, pair: nat, rest: nat)
    requires m > 0 && R * p == s * m + x && x < m && pair == 4 * x / m && rest == 4 * x % m
    ensures R * (p * 4) == (4 * s + pair) * m + rest && rest < m && pair <= 3
  {
    assert 4 * x == pair * m + rest;
    if pair >= 4 {
      MulMono(4, pair, m);
    }
    assert R * (p * 4) == 4 * (R * p);
    assert (4 * s + pair) * m == 4 * (s * m) + pair * m;
  }

  // ---------------------------------------------------------------------------------------
  // From digits to a root
  // ---------------------------------------------------------------------------------------

  predicate Operand(f: Format, a: RawFloat) {
    Suitable(f) && Fits(f, a) && IsFinite(f, a) && !ClassOf(f, a).ZERO? && !a.sign
  }

  lemma RadicandBound(f: Format, a: RawFloat)
    requires Operand(f, a)
    ensures Pow2(f.nsig) <= Decode(f, a).sig && SqrtSig(Decode(f, a)) < Pow2(f.nsig + 2) < Pow2(f.nsig + 3)
  {
    hide Decode, Magnitude, P2, Units, Pow2;
    DecodeKeepsValue(f, a);
    Doubling(f.nsig + 2);
    Doubling(f.nsig + 3);
  }

  lemma {:induction false} DigitsAfter(f: Format, rm: RM, a: RawFloat, r: Regs, k: nat) returns (s: nat)
    requires r.counter == 0 && Operand(f, a) && k <= f.nsig + 1
    ensures var t := Clocks(f, rm, a, r, k + 1);
      && t.counter == f.nsig + 3 - k && t.expIn == Decode(f, a).exp / 2
      && Digits(f.nsig, SqrtSig(Decode(f, a)), t.ac, t.x, t.q, k, s)
  {
    hide Decode, Digits, Next, Pow2, Output, Operand, SqrtSig, RootIn;
    if k == 0 {
      RadicandBound(f, a);
      assert Clocks(f, rm, a, r, 0) == r;
      var t := Clocks(f, rm, a, r, 1);
      FirstPair(f.nsig, SqrtSig(Decode(f, a)), t.ac, t.x);
      s := t.ac;
    } else {
      var before := DigitsAfter(f, rm, a, r, k - 1);
      var t := Clocks(f, rm, a, r, k);
      s := NextDigit(f.nsig, SqrtSig(Decode(f, a)), t.ac, t.x, t.q, k - 1, before);
    }
  }

  /** With all the pairs brought down the root is the integer square root of the scaled radicand. */
  ghost predicate IsRoot(n: nat, R: nat, q: nat, rem: nat) {
    q * q + rem == R * Pow2(n + 1) && rem <= 2 * q && q < Pow2(n + 2)
  }

  lemma LastDigit(n: nat, R: nat, ac: int, x: nat, q: nat, s: nat) returns (rem: nat)
    requires Digits(n, R, ac, x, q, n + 1, s)
    ensures var (ac', _, q') := Next(n, ac, x, q);
      ac' / 4 == rem && IsRoot(n, R, q', rem)
  {
    hide Pow2;
    var (ac', x', q') := Next(n, ac, x, q);
    AllPairsDown(n, R, s, x);
    var s' := NextDigit(n, R, ac, x, q, n + 1, s);
    rem := s - q' * q';
  }

  lemma AllPairsDown(n: nat, R: nat, s: nat, x: nat)
    requires R * Pow2(2 * (n + 1) + 2) == s * Pow2(n + 3) + x && x < Pow2(n + 3)
    ensures s == R * Pow2(n + 1)
  {
    hide Pow2;
    var m, h := Pow2(n + 3), Pow2(n + 1);
    Pow2Add(n + 1, n + 3);
    assert n + 1 + (n + 3) == 2 * (n + 1) + 2;
    assert R * (h * m) == (R * h) * m + 0;
    DivUnique(R * (h * m), m, R * h, 0);
    DivUnique(R * (h * m), m, s, x);
  }

  /** v is the square root of a's value. */
  predicate IsSqrt(f: Format, a: RawFloat, v: real) {
    v >= 0.0 && Times(v, v) == Magnitude(f, a)
  }

  /** The exponent of the unit in which the root digits count. */
  function UnitExp(f: Format, d: Decoded): int {
    if d.exp % 2 == 1 then d.exp / 2 - f.nsig else d.exp / 2 - f.nsig - 1
  }

  lemma SquareInUnits(f: Format, a: RawFloat, q: nat, rem: nat, v: real)
    requires Operand(f, a) && IsSqrt(f, a, v) && IsRoot(f.nsig, SqrtSig(Decode(f, a)), q, rem)
    ensures Times(v, v) == Units(q * q + rem, P2(2 * UnitExp(f, Decode(f, a))))
  {
    hide P2, Units, Magnitude, Decode, Pow2, Times;
    DecodeKeepsValue(f, a);
    var d := Decode(f, a);
    var n, u := f.nsig, UnitExp(f, d);
    if d.exp % 2 == 1 {
      assert 2 * u + (n + 1) == d.exp - n;
      P2Scale(2 * u, n + 1);
      UnitsScale(d.sig, Pow2(n + 1), P2(2 * u));
    } else {
      assert 2 * u + (n + 2) == d.exp - n;
      P2Scale(2 * u, n + 2);
      Doubling(n + 2);
      UnitsScale(d.sig, Pow2(n + 2), P2(2 * u));
      EvenRadicand(d.sig, Pow2(n + 1));
    }
  }

  lemma EvenRadicand(sig: nat, p: nat)
    ensures (2 * sig) * p == sig * (2 * p)
  {
  }

  /** Squaring is monotone, so the integer root counts the whole units of the real one. */
  lemma RootInUnits(q: nat, rem: nat, e: int, v: real)
    requires v >= 0.0 && Times(v, v) == Units(q * q + rem, P2(2 * e)) && rem <= 2 * q
    ensures Units(q, P2(e)) <= v < Units(q + 1, P2(e)) && (rem != 0 <==> v != Units(q, P2(e)))
  {
    hide P2, Units, Times;
    assert (q + 1) * (q + 1) == q * q + 2 * q + 1;
    CompareUnits(v, q, q * q + rem, e);
    CompareUnits(v, q + 1, q * q + rem, e);
  }

  lemma CompareUnits(v: real, k: nat, n: nat, e: int)
    requires v >= 0.0 && Times(v, v) == Units(n, P2(2 * e))
    ensures v < Units(k, P2(e)) <==> n < k * k
    ensures v == Units(k, P2(e)) <==> n == k * k
  {
    hide P2, Units, Times;
    SquareOfUnits(k, e);
    UnitsLe(0, k, P2(e));
    UnitsOne(P2(e));
    CompareSquares(v, Units(k, P2(e)));
    UnitsInjective(n, k * k, P2(2 * e));
    if n < k * k {
      UnitsLe(n + 1, k * k, P2(2 * e));
      UnitsNext(n, P2(2 * e));
    } else {
      UnitsLe(k * k, n, P2(2 * e));
    }
  }

  lemma SquareOfUnits(k: nat, e: int)
    ensures Times(Units(k, P2(e)), Units(k, P2(e))) == Units(k * k, P2(2 * e))
  {
    hide P2, Units;
    UnitsProduct(k, e, k, e);
    assert e + e == 2 * e;
  }

  lemma SquareLess(x: real, y: real)
    requires 0.0 <= x < y
    ensures Times(x, x) < Times(y, y)
  {
    hide Times;
    TimesLt(x, y, y);
    TimesLe(x, y, x);
    TimesFacts(x, y);
  }

  lemma CompareSquares(x: real, y: real)
    requires x >= 0.0 && y >= 0.0
    ensures x < y <==> Times(x, x) < Times(y, y)
    ensures x == y <==> Times(x, x) == Times(y, y)
  {
    hide Times;
    if x < y {
      SquareLess(x, y);
    } else if y < x {
      SquareLess(y, x);
    }
  }

  /** The middle of the unit, seen from the remainder: it is never hit, four times an integer being no odd square. */
  lemma MiddleOfUnit(q: nat, rem: nat, e: int, v: real)
    requires v >= 0.0 && Times(v, v) == Units(q * q + rem, P2(2 * e))
    ensures v >= Units(q, P2(e)) + P2(e) / 2.0 <==> rem > q
    ensures v != Units(q, P2(e)) + P2(e) / 2.0
  {
    hide P2, Units, Times;
    P2Next(e - 1);
    P2Next(2 * e - 2);
    P2Next(2 * e - 1);
    UnitsTwice(P2(e - 1));
    UnitsScale(q, 2, P2(e - 1));
    UnitsNext(2 * q, P2(e - 1));
    UnitsTwice(P2(2 * e - 2));
    UnitsTwice(P2(2 * e - 1));
    UnitsScale(2, 2, P2(2 * e - 2));
    UnitsScale(q * q + rem, 4, P2(2 * e - 2));
    assert 2 * (e - 1) == 2 * e - 2;
    CompareUnits(v, 2 * q + 1, 4 * (q * q + rem), e - 1);
    assert (2 * q + 1) * (2 * q + 1) == 4 * (q * q + q) + 1;
  }

  // ---------------------------------------------------------------------------------------
  // What the rounder is told, and what it should have been
  // ---------------------------------------------------------------------------------------

  /** The kept root digits. */
  function KeptRoot(d: Decoded, q: nat): nat { if d.exp % 2 == 1 then q else q / 2 }

  /** The root digit after the kept ones. */
  predicate NextRootBit(d: Decoded, q: nat, rem: nat) {
    if d.exp % 2 == 1 then rem > q else q % 2 == 1
  }

  lemma RootRange(n: nat, R: nat, q: nat, rem: nat, k: nat)
    requires IsRoot(n, R, q, rem) && Pow2(k) * Pow2(k) <= R * Pow2(n + 1) < Pow2(k + 1) * Pow2(k + 1)
    ensures Pow2(k) <= q < Pow2(k + 1)
  {
    hide Pow2;
    var lo, hi := Pow2(k), Pow2(k + 1);
    assert (q + 1) * (q + 1) == q * q + 2 * q + 1;
    if q < lo {
      MulMono(q + 1, lo, q + 1);
      MulMono(q + 1, lo, lo);
    }
    if q >= hi {
      MulMono(hi, q, hi);
      MulMono(hi, q, q);
    }
  }

  /** The kept digits are a normalised significand. */
  lemma KeptRootNormalised(f: Format, a: RawFloat, q: nat, rem: nat)
    requires Operand(f, a) && IsRoot(f.nsig, SqrtSig(Decode(f, a)), q, rem)
    ensures Pow2(f.nsig) <= KeptRoot(Decode(f, a), q) < Pow2(f.nsig + 1)
  {
    hide Decode, Magnitude, P2, Units, Pow2, IsRoot, Operand;
    var n, d := f.nsig, Decode(f, a);
    DecodeKeepsValue(f, a) by { OperandIsFinite(f, a); }
    Doubling(n + 1);
    Doubling(n + 2);
    if d.exp % 2 == 1 {
      ScaledRange(Pow2(n), d.sig);
      RootRange(n, d.sig, q, rem, n);
    } else {
      ScaledRange(Pow2(n), 2 * d.sig);
      RootRange(n, 2 * d.sig, q, rem, n + 1);
    }
  }

  lemma ScaledRange(h: nat, R: nat)
    ensures h <= R < 2 * h ==> h * h <= R * (2 * h) < 2 * h * (2 * h)
    ensures 2 * h <= R < 4 * h ==> 2 * h * (2 * h) <= R * (2 * h) < 4 * h * (4 * h)
  {
    var b := 2 * h;
    if h <= R < b {
      MulMono(h, R, b);
      assert h * b == 2 * (h * h);
      MulMono(R + 1, b, b);
      assert (R + 1) * b == R * b + b;
    }
    if b <= R < 2 * b {
      MulMono(b, R, b);
      MulMono(R + 1, 2 * b, b);
      assert (R + 1) * b == R * b + b;
      assert 4 * h * (4 * h) == 2 * (2 * b * b);
    }
  }

  lemma OperandIsFinite(f: Format, a: RawFloat)
    requires Operand(f, a)
    ensures Fits(f, a) && IsFinite(f, a) && !ClassOf(f, a).ZERO?
  {
  }

  /** The scaled radicand is even, so a root whose last digit is one leaves a remainder. */
  lemma OddRootInexact(n: nat, R: nat, q: nat, rem: nat)
    requires IsRoot(n, R, q, rem) && q % 2 == 1
    ensures rem != 0
  {
    hide Pow2;
    Doubling(n + 1);
    EvenProduct(R, Pow2(n));
    OddSquare(q);
  }

  lemma EvenProduct(x: nat, h: nat)
    ensures x * (2 * h) % 2 == 0
  {
    assert x * (2 * h) == 2 * (x * h);
  }

  lemma OddSquare(q: nat)
    requires q % 2 == 1
    ensures q * q % 2 == 1
  {
    var k := q / 2;
    assert q == 2 * k + 1;
    assert q * q == 2 * (k * q) + q;
  }

  /** Where the root lies in the cell of its kept digits. */
  lemma RootCell(f: Format, a: RawFloat, q: nat, rem: nat, v: real)
    requires Operand(f, a) && IsSqrt(f, a, v) && IsRoot(f.nsig, SqrtSig(Decode(f, a)), q, rem)
    ensures var d := Decode(f, a);
      var e := d.exp / 2 - f.nsig;
      var lo := KeptRoot(d, q);
      && InCell(f.nsig + 1, lo, e, v)
      && (rem != 0 <==> v != Units(lo, P2(e)))
      && (NextRootBit(d, q, rem) <==> v >= Units(lo, P2(e)) + P2(e) / 2.0)
      && (NextRootBit(d, q, rem) ==> v != Units(lo, P2(e)) + P2(e) / 2.0)
  {
    hide Decode, Magnitude, P2, Units, Pow2, Times, IsSqrt, SqrtSig, Operand;
    var d := Decode(f, a);
    var e, u := d.exp / 2 - f.nsig, UnitExp(f, d);
    SqrtFacts(f, a, q, rem, v);
    KeptRootNormalised(f, a, q, rem);
    RootInUnits(q, rem, u, v);
    if q % 2 == 1 {
      OddRootInexact(f.nsig, SqrtSig(d), q, rem);
    }
    if d.exp % 2 == 1 {
      MiddleOfUnit(q, rem, u, v);
    } else {
      P2Next(u);
      UnitsTwice(P2(u));
      UnitsScale(q / 2, 2, P2(u));
      UnitsNext(q, P2(u));
      UnitsNext(2 * (q / 2), P2(u));
      UnitsNext(q / 2, P2(e));
    }
  }

  lemma SqrtFacts(f: Format, a: RawFloat, q: nat, rem: nat, v: real)
    requires Operand(f, a) && IsSqrt(f, a, v) && IsRoot(f.nsig, SqrtSig(Decode(f, a)), q, rem)
    ensures v >= 0.0 && Times(v, v) == Units(q * q + rem, P2(2 * UnitExp(f, Decode(f, a))))
  {
    SquareInUnits(f, a, q, rem, v);
  }

  /** One activation, seen from the packed result: the root and remainder it rounds. */
  lemma Activation(f: Format, rm: RM, a: RawFloat, r: Regs) returns (q: nat, rem: nat)
    requires r.counter == 0 && Operand(f, a)
    ensures IsRoot(f.nsig, SqrtSig(Decode(f, a)), q, rem)
    ensures var s := Clocks(f, rm, a, r, f.nsig + 4);
      && s.counter == 0
      && s.sqrtOut == Output(f, rm, RoundRoot(f, rm, Decode(f, a), q, rem))
  {
    hide Decode, Digits, Next, Pow2, Output, Operand, SqrtSig, IsRoot, FRound.Round;
    var prefix := DigitsAfter(f, rm, a, r, f.nsig + 1);
    var t := Clocks(f, rm, a, r, f.nsig + 2);
    var (ac, x, root) := Next(f.nsig, t.ac, t.x, t.q);
    q := root;
    rem := LastDigit(f.nsig, SqrtSig(Decode(f, a)), t.ac, t.x, t.q, prefix);
    RootInMeans(f, Decode(f, a), ac, q, rem);
    assert Clocks(f, rm, a, r, f.nsig + 3) == Clock(f, rm, a, t);
    assert Clocks(f, rm, a, r, f.nsig + 4) == Clock(f, rm, a, Clock(f, rm, a, t));
  }

  function RoundRoot(f: Format, rm: RM, d: Decoded, q: nat, rem: nat): FRound.Rounded {
    FRound.Round(RoundWidth(f), f.nsig, false, KeptRoot(d, q) * Pow2(f.nsig + 3) + rem, d.exp / 2, rm)
  }

  lemma RootInMeans(f: Format, d: Decoded, ac: int, q: nat, rem: nat)
    requires ac / 4 == rem
    ensures RootIn(f, d.exp % 2 == 1, ac, q) == KeptRoot(d, q) * Pow2(f.nsig + 3) + rem >= 0
  {
    MulMono(0, KeptRoot(d, q), Pow2(f.nsig + 3));
  }

  /** What the rounder sees: the remainder stands where the next root digits belong. */
  lemma RoundInputParts(f: Format, d: Decoded, q: nat, rem: nat)
    requires IsRoot(f.nsig, SqrtSig(d), q, rem)
    ensures var sig := KeptRoot(d, q) * Pow2(f.nsig + 3) + rem;
      && FRound.Kept(RoundWidth(f), f.nsig, sig) == KeptRoot(d, q)
      && (FRound.RoundBit(RoundWidth(f), f.nsig, sig) <==> rem >= Pow2(f.nsig + 2))
      && (FRound.RoundBit(RoundWidth(f), f.nsig, sig) || FRound.StickyBit(RoundWidth(f), f.nsig, sig) <==> rem != 0)
      && (FRound.StickyBit(RoundWidth(f), f.nsig, sig) <==> rem != 0 && rem != Pow2(f.nsig + 2))
  {
    hide Pow2, FRound.Kept, FRound.RoundBit, FRound.StickyBit;
    Doubling(f.nsig + 3);
    var high := rem >= Pow2(f.nsig + 2);
    FRound.PartsOf(RoundWidth(f), f.nsig, KeptRoot(d, q) * Pow2(f.nsig + 3) + rem, KeptRoot(d, q), high,
                   if high then rem - Pow2(f.nsig + 2) else rem);
  }

  /** The decision the rounder takes for a root. */
  predicate RootUp(f: Format, rm: RM, d: Decoded, q: nat, rem: nat) {
    RoundUp(rm, false, KeptRoot(d, q) % 2 == 1, rem >= Pow2(f.nsig + 2), rem != 0 && rem != Pow2(f.nsig + 2))
  }

  lemma RoundedRoot(f: Format, rm: RM, a: RawFloat, q: nat, rem: nat)
    requires Operand(f, a) && IsRoot(f.nsig, SqrtSig(Decode(f, a)), q, rem)
    ensures var d := Decode(f, a);
      var r := RoundRoot(f, rm, d, q, rem);
      && Units(r.sig, P2(r.exp - f.nsig))
           == Units(KeptRoot(d, q) + (if RootUp(f, rm, d, q, rem) then 1 else 0), P2(d.exp / 2 - f.nsig))
      && Pow2(f.nsig) <= r.sig < Pow2(f.nsig + 1) && f.EMin() <= r.exp <= f.EMax()
      && Output(f, rm, r) == PackRounded(f, false, r)
  {
    hide Decode, Magnitude, P2, Units, Pow2, RoundUp, FRound.Kept, FRound.RoundBit, FRound.StickyBit, PackRounded;
    var d := Decode(f, a);
    RoundInputParts(f, d, q, rem);
    KeptRootNormalised(f, a, q, rem);
    DecodeKeepsValue(f, a);
    FRound.CarryOut(f.nsig, d.exp / 2);
    Doubling(f.nsig + 1);
  }

  // ---------------------------------------------------------------------------------------
  // Results
  // ---------------------------------------------------------------------------------------

  /** In the directed modes the packed root is the exact square root correctly rounded. */
  lemma DirectedSqrtCorrect(f: Format, rm: RM, a: RawFloat, r: Regs, v: real)
    requires r.counter == 0 && Operand(f, a) && IsSqrt(f, a, v) && 1 <= rm <= 3
    ensures Clocks(f, rm, a, r, f.nsig + 4).counter == 0
    ensures IsRounded(f, rm, false, v, Clocks(f, rm, a, r, f.nsig + 4).sqrtOut)
  {
    hide Decode, Operand, IsSqrt, Clocks, Output, RoundRoot, IsRounded, IsRoot, SqrtSig;
    var q, rem := Activation(f, rm, a, r);
    RootRoundedBy(f, rm, a, q, rem, v, rem != 0, true);
  }

  /**
   When the remainder happens to point the right way: it stands where the next root digits
   belong, so at an odd exponent it never rounds up, and at an even one the last digit of q,
   which should decide, must agree with the remainder's top bit.
   */
  predicate RemainderDecides(f: Format, rm: RM, d: Decoded, q: nat, rem: nat) {
    var top := Pow2(f.nsig + 2);
    if d.exp % 2 == 1 then rem <= q
    else if q % 2 == 1 then rem >= top
    else rem < top || (rem == top && rm == 0 && q / 2 % 2 == 0)
  }

  lemma RemainderDecidesCorrectly(f: Format, rm: RM, a: RawFloat, q: nat, rem: nat)
    requires Operand(f, a) && (rm == 0 || rm == 4) && IsRoot(f.nsig, SqrtSig(Decode(f, a)), q, rem)
    ensures var d := Decode(f, a);
      (RootUp(f, rm, d, q, rem) <==> NextRootBit(d, q, rem)) <==> RemainderDecides(f, rm, d, q, rem)
  {
    hide Pow2, Decode, Operand, IsRoot, SqrtSig;
    var n, d := f.nsig, Decode(f, a);
    KeptRootNormalised(f, a, q, rem);
    RemainderBound(n, SqrtSig(d), q, rem);
    Doubling(n + 2);
    Doubling(n + 3);
  }

  /** The remainder is below twice the root, and never both even and beside an odd root. */
  lemma RemainderBound(n: nat, R: nat, q: nat, rem: nat)
    requires IsRoot(n, R, q, rem)
    ensures rem <= 2 * q && (q % 2 == 1 ==> rem % 2 == 1)
    ensures Pow2(n + 2) % 2 == 0
  {
    hide Pow2;
    Doubling(n + 1);
    Doubling(n + 2);
    EvenProduct(R, Pow2(n));
    if q % 2 == 1 {
      OddSquare(q);
      OddRest(q * q, rem, R * Pow2(n + 1));
    }
  }

  lemma OddRest(square: nat, rem: nat, total: nat)
    requires square + rem == total && square % 2 == 1 && total % 2 == 0
    ensures rem % 2 == 1
  {
  }

  /** In the nearest modes the root is correctly rounded exactly then. */
  lemma NearestSqrtExactlyWhen(f: Format, rm: RM, a: RawFloat, r: Regs, v: real, q: nat, rem: nat)
    requires r.counter == 0 && Operand(f, a) && IsSqrt(f, a, v) && (rm == 0 || rm == 4)
    requires IsRoot(f.nsig, SqrtSig(Decode(f, a)), q, rem)
    ensures IsRounded(f, rm, false, v, Clocks(f, rm, a, r, f.nsig + 4).sqrtOut) <==>
      RemainderDecides(f, rm, Decode(f, a), q, rem)
  {
    hide Decode, Operand, IsSqrt, Clocks, Output, RoundRoot, IsRounded, IsRoot, SqrtSig, RootUp, NextRootBit, RemainderDecides;
    var q', rem' := Activation(f, rm, a, r);
    RootUnique(f.nsig, SqrtSig(Decode(f, a)), q, rem, q', rem');
    RootRoundedBy(f, rm, a, q, rem, v, NextRootBit(Decode(f, a), q, rem), true);
    RemainderDecidesCorrectly(f, rm, a, q, rem);
  }

  /** The register is one of the two floats around v, and v itself if that is one. */
  ghost predicate Brackets(f: Format, v: real, out: RawFloat) {
    && Fits(f, out) && IsFinite(f, out) && !out.sign
    && (IsFloor(f.nsig + 1, v, Magnitude(f, out)) || IsCeiling(f.nsig + 1, v, Magnitude(f, out)))
    && (IsFloat(f.nsig + 1, v) ==> Magnitude(f, out) == v)
  }

  /** In every mode the result is one of the two floats bracketing the root, and an exact root is returned exactly. */
  lemma SqrtFaithful(f: Format, rm: RM, a: RawFloat, r: Regs, v: real)
    requires r.counter == 0 && Operand(f, a) && IsSqrt(f, a, v)
    ensures Brackets(f, v, Clocks(f, rm, a, r, f.nsig + 4).sqrtOut)
  {
    hide Decode, Operand, IsSqrt, Clocks, IsRoot, SqrtSig, RootUp, NextRootBit, P2, Units, Pow2, Magnitude, IsFloat, Times;
    var q, rem := Activation(f, rm, a, r);
    var d := Decode(f, a);
    var e, lo := d.exp / 2 - f.nsig, KeptRoot(d, q);
    RootCell(f, a, q, rem, v);
    RoundedRoot(f, rm, a, q, rem);
    PackInRange(f, false, RoundRoot(f, rm, d, q, rem));
    CellFloor(f.nsig + 1, lo, e, v);
    CellCeiling(f.nsig + 1, lo, e, v);
    if rem == 0 {
      ExactNeverUp(f, rm, d, q);
    }
  }

  lemma ExactNeverUp(f: Format, rm: RM, d: Decoded, q: nat)
    ensures !RootUp(f, rm, d, q, 0)
  {
  }

  /**
   The register is the correctly rounded root exactly when the decision taken is the one that
   `roundBit` and `sticky`, true descriptions of the root, call for.
   */
  lemma RootRoundedBy(f: Format, rm: RM, a: RawFloat, q: nat, rem: nat, v: real, roundBit: bool, sticky: bool)
    requires Operand(f, a) && IsSqrt(f, a, v) && IsRoot(f.nsig, SqrtSig(Decode(f, a)), q, rem)
    requires rm <= 4 && sticky && roundBit == (if 1 <= rm <= 3 then rem != 0 else NextRootBit(Decode(f, a), q, rem))
    ensures IsRounded(f, rm, false, v, Output(f, rm, RoundRoot(f, rm, Decode(f, a), q, rem))) <==>
      (1 <= rm <= 3 || (RootUp(f, rm, Decode(f, a), q, rem) <==> roundBit))
  {
    hide Decode, Operand, IsSqrt, IsRoot, SqrtSig, P2, Units, Pow2, Magnitude, Times, Output, RoundRoot, PackRounded, InCell, Rounds, NextRootBit;
    var d := Decode(f, a);
    var e, lo, odd := d.exp / 2 - f.nsig, KeptRoot(d, q), KeptRoot(d, q) % 2 == 1;
    var out := RoundRoot(f, rm, d, q, rem);
    var truth := if 1 <= rm <= 3 then rm == 3 && rem != 0 else roundBit;
    var up := RootUp(f, rm, d, q, rem);
    RootCell(f, a, q, rem, v);
    RoundedRoot(f, rm, a, q, rem);
    PackInRange(f, false, out);
    if rm == 3 {
      DecisionCorrect(rm, false, f.nsig + 1, lo, e, v, rem != 0, rem != 0);
    } else {
      DecisionCorrect(rm, false, f.nsig + 1, lo, e, v, roundBit, sticky);
    }
    assert Rounds(rm, false, f.nsig + 1, v, Units(lo + if truth then 1 else 0, P2(e)));
    PackedRounding(f, rm, false, v, out, lo, e, truth, up);
  }

  lemma RootUnique(n: nat, R: nat, q: nat, rem: nat, q': nat, rem': nat)
    requires IsRoot(n, R, q, rem) && IsRoot(n, R, q', rem')
    ensures q == q' && rem == rem'
  {
    hide Pow2;
    assert (q + 1) * (q + 1) == q * q + 2 * q + 1;
    assert (q' + 1) * (q' + 1) == q' * q' + 2 * q' + 1;
    if q < q' {
      MulMono(q + 1, q', q + 1);
      MulMono(q + 1, q', q');
    } else if q' < q {
      MulMono(q' + 1, q, q' + 1);
      MulMono(q' + 1, q, q);
    }
  }

  /** For example: the nearest single to the square root of 5 lies above it, and the one below is returned. */
  lemma NearestMissesSqrt5(r: Regs, v: real)
    requires r.counter == 0 && IsSqrt(SINGLE, Float(false, 129, 0x20_0000), v)
    ensures Operand(SINGLE, Float(false, 129, 0x20_0000))
    ensures !IsRounded(SINGLE, 0, false, v, Clocks(SINGLE, 0, Float(false, 129, 0x20_0000), r, 27).sqrtOut)
  {
    hide IsSqrt, Clocks, IsRounded;
    Powers();
    var five := Float(false, 129, 0x20_0000);
    assert Decode(SINGLE, five) == Decoded(2, 0xA0_0000);
    assert IsRoot(23, 0x140_0000, 18757497, 27183311);
    NearestSqrtExactlyWhen(SINGLE, 0, five, r, v, 18757497, 27183311);
  }

  lemma Powers()
    ensures Pow2(7) == 128 && Pow2(8) == 256 && Pow2(23) == 0x80_0000 && Pow2(24) == 0x100_0000 && Pow2(25) == 0x200_0000
    ensures Pow2(22) == 0x40_0000
  {
    assert Pow2(6) == 64;
    Pow2Add(8, 7);
    Pow2Add(15, 7);
  }

  // ---------------------------------------------------------------------------------------
  // The registers, updated in place
  // ---------------------------------------------------------------------------------------

  class SquareRoot {
    const f: Format
    var counter: nat
    var ac: int
    var x: nat
    var q: nat
    var expIn: int
    var rootIn: nat
    var sqrtOut: RawFloat

    constructor (f: Format)
      ensures this.f == f && counter == 0
    {
      this.f, counter, ac, x, q, expIn, rootIn, sqrtOut := f, 0, 0, 0, 0, 0, 0, Float(false, 0, 0);
    }

    function Snapshot(): Regs
      reads this
    {
      Regs(counter, ac, x, q, expIn, rootIn, sqrtOut)
    }

    /** A rising edge with sqrtEnable high and a positive finite operand. */
    method Tick(rm: RM, a: RawFloat)
      modifies this
      ensures Snapshot() == Clock(f, rm, a, old(Snapshot()))
    {
      hide Decode, FRound.Round, Output, Next, RootIn, SqrtSig;
      var d := Decode(f, a);
      if counter == 0 {
        counter := f.nsig + 3;
        expIn := d.exp / 2;
        q := 0;
        var s := 4 * SqrtSig(d);
        ac, x := s / Pow2(f.nsig + 3), s % Pow2(f.nsig + 3);
      } else if counter > 2 {
        counter := counter - 1;
        var (acNext, xNext, qNext) := Next(f.nsig, ac, x, q);
        x, ac, q := xNext, acNext, qNext;
      } else if counter > 1 {
        counter := counter - 1;
        var (acNext, _, qNext) := Next(f.nsig, ac, x, q);
        var root := RootIn(f, d.exp % 2 == 1, acNext, qNext);
        rootIn := if root >= 0 then root else 0;
      } else {
        counter := 0;
        sqrtOut := Output(f, rm, FRound.Round(RoundWidth(f), f.nsig, false, rootIn, expIn, rm));
      }
    }

    /** An activation from rest to the packed result, with the operand held stable. */
    method Activate(rm: RM, a: RawFloat)
      requires counter == 0
      modifies this
      ensures Snapshot() == Clocks(f, rm, a, old(Snapshot()), f.nsig + 4)
      ensures Operand(f, a) ==> counter == 0
      ensures Operand(f, a) && 1 <= rm <= 3 ==> forall v :: IsSqrt(f, a, v) ==> IsRounded(f, rm, false, v, sqrtOut)
      ensures Operand(f, a) ==> forall v :: IsSqrt(f, a, v) ==> Brackets(f, v, sqrtOut)
    {
      hide Clock, Operand, IsSqrt, IsRounded, Brackets;
      for t := 0 to f.nsig + 4
        invariant Snapshot() == Clocks(f, rm, a, old(Snapshot()), t)
      {
        Tick(rm, a);
      }
      if Operand(f, a) {
        ghost var root, rem := Activation(f, rm, a, old(Snapshot()));
        forall v | IsSqrt(f, a, v)
          ensures Brackets(f, v, sqrtOut) && (1 <= rm <= 3 ==> IsRounded(f, rm, false, v, sqrtOut))
        {
          SqrtFaithful(f, rm, a, old(Snapshot()), v);
          if 1 <= rm <= 3 {
            DirectedSqrtCorrect(f, rm, a, old(Snapshot()), v);
          }
        }
      }
    }
  }
}
