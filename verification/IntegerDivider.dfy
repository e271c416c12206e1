/**
 The shift-and-subtract engine behind DIV, DIVU, REM and REMU.

 The registers are the EE_ registers of the execute unit; `w` is the operand width
 (32 in the hardware), so a word is a number below 2^w.
 */
module IntegerDivider {
  import opened Arith

  datatype Op = Op(unsigned: bool, remainder: bool)   // funct3[0] and funct3[1]

  datatype Regs = Regs(
    dividend: nat, divisor: nat, quotient: nat, mask: nat,
    sign: bool, busy: bool, finished: bool)

  predicate Negative(w: nat, a: nat) {
    w > 0 && a >= Pow2(w - 1)
  }

  /** Two's complement negation of a w-bit word. */
  function Negate(w: nat, a: nat): nat {
    if 0 < a < Pow2(w) then Pow2(w) - a else 0
  }

  function Magnitude(w: nat, op: Op, a: nat): nat {
    if !op.unsigned && Negative(w, a) then Negate(w, a) else a
  }

  function ResultSign(w: nat, op: Op, a: nat, b: nat): bool {
    !op.unsigned &&
    if op.remainder then Negative(w, a) else Negative(w, a) != Negative(w, b) && b != 0
  }

  /** Subtraction of w-bit words, wrapping below zero. */
  function Subtract(w: nat, a: nat, b: nat): nat {
    if a >= b then a - b else if a + Pow2(w) >= b then a + Pow2(w) - b else 0
  }

  /** Bitwise or of a word with a one-hot mask. */
  function OrMask(q: nat, mask: nat): nat {
    if mask == 0 || (q / mask) % 2 == 1 then q else q + mask
  }

  /** One clock: load the operands while idle, one quotient digit while busy. */
  function Clock(w: nat, r: Regs, start: bool, op: Op, a: nat, b: nat): Regs
    requires w > 0
  {
    if !r.busy then
      Regs(Magnitude(w, op, a), Magnitude(w, op, b) * Pow2(w - 1), 0,
           if start then Pow2(w - 1) else r.mask,
           ResultSign(w, op, a, b), start, r.mask % 2 == 1)
    else
      var fits := r.divisor <= r.dividend;
      Regs(if fits then Subtract(w, r.dividend, r.divisor % Pow2(w)) else r.dividend,
           r.divisor / 2,
           if fits then OrMask(r.quotient, r.mask) else r.quotient,
           r.mask / 2,
           r.sign, r.mask % 2 == 0, r.mask % 2 == 1)
  }

  /** The result selected by E_divsel. */
  function Result(w: nat, r: Regs, op: Op): nat {
    var magnitude := if op.remainder then r.dividend else r.quotient;
    if r.sign then Negate(w, magnitude) else magnitude
  }

  // ---------------------------------------------------------------------------------------
  // What the M extension asks for
  // ---------------------------------------------------------------------------------------

  function Signed(w: nat, op: Op, a: nat): int {
    if !op.unsigned && 2 * a >= Pow2(w) then a - Pow2(w) else a
  }

  function Abs(x: int): nat {
    if x < 0 then -x else x
  }

  /** n = q*d + r with a remainder smaller than the divisor and of the dividend's sign. */
  ghost predicate Truncated(n: int, d: int, q: int, r: int) {
    && n == q * d + r
    && Abs(r) < Abs(d)
    && (r == 0 || (r < 0 <==> n < 0))
  }

  /** The value the instruction must leave in rd (unprivileged ISA 20191213, section 7.2). */
  ghost predicate Required(w: nat, op: Op, a: nat, b: nat, result: nat) {
    var n, d := Signed(w, op, a), Signed(w, op, b);
    result < Pow2(w) &&
    if d == 0 then
      // Division by zero: all ones, or the dividend itself
      result == if op.remainder then a else Pow2(w) - 1
    else if !op.unsigned && w > 0 && -n == Pow2(w - 1) && d == -1 then
      // Signed overflow
      result == if op.remainder then 0 else a
    else
      exists q, r :: Truncated(n, d, q, r) && Signed(w, op, result) == if op.remainder then r else q
  }

  /** `Required` leaves no choice: two results that meet it are the same word. */
  lemma RequiredUnique(w: nat, op: Op, a: nat, b: nat, x: nat, y: nat)
    requires w > 0 && a < Pow2(w) && b < Pow2(w)
    requires Required(w, op, a, b, x) && Required(w, op, a, b, y)
    ensures x == y
  {
    var n, d := Signed(w, op, a), Signed(w, op, b);
    if d != 0 && !(!op.unsigned && -n == Pow2(w - 1) && d == -1) {
      var q, r :| Truncated(n, d, q, r) && Signed(w, op, x) == if op.remainder then r else q;
      var q', r' :| Truncated(n, d, q', r') && Signed(w, op, y) == if op.remainder then r' else q';
      TruncatedUnique(n, d, q, r, q', r');
    }
  }

  lemma TruncatedUnique(n: int, d: int, q: int, r: int, q': int, r': int)
    requires Truncated(n, d, q, r) && Truncated(n, d, q', r')
    ensures q == q' && r == r'
  {
    var m := if d < 0 then q' - q else q - q';
    assert m * Abs(d) == r' - r by {
      assert (q - q') * d == r' - r;
      if d < 0 {
        assert (q' - q) * -d == (q - q') * d;
      }
    }
    if m >= 1 {
      MulMono(1, m, Abs(d));
      assert false;
    } else if m <= -1 {
      MulMono(m, -1, Abs(d));
      assert false;
    }
  }

  // ---------------------------------------------------------------------------------------
  // The engine
  // ---------------------------------------------------------------------------------------

  /** The low w - j digits of a quotient are still clear; k holds the ones already found. */
  ghost predicate FoundDigits(q: nat, k: nat, w: nat, j: nat)
    requires j <= w
  {
    k < Pow2(j) && q == k * Pow2(w - j)
  }

  /**
   After j quotient digits of |n| / |d|: the digits found so far and the partial remainder
   still account for the dividend, and the remainder fits the digits to come.
   */
  ghost predicate Digits(w: nat, r: Regs, n: nat, d: nat, j: nat) {
    && j <= w
    && r.mask == (if j < w then Pow2(w - 1 - j) else 0)
    && (j < w ==> r.divisor == d * Pow2(w - 1 - j))
    && n == r.quotient * d + r.dividend
    && (exists k: nat :: FoundDigits(r.quotient, k, w, j))
    && (if d == 0 then r.quotient == Pow2(w) - Pow2(w - j) else r.dividend < d * Pow2(w - j))
  }

  lemma DigitStep(w: nat, r: Regs, n: nat, d: nat, j: nat, start: bool, op: Op, a: nat, b: nat)
    requires w > 0 && n < Pow2(w) && j < w
    requires r.busy && Digits(w, r, n, d, j)
    ensures var r' := Clock(w, r, start, op, a, b);
      && Digits(w, r', n, d, j + 1)
      && r'.sign == r.sign
      && r'.busy == (j + 1 < w) && r'.finished == (j + 1 == w)
  {
    var m := Pow2(w - 1 - j);
    var r' := Clock(w, r, start, op, a, b);
    var k: nat :| FoundDigits(r.quotient, k, w, j);
    var next := SplitDigit(n, d, r.quotient, k, r.dividend, m);
    assert Pow2(j + 1) == 2 * Pow2(j);
    assert r.dividend <= n by { MulMono(0, r.quotient, d); }
    if j + 1 < w {
      HalfProduct(d, Pow2(w - 2 - j));
    }
    if r.divisor <= r.dividend {
      ModSmall(r.divisor, Pow2(w));
      OrClear(k, m);
    }
    assert r'.quotient == next.1 && r'.dividend == next.2;
    assert FoundDigits(r'.quotient, next.0, w, j + 1);
  }

  lemma HalfProduct(d: nat, m: nat)
    ensures d * (2 * m) / 2 == d * m
  {
    assert d * (2 * m) == 2 * (d * m);
  }

  /** One digit of a restoring division: either it fits and is taken, or the remainder stays. */
  lemma SplitDigit(n: nat, d: nat, q: nat, k: nat, r: nat, m: nat) returns (next: (nat, nat, nat))
    requires m > 0 && n == q * d + r && q == k * (2 * m)
    requires d == 0 || r < d * (2 * m)
    ensures next.1 == (if d * m <= r then q + m else q)
    ensures next.2 == (if d * m <= r then r - d * m else r)
    ensures n == next.1 * d + next.2 && next.1 == next.0 * m && next.0 <= 2 * k + 1
    ensures d == 0 || next.2 < d * m
    ensures q == (2 * k) * m
  {
    assert q == (2 * k) * m;
    assert d * (2 * m) == 2 * (d * m);
    if d * m <= r {
      assert (q + m) * d == q * d + d * m;
      assert (2 * k + 1) * m == (2 * k) * m + m;
      next := (2 * k + 1, q + m, r - d * m);
    } else {
      next := (2 * k, q, r);
    }
  }

  lemma ModSmall(x: nat, m: nat)
    requires x < m
    ensures x % m == x
  {
    DivUnique(x, m, 0, x);
  }

  lemma OrClear(k: nat, m: nat)
    requires m > 0
    ensures OrMask((2 * k) * m, m) == (2 * k) * m + m == (2 * k + 1) * m
  {
    DivUnique((2 * k) * m, m, 2 * k, 0);
  }

  /** The state after `t` clocks: operands offered on the first, anything at all afterwards. */
  ghost function Run(w: nat, r: Regs, op: Op, a: nat, b: nat, noise: nat -> (bool, Op, nat, nat), t: nat): Regs
    requires w > 0
  {
    if t == 0 then r
    else if t == 1 then Clock(w, r, true, op, a, b)
    else
      var (s, o, x, y) := noise(t);
      Clock(w, Run(w, r, op, a, b, noise, t - 1), s, o, x, y)
  }

  /** The first clock loads the operands: no digit is known yet. */
  lemma DigitsStart(w: nat, r: Regs, op: Op, a: nat, b: nat)
    requires w > 0 && a < Pow2(w) && b < Pow2(w) && !r.busy && r.mask % 2 == 0
    ensures var s := Clock(w, r, true, op, a, b);
      && Digits(w, s, Magnitude(w, op, a), Magnitude(w, op, b), 0)
      && s.sign == ResultSign(w, op, a, b) && s.busy && !s.finished
  {
    MagnitudeBound(w, op, a);
    MagnitudeBound(w, op, b);
    var d := Magnitude(w, op, b);
    if d != 0 {
      MulMono(1, d, Pow2(w));
    }
    assert FoundDigits(0, 0, w, 0);
  }

  lemma {:induction false} RunDigits(w: nat, r: Regs, op: Op, a: nat, b: nat,
                                     noise: nat -> (bool, Op, nat, nat), j: nat)
    requires w > 0 && a < Pow2(w) && b < Pow2(w) && j <= w
    requires !r.busy && !r.finished && r.mask % 2 == 0
    ensures var s := Run(w, r, op, a, b, noise, j + 1);
      && Digits(w, s, Magnitude(w, op, a), Magnitude(w, op, b), j)
      && s.sign == ResultSign(w, op, a, b)
      && s.busy == (j < w) && s.finished == (j == w)
  {
    MagnitudeBound(w, op, a);
    if j == 0 {
      DigitsStart(w, r, op, a, b);
    } else {
      RunDigits(w, r, op, a, b, noise, j - 1);
      var (s, o, x, y) := noise(j + 1);
      DigitStep(w, Run(w, r, op, a, b, noise, j), Magnitude(w, op, a), Magnitude(w, op, b), j - 1, s, o, x, y);
    }
  }

  lemma MagnitudeBound(w: nat, op: Op, a: nat)
    requires w > 0 && a < Pow2(w)
    ensures Magnitude(w, op, a) == Abs(Signed(w, op, a)) < Pow2(w)
  {
  }

  /**
   A division takes exactly w + 1 clocks and then holds what the ISA requires,
   whatever the inputs do once the operands are loaded.
   */
  lemma DivideCorrect(w: nat, r: Regs, op: Op, a: nat, b: nat, noise: nat -> (bool, Op, nat, nat))
    requires w > 0 && a < Pow2(w) && b < Pow2(w)
    requires !r.busy && !r.finished && r.mask % 2 == 0
    ensures forall t :: 1 <= t <= w ==>
      Run(w, r, op, a, b, noise, t).busy && !Run(w, r, op, a, b, noise, t).finished
    ensures var s := Run(w, r, op, a, b, noise, w + 1);
      !s.busy && s.finished && s.mask == 0 && Required(w, op, a, b, Result(w, s, op))
  {
    forall t | 1 <= t <= w
      ensures Run(w, r, op, a, b, noise, t).busy && !Run(w, r, op, a, b, noise, t).finished
    {
      RunDigits(w, r, op, a, b, noise, t - 1);
    }
    RunDigits(w, r, op, a, b, noise, w);
    FinalResult(w, Run(w, r, op, a, b, noise, w + 1), op, a, b);
  }

  /** Once every digit is out, the sign correction turns |n|/|d| into the required word. */
  lemma FinalResult(w: nat, s: Regs, op: Op, a: nat, b: nat)
    requires w > 0 && a < Pow2(w) && b < Pow2(w)
    requires Digits(w, s, Magnitude(w, op, a), Magnitude(w, op, b), w)
    requires s.sign == ResultSign(w, op, a, b)
    ensures Required(w, op, a, b, Result(w, s, op))
  {
    hide Pow2, Required, Digits, Result;
    MagnitudeBound(w, op, a);
    MagnitudeBound(w, op, b);
    var n, d := Signed(w, op, a), Signed(w, op, b);
    DigitsDone(w, s, Magnitude(w, op, a), Magnitude(w, op, b));
    if d == 0 {
      ByZero(w, s, op, a, b);
    } else if !op.unsigned && -n == Pow2(w - 1) && d == -1 {
      Overflowed(w, s, op, a, b);
    } else {
      Divided(w, s, op, a, b);
    }
  }

  lemma DigitsDone(w: nat, s: Regs, n: nat, d: nat)
    requires w > 0 && n < Pow2(w) && d < Pow2(w) && Digits(w, s, n, d, w)
    ensures n == s.quotient * d + s.dividend
    ensures if d == 0 then s.quotient == Pow2(w) - 1 && s.dividend == n else s.dividend < d
  {
    Doubling(w);
    SmallPowers();
    assert d * 1 == d && s.quotient * 0 == 0;
  }

  /** Division by zero: all ones, or the dividend itself. */
  lemma ByZero(w: nat, s: Regs, op: Op, a: nat, b: nat)
    requires w > 0 && a < Pow2(w) && b < Pow2(w) && Signed(w, op, b) == 0 && s.sign == ResultSign(w, op, a, b)
    requires s.quotient == Pow2(w) - 1 && s.dividend == Magnitude(w, op, a)
    ensures Required(w, op, a, b, Result(w, s, op))
  {
    hide Pow2, Truncated;
    Doubling(w);
    SmallPowers();
  }

  /** The most negative word by minus one. */
  lemma Overflowed(w: nat, s: Regs, op: Op, a: nat, b: nat)
    requires w > 0 && a < Pow2(w) && b < Pow2(w) && s.sign == ResultSign(w, op, a, b)
    requires !op.unsigned && -Signed(w, op, a) == Pow2(w - 1) && Signed(w, op, b) == -1
    requires Magnitude(w, op, a) == s.quotient * Magnitude(w, op, b) + s.dividend && s.dividend < Magnitude(w, op, b)
    ensures Required(w, op, a, b, Result(w, s, op))
  {
    hide Pow2, Truncated;
    Doubling(w);
    SmallPowers();
    MagnitudesFit(s.quotient, Magnitude(w, op, b), s.dividend);
  }

  lemma Divided(w: nat, s: Regs, op: Op, a: nat, b: nat)
    requires w > 0 && a < Pow2(w) && b < Pow2(w) && s.sign == ResultSign(w, op, a, b)
    requires var n, d := Signed(w, op, a), Signed(w, op, b);
      && d != 0 && !(!op.unsigned && -n == Pow2(w - 1) && d == -1)
      && Abs(n) == s.quotient * Abs(d) + s.dividend && s.dividend < Abs(d)
    ensures Required(w, op, a, b, Result(w, s, op))
  {
    hide Pow2, Truncated, Negate;
    Doubling(w);
    SmallPowers();
    var n, d := Signed(w, op, a), Signed(w, op, b);
    var q, r := SignedQuotient(n, d, s.quotient, s.dividend);
    MagnitudesFit(s.quotient, Abs(d), s.dividend);
    Reassemble(w, op, s.quotient, (n < 0) != (d < 0));
    Reassemble(w, op, s.dividend, n < 0);
    assert Truncated(n, d, q, r);
    assert Signed(w, op, Result(w, s, op)) == if op.remainder then r else q;
  }

  lemma MagnitudesFit(q: nat, d: nat, r: nat)
    requires d > 0 && r < d
    ensures q <= q * d + r && r <= q * d + r
    ensures d == 1 ==> r == 0 && q == q * d + r
    ensures d > 1 ==> 2 * q <= q * d + r
  {
    MulMono(1, d, q);
    if d > 1 {
      MulMono(2, d, q);
    }
    MulMono(0, q, d);
  }

  /** Negating a magnitude and reading it back as a signed word gives the signed value. */
  lemma Reassemble(w: nat, op: Op, magnitude: nat, negative: bool)
    requires w > 0 && (op.unsigned ==> !negative && magnitude < Pow2(w))
    requires !op.unsigned ==> magnitude < Pow2(w - 1) + (if negative then 1 else 0)
    ensures var word := if negative then Negate(w, magnitude) else magnitude;
      word < Pow2(w) && Signed(w, op, word) == if negative then 0 - magnitude else magnitude
  {
  }

  lemma SignedQuotient(n: int, d: int, quotient: nat, remainder: nat) returns (q: int, r: int)
    requires d != 0 && Abs(n) == quotient * Abs(d) + remainder && remainder < Abs(d)
    ensures Truncated(n, d, q, r)
    ensures q == if (n < 0) != (d < 0) then 0 - quotient else quotient
    ensures r == if n < 0 then 0 - remainder else remainder
  {
    q := if (n < 0) != (d < 0) then 0 - quotient else quotient;
    r := if n < 0 then 0 - remainder else remainder;
    if d < 0 {
      assert quotient * -d == -(quotient * d) == (0 - quotient) * d;
    } else {
      assert (0 - quotient) * d == -(quotient * d);
    }
  }

  /** Every operand pair has a required result: the one the engine itself reaches. */
  lemma RequiredExists(w: nat, op: Op, a: nat, b: nat)
    requires w > 0 && a < Pow2(w) && b < Pow2(w)
    ensures exists x: nat :: Required(w, op, a, b, x)
  {
    var idle := Regs(0, 0, 0, 0, false, false, false);
    var noise := (t: nat) => (false, op, 0, 0);
    DivideCorrect(w, idle, op, a, b, noise);
    assert Required(w, op, a, b, Result(w, Run(w, idle, op, a, b, noise, w + 1), op));
  }

  /** The result of a division instruction, as the ISA defines it. */
  ghost function Quotient(w: nat, op: Op, a: nat, b: nat): (x: nat)
    requires w > 0 && a < Pow2(w) && b < Pow2(w)
    ensures Required(w, op, a, b, x)
  {
    RequiredExists(w, op, a, b);
    var x: nat :| Required(w, op, a, b, x);
    x
  }

  // ---------------------------------------------------------------------------------------
  // The registers, updated in place
  // ---------------------------------------------------------------------------------------

  class Engine {
    const w: nat
    var dividend: nat
    var divisor: nat
    var quotient: nat
    var mask: nat
    var sign: bool
    var busy: bool
    var finished: bool

    constructor (w: nat)
      ensures this.w == w && !busy && !finished && mask == 0
    {
      this.w := w;
      dividend, divisor, quotient, mask, sign, busy, finished := 0, 0, 0, 0, false, false, false;
    }

    function Snapshot(): Regs
      reads this
    {
      Regs(dividend, divisor, quotient, mask, sign, busy, finished)
    }

    /** A rising edge. */
    method Tick(start: bool, op: Op, a: nat, b: nat)
      requires w > 0
      modifies this
      ensures Snapshot() == Clock(w, old(Snapshot()), start, op, a, b)
    {
      hide Magnitude, ResultSign, Subtract, OrMask, Pow2;
      var lowBit := mask % 2 == 1;
      if !busy {
        if start {
          mask := Pow2(w - 1);
          busy := true;
        }
        dividend, divisor := Magnitude(w, op, a), Magnitude(w, op, b) * Pow2(w - 1);
        quotient := 0;
        sign := ResultSign(w, op, a, b);
      } else {
        if divisor <= dividend {
          dividend := Subtract(w, dividend, divisor % Pow2(w));
          quotient := OrMask(quotient, mask);
        }
        divisor := divisor / 2;
        busy := !lowBit;
        mask := mask / 2;
      }
      finished := lowBit;
    }

    /** A whole division from rest, its instruction held in the execute stage by the stall. */
    method Divide(op: Op, a: nat, b: nat) returns (result: nat)
      requires w > 0 && a < Pow2(w) && b < Pow2(w) && !busy && !finished && mask % 2 == 0
      modifies this
      ensures Required(w, op, a, b, result) && !busy && finished
    {
      hide Clock, Required, Pow2;
      ghost var held := (t: nat) => (true, op, a, b);
      for t := 0 to w + 1
        invariant Snapshot() == Run(w, old(Snapshot()), op, a, b, held, t)
      {
        Tick(true, op, a, b);
      }
      DivideCorrect(w, old(Snapshot()), op, a, b, held);
      var magnitude := if op.remainder then dividend else quotient;
      result := if sign then Negate(w, magnitude) else magnitude;
    }
  }
}
