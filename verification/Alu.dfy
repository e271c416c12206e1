/**
 The integer ALU as the one-hot and-or network of the pipeline (with one right shifter serving
 both directions) and as the case statement of the sequential core, against the operations of
 the instruction set over numbers and bits.
 */
module Alu {
  import opened Arith
  import opened Words

  // ---------------------------------------------------------------------------------------
  // Subtraction, and the comparisons taken from its 33rd bit
  // ---------------------------------------------------------------------------------------

  type Unsigned = x: int | 0 <= x < 0x1_0000_0000

  function Value(a: Word): Unsigned { a as int }

  /** A number of 32 bits read in two's complement. */
  function TwosComplement(x: int): int { if x < 0x8000_0000 then x else x - 0x1_0000_0000 }

  /** A number taken modulo 2^32. */
  function Wrap(n: int): Word { FromNumber(n % 0x1_0000_0000) }

  /** {0, x} + {1, ~y} + 1 in 33 bits. */
  function Minus(x: Unsigned, y: Unsigned): nat {
    (x + (0x1_0000_0000 + (0xFFFF_FFFF - y)) + 1) % 0x2_0000_0000
  }

  predicate LTU(x: Unsigned, y: Unsigned) { Minus(x, y) / 0x1_0000_0000 == 1 }

  predicate EQ(x: Unsigned, y: Unsigned) { Minus(x, y) % 0x1_0000_0000 == 0 }

  predicate SignBit(x: Unsigned) { x >= 0x8000_0000 }

  predicate LT(x: Unsigned, y: Unsigned) {
    if SignBit(x) != SignBit(y) then SignBit(x) else LTU(x, y)
  }

  /** The borrow of the subtraction is the unsigned order, and a zero low word is equality. */
  lemma ComparisonsMean(x: Unsigned, y: Unsigned)
    ensures LTU(x, y) <==> x < y
    ensures LT(x, y) <==> TwosComplement(x) < TwosComplement(y)
    ensures EQ(x, y) <==> x == y
    ensures Minus(x, y) % 0x1_0000_0000 == (x - y) % 0x1_0000_0000
  {
    assert Minus(x, y) == if x < y then x - y + 0x2_0000_0000 else x - y;
  }

  // ---------------------------------------------------------------------------------------
  // The shifter
  // ---------------------------------------------------------------------------------------

  /** The low word of {fill, a} shifted right with its top bit replicated. */
  function ShiftRight(fill: bool, a: Word, shamt: bv5): Word {
    Right(a, shamt) | (if fill then !Right(0xFFFF_FFFF, shamt) else 0)
  }

  function BitAt(x: Word, i: bv5): Word { (x >> i) & 1 }

  /** Bit reversal. */
  function Flip32(x: Word): Word {
    (BitAt(x, 0) << 31) | (BitAt(x, 1) << 30) | (BitAt(x, 2) << 29) | (BitAt(x, 3) << 28) |
    (BitAt(x, 4) << 27) | (BitAt(x, 5) << 26) | (BitAt(x, 6) << 25) | (BitAt(x, 7) << 24) |
    (BitAt(x, 8) << 23) | (BitAt(x, 9) << 22) | (BitAt(x, 10) << 21) | (BitAt(x, 11) << 20) |
    (BitAt(x, 12) << 19) | (BitAt(x, 13) << 18) | (BitAt(x, 14) << 17) | (BitAt(x, 15) << 16) |
    (BitAt(x, 16) << 15) | (BitAt(x, 17) << 14) | (BitAt(x, 18) << 13) | (BitAt(x, 19) << 12) |
    (BitAt(x, 20) << 11) | (BitAt(x, 21) << 10) | (BitAt(x, 22) << 9) | (BitAt(x, 23) << 8) |
    (BitAt(x, 24) << 7) | (BitAt(x, 25) << 6) | (BitAt(x, 26) << 5) | (BitAt(x, 27) << 4) |
    (BitAt(x, 28) << 3) | (BitAt(x, 29) << 2) | (BitAt(x, 30) << 1) | BitAt(x, 31)
  }

  lemma FlipUnshifted(a: Word)
    ensures Flip32(Right(Flip32(a), 0)) == Left(a, 0)
  {
  }

  lemma FlipOnce(x: Word)
    ensures Flip32(Right(x, 1)) == Left(Flip32(x), 1)
  {
  }

  /** A left shift is a right shift of the reversed word, reversed again. */
  lemma {:induction false} FlipShift(a: Word, n: bv5)
    ensures Flip32(Right(Flip32(a), n)) == Left(a, n)
    decreases n
  {
    hide Flip32, Left, Right;
    if n == 0 {
      FlipUnshifted(a);
    } else {
      FlipShift(a, n - 1);
      FlipOnce(Right(Flip32(a), n - 1));
      OneMore(Flip32(a), n);
      OneMore(a, n);
    }
  }

  // ---------------------------------------------------------------------------------------
  // The operations, and the two ALUs
  // ---------------------------------------------------------------------------------------

  function Bool(b: bool): Word { if b then 1 else 0 }

  function Shamt(b: Word): bv5 { (b & 31) as bv5 }

  /** What OP and OP-IMM leave in rd (unprivileged ISA, section 2.4), of numbers and bits. */
  ghost predicate IsResult(funct3: bv3, alternate: bool, isALUR: bool, a: Word, b: Word, r: Word) {
    var x, y, z := Number(a), Number(b), Number(r);
    var n := y % 32;
    match funct3
    case 0 => z == (if alternate && isALUR then x - y else x + y) % 0x1_0000_0000
    case 1 => z == x * Pow2(n) % 0x1_0000_0000
    case 2 => z == if TwosComplement(x) < TwosComplement(y) then 1 else 0
    case 3 => z == if x < y then 1 else 0
    case 4 => forall k: nat :: k < 32 ==> (BitOf(r, k) <==> BitOf(a, k) != BitOf(b, k))
    case 5 => z == (if alternate then TwosComplement(x) else x) / Pow2(n) % 0x1_0000_0000
    case 6 => forall k: nat :: k < 32 ==> (BitOf(r, k) <==> BitOf(a, k) || BitOf(b, k))
    case _ => forall k: nat :: k < 32 ==> (BitOf(r, k) <==> BitOf(a, k) && BitOf(b, k))
  }

  function Select(condition: bool, a: Word): Word { if condition then a else 0 }

  /** E_aluOutBase: every unit answers, and one-hot funct3 lets one of them through. */
  function PipelineAlu(funct3: bv3, alternate: bool, isALUR: bool, a: Word, b: Word): Word {
    var shamt := Shamt(b);
    var x, y := Value(a), Value(b);
    var shifterIn := if funct3 == 1 then Flip32(a) else a;
    var shifter := ShiftRight(alternate && SignBit(x), shifterIn, shamt);
    OneHot(funct3,
           if alternate && isALUR then Wrap(Minus(x, y)) else Wrap(x as int + y),
           Flip32(shifter), Bool(LT(x, y)), Bool(LTU(x, y)), Xor(a, b), shifter, Or(a, b), And(a, b))
  }

  function OneHot(funct3: bv3, v0: Word, v1: Word, v2: Word, v3: Word, v4: Word, v5: Word, v6: Word, v7: Word): Word {
    Select(funct3 == 0, v0) | Select(funct3 == 1, v1) | Select(funct3 == 2, v2) | Select(funct3 == 3, v3) |
    Select(funct3 == 4, v4) | Select(funct3 == 5, v5) | Select(funct3 == 6, v6) | Select(funct3 == 7, v7)
  }

  lemma OneHotSelects(funct3: bv3, v0: Word, v1: Word, v2: Word, v3: Word, v4: Word, v5: Word, v6: Word, v7: Word)
    ensures funct3 == 0 ==> OneHot(funct3, v0, v1, v2, v3, v4, v5, v6, v7) == v0
    ensures funct3 == 1 ==> OneHot(funct3, v0, v1, v2, v3, v4, v5, v6, v7) == v1
    ensures funct3 == 2 ==> OneHot(funct3, v0, v1, v2, v3, v4, v5, v6, v7) == v2
    ensures funct3 == 3 ==> OneHot(funct3, v0, v1, v2, v3, v4, v5, v6, v7) == v3
    ensures funct3 == 4 ==> OneHot(funct3, v0, v1, v2, v3, v4, v5, v6, v7) == v4
    ensures funct3 == 5 ==> OneHot(funct3, v0, v1, v2, v3, v4, v5, v6, v7) == v5
    ensures funct3 == 6 ==> OneHot(funct3, v0, v1, v2, v3, v4, v5, v6, v7) == v6
    ensures funct3 == 7 ==> OneHot(funct3, v0, v1, v2, v3, v4, v5, v6, v7) == v7
  {
    hide Select;
    SelectMeans(funct3 == 0, v0);
    SelectMeans(funct3 == 1, v1);
    SelectMeans(funct3 == 2, v2);
    SelectMeans(funct3 == 3, v3);
    SelectMeans(funct3 == 4, v4);
    SelectMeans(funct3 == 5, v5);
    SelectMeans(funct3 == 6, v6);
    SelectMeans(funct3 == 7, v7);
  }

  lemma SelectMeans(condition: bool, a: Word)
    ensures Select(condition, a) == if condition then a else 0
  {
  }

  /** aluOut of the sequential core. */
  function SequentialAlu(funct3: bv3, alternate: bool, isALUR: bool, a: Word, b: Word): Word {
    var shamt := Shamt(b);
    var x, y := Value(a), Value(b);
    match funct3
    case 0 => if alternate && isALUR then Wrap(Minus(x, y)) else Wrap(x as int + y)
    case 1 => Left(a, shamt)
    case 2 => Bool(LT(x, y))
    case 3 => Bool(LTU(x, y))
    case 4 => Xor(a, b)
    case 5 => ShiftRight(alternate && SignBit(x), a, shamt)
    case 6 => Or(a, b)
    case _ => And(a, b)
  }

  // ---------------------------------------------------------------------------------------
  // Each operation over numbers
  // ---------------------------------------------------------------------------------------

  lemma WrapNumber(n: int)
    ensures Number(Wrap(n)) == n % 0x1_0000_0000
  {
    hide Number, FromNumber;
    NumberOfFrom(n % 0x1_0000_0000);
  }

  lemma BoolNumber(b: bool)
    ensures Number(Bool(b)) == if b then 1 else 0
  {
  }

  lemma ValueNumber(a: Word)
    ensures Value(a) == Number(a)
  {
  }

  lemma ShamtNumber(b: Word)
    ensures Number5(Shamt(b)) == Number(b) % 32
  {
    hide Number, Number5;
    LowFive(b);
  }

  lemma SumCorrect(isMinus: bool, a: Word, b: Word)
    ensures var x, y := Value(a), Value(b);
      Number(if isMinus then Wrap(Minus(x, y)) else Wrap(x as int + y))
        == (if isMinus then Number(a) - Number(b) else Number(a) + Number(b)) % 0x1_0000_0000
  {
    hide Wrap, Minus, Value, Number;
    var x, y := Value(a), Value(b);
    ValueNumber(a);
    ValueNumber(b);
    ComparisonsMean(x, y);
    WrapNumber(Minus(x, y));
    WrapNumber(x as int + y);
  }

  lemma LessCorrect(a: Word, b: Word)
    ensures Number(Bool(LT(Value(a), Value(b)))) == if TwosComplement(Number(a)) < TwosComplement(Number(b)) then 1 else 0
    ensures Number(Bool(LTU(Value(a), Value(b)))) == if Number(a) < Number(b) then 1 else 0
  {
    hide LT, LTU, EQ, Minus, Bool, Value, Number;
    ValueNumber(a);
    ValueNumber(b);
    ComparisonsMean(Value(a), Value(b));
    BoolNumber(LT(Value(a), Value(b)));
    BoolNumber(LTU(Value(a), Value(b)));
  }

  lemma LeftCorrect(a: Word, b: Word)
    ensures Number(Left(a, Shamt(b))) == Number(a) * Pow2(Number(b) % 32) % 0x1_0000_0000
  {
    hide Left, Shamt, Number, Pow2, Number5;
    LeftNumber(a, Shamt(b));
    ShamtNumber(b);
  }

  /** Replicating the top bit divides the signed number. */
  lemma RightCorrect(fill: bool, a: Word, b: Word)
    requires fill ==> Number(a) >= 0x8000_0000
    ensures Number(ShiftRight(fill, a, Shamt(b)))
      == (if fill then Number(a) - 0x1_0000_0000 else Number(a)) / Pow2(Number(b) % 32) % 0x1_0000_0000
  {
    hide Right, ShiftRight, Shamt, Number, Pow2, Number5;
    ShamtNumber(b);
    WordRange(a);
    if fill {
      FilledNumber(a, Shamt(b));
    } else {
      NoFill(a, Shamt(b));
      RightNumber(a, Shamt(b));
      WordRange(Right(a, Shamt(b)));
      DivUnique(Number(Right(a, Shamt(b))), 0x1_0000_0000, 0, Number(Right(a, Shamt(b))));
    }
  }

  function FillOnce(z: Word): Word { (z >> 1) | 0x8000_0000 }

  lemma FillOneMore(a: Word, n: bv5)
    requires n != 0
    ensures ShiftRight(true, a, n) == FillOnce(ShiftRight(true, a, n - 1))
  {
    hide Right, FillOnce;
    OneMore(a, n);
    OneMore(0xFFFF_FFFF, n);
    FillBoth(Right(a, n - 1), Right(0xFFFF_FFFF, n - 1));
  }

  lemma FillBoth(z: Word, m: Word)
    ensures Right(z, 1) | !Right(m, 1) == FillOnce(z | !m)
  {
  }

  lemma FillOnceSplit(z: Word)
    ensures FillOnce(z) == Prefixed(1, Upper(z)) && Right(z, 1) == Widened(Upper(z))
  {
  }

  lemma FillOnceNumber(z: Word)
    ensures Number(FillOnce(z)) == Number(Right(z, 1)) + 0x8000_0000
  {
    hide Number, FillOnce, Right, Prefixed, Upper, Widened, Number31, Number1;
    FillOnceSplit(z);
    TopJoined(1, Upper(z));
    OneBit(1);
    WidenedNumber(Upper(z));
  }

  lemma {:induction false} FilledNumber(a: Word, n: bv5)
    requires Number(a) >= 0x8000_0000
    ensures var s := (Number(a) - 0x1_0000_0000) / Pow2(Number5(n));
      -0x8000_0000 <= s < 0 && Number(ShiftRight(true, a, n)) == s + 0x1_0000_0000 == s % 0x1_0000_0000
    decreases n
  {
    hide Right, ShiftRight, Number, Pow2, Number5, FillOnce;
    WordRange(a);
    SmallPowers();
    var x := Number(a) - 0x1_0000_0000;
    if n == 0 {
      Unshifted(a);
      FillNothing(a);
      DivUnique(x, 1, x, 0);
      NegativeResidue(x);
    } else {
      FilledNumber(a, n - 1);
      FillOneMore(a, n);
      OneLess(n);
      Doubling(Number5(n));
      var z := ShiftRight(true, a, n - 1);
      FillOnceNumber(z);
      Halved(z);
      HalfOfQuotient(x, Pow2(Number5(n) - 1));
      HalfNegative(x / Pow2(Number5(n) - 1));
    }
  }

  lemma NegativeResidue(s: int)
    requires -0x1_0000_0000 <= s < 0
    ensures s % 0x1_0000_0000 == s + 0x1_0000_0000
  {
    DivUnique(s, 0x1_0000_0000, -1, s + 0x1_0000_0000);
  }

  lemma HalfNegative(s: int)
    requires -0x8000_0000 <= s < 0
    ensures -0x8000_0000 <= s / 2 < 0 && (s + 0x1_0000_0000) / 2 + 0x8000_0000 == s / 2 + 0x1_0000_0000
    ensures s / 2 % 0x1_0000_0000 == s / 2 + 0x1_0000_0000
  {
    NegativeResidue(s / 2);
  }

  // ---------------------------------------------------------------------------------------
  // The two ALUs are right
  // ---------------------------------------------------------------------------------------

  /** The sequential core computes what the instruction set asks for. */
  lemma SequentialAluCorrect(funct3: bv3, alternate: bool, isALUR: bool, a: Word, b: Word)
    ensures IsResult(funct3, alternate, isALUR, a, b, SequentialAlu(funct3, alternate, isALUR, a, b))
  {
    hide Left, ShiftRight, Minus, LT, LTU, Wrap, Bool, Value, SignBit, Shamt, Xor, Or, And, Number, BitOf, Pow2;
    SumCorrect(alternate && isALUR, a, b);
    LessCorrect(a, b);
    LeftCorrect(a, b);
    FillMeans(alternate, a);
    RightCorrect(alternate && SignBit(Value(a)), a, b);
    forall k: nat | k < 32
      ensures BitOf(Xor(a, b), k) <==> BitOf(a, k) != BitOf(b, k)
      ensures BitOf(Or(a, b), k) <==> BitOf(a, k) || BitOf(b, k)
      ensures BitOf(And(a, b), k) <==> BitOf(a, k) && BitOf(b, k)
    {
      Bitwise(a, b, k);
    }
  }

  lemma FillMeans(alternate: bool, a: Word)
    ensures var fill := alternate && SignBit(Value(a));
      && (fill ==> Number(a) >= 0x8000_0000)
      && (if fill then Number(a) - 0x1_0000_0000 else Number(a)) == if alternate then TwosComplement(Number(a)) else Number(a)
  {
    hide Number, Value;
    ValueNumber(a);
  }

  /**
   So does the pipeline, except exactly when a left shift carries the alternate bit, which no
   instruction of the set does: by a nonzero amount it then fills the low end of a negative
   operand with ones.
   */
  lemma PipelineAluCorrect(funct3: bv3, alternate: bool, isALUR: bool, a: Word, b: Word)
    ensures IsResult(funct3, alternate, isALUR, a, b, PipelineAlu(funct3, alternate, isALUR, a, b)) <==>
      !(funct3 == 1 && alternate && Number(a) >= 0x8000_0000 && Number(b) % 32 != 0)
  {
    hide IsResult, PipelineAlu, SequentialAlu, Number;
    SequentialAluCorrect(funct3, alternate, isALUR, a, b);
    SameAluExactlyWhen(funct3, alternate, isALUR, a, b);
    var r, s := PipelineAlu(funct3, alternate, isALUR, a, b), SequentialAlu(funct3, alternate, isALUR, a, b);
    if funct3 == 1 && r != s {
      ShiftedUnique(alternate, isALUR, a, b, r, s);
    }
  }

  lemma ShiftedUnique(alternate: bool, isALUR: bool, a: Word, b: Word, r: Word, s: Word)
    requires r != s && IsResult(1, alternate, isALUR, a, b, s)
    ensures !IsResult(1, alternate, isALUR, a, b, r)
  {
    hide Number, Pow2;
    NumberInjective(r, s);
  }

  /** The two ALUs agree but for such a shift. */
  lemma SameAluExactlyWhen(funct3: bv3, alternate: bool, isALUR: bool, a: Word, b: Word)
    ensures PipelineAlu(funct3, alternate, isALUR, a, b) == SequentialAlu(funct3, alternate, isALUR, a, b) <==>
      !(funct3 == 1 && alternate && Number(a) >= 0x8000_0000 && Number(b) % 32 != 0)
  {
    hide Flip32, Left, Right, ShiftRight, Minus, LT, LTU, OneHot, Wrap, Bool, Value, SignBit, Shamt, Xor, Or, And, Number;
    var x, y := Value(a), Value(b);
    var fill := alternate && SignBit(x);
    FilledFlipShift(fill, a, Shamt(b));
    SignNumber(a);
    ShamtZero(b);
    var shifter := ShiftRight(fill, if funct3 == 1 then Flip32(a) else a, Shamt(b));
    OneHotSelects(funct3,
      if alternate && isALUR then Wrap(Minus(x, y)) else Wrap(x as int + y),
      Flip32(shifter), Bool(LT(x, y)), Bool(LTU(x, y)), Xor(a, b), shifter, Or(a, b), And(a, b));
  }

  lemma SignNumber(a: Word)
    ensures SignBit(Value(a)) <==> Number(a) >= 0x8000_0000
  {
    hide Number;
    ValueNumber(a);
  }

  lemma ShamtZero(b: Word)
    ensures Shamt(b) != 0 <==> Number(b) % 32 != 0
  {
    hide Shamt, Number, Number5;
    ShamtNumber(b);
    ZeroFive(Shamt(b));
  }

  lemma ZeroFive(n: bv5)
    ensures n == 0 <==> Number5(n) == 0
  {
  }

  lemma FilledFlipShift(fill: bool, a: Word, shamt: bv5)
    ensures Flip32(ShiftRight(fill, Flip32(a), shamt)) == Left(a, shamt) <==> !(fill && shamt != 0)
  {
    hide Flip32, Left, Right, ShiftRight;
    FlipShift(a, shamt);
    if !fill {
      NoFill(Flip32(a), shamt);
    } else if shamt == 0 {
      FillNothing(Flip32(a));
    } else {
      FilledTop(Flip32(a), shamt);
      LowBitOfFlip(ShiftRight(true, Flip32(a), shamt));
      LowBitOfLeft(a, shamt);
    }
  }

  lemma FillNothing(x: Word)
    ensures ShiftRight(true, x, 0) == Right(x, 0)
  {
  }

  lemma FilledTop(x: Word, shamt: bv5)
    requires shamt != 0
    ensures BitAt(ShiftRight(true, x, shamt), 31) == 1
  {
  }

  lemma LowBitOfFlip(x: Word)
    ensures Flip32(x) & 1 == BitAt(x, 31)
  {
  }

  lemma LowBitOfLeft(a: Word, shamt: bv5)
    requires shamt != 0
    ensures Left(a, shamt) & 1 == 0
  {
  }

  lemma NoFill(a: Word, shamt: bv5)
    ensures ShiftRight(false, a, shamt) == Right(a, shamt)
  {
  }

  // ---------------------------------------------------------------------------------------
  // The result is one word
  // ---------------------------------------------------------------------------------------

  lemma BitsOfHalf(m: int, k: nat)
    requires m >= 0
    ensures m / 2 / Pow2(k) == m / Pow2(k + 1)
  {
    hide Pow2;
    Doubling(k + 1);
    var p := Pow2(k);
    var q, r := m / (2 * p), m % (2 * p);
    assert m == q * (2 * p) + r && q * (2 * p) == 2 * (q * p);
    DivUnique(m / 2, p, q, r / 2);
  }

  lemma {:induction false} SameBits(m: int, n: int, k: nat)
    requires 0 <= m < Pow2(k) && 0 <= n < Pow2(k)
    requires forall j: nat :: j < k ==> (m / Pow2(j) % 2 == 1 <==> n / Pow2(j) % 2 == 1)
    ensures m == n
    decreases k
  {
    hide Pow2;
    SmallPowers();
    if k > 0 {
      Doubling(k);
      assert m / Pow2(0) % 2 == 1 <==> n / Pow2(0) % 2 == 1;
      DivUnique(m, 1, m, 0);
      DivUnique(n, 1, n, 0);
      forall j: nat | j < k - 1
        ensures m / 2 / Pow2(j) % 2 == 1 <==> n / 2 / Pow2(j) % 2 == 1
      {
        BitsOfHalf(m, j);
        BitsOfHalf(n, j);
        assert m / Pow2(j + 1) % 2 == 1 <==> n / Pow2(j + 1) % 2 == 1;
      }
      SameBits(m / 2, n / 2, k - 1);
    }
  }

  lemma BitsUnique(r: Word, s: Word)
    requires forall k: nat :: k < 32 ==> (BitOf(r, k) <==> BitOf(s, k))
    ensures r == s
  {
    hide Pow2, Number;
    TwoTo32();
    WordRange(r);
    WordRange(s);
    forall k: nat | k < 32
      ensures Number(r) / Pow2(k) % 2 == 1 <==> Number(s) / Pow2(k) % 2 == 1
    {
      assert BitOf(r, k) <==> BitOf(s, k);
    }
    SameBits(Number(r), Number(s), 32);
    NumberInjective(r, s);
  }

  /** `IsResult` leaves no choice. */
  lemma ResultUnique(funct3: bv3, alternate: bool, isALUR: bool, a: Word, b: Word, r: Word, s: Word)
    requires IsResult(funct3, alternate, isALUR, a, b, r) && IsResult(funct3, alternate, isALUR, a, b, s)
    ensures r == s
  {
    hide Pow2, Number, BitOf;
    NumberInjective(r, s);
    if funct3 == 4 || funct3 >= 6 {
      BitsUnique(r, s);
    }
  }
}
