/**
 32-bit words as numbers: what shifts and bitwise operations do to them. Lemmas about bits and
 lemmas about numbers are kept apart; those that join them see the operations as symbols.
 */
module Words {
  import opened Arith

  type Word = bv32

  function Number(w: Word): int { w as int }

  lemma WordRange(a: Word)
    ensures 0 <= Number(a) < 0x1_0000_0000
  {
  }

  /** Bit k of a word, read off its number. */
  predicate BitOf(w: Word, k: nat) { Number(w) / Pow2(k) % 2 == 1 }

  function Left(a: Word, n: bv5): Word { a << n }

  function Right(a: Word, n: bv5): Word { a >> n }

  function Bit(a: Word): Word { a & 1 }

  // ---------------------------------------------------------------------------------------
  // One bit at a time
  // ---------------------------------------------------------------------------------------

  function Upper(a: Word): bv31 { (a >> 1) as bv31 }

  function Lowest(a: Word): bv1 { (a & 1) as bv1 }

  function Top(a: Word): bv1 { (a >> 31) as bv1 }

  function Rest(a: Word): bv31 { (a & 0x7FFF_FFFF) as bv31 }

  function Number31(h: bv31): int { h as int }

  function Number1(l: bv1): int { l as int }

  function Joined(h: bv31, l: bv1): Word { ((h as Word) << 1) | (l as Word) }

  function Prefixed(t: bv1, r: bv31): Word { ((t as Word) << 31) | (r as Word) }

  function Widened(h: bv31): Word { h as Word }

  lemma LowSplit(a: Word)
    ensures a == Joined(Upper(a), Lowest(a)) && Right(a, 1) == Widened(Upper(a))
  {
  }

  lemma LowJoined(h: bv31, l: bv1)
    ensures Number(Joined(h, l)) == 2 * Number31(h) + Number1(l)
  {
  }

  lemma WidenedNumber(h: bv31)
    ensures Number(Widened(h)) == Number31(h)
  {
  }

  lemma BitNumber(a: Word)
    ensures Bit(a) == 1 <==> Lowest(a) == 1
  {
  }

  lemma OneBit(l: bv1)
    ensures l == 1 <==> Number1(l) == 1
    ensures Number1(l) == 0 || Number1(l) == 1
  {
  }

  /** A word is its upper 31 bits and its lowest. */
  lemma Halved(a: Word)
    ensures Number(Right(a, 1)) == Number(a) / 2
    ensures Bit(a) == 1 <==> Number(a) % 2 == 1
  {
    hide Number, Right, Bit, Upper, Lowest, Joined, Widened, Number31, Number1;
    LowSplit(a);
    LowJoined(Upper(a), Lowest(a));
    WidenedNumber(Upper(a));
    BitNumber(a);
    OneBit(Lowest(a));
    DivUnique(Number(a), 2, Number31(Upper(a)), Number1(Lowest(a)));
  }

  lemma TopSplit(a: Word)
    ensures a == Prefixed(Top(a), Rest(a)) && Left(a, 1) == Joined(Rest(a), 0)
  {
  }

  lemma TopJoined(t: bv1, r: bv31)
    ensures Number(Prefixed(t, r)) == 0x8000_0000 * Number1(t) + Number31(r) && 0 <= Number31(r) < 0x8000_0000
  {
  }

  /** Or its top bit and its lower 31. */
  lemma Doubled(a: Word)
    ensures Number(Left(a, 1)) == 2 * Number(a) % 0x1_0000_0000
  {
    hide Number, Left, Prefixed, Top, Rest, Joined, Number31, Number1;
    TopSplit(a);
    TopJoined(Top(a), Rest(a));
    LowJoined(Rest(a), 0);
    OneBit(0);
    OneBit(Top(a));
    DivUnique(2 * Number(a), 0x1_0000_0000, Number1(Top(a)), 2 * Number31(Rest(a)));
  }

  function Upper27(b: Word): bv27 { (b >> 5) as bv27 }

  function Low5(b: Word): bv5 { (b & 31) as bv5 }

  function Number5(n: bv5): (k: nat)
    ensures k < 32
  {
    n as int
  }

  function Number27(n: bv27): int { n as int }

  function Joined5(h: bv27, l: bv5): Word { ((h as Word) << 5) | (l as Word) }

  lemma FiveSplit(b: Word)
    ensures b == Joined5(Upper27(b), Low5(b))
  {
  }

  lemma FiveJoined(h: bv27, l: bv5)
    ensures Number(Joined5(h, l)) == 32 * Number27(h) + Number5(l)
  {
  }

  /** The low five bits. */
  lemma LowFive(b: Word)
    ensures Number5(Low5(b)) == Number(b) % 32
  {
    hide Number, Low5, Upper27, Joined5, Number27, Number5;
    FiveSplit(b);
    FiveJoined(Upper27(b), Low5(b));
    DivUnique(Number(b), 32, Number27(Upper27(b)), Number5(Low5(b)));
  }

  // ---------------------------------------------------------------------------------------
  // Shifts
  // ---------------------------------------------------------------------------------------

  lemma OneMore(a: Word, n: bv5)
    requires n != 0
    ensures Right(a, n) == Right(Right(a, n - 1), 1) && Left(a, n) == Left(Left(a, n - 1), 1)
  {
  }

  lemma OneLess(n: bv5)
    requires n != 0
    ensures Number5(n - 1) == Number5(n) - 1
  {
  }

  lemma Unshifted(a: Word)
    ensures Right(a, 0) == a && Left(a, 0) == a && Number5(0) == 0
    ensures 0 <= Number(a) < 0x1_0000_0000
  {
  }

  lemma HalfOfQuotient(x: int, p: int)
    requires p > 0
    ensures x / p / 2 == x / (2 * p)
  {
    var q, r := x / p, x % p;
    assert x == q * p + r;
    var h, b := q / 2, q % 2;
    assert q == h * 2 + b;
    HalfProduct(q, p, h, b);
    MulMono(b, 1, p);
    DivUnique(x, 2 * p, h, b * p + r);
  }

  lemma HalfProduct(q: int, p: int, h: int, b: int)
    requires q == h * 2 + b
    ensures q * p == h * (2 * p) + b * p && (b == 0 ==> b * p == 0) && (b == 1 ==> b * p == p)
  {
  }

  /** A right shift divides. */
  lemma {:induction false} RightNumber(a: Word, n: bv5)
    ensures Number(Right(a, n)) == Number(a) / Pow2(Number5(n))
    decreases n
  {
    hide Pow2, Number, Right, Number5;
    SmallPowers();
    Unshifted(a);
    if n == 0 {
      DivUnique(Number(a), 1, Number(a), 0);
    } else {
      RightNumber(a, n - 1);
      OneMore(a, n);
      OneLess(n);
      Doubling(Number5(n));
      Halved(Right(a, n - 1));
      HalfOfQuotient(Number(a), Pow2(Number5(n) - 1));
    }
  }

  lemma TwiceResidue(x: int, m: int)
    requires m > 0
    ensures 2 * (x % m) % m == 2 * x % m
  {
    var q, r := x / m, x % m;
    assert x == q * m + r;
    var t, s := 2 * r / m, 2 * r % m;
    assert 2 * r == t * m + s;
    assert (2 * q + t) * m == 2 * (q * m) + t * m;
    DivUnique(2 * x, m, 2 * q + t, s);
  }

  lemma TwiceProduct(x: int, p: int)
    ensures x * (2 * p) == 2 * (x * p)
  {
  }

  /** A left shift multiplies, modulo 2^32. */
  lemma {:induction false} LeftNumber(a: Word, n: bv5)
    ensures Number(Left(a, n)) == Number(a) * Pow2(Number5(n)) % 0x1_0000_0000
    decreases n
  {
    hide Pow2, Number, Left, Number5;
    SmallPowers();
    Unshifted(a);
    if n == 0 {
      DivUnique(Number(a), 0x1_0000_0000, 0, Number(a));
      assert Number(a) * 1 == Number(a);
    } else {
      LeftNumber(a, n - 1);
      OneMore(a, n);
      OneLess(n);
      Doubling(Number5(n));
      Doubled(Left(a, n - 1));
      var p := Pow2(Number5(n) - 1);
      TwiceResidue(Number(a) * p, 0x1_0000_0000);
      TwiceProduct(Number(a), p);
    }
  }

  // ---------------------------------------------------------------------------------------
  // Bits
  // ---------------------------------------------------------------------------------------

  lemma BitAt(a: Word, n: bv5)
    ensures Bit(Right(a, n)) == 1 <==> BitOf(a, Number5(n))
  {
    hide Pow2, Number, Right, Bit, Number5;
    RightNumber(a, n);
    Halved(Right(a, n));
  }

  function Xor(a: Word, b: Word): Word { a ^ b }

  function Or(a: Word, b: Word): Word { a | b }

  function And(a: Word, b: Word): Word { a & b }

  lemma XorAt(a: Word, b: Word, n: bv5)
    ensures Bit(Right(Xor(a, b), n)) == 1 <==> (Bit(Right(a, n)) == 1) != (Bit(Right(b, n)) == 1)
  {
  }

  lemma OrAt(a: Word, b: Word, n: bv5)
    ensures Bit(Right(Or(a, b), n)) == 1 <==> Bit(Right(a, n)) == 1 || Bit(Right(b, n)) == 1
  {
  }

  lemma AndAt(a: Word, b: Word, n: bv5)
    ensures Bit(Right(And(a, b), n)) == 1 <==> Bit(Right(a, n)) == 1 && Bit(Right(b, n)) == 1
  {
  }

  function Index(k: nat): bv5
    requires k < 32
  {
    k as bv5
  }

  lemma IndexNumber(k: nat)
    requires k < 32
    ensures Number5(Index(k)) == k
  {
  }

  /** Exclusive or, or and and work bit by bit. */
  lemma Bitwise(a: Word, b: Word, k: nat)
    requires k < 32
    ensures BitOf(Xor(a, b), k) <==> BitOf(a, k) != BitOf(b, k)
    ensures BitOf(Or(a, b), k) <==> BitOf(a, k) || BitOf(b, k)
    ensures BitOf(And(a, b), k) <==> BitOf(a, k) && BitOf(b, k)
  {
    hide BitOf, Right, Bit, Number5, Index, Xor, Or, And;
    var n := Index(k);
    IndexNumber(k);
    BitAt(a, n);
    BitAt(b, n);
    BitAt(Xor(a, b), n);
    BitAt(Or(a, b), n);
    BitAt(And(a, b), n);
    XorAt(a, b, n);
    OrAt(a, b, n);
    AndAt(a, b, n);
  }

  // ---------------------------------------------------------------------------------------
  // Words of numbers
  // ---------------------------------------------------------------------------------------

  function FromNumber(n: int): Word
    requires 0 <= n < 0x1_0000_0000
  {
    n as Word
  }

  lemma BackAgain(w: Word)
    ensures 0 <= Number(w) < 0x1_0000_0000 && FromNumber(Number(w)) == w
  {
  }

  lemma NumberInjective(r: Word, s: Word)
    ensures Number(r) == Number(s) ==> r == s
  {
    hide Number, FromNumber;
    BackAgain(r);
    BackAgain(s);
  }

  lemma ZeroNumber()
    ensures Number(0) == 0
  {
  }

  function SetLowest(w: Word): Word { (w << 1) | 1 }

  lemma SetSplit(w: Word)
    ensures Left(w, 1) == Joined(Rest(w), 0) && SetLowest(w) == Joined(Rest(w), 1)
  {
  }

  /** Twice a word, and one more. */
  lemma OddNumber(w: Word)
    ensures Number(SetLowest(w)) == Number(Left(w, 1)) + 1
  {
    hide Number, Left, SetLowest, Joined, Rest, Number31, Number1;
    SetSplit(w);
    LowJoined(Rest(w), 0);
    LowJoined(Rest(w), 1);
    OneBit(0);
    OneBit(1);
  }

  lemma TwoTo32()
    ensures Pow2(32) == 0x1_0000_0000
  {
    assert Pow2(8) == 256;
    Pow2Add(8, 8);
    Pow2Add(16, 16);
  }

  /** Every number of k bits is that of a word. */
  lemma {:induction false} WordFor(m: int, k: nat) returns (w: Word)
    requires k <= 32 && 0 <= m < Pow2(k)
    ensures Number(w) == m
  {
    hide Number, Left, SetLowest, Pow2;
    SmallPowers();
    if k == 0 {
      w := 0;
      ZeroNumber();
    } else {
      Doubling(k);
      var v := WordFor(m / 2, k - 1);
      Pow2Mono(k, 32);
      TwoTo32();
      Doubled(v);
      DivUnique(2 * (m / 2), 0x1_0000_0000, 0, 2 * (m / 2));
      OddNumber(v);
      w := if m % 2 == 0 then Left(v, 1) else SetLowest(v);
    }
  }

  lemma NumberOfFrom(m: int)
    requires 0 <= m < 0x1_0000_0000
    ensures Number(FromNumber(m)) == m
  {
    hide Number, FromNumber, Pow2;
    TwoTo32();
    var w := WordFor(m, 32);
    BackAgain(w);
  }

  // ---------------------------------------------------------------------------------------
  // Addition
  // ---------------------------------------------------------------------------------------

  function Next(a: Word): Word { a + 1 }

  function Plus(a: Word, b: Word): Word { a + b }

  lemma NextSplit(a: Word)
    ensures Bit(a) != 1 ==> Next(a) == SetLowest(Right(a, 1))
    ensures Bit(a) == 1 ==> Next(a) == Left(Next(Right(a, 1)), 1)
  {
  }

  /** Adding one to a number, by its half. */
  lemma HalfNext(x: int)
    requires 0 <= x < 0x1_0000_0000
    ensures (x / 2 + 1) % 0x1_0000_0000 == x / 2 + 1
    ensures x % 2 == 1 ==> 2 * (x / 2 + 1) % 0x1_0000_0000 == (x + 1) % 0x1_0000_0000
    ensures x % 2 == 0 ==> 2 * (x / 2) % 0x1_0000_0000 + 1 == (x + 1) % 0x1_0000_0000
  {
  }

  lemma {:induction false} NextNumber(a: Word, k: nat)
    requires k <= 32 && Number(a) < Pow2(k)
    ensures Number(Next(a)) == (Number(a) + 1) % 0x1_0000_0000
    decreases k
  {
    hide Number, Left, Right, Bit, Next, SetLowest, Pow2;
    SmallPowers();
    WordRange(a);
    NextSplit(a);
    Halved(a);
    HalfNext(Number(a));
    var h := Right(a, 1);
    if Bit(a) == 1 {
      Doubling(k);
      NextNumber(h, k - 1);
      WordRange(h);
      Doubled(Next(h));
    } else {
      Doubled(h);
      OddNumber(h);
    }
  }

  lemma PlusNext(a: Word, b: Word)
    ensures Plus(a, Next(b)) == Next(Plus(a, b)) && Plus(a, 0) == a
  {
  }

  lemma Previous(b: Word)
    ensures Next(b - 1) == b
  {
  }

  /** A sum of words is the sum modulo 2^32. */
  lemma {:induction false} PlusNumber(a: Word, b: Word)
    ensures Number(Plus(a, b)) == (Number(a) + Number(b)) % 0x1_0000_0000
    decreases Number(b)
  {
    hide Number, Plus, Next, Pow2;
    TwoTo32();
    WordRange(a);
    WordRange(b);
    ZeroNumber();
    if b == 0 {
      PlusNext(a, 0);
    } else {
      var c := b - 1;
      Previous(b);
      WordRange(c);
      NextNumber(c, 32);
      NumberInjective(b, 0);
      PlusNumber(a, c);
      PlusNext(a, c);
      WordRange(Plus(a, c));
      NextNumber(Plus(a, c), 32);
    }
  }

  function ClearLowest(a: Word): Word { a & 0xFFFF_FFFE }

  lemma ClearSplit(a: Word)
    ensures ClearLowest(a) == Left(Right(a, 1), 1)
  {
  }

  lemma ClearNumber(a: Word)
    ensures Number(ClearLowest(a)) == Number(a) / 2 * 2
  {
    hide Number, Left, Right, Bit, ClearLowest;
    WordRange(a);
    ClearSplit(a);
    Halved(a);
    Doubled(Right(a, 1));
  }
}
