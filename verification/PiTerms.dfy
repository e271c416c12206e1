/**
 The numbers behind the digit program: factorials and odd factorials with the factors of one
 prime set aside, and how many of those factors the quotient of the two keeps.
 */
module PiTerms {
  import opened Arith
  import opened NumberTheory
  import opened PiArithmetic

  /** (2k - 1)!!: the product of the first k odd numbers. */
  function Odds(k: nat): int {
    if k == 0 then 1 else Odds(k - 1) * (2 * k - 1)
  }

  /** n with all factors p removed, and how many there were. */
  function Free(p: int, n: int): int
    requires p >= 2 && n >= 1
    decreases n
  {
    if n % p == 0 then Free(p, n / p) else n
  }

  function Ord(p: int, n: int): nat
    requires p >= 2 && n >= 1
    decreases n
  {
    if n % p == 0 then Ord(p, n / p) + 1 else 0
  }

  lemma {:induction false} FreeOrd(p: int, n: int)
    requires p >= 2 && n >= 1
    ensures n == Pow(p, Ord(p, n)) * Free(p, n)
    ensures !Multiple(Free(p, n), p) && 1 <= Free(p, n) <= n
    decreases n
  {
    hide Multiple, Pow;
    MultipleRemainder(n, p);
    if n % p == 0 {
      var q := n / p;
      DivideOut(n, p, q);
      FreeOrd(p, q);
      PowNext(p, Ord(p, q));
      Reassociate(p, Pow(p, Ord(p, q)), Free(p, q));
    } else {
      PowNext(p, 0);
    }
  }

  lemma DivideOut(n: int, p: int, q: int)
    requires p >= 2 && n >= 1 && n % p == 0 && q == n / p
    ensures n == p * q && 1 <= q < n
  {
  }

  /** k! and (2k - 1)!! as the program keeps them: the part free of p, and the exponent of p. */
  function FactorialFree(p: int, k: nat): int
    requires p >= 2
  {
    if k == 0 then 1 else FactorialFree(p, k - 1) * Free(p, k)
  }

  function FactorialOrd(p: int, k: nat): nat
    requires p >= 2
  {
    if k == 0 then 0 else FactorialOrd(p, k - 1) + Ord(p, k)
  }

  function OddsFree(p: int, k: nat): int
    requires p >= 2
  {
    if k == 0 then 1 else OddsFree(p, k - 1) * Free(p, 2 * k - 1)
  }

  function OddsOrd(p: int, k: nat): nat
    requires p >= 2
  {
    if k == 0 then 0 else OddsOrd(p, k - 1) + Ord(p, 2 * k - 1)
  }

  lemma Regroup(p: int, m: nat, n: nat, x: int, y: int)
    ensures Pow(p, m) * x * (Pow(p, n) * y) == Pow(p, m + n) * (x * y)
  {
    PowAdd(p, m, n);
    assert Pow(p, m) * x * (Pow(p, n) * y) == Pow(p, m) * Pow(p, n) * (x * y);
  }

  lemma {:induction false} FactorialSplit(p: int, k: nat)
    requires Prime(p)
    ensures Factorial(k) == Pow(p, FactorialOrd(p, k)) * FactorialFree(p, k)
    ensures FactorialFree(p, k) >= 1 && !Multiple(FactorialFree(p, k), p)
  {
    hide Prime, Multiple, Free, Ord;
    SmallNotMultiple(1, p) by { PrimeBound(p); }
    if k > 0 {
      PrimeBound(p);
      FactorialSplit(p, k - 1);
      FreeOrd(p, k);
      Regroup(p, FactorialOrd(p, k - 1), Ord(p, k), FactorialFree(p, k - 1), Free(p, k));
      NotMultipleProduct(p, FactorialFree(p, k - 1), Free(p, k));
      MulMono(1, FactorialFree(p, k - 1), Free(p, k));
    }
  }

  lemma PrimeBound(p: int)
    requires Prime(p)
    ensures p >= 2
  {
  }

  lemma {:induction false} OddsSplit(p: int, k: nat)
    requires Prime(p)
    ensures Odds(k) == Pow(p, OddsOrd(p, k)) * OddsFree(p, k)
    ensures OddsFree(p, k) >= 1 && !Multiple(OddsFree(p, k), p)
  {
    hide Prime, Multiple, Free, Ord;
    SmallNotMultiple(1, p) by { PrimeBound(p); }
    if k > 0 {
      PrimeBound(p);
      OddsSplit(p, k - 1);
      FreeOrd(p, 2 * k - 1);
      Regroup(p, OddsOrd(p, k - 1), Ord(p, 2 * k - 1), OddsFree(p, k - 1), Free(p, 2 * k - 1));
      NotMultipleProduct(p, OddsFree(p, k - 1), Free(p, 2 * k - 1));
      MulMono(1, OddsFree(p, k - 1), Free(p, 2 * k - 1));
    }
  }

  // ---------------------------------------------------------------------------------------
  // The exponent left over never exceeds the power the program works with
  // ---------------------------------------------------------------------------------------

  /** How many of p, p^2, ..., p^i divide n. */
  function Levels(p: int, i: nat, n: int): nat
    requires p >= 2
  {
    if i == 0 then 0 else Levels(p, i - 1, n) + if Divides(Pow(p, i), n) then 1 else 0
  }

  predicate Divides(m: int, n: int) { m > 0 && n % m == 0 }

  lemma {:induction false} LevelsCountOrd(p: int, i: nat, n: int)
    requires Prime(p) && n >= 1
    ensures Levels(p, i, n) == if Ord(p, n) <= i then Ord(p, n) else i
  {
    hide Prime, Ord;
    PrimeBound(p);
    if i > 0 {
      LevelsCountOrd(p, i - 1, n);
      DividesUpToOrd(p, i, n);
    }
  }

  lemma DividesUpToOrd(p: int, i: nat, n: int)
    requires Prime(p) && p >= 2 && n >= 1
    ensures Divides(Pow(p, i), n) <==> i <= Ord(p, n)
  {
    hide Prime, Ord, Free, Multiple, Pow;
    var e, x := Ord(p, n), Free(p, n);
    FreeOrd(p, n);
    PowPositive(p, i);
    MultipleRemainder(n, Pow(p, i));
    if i <= e {
      PowAdd(p, i, e - i);
      MultipleOf(Pow(p, e - i) * x, Pow(p, i));
      Reassociate(Pow(p, i), Pow(p, e - i), x);
    } else if Divides(Pow(p, i), n) {
      PowAdd(p, e, i - e);
      CancelCommon(Pow(p, e), x, Pow(p, i - e));
      PowNext(p, i - e - 1);
      MultipleOf(Pow(p, i - e - 1), p);
      MultipleTrans(x, Pow(p, i - e), p);
    }
  }

  lemma CancelCommon(c: int, x: int, y: int)
    requires Multiple(c * x, c * y) && c * y != 0
    ensures Multiple(x, y)
  {
    var q: int :| Product(q, c * y) == c * x;
    assert q * (c * y) == q * y * c;
    CancelFactor(q * y, x, c);
    assert Product(q, y) == x;
  }

  /** Ones in the upper half: whether twice the remainder of k carries over at this level. */
  function Carry(m: int, k: nat): nat
    requires m > 0
  {
    if 2 * (k % m) > m then 1 else 0
  }

  /** For an odd m, multiples of m among the odd numbers are ahead of those among all by the carry. */
  lemma CarryStep(m: int, k: nat)
    requires m >= 3 && m % 2 == 1 && k >= 1
    ensures Carry(m, k) - Carry(m, k - 1)
      == (if Divides(m, 2 * k - 1) then 1 else 0) - (if Divides(m, k) then 1 else 0)
  {
    var q, r := k / m, k % m;
    assert k == q * m + r;
    var s := if r == 0 then 2 * q - 1 else if 2 * r - 1 < m then 2 * q else 2 * q + 1;
    OddQuotient(m, q, r, k, s);
    if r == 0 {
      CarryDivs(m, k - 1, q - 1, m - 1, 2 * k - 1, s, m - 1);
    } else {
      CarryDivs(m, k - 1, q, r - 1, 2 * k - 1, s, if 2 * r - 1 < m then 2 * r - 1 else 2 * r - 1 - m);
    }
  }

  lemma OddQuotient(m: int, q: int, r: int, k: int, s: int)
    requires m >= 3 && k == q * m + r && 0 <= r < m
    requires s == if r == 0 then 2 * q - 1 else if 2 * r - 1 < m then 2 * q else 2 * q + 1
    ensures 2 * k - 1 == s * m + (if r == 0 then m - 1 else if 2 * r - 1 < m then 2 * r - 1 else 2 * r - 1 - m)
    ensures k - 1 == (if r == 0 then (q - 1) * m + (m - 1) else q * m + (r - 1))
  {
    var x := q * m;
    assert 2 * q * m == 2 * x && (2 * q - 1) * m == 2 * x - m && (2 * q + 1) * m == 2 * x + m && (q - 1) * m == x - m;
  }

  lemma CarryDivs(m: int, x: int, q: int, r: int, y: int, s: int, t: int)
    requires m > 0 && x == q * m + r && 0 <= r < m && y == s * m + t && 0 <= t < m
    ensures x % m == r && y % m == t
  {
    DivUnique(x, m, q, r);
    DivUnique(y, m, s, t);
  }

  function Carries(p: int, i: nat, k: nat): (c: nat)
    requires p >= 2
    ensures c <= i
  {
    if i == 0 then 0 else Carries(p, i - 1, k) + (PowPositive(p, i); Carry(Pow(p, i), k))
  }

  lemma {:induction false} CarriesStep(p: int, i: nat, k: nat)
    requires p >= 3 && p % 2 == 1 && k >= 1
    ensures Carries(p, i, k) - Carries(p, i, k - 1) == Levels(p, i, 2 * k - 1) - Levels(p, i, k)
  {
    hide Pow;
    if i > 0 {
      CarriesStep(p, i - 1, k);
      OddPower(p, i);
      CarryStep(Pow(p, i), k);
    }
  }

  lemma {:induction false} OddPower(p: int, i: nat)
    requires p >= 3 && p % 2 == 1
    ensures Pow(p, i) % 2 == 1 && Pow(p, i) >= 1 && (i > 0 ==> Pow(p, i) >= 3)
  {
    if i > 0 {
      OddPower(p, i - 1);
      OddTimesOdd(p, Pow(p, i - 1));
      MulMono(1, Pow(p, i - 1), p);
    }
  }

  lemma OddTimesOdd(a: int, b: int)
    requires a % 2 == 1 && b % 2 == 1
    ensures a * b % 2 == 1
  {
    assert a * b == 2 * (a / 2 * b) + b;
  }

  /** The exponents differ by the number of carries, level by level: Kummer's count. */
  lemma {:induction false} OrdersDiffer(p: int, i: nat, k: nat)
    requires Prime(p) && p >= 3 && 2 * k <= Pow(p, i + 1)
    ensures OddsOrd(p, k) - FactorialOrd(p, k) == Carries(p, i, k)
    ensures 0 <= OddsOrd(p, k) - FactorialOrd(p, k) <= i
  {
    hide Prime, Ord, Pow, Carries, Levels;
    if k == 0 {
      NoCarries(p, i);
    } else {
      OrdersDiffer(p, i, k - 1);
      PrimesAreOdd(p);
      CarriesStep(p, i, k);
      LevelsCountOrd(p, i, 2 * k - 1);
      LevelsCountOrd(p, i, k);
      OrdBelow(p, i, 2 * k - 1);
      OrdBelow(p, i, k);
    }
  }

  lemma {:induction false} NoCarries(p: int, i: nat)
    requires p >= 2
    ensures Carries(p, i, 0) == 0
  {
    if i > 0 {
      NoCarries(p, i - 1);
      PowPositive(p, i);
      DivUnique(0, Pow(p, i), 0, 0);
    }
  }

  lemma OrdBelow(p: int, i: nat, n: int)
    requires p >= 2 && 1 <= n < Pow(p, i + 1)
    ensures Ord(p, n) <= i
  {
    hide Ord, Free, Pow;
    FreeOrd(p, n);
    MulMono(1, Free(p, n), Pow(p, Ord(p, n))) by { PowPositive(p, Ord(p, n)); }
    if Ord(p, n) > i {
      PowMono(p, i + 1, Ord(p, n));
    }
  }
}
