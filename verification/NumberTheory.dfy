/** Multiples, primes and powers: what the digit program's correctness rests on. */
module NumberTheory {
  import opened Arith

  function Product(q: int, m: int): int { q * m }

  /** x is a multiple of m. */
  ghost predicate Multiple(x: int, m: int) {
    exists q: int :: Product(q, m) == x
  }

  lemma MultipleOf(q: int, m: int)
    ensures Multiple(q * m, m) && Multiple(m * q, m)
  {
    assert Product(q, m) == q * m;
  }

  lemma MultipleSum(x: int, y: int, m: int)
    requires Multiple(x, m) && Multiple(y, m)
    ensures Multiple(x + y, m) && Multiple(x - y, m)
  {
    var q: int :| Product(q, m) == x;
    var r: int :| Product(r, m) == y;
    assert Product(q + r, m) == x + y && Product(q - r, m) == x - y;
  }

  lemma MultipleTimes(x: int, m: int, c: int)
    requires Multiple(x, m)
    ensures Multiple(x * c, m) && Multiple(c * x, m)
  {
    var q: int :| Product(q, m) == x;
    assert Product(q * c, m) == q * c * m == q * m * c == x * c;
  }

  lemma MultipleScaled(x: int, m: int, c: int)
    requires Multiple(x, m)
    ensures Multiple(c * x, c * m) && Multiple(x * c, m * c)
  {
    var q: int :| Product(q, m) == x;
    assert Product(q, c * m) == q * (c * m) == c * (q * m) == c * x;
  }

  lemma MultipleTrans(x: int, y: int, m: int)
    requires Multiple(x, y) && Multiple(y, m)
    ensures Multiple(x, m)
  {
    var q: int :| Product(q, y) == x;
    MultipleTimes(y, m, q);
  }

  lemma MultipleRemainder(x: int, m: int)
    requires m > 0
    ensures Multiple(x - x % m, m)
    ensures Multiple(x, m) <==> x % m == 0
  {
    assert x == x / m * m + x % m;
    MultipleOf(x / m, m);
    if Multiple(x, m) {
      var q: int :| Product(q, m) == x;
      DivUnique(x, m, q, 0);
    }
  }

  lemma MultipleBounded(x: int, m: int)
    requires Multiple(x, m) && m > 0 && -m < x < m
    ensures x == 0
  {
    var q: int :| Product(q, m) == x;
    if q > 0 {
      MulMono(1, q, m);
    } else if q < 0 {
      MulMono(q, -1, m);
    }
  }

  lemma CongruentProducts(x: int, y: int, p: int, q: int, m: int)
    requires Multiple(x - y, m) && Multiple(p - q, m)
    ensures Multiple(x * p - y * q, m)
  {
    hide Multiple;
    MultipleTimes(x - y, m, p);
    MultipleTimes(p - q, m, y);
    MultipleSum((x - y) * p, y * (p - q), m);
    Telescope(x, y, p, q);
  }

  lemma Telescope(x: int, y: int, p: int, q: int)
    ensures (x - y) * p + y * (p - q) == x * p - y * q
  {
  }

  lemma CongruentTrans(x: int, y: int, z: int, m: int)
    requires Multiple(x - y, m) && Multiple(y - z, m)
    ensures Multiple(x - z, m)
  {
    MultipleSum(x - y, y - z, m);
  }

  lemma CongruentRefl(x: int, m: int)
    ensures Multiple(x - x, m)
  {
    ZeroMultiple(m);
  }

  lemma CongruentSym(x: int, y: int, m: int)
    requires Multiple(x - y, m)
    ensures Multiple(y - x, m)
  {
    MultipleTimes(x - y, m, -1);
  }

  // ---------------------------------------------------------------------------------------
  // Primes
  // ---------------------------------------------------------------------------------------

  ghost predicate Prime(p: int) {
    p >= 2 && forall d: int :: 2 <= d < p ==> !Multiple(p, d)
  }

  /** Euclid's lemma. */
  lemma {:induction false} PrimeDividesProduct(p: int, d: nat, c: int)
    requires Prime(p) && Multiple(d * c, p) && !Multiple(d, p)
    ensures Multiple(c, p)
    decreases d
  {
    hide Prime, Multiple;
    if d >= p {
      SubtractPrime(p, d, c);
      PrimeDividesProduct(p, d - p, c);
    } else {
      ZeroMultiple(p);
      if d == 1 {
        assert d * c == c;
      } else {
        TakeRemainder(p, d, c);
        SmallNotMultiple(p % d, p);
        PrimeDividesProduct(p, p % d, c);
      }
    }
  }

  lemma ZeroMultiple(p: int)
    ensures Multiple(0, p)
  {
    MultipleOf(0, p);
    assert 0 * p == 0;
  }

  lemma SubtractPrime(p: int, d: nat, c: int)
    requires Prime(p) && Multiple(d * c, p) && !Multiple(d, p) && d >= p
    ensures p > 0 && Multiple((d - p) * c, p) && !Multiple(d - p, p)
  {
    hide Multiple;
    MultipleOf(c, p);
    MultipleSum(d * c, c * p, p);
    assert (d - p) * c == d * c - c * p;
    if Multiple(d - p, p) {
      MultipleOf(1, p);
      MultipleSum(d - p, 1 * p, p);
    }
  }

  lemma TakeRemainder(p: int, d: nat, c: int)
    requires Prime(p) && Multiple(d * c, p) && 1 < d < p
    ensures 0 < p % d < d && Multiple(p % d * c, p)
  {
    hide Multiple;
    var q, r := p / d, p % d;
    MultipleRemainder(p, d);
    MultipleOf(c, p);
    MultipleTimes(d * c, p, q);
    MultipleSum(p * c, q * (d * c), p);
    RemainderTimes(p, d, q, r, c);
  }

  lemma RemainderTimes(p: int, d: int, q: int, r: int, c: int)
    requires p == q * d + r
    ensures r * c == p * c - q * (d * c)
  {
    assert q * (d * c) == q * d * c;
    assert (q * d + r) * c == q * d * c + r * c;
  }

  lemma SmallNotMultiple(r: int, p: int)
    requires 0 < r < p
    ensures !Multiple(r, p)
  {
    if Multiple(r, p) {
      MultipleBounded(r, p);
    }
  }

  lemma NotMultipleProduct(p: int, x: nat, y: int)
    requires Prime(p) && !Multiple(x, p) && !Multiple(y, p)
    ensures !Multiple(x * y, p)
  {
    if Multiple(x * y, p) {
      PrimeDividesProduct(p, x, y);
    }
  }

  /** Every number above one has a prime divisor. */
  lemma {:induction false} PrimeDivisor(n: int) returns (p: int)
    requires n >= 2
    ensures Prime(p) && Multiple(n, p) && 2 <= p <= n
  {
    if Prime(n) {
      p := n;
      MultipleOf(1, n);
    } else {
      var d: int :| 2 <= d < n && Multiple(n, d);
      p := PrimeDivisor(d);
      MultipleTrans(n, d, p);
    }
  }

  // ---------------------------------------------------------------------------------------
  // Powers
  // ---------------------------------------------------------------------------------------

  function Pow(a: int, n: nat): int {
    if n == 0 then 1 else a * Pow(a, n - 1)
  }

  lemma PowNext(a: int, n: nat)
    ensures Pow(a, n + 1) == a * Pow(a, n) && Pow(a, 0) == 1 && Pow(a, 1) == a
  {
    assert Pow(a, 1) == a * Pow(a, 0);
  }

  lemma {:induction false} PowAdd(a: int, m: nat, n: nat)
    ensures Pow(a, m + n) == Pow(a, m) * Pow(a, n)
  {
    if m > 0 {
      PowAdd(a, m - 1, n);
      assert Pow(a, m + n) == a * Pow(a, m - 1 + n);
      assert a * (Pow(a, m - 1) * Pow(a, n)) == a * Pow(a, m - 1) * Pow(a, n);
    }
  }

  lemma {:induction false} PowPositive(a: int, n: nat)
    requires a >= 1
    ensures Pow(a, n) >= 1
  {
    if n > 0 {
      PowPositive(a, n - 1);
      MulMono(1, Pow(a, n - 1), a);
    }
  }

  lemma {:induction false} PowMono(a: int, m: nat, n: nat)
    requires a >= 1 && m <= n
    ensures Pow(a, m) <= Pow(a, n)
    decreases n - m
  {
    if m < n {
      PowMono(a, m, n - 1);
      PowPositive(a, n - 1);
      MulMono(1, a, Pow(a, n - 1));
    }
  }

  /** A number above one that divides a power of a prime is divisible by it. */
  lemma {:induction false} DivisorOfPower(p: int, n: nat, d: nat)
    requires Prime(p) && d >= 2 && Multiple(Pow(p, n), d)
    ensures Multiple(d, p)
  {
    if !Multiple(d, p) {
      var c: int :| Product(c, d) == Pow(p, n);
      if n == 0 {
        MultipleOf(1, d);
        SmallNotMultiple(1, d);
      } else {
        MultipleOf(Pow(p, n - 1), p);
        assert d * c == p * Pow(p, n - 1);
        PrimeDividesProduct(p, d, c);
        var b: int :| Product(b, p) == c;
        assert p * (b * d) == p * Pow(p, n - 1);
        assert Product(b, d) == Pow(p, n - 1);
        DivisorOfPower(p, n - 1, d);
      }
    }
  }

  ghost predicate Coprime(x: int, y: int) {
    forall d: int :: d >= 2 ==> !(Multiple(x, d) && Multiple(y, d))
  }

  lemma CoprimeToPower(p: int, n: nat, x: int)
    requires Prime(p) && !Multiple(x, p)
    ensures Coprime(x, Pow(p, n))
  {
    forall d: int | d >= 2
      ensures !(Multiple(x, d) && Multiple(Pow(p, n), d))
    {
      if Multiple(x, d) && Multiple(Pow(p, n), d) {
        DivisorOfPower(p, n, d);
        MultipleTrans(x, d, p);
      }
    }
  }

  /** Different primes do not divide each other's powers. */
  lemma OtherPrimePower(p: int, b: int, n: nat)
    requires Prime(p) && Prime(b) && p != b
    ensures !Multiple(Pow(b, n), p)
  {
    if Multiple(Pow(b, n), p) {
      DivisorOfPower(b, n, p);
      MultipleBoundedPrime(p, b);
    }
  }

  lemma MultipleBoundedPrime(p: int, b: int)
    requires Prime(p) && Prime(b) && Multiple(p, b)
    ensures p == b
  {
    if b > p {
      MultipleBounded(p, b);
    }
  }

  /** A power of a prime that divides a product, one factor of which it does not touch, divides the other. */
  lemma {:induction false} PowerDividesFactor(b: int, n: nat, m: nat, q: int)
    requires Prime(b) && !Multiple(m, b) && Multiple(m * q, Pow(b, n))
    ensures Multiple(q, Pow(b, n))
  {
    hide Multiple, Prime, Pow;
    if n == 0 {
      PowNext(b, 0);
      MultipleOf(q, 1);
      assert q * 1 == q;
    } else {
      PowNext(b, n - 1);
      MultipleOf(b, Pow(b, n - 1));
      MultipleTrans(m * q, Pow(b, n), Pow(b, n - 1));
      PowerDividesFactor(b, n - 1, m, q);
      OneMoreFactor(b, Pow(b, n - 1), m, q);
    }
  }

  lemma OneMoreFactor(b: int, p: int, m: nat, q: int)
    requires Prime(b) && !Multiple(m, b) && Multiple(q, p) && Multiple(m * q, b * p)
    ensures Multiple(q, b * p)
  {
    var r: int :| Product(r, p) == q;
    if p == 0 {
      assert Product(r, b * p) == q;
    } else {
      var s: int :| Product(s, b * p) == m * q;
      assert m * r * p == s * b * p;
      CancelFactor(m * r, s * b, p);
      MultipleOf(s, b);
      PrimeDividesProduct(b, m, r);
      var t: int :| Product(t, b) == r;
      assert q == t * b * p == Product(t, b * p);
    }
  }

  lemma CancelFactor(x: int, y: int, p: int)
    requires p != 0 && x * p == y * p
    ensures x == y
  {
    assert (x - y) * p == 0;
  }

  /** A number free of the prime b divides y as soon as it divides y times a power of b. */
  lemma {:induction false} CancelPower(b: int, n: nat, m: nat, y: int)
    requires Prime(b) && m > 0 && !Multiple(m, b) && Multiple(Pow(b, n) * y, m)
    ensures Multiple(y, m)
  {
    hide Multiple, Prime, Pow;
    PowNext(b, 0);
    if n > 0 {
      PowNext(b, n - 1);
      assert Pow(b, n) * y == b * (Pow(b, n - 1) * y) by { Reassociate(b, Pow(b, n - 1), y); }
      CancelPrime(b, m, Pow(b, n - 1) * y);
      CancelPower(b, n - 1, m, y);
    } else {
      assert Pow(b, 0) * y == y;
    }
  }

  lemma Reassociate(a: int, b: int, c: int)
    ensures a * b * c == a * (b * c)
  {
  }

  lemma CancelPrime(b: int, m: nat, y: int)
    requires Prime(b) && m > 0 && !Multiple(m, b) && Multiple(b * y, m)
    ensures Multiple(y, m)
  {
    var q: int :| Product(q, m) == b * y;
    MultipleOf(y, b);
    assert m * q == y * b;
    PrimeDividesProduct(b, m, q);
    var r: int :| Product(r, b) == q;
    assert r * m * b == y * b by {
      assert r * b * m == r * m * b;
    }
    CancelFactor(r * m, y, b);
    assert Product(r, m) == y;
  }

  /** Divisible by a power of b and by a number free of b: divisible by their product. */
  lemma CoprimeProduct(b: int, n: nat, m: nat, y: int)
    requires Prime(b) && !Multiple(m, b) && Multiple(y, Pow(b, n)) && Multiple(y, m)
    ensures Multiple(y, Pow(b, n) * m)
  {
    var q: int :| Product(q, m) == y;
    assert m * q == y;
    PowerDividesFactor(b, n, m, q);
    MultipleScaled(q, Pow(b, n), m);
  }
}
