/** The arithmetic helpers of the digit program: modular inverse, modular power, prime search. */
module PiArithmetic {
  import opened Arith
  import opened NumberTheory

  /** The C int: every operation on it must stay in range. */
  newtype int32 = x: int | -0x8000_0000 <= x < 0x8000_0000

  /** mul_mod: the product is taken in 64 bits. */
  function MulMod(a: int, b: int, m: int): int
    requires a >= 0 && b >= 0 && m > 0
  {
    a * b % m
  }

  // ---------------------------------------------------------------------------------------
  // Modular inverse
  // ---------------------------------------------------------------------------------------

  function Gcd(u: nat, v: nat): nat
    decreases u
  {
    if u == 0 then v else Gcd(v % u, u)
  }

  lemma {:induction false} GcdDivides(u: nat, v: nat)
    requires u > 0 || v > 0
    ensures Gcd(u, v) >= 1 && Multiple(u, Gcd(u, v)) && Multiple(v, Gcd(u, v))
    decreases u
  {
    hide Multiple;
    if u == 0 {
      MultipleOf(0, v);
      MultipleOf(1, v);
      assert 0 * v == 0 && 1 * v == v;
    } else {
      var g := Gcd(u, v);
      GcdDivides(v % u, u);
      MultipleTimes(u, g, v / u);
      MultipleSum(v / u * u, v % u, g);
      assert v == v / u * u + v % u;
    }
  }

  lemma CoprimeGcd(u: nat, v: nat)
    requires v > 0 && Coprime(u, v)
    ensures Gcd(u, v) == 1
  {
    GcdDivides(u, v);
  }

  function Magnitude(x: int): nat { if x < 0 then -x else x }

  /**
   The state of the loop: u and v are the remainders, c * x and a * x are congruent to them, the
   coefficients have opposite signs, and weighed against the remainders they always make up y.
   */
  ghost predicate Bezout(x: int, y: int, u: int, v: int, a: int, c: int) {
    && 0 <= u && 1 <= v
    && Multiple(c * x - u, y) && Multiple(a * x - v, y)
    && ((a <= 0 && c >= 0) || (a >= 0 && c <= 0))
    && u * Magnitude(a) + v * Magnitude(c) == y
  }

  lemma BezoutStep(x: int, y: int, u: int, v: int, a: int, c: int)
    requires u > 0 && Bezout(x, y, u, v, a, c)
    ensures var q := v / u;
      Bezout(x, y, v - q * u, u, c, a - q * c) && v - q * u == v % u
  {
    hide Multiple;
    var q := v / u;
    assert v == q * u + v % u;
    MultipleTimes(c * x - u, y, q);
    MultipleSum(a * x - v, q * (c * x - u), y);
    BezoutCongruence(x, u, v, a, c, q);
    BezoutWeights(u, v, a, c, q);
  }

  lemma BezoutCongruence(x: int, u: int, v: int, a: int, c: int, q: int)
    ensures (a - q * c) * x - (v - q * u) == (a * x - v) - q * (c * x - u)
  {
    assert (a - q * c) * x == a * x - q * c * x;
  }

  lemma BezoutWeights(u: int, v: int, a: int, c: int, q: int)
    requires u > 0 && v >= 1 && q >= 0 && ((a <= 0 && c >= 0) || (a >= 0 && c <= 0))
    ensures var c' := a - q * c;
      && ((c <= 0 && c' >= 0) || (c >= 0 && c' <= 0))
      && Magnitude(c') == Magnitude(a) + q * Magnitude(c)
      && (v - q * u) * Magnitude(c) + u * Magnitude(c') == u * Magnitude(a) + v * Magnitude(c)
  {
    var c' := a - q * c;
    if c >= 0 {
      MulMono(0, q, c);
    } else {
      MulMono(0, q, -c);
    }
    assert q * -c == -(q * c);
    assert u * (Magnitude(a) + q * Magnitude(c)) == u * Magnitude(a) + q * u * Magnitude(c);
  }

  /** No coefficient ever exceeds the modulus. */
  lemma BezoutBounds(x: int, y: int, u: int, v: int, a: int, c: int)
    requires Bezout(x, y, u, v, a, c) && y > 0
    ensures -y <= c <= y && (u > 0 ==> -y <= a <= y)
  {
    MulMono(1, v, Magnitude(c));
    MulMono(0, u, Magnitude(a));
    if u > 0 {
      MulMono(1, u, Magnitude(a));
    }
  }

  /** The quotient and product of the next coefficient fit the modulus as well. */
  lemma StepBounds(x: int, y: int, u: int, v: int, a: int, c: int)
    requires u > 0 && y > 0 && Bezout(x, y, u, v, a, c)
    ensures var q := v / u;
      0 <= q <= v && 0 <= q * u <= v && -y <= q * c <= y && -y <= a - q * c <= y
  {
    hide Multiple;
    var q := v / u;
    QuotientBounds(u, v);
    BezoutStep(x, y, u, v, a, c);
    BezoutBounds(x, y, v - q * u, u, c, a - q * c);
    BezoutWeights(u, v, a, c, q);
    ProductBound(q, c, y);
  }

  lemma QuotientBounds(u: int, v: int)
    requires u > 0 && v >= 0
    ensures 0 <= v / u <= v && 0 <= v / u * u <= v
  {
    assert v == v / u * u + v % u;
    MulMono(1, u, v / u);
  }

  lemma ProductBound(q: int, c: int, y: int)
    requires q * Magnitude(c) <= y && q >= 0
    ensures -y <= q * c <= y
  {
    if c >= 0 {
      MulMono(0, q, c);
    } else {
      MulMono(0, q, -c);
      assert q * -c == -(q * c);
    }
  }

  lemma LoopStep(x: int, y: int, u: int, v: int, a: int, c: int)
    requires u > 0 && y > 0 && Bezout(x, y, u, v, a, c)
    ensures var q := v / u;
      && 0 <= q <= v && 0 <= q * u <= v && -y <= q * c <= y && -y <= a - q * c <= y
      && Bezout(x, y, v - q * u, u, c, a - q * c)
      && Gcd(u, v) == Gcd(v - q * u, u) && 0 <= v - q * u < u && Gcd(0, u) == u
  {
    hide Bezout, Gcd;
    StepBounds(x, y, u, v, a, c);
    BezoutStep(x, y, u, v, a, c);
    GcdStep(u, v);
  }

  lemma StartBezout(x: int, y: int)
    requires x >= 1 && y >= 1
    ensures Bezout(x, y, x, y, 0, 1)
  {
    MultipleOf(0, y);
    MultipleOf(-1, y);
    assert 0 * y == 0 && 0 * x == 0 && -1 * y == -y && 1 * x - x == 0;
  }

  lemma GcdStep(u: nat, v: nat)
    requires u > 0
    ensures Gcd(u, v) == Gcd(v - v / u * u, u) && 0 <= v - v / u * u < u
    ensures Gcd(0, u) == u
  {
    assert v == v / u * u + v % u;
  }

  /** a brought into [0, y) is as good a coefficient as a itself. */
  lemma FoldedCoefficient(x: int, y: int, v: int, a: int, c: int, r: int)
    requires y > 0 && Bezout(x, y, 0, v, a, c)
    requires r == if a >= 0 then a % y else if (0 - a) % y == 0 then 0 else y - (0 - a) % y
    ensures Multiple(r * x - v, y)
  {
    hide Multiple;
    MultipleRemainder(if a >= 0 then a else 0 - a, y);
    MultipleOf(1, y);
    MultipleOf(0, y);
    var d := r - a;
    assert Multiple(d, y) by {
      if a >= 0 {
        MultipleTimes(a - a % y, y, -1);
        assert (a - a % y) * -1 == d;
      } else {
        MultipleSum(if r == 0 then 0 * y else 1 * y, 0 - a - (0 - a) % y, y);
      }
    }
    MultipleTimes(d, y, x);
    MultipleSum(a * x - v, d * x, y);
    assert (a + d) * x == a * x + d * x;
  }

  /**
   The inverse of x modulo y, in 32-bit arithmetic that never overflows: the result times x is
   congruent to the greatest common divisor, which is 1 for every coprime pair.
   */
  method InvMod(x: int32, y: int32) returns (r: int32)
    requires x >= 1 && y >= 1
    ensures 0 <= r < y
    ensures Multiple(r as int * x as int - Gcd(x as int, y as int), y as int)
    ensures Coprime(x as int, y as int) ==> Multiple(r as int * x as int - 1, y as int)
  {
    hide Multiple, Bezout, Gcd;
    var u, v, c, a := x, y, 1 as int32, 0 as int32;
    ghost var X, Y := x as int, y as int;
    StartBezout(X, Y);
    while true
      invariant 0 < u && 1 <= v && -y <= c <= y && -y <= a <= y
      invariant Bezout(X, Y, u as int, v as int, a as int, c as int)
      invariant Gcd(u as int, v as int) == Gcd(X, Y)
      decreases u
    {
      LoopStep(X, Y, u as int, v as int, a as int, c as int);
      var q := v / u;
      c, a := a - q * c, c;
      u, v := v - q * u, u;
      if u == 0 { break; }
    }
    assert v as int == Gcd(X, Y);
    if a >= 0 {
      r := a % y;
    } else {
      // C's a % y is -(-a % y) here
      r := -(-a % y);
      if r < 0 { r := y + r; }
    }
    FoldedCoefficient(X, Y, v as int, a as int, c as int, r as int);
    if Coprime(X, Y) {
      CoprimeGcd(X, Y);
    }
  }

  /** Modulo y there is only one inverse. */
  lemma InverseUnique(x: int, y: int, r: int, r': int)
    requires y > 0 && 0 <= r < y && 0 <= r' < y
    requires Multiple(r * x - 1, y) && Multiple(r' * x - 1, y)
    ensures r == r'
  {
    hide Multiple;
    MultipleTimes(r * x - 1, y, r');
    MultipleTimes(r' * x - 1, y, r);
    MultipleSum((r * x - 1) * r', (r' * x - 1) * r, y);
    assert (r * x - 1) * r' == r * x * r' - r' && (r' * x - 1) * r == r' * x * r - r;
    assert r * x * r' == r' * x * r;
    MultipleBounded(r - r', y);
  }

  // ---------------------------------------------------------------------------------------
  // Modular power
  // ---------------------------------------------------------------------------------------

  lemma {:induction false} PowSquare(a: int, k: nat)
    ensures Pow(a, 2 * k) == Pow(a * a, k)
  {
    if k > 0 {
      PowSquare(a, k - 1);
      assert Pow(a, 2 * k) == a * (a * Pow(a, 2 * (k - 1))) by {
        assert 2 * k - 1 - 1 == 2 * (k - 1);
      }
      assert a * (a * Pow(a * a, k - 1)) == a * a * Pow(a * a, k - 1);
    }
  }

  lemma {:induction false} PowCongruent(x: int, y: int, k: nat, m: int)
    requires Multiple(x - y, m)
    ensures Multiple(Pow(x, k) - Pow(y, k), m)
  {
    hide Multiple, Pow;
    if k == 0 {
      PowNext(x, 0);
      PowNext(y, 0);
      MultipleOf(0, m);
      assert 0 * m == 0;
    } else {
      PowNext(x, k - 1);
      PowNext(y, k - 1);
      PowCongruent(x, y, k - 1, m);
      CongruentProducts(x, y, Pow(x, k - 1), Pow(y, k - 1), m);
    }
  }

  /** What is left to multiply in: r * aa^b is congruent to the power wanted. */
  ghost predicate Remaining(r: int, aa: int, b: int, want: int, m: int) {
    b >= 0 && Multiple(r * Pow(aa, b) - want, m)
  }

  lemma TakeBit(r: int, aa: int, b: int, want: int, m: int)
    requires m > 0 && b >= 0 && Remaining(r, aa, b, want, m)
    ensures var r' := if b % 2 == 1 then r * aa % m else r;
      Remaining(r', aa * aa % m, b / 2, want, m) && (b / 2 == 0 ==> Multiple(r' - want, m))
  {
    hide Multiple, Pow;
    var k := b / 2;
    var r' := if b % 2 == 1 then r * aa % m else r;
    PowSquare(aa, k);
    PowNext(aa, 2 * k);
    PowNext(aa * aa, 0);
    var p, p' := Pow(aa * aa, k), Pow(aa * aa % m, k);
    MultipleRemainder(aa * aa, m);
    MultipleTimes(aa * aa - aa * aa % m, m, -1);
    PowCongruent(aa * aa % m, aa * aa, k, m);
    MultiplyIn(r, aa, b, p, want, m);
    ReplaceFactor(r', p, p', want, m);
  }

  lemma MultiplyIn(r: int, aa: int, b: int, p: int, want: int, m: int)
    requires m > 0 && Multiple(r * (if b % 2 == 1 then aa * p else p) - want, m)
    ensures Multiple((if b % 2 == 1 then r * aa % m else r) * p - want, m)
  {
    hide Multiple;
    if b % 2 == 1 {
      var x := r * aa;
      MultipleRemainder(x, m);
      MultipleTimes(x - x % m, m, p);
      MultipleSum(r * (aa * p) - want, (x - x % m) * p, m);
      OddBit(r, aa, p, x % m);
    }
  }

  lemma ReplaceFactor(r: int, p: int, p': int, want: int, m: int)
    requires Multiple(r * p - want, m) && Multiple(p' - p, m)
    ensures Multiple(r * p' - want, m)
  {
    hide Multiple;
    MultipleTimes(p' - p, m, r);
    MultipleSum(r * p - want, r * (p' - p), m);
    assert r * p + r * (p' - p) == r * p';
  }

  lemma OddBit(r: int, aa: int, p: int, x: int)
    ensures r * (aa * p) - (r * aa - x) * p == x * p
  {
    assert r * (aa * p) == r * aa * p;
  }

  /** a^b modulo m: a residue, unless there was nothing to multiply and m is 1. */
  method PowMod(a: int, b: int, m: int) returns (r: int)
    requires a >= 0 && b >= 0 && m > 0
    ensures r == if b == 0 then 1 else Pow(a, b) % m
  {
    hide Multiple, Remaining, Pow;
    var n, aa := b, a;
    r := 1;
    StartPower(a, b, m);
    while true
      invariant 0 <= n <= b && r >= 0 && aa >= 0 && Remaining(r, aa, n, Pow(a, b), m)
      invariant if b > 0 then n > 0 else r == 1
      decreases n
    {
      TakeBit(r, aa, n, Pow(a, b), m);
      if n % 2 == 1 {
        r := MulMod(r, aa, m);
      }
      if n == 1 {
        ResidueUnique(r, Pow(a, b), m);
      }
      n := n / 2;
      if n == 0 { break; }
      aa := MulMod(aa, aa, m);
    }
  }

  lemma StartPower(a: int, b: nat, m: int)
    ensures Remaining(1, a, b, Pow(a, b), m)
  {
    MultipleOf(0, m);
    assert 0 * m == 0 && 1 * Pow(a, b) - Pow(a, b) == 0;
  }

  lemma ResidueUnique(r: int, x: int, m: int)
    requires m > 0 && 0 <= r < m && Multiple(r - x, m)
    ensures r == x % m
  {
    var q: int :| Product(q, m) == r - x;
    assert x == -q * m + r;
    DivUnique(x, m, -q, r);
  }

  // ---------------------------------------------------------------------------------------
  // Prime search
  // ---------------------------------------------------------------------------------------

  /** No divisor of n lies in [2, i). */
  ghost predicate Sieved(n: int, i: int) {
    forall d: int :: 2 <= d < i ==> !Multiple(n, d)
  }

  /** Trying odd divisors only is enough for an odd number. */
  lemma SieveTwo(n: int, i: int)
    requires n % 2 == 1 && i >= 3 && i % 2 == 1 && Sieved(n, i) && n % i != 0
    ensures Sieved(n, i + 2)
  {
    forall d: int | 2 <= d < i + 2
      ensures !Multiple(n, d)
    {
      MultipleRemainder(n, i);
      if d == i + 1 && Multiple(n, d) {
        MultipleOf(d / 2, 2);
        assert d / 2 * 2 == d;
        MultipleTrans(n, d, 2);
        MultipleRemainder(n, 2);
      }
    }
  }

  /** No divisor up to the square root means no divisor at all. */
  lemma SievedIsPrime(n: int, i: int)
    requires n >= 2 && i >= 2 && Sieved(n, i) && i * i > n
    ensures Prime(n)
  {
    forall d: int | 2 <= d < n
      ensures !Multiple(n, d)
    {
      if Multiple(n, d) {
        var q: int :| Product(q, d) == n;
        if q <= 1 {
          MulMono(q, 1, d);
        } else if d >= i {
          MultipleOf(d, q);
          if q >= i {
            MulMono(i, q, i);
            MulMono(i, d, q);
          }
        }
      }
    }
  }

  /** The loop comes to test i. */
  ghost predicate Reached(n: int, i: int) {
    i >= 3 && i % 2 == 1 && Sieved(n, i) && (i == 3 || (i - 2) * (i - 2) <= n)
  }

  /** The square of a divisor to be tried leaves 32 bits exactly for the primes from 46339^2 on. */
  lemma SquareOverflowsExactlyWhen(n: int)
    requires 3 <= n < 0x8000_0000
    ensures (exists i: int :: Reached(n, i) && i * i >= 0x8000_0000) <==> Prime(n) && n >= 46339 * 46339
  {
    hide Multiple;
    if i: int :| Reached(n, i) && i * i >= 0x8000_0000 {
      SievedIsPrime(n, i);
      if i < 46341 {
        MulMono(i, 46340, i);
        MulMono(i, 46340, 46340);
      } else {
        MulMono(46339, i - 2, 46339);
        MulMono(46339, i - 2, i - 2);
      }
    }
    if Prime(n) && n >= 46339 * 46339 {
      assert Reached(n, 46341);
    }
  }

  /** Exact from 3 on; below, 2 is taken for composite, 1 and the negative odd numbers for prime. */
  method IsPrime(n: int) returns (r: bool)
    ensures r <==> n % 2 != 0 && (n < 2 || Prime(n))
    ensures n >= 3 ==> (r <==> Prime(n))
  {
    hide Multiple;
    MultipleRemainder(n, 2);
    if n % 2 == 0 {
      return false;
    }
    var i := 3;
    while i * i <= n
      invariant Reached(n, i)
      decreases n - i
    {
      MulMono(3, i, i);
      MultipleRemainder(n, i);
      if n % i == 0 {
        return false;
      }
      SieveTwo(n, i);
      i := i + 2;
    }
    if n >= 2 {
      SievedIsPrime(n, i);
    }
    return true;
  }

  function Factorial(n: nat): int {
    if n == 0 then 1 else n * Factorial(n - 1)
  }

  lemma {:induction false} FactorialMultiple(n: nat, d: int)
    requires 1 <= d <= n
    ensures Multiple(Factorial(n), d) && Factorial(n) >= 1
  {
    if n == d {
      MultipleOf(Factorial(n - 1), d);
      if n > 1 {
        FactorialMultiple(n - 1, 1);
        MulMono(1, Factorial(n - 1), n);
      }
    } else {
      FactorialMultiple(n - 1, d);
      MultipleTimes(Factorial(n - 1), d, n);
      MulMono(1, Factorial(n - 1), n);
    }
  }

  /** There is always a prime further on. */
  lemma PrimeAbove(n: int) returns (p: int)
    requires n >= 1
    ensures Prime(p) && p > n
  {
    FactorialMultiple(n, 1);
    p := PrimeDivisor(Factorial(n) + 1);
    if p <= n {
      FactorialMultiple(n, p);
      MultipleSum(Factorial(n) + 1, Factorial(n), p);
      SmallNotMultiple(1, p);
    }
  }

  ghost predicate IsNextPrime(n: int, p: int) {
    Prime(p) && p > n && forall m: int :: n < m < p ==> !Prime(m)
  }

  /** Numbers the search passes over: the even ones, and the composite ones it tells apart. */
  ghost predicate Skipped(m: int) {
    m % 2 == 0 || (m >= 2 && !Prime(m))
  }

  /** The search ends, and at the next prime exactly when it starts from 2 or above. */
  method NextPrime(n: int) returns (p: int)
    ensures IsNextPrime(n, p) <==> n >= 2
    ensures p > n
  {
    hide Multiple;
    ghost var bound := PrimeAbove(if n < 2 then 2 else n);
    TwoIsPrime();
    PrimesAreOdd(bound);
    p := n + 1;
    var found := IsPrime(p);
    while !found
      invariant n < p <= bound && (found <==> p % 2 != 0 && (p < 2 || Prime(p)))
      invariant forall m: int :: n < m < p ==> Skipped(m)
      decreases bound - p
    {
      assert Skipped(p);
      p := p + 1;
      found := IsPrime(p);
    }
    if n < 2 {
      assert n < 1 ==> !Skipped(1);
    }
    if n >= 2 {
      forall m: int | n < m < p
        ensures !Prime(m)
      {
        assert Skipped(m);
        if Prime(m) {
          PrimesAreOdd(m);
        }
      }
    }
  }

  lemma TwoIsPrime()
    ensures Prime(2)
  {
  }

  lemma PrimesAreOdd(p: int)
    requires Prime(p) && p > 2
    ensures p % 2 == 1
  {
    MultipleRemainder(p, 2);
  }
}
