/**
 The digit program as a whole: the shares of all primes add up, modulo one, to the partial sum
 of the series, shifted by the digits skipped.
 */
module PiDigits {
  import opened Arith
  import opened NumberTheory
  import opened PiArithmetic
  import opened PiTerms
  import opened PiPrimeSum

  /** fmod(x, 1.0) of a nonnegative x. */
  function Frac(x: real): real { x - x.Floor as real }

  lemma FracShift(x: real, y: real, z: int)
    requires x - y == z as real
    ensures Frac(x) == Frac(y)
  {
    var n := y.Floor;
    assert (n + z) as real == n as real + z as real;
    FloorUnique(x, n + z);
  }

  lemma FloorUnique(x: real, n: int)
    requires n as real <= x < n as real + 1.0
    ensures x.Floor == n
  {
  }

  /** The series: the sum of k * k! / (2k - 1)!! for k up to N. */
  function Series(N: nat): real {
    if N == 0 then 0.0
    else Series(N - 1) + (OddsPositive(N); (N * Factorial(N)) as real / Odds(N) as real)
  }

  lemma {:induction false} OddsPositive(N: nat)
    ensures Odds(N) >= 1
  {
    if N > 0 {
      OddsPositive(N - 1);
      MulMono(1, Odds(N - 1), 2 * N - 1);
    }
  }

  /** Over the common denominator. */
  lemma {:induction false} SeriesIsPartial(N: nat)
    ensures Odds(N) >= 1 && Series(N) == Partial(N) as real / Odds(N) as real
  {
    hide Odds, Partial, Factorial;
    OddsPositive(N);
    if N == 0 {
      StartPartial();
    } else {
      OddsPositive(N - 1);
      SeriesIsPartial(N - 1);
      PartialNext(N);
      CommonDenominator(Partial(N - 1), Odds(N - 1), 2 * N - 1, N * Factorial(N));
    }
  }

  lemma StartPartial()
    ensures Partial(0) == 0 && Odds(0) == 1
  {
  }

  lemma PartialNext(k: nat)
    requires k >= 1
    ensures Partial(k) == Partial(k - 1) * (2 * k - 1) + k * Factorial(k) && Odds(k) == Odds(k - 1) * (2 * k - 1)
  {
  }

  lemma CommonDenominator(x: int, d: int, c: int, y: int)
    requires d >= 1 && c >= 1 && d * c >= 1
    ensures x as real / d as real + y as real / (d * c) as real == (x * c + y) as real / (d * c) as real
  {
    FractionScale(x, d, c);
    FractionSum((x * c) as real, y as real, (d * c) as real);
  }

  lemma FractionScale(x: int, d: int, c: int)
    requires d >= 1 && c >= 1 && d * c >= 1
    ensures x as real / d as real == (x * c) as real / (d * c) as real
  {
    var r := x as real / d as real;
    assert r * d as real == x as real;
    assert (x * c) as real == x as real * c as real;
    assert (d * c) as real == d as real * c as real;
    assert r * (d as real * c as real) == x as real * c as real;
    QuotientUnique(r, (d * c) as real, (x * c) as real);
  }

  lemma QuotientUnique(r: real, d: real, x: real)
    requires d > 0.0 && r * d == x
    ensures r == x / d
  {
  }

  lemma FractionSum(x: real, y: real, d: real)
    requires d > 0.0
    ensures x / d + y / d == (x + y) / d
  {
  }

  // ---------------------------------------------------------------------------------------
  // What the series leaves out
  // ---------------------------------------------------------------------------------------

  /** Term k is at most k * (2k + 1) / 2^k. */
  lemma {:induction false} TermShrinks(k: nat)
    ensures Factorial(k) * Pow2(k) <= (2 * k + 1) * Odds(k)
  {
    if k > 0 {
      TermShrinks(k - 1);
      OddsPositive(k);
      var x, y := Factorial(k - 1) * Pow2(k - 1), (2 * k - 1) * Odds(k - 1);
      assert Factorial(k) * Pow2(k) == 2 * k * x by { Rearrange(k, Factorial(k - 1), Pow2(k - 1)); }
      MulMono(x, y, 2 * k);
      assert y == Odds(k);
      MulMono(2 * k, 2 * k + 1, Odds(k));
    }
  }

  lemma Rearrange(k: nat, f: int, p: int)
    ensures k * f * (2 * p) == 2 * k * (f * p)
  {
  }

  function TailPolynomial(N: nat): nat { 2 * N * N + 9 * N + 14 }

  /** At most this much is missing from the series up to N. */
  function TailBound(N: nat): real { TailPolynomial(N) as real / Pow2(N) as real }

  lemma TermBelowBound(k: nat)
    requires k >= 1
    ensures Odds(k) >= 1
    ensures 0.0 <= (k * Factorial(k)) as real / Odds(k) as real <= TailBound(k - 1) - TailBound(k)
  {
    hide Odds, Factorial, Pow2;
    OddsPositive(k);
    TermShrinks(k);
    FactorialMultiple(k, 1);
    Doubling(k);
    CrossBound(k, Factorial(k), Odds(k), Pow2(k));
    HalvedFraction(TailPolynomial(k - 1), Pow2(k - 1), Pow2(k));
    assert 2 * TailPolynomial(k - 1) - TailPolynomial(k) == k * (2 * k + 1);
    FractionDifference(2 * TailPolynomial(k - 1), TailPolynomial(k), Pow2(k));
  }

  lemma CrossBound(k: nat, f: int, d: int, p: nat)
    requires f >= 1 && d >= 1 && p >= 1 && f * p <= (2 * k + 1) * d
    ensures 0.0 <= (k * f) as real / d as real <= (k * (2 * k + 1)) as real / p as real
  {
    MulMono(0, k, f);
    MulMono(f * p, (2 * k + 1) * d, k);
    assert (k * f) * p == f * p * k && (k * (2 * k + 1)) * d == (2 * k + 1) * d * k;
    FractionLe(k * f, d, k * (2 * k + 1), p);
  }

  lemma FractionLe(a: int, d: int, b: int, p: int)
    requires a >= 0 && d >= 1 && p >= 1 && a * p <= b * d
    ensures 0.0 <= a as real / d as real <= b as real / p as real
  {
    var x, y := a as real / d as real, b as real / p as real;
    var r, q := d as real, p as real;
    assert x * r == a as real && y * q == b as real;
    assert (a * p) as real == a as real * q && (b * d) as real == b as real * r;
    assert x * r * q <= y * q * r;
    NonnegativeQuotient(a as real, r);
    if x > y {
      MultiplyLess(y, x, r, q);
    }
  }

  lemma NonnegativeQuotient(x: real, d: real)
    requires x >= 0.0 && d > 0.0
    ensures x / d >= 0.0
  {
  }

  lemma MultiplyLess(y: real, x: real, r: real, q: real)
    requires y < x && r > 0.0 && q > 0.0
    ensures y * q * r < x * r * q
  {
    var z := r * q;
    assert z > 0.0;
    assert y * z < x * z;
    assert y * q * r == y * z && x * r * q == x * z;
  }

  lemma HalvedFraction(x: int, h: int, p: int)
    requires h >= 1 && p == 2 * h
    ensures x as real / h as real == (2 * x) as real / p as real
  {
    FractionScale(x, h, 2);
  }

  lemma FractionDifference(x: int, y: int, p: int)
    requires p >= 1
    ensures x as real / p as real - y as real / p as real == (x - y) as real / p as real
  {
    FractionSum((x - y) as real, y as real, p as real);
  }

  /** However far the series is carried on, it gains at most the tail bound. */
  lemma {:induction false} SeriesTail(N: nat, M: nat)
    requires N <= M
    ensures 0.0 <= Series(M) - Series(N) <= TailBound(N) - TailBound(M)
    ensures Series(M) - Series(N) <= TailBound(N)
    decreases M - N
  {
    hide TailBound, Odds, Factorial;
    TailPositive(M);
    if N < M {
      SeriesTail(N, M - 1);
      TermBelowBound(M);
    }
  }

  lemma TailPositive(N: nat)
    ensures TailBound(N) >= 0.0
  {
    NonnegativeQuotient(TailPolynomial(N) as real, Pow2(N) as real);
  }

  // ---------------------------------------------------------------------------------------
  // Adding the share of one prime
  // ---------------------------------------------------------------------------------------

  /**
   The fraction u / l differs from w / d by a fraction whose denominator is free of the primes
   dealt with: rest, what remains of d, times the difference is an integer.
   */
  ghost predicate Agrees(d: int, w: int, u: int, l: int, rest: int) {
    Multiple(rest * (u * d - w * l), l * d)
  }

  lemma ShareAgrees(b: int, e: nat, vmax: nat, d1: nat, w: int, u: int, l: nat, rest: int, s: int)
    requires Prime(b) && d1 > 0 && l > 0 && !Multiple(d1, b) && !Multiple(l, b)
    requires var q, bv := Pow(b, e), Pow(b, vmax);
      var d := q * d1;
      && Agrees(d, w, u, l, q * rest)
      && Multiple(d * s - bv * w, bv * q)
    ensures var bv := Pow(b, vmax); Agrees(Pow(b, e) * d1, w, u * bv + s * l, l * bv, rest)
  {
    hide Multiple, Prime, Pow;
    var q, bv := Pow(b, e), Pow(b, vmax);
    var d, m := q * d1, l * d1;
    var x := u * bv + s * l;
    var z := Cofactor(d * s - bv * w, bv * q);
    var g := u * d + l * (q * z);
    NewDifference(bv, u, d, s, l, w, q, z);
    assert rest * (bv * g) == bv * (rest * g);
    // the old sum makes q * bv * (rest * g) a multiple of m, so rest * g itself is one
    OldPart(q, bv, rest, u, d, w, l, s, rest * g);
    PowAdd(b, e, vmax);
    assert l * d == q * m by { assert l * (q * d1) == q * (l * d1); }
    MultipleOf(q, m);
    MultipleTrans(q * bv * (rest * g), l * d, m);
    NotMultipleProduct(b, l, d1);
    MulMono(1, l, d1);
    CancelPower(b, e + vmax, m, rest * g);
    // and the share of b makes it a multiple of q
    NewPart(q, d1, rest, u, l, z);
    CoprimeProduct(b, e, m, rest * g);
    MultipleScaled(rest * g, q * m, bv);
    assert bv * (l * d) == l * bv * d;
  }

  lemma Cofactor(x: int, m: int) returns (q: int)
    requires Multiple(x, m)
    ensures q * m == x
  {
    q :| Product(q, m) == x;
  }

  lemma NewDifference(bv: int, u: int, d: int, s: int, l: int, w: int, q: int, z: int)
    requires d * s - bv * w == z * (bv * q)
    ensures (u * bv + s * l) * d - w * (l * bv) == bv * (u * d + l * (q * z))
  {
    assert (u * bv + s * l) * d == bv * (u * d) + l * (d * s);
    assert w * (l * bv) == l * (bv * w);
    Distribute(l, d * s, bv * w);
    assert l * (z * (bv * q)) == bv * (l * (q * z));
    assert bv * (u * d + l * (q * z)) == bv * (u * d) + bv * (l * (q * z));
  }

  lemma OldPart(q: int, bv: int, rest: int, u: int, d: int, w: int, l: int, s: int, y: int)
    requires Agrees(d, w, u, l, q * rest)
    requires bv * y == rest * ((u * bv + s * l) * d - w * (l * bv))
    ensures Multiple(q * bv * y, l * d)
  {
    hide Multiple;
    var old' := q * rest * (u * d - w * l);
    MultipleTimes(old', l * d, bv);
    MultipleOf(q * rest * s, l * d);
    MultipleSum(bv * old', q * rest * s * (l * d), l * d);
    OldAlgebra(q, bv, rest, u, d, w, l, s);
    assert q * bv * y == q * (bv * y);
  }

  lemma OldAlgebra(q: int, bv: int, rest: int, u: int, d: int, w: int, l: int, s: int)
    ensures q * (rest * ((u * bv + s * l) * d - w * (l * bv)))
         == bv * (q * rest * (u * d - w * l)) + q * rest * s * (l * d)
  {
    var a, c, e, f := u * d, w * l, s * (l * d), q * rest;
    DifferenceExpands(bv, u, d, s, w, l);
    Reassociate(q, rest, bv * a + e - bv * c);
    ProductExpands(f, bv, a, c, e);
    assert f * s * (l * d) == f * e;
  }

  lemma DifferenceExpands(bv: int, u: int, d: int, s: int, w: int, l: int)
    ensures (u * bv + s * l) * d - w * (l * bv) == bv * (u * d) + s * (l * d) - bv * (w * l)
  {
    assert (u * bv + s * l) * d == u * bv * d + s * l * d;
    assert w * (l * bv) == bv * (w * l);
  }

  lemma ProductExpands(f: int, bv: int, a: int, c: int, e: int)
    ensures f * (bv * a + e - bv * c) == bv * (f * (a - c)) + f * e
  {
    Distribute(f, bv * a + e, bv * c);
    assert f * (bv * a + e) == f * (bv * a) + f * e;
    Distribute(f, a, c);
    Distribute(bv, f * a, f * c);
    assert f * (bv * a) == bv * (f * a) && f * (bv * c) == bv * (f * c);
  }

  lemma NewPart(q: int, d1: int, rest: int, u: int, l: int, z: int)
    ensures Multiple(rest * (u * (q * d1) + l * (q * z)), q)
  {
    MultipleOf(rest * (u * d1 + l * z), q);
    assert u * (q * d1) + l * (q * z) == q * (u * d1 + l * z);
    assert rest * (q * (u * d1 + l * z)) == rest * (u * d1 + l * z) * q;
  }

  // ---------------------------------------------------------------------------------------
  // All primes
  // ---------------------------------------------------------------------------------------

  /**
   After the primes below a: u / l is the sum of their shares, done the part of the denominator
   they account for, and rest, which none of them divides, what is left of it.
   */
  ghost predicate Summed(N: nat, w: int, a: int, u: int, l: int, done: int, rest: int) {
    && done >= 1 && rest >= 1 && l >= 1 && Odds(N) == done * rest
    && Agrees(Odds(N), w, u, l, rest)
    && (forall p: int :: Prime(p) && p >= a ==> !Multiple(done, p) && !Multiple(l, p))
    && (forall p: int :: Prime(p) && 3 <= p < a ==> !Multiple(rest, p))
  }

  lemma StartSummed(N: nat, w: int)
    ensures Summed(N, w, 3, 0, 1, 1, Odds(N))
  {
    OddsPositive(N);
    MultipleOf(-w, Odds(N));
    assert Odds(N) * (0 * Odds(N) - w * 1) == -w * Odds(N) && 1 * Odds(N) == Odds(N);
    forall p: int | Prime(p) && p >= 3
      ensures !Multiple(1, p)
    {
      SmallNotMultiple(1, p);
    }
  }

  /** What is left of the denominator after b, all of whose factors go. */
  lemma TakePrime(N: nat, w: int, b: int, u: int, l: int, done: int, rest: int) returns (rest': int)
    requires Prime(b) && b >= 3 && Summed(N, w, b, u, l, done, rest)
    ensures var q := Pow(b, OddsOrd(b, N));
      && q >= 1 && rest' >= 1 && rest == q * rest' && OddsFree(b, N) == done * rest'
      && Odds(N) == done * q * rest' && !Multiple(rest', b)
  {
    hide Multiple, Prime, Pow, Odds, OddsFree, OddsOrd, Agrees;
    var e := OddsOrd(b, N);
    var q, free := Pow(b, e), OddsFree(b, N);
    OddsSplit(b, N);
    PowPositive(b, e);
    MultipleOf(free, q);
    PowerDividesFactor(b, e, done, rest);
    rest' := Cofactor(rest, q);
    assert q * (done * rest') == q * free by { assert done * (rest' * q) == q * (done * rest'); }
    CancelFactor(done * rest', free, q);
    PositiveFactor(rest', q);
    if Multiple(rest', b) {
      MultipleTimes(rest', b, done);
    }
    Reassociate(done, q, rest');
  }

  lemma PositiveFactor(x: int, q: int)
    requires q >= 1 && x * q >= 1
    ensures x >= 1
  {
    if x <= 0 {
      MulMono(x, 0, q);
    }
  }

  /** One more prime: its share is added, and the next prime is the one to be dealt with. */
  lemma SummedNext(N: nat, w: int, b: int, b': int, vmax: nat, u: int, l: int, done: int, rest: int, rest': int, s: int)
    requires Prime(b) && b >= 3 && IsNextPrime(b, b') && Summed(N, w, b, u, l, done, rest)
    requires var q := Pow(b, OddsOrd(b, N));
      && q >= 1 && rest' >= 1 && rest == q * rest' && OddsFree(b, N) == done * rest'
      && Odds(N) == done * q * rest' && !Multiple(rest', b)
    requires var bv := Pow(b, vmax); Multiple(Odds(N) * s - bv * w, bv * Pow(b, OddsOrd(b, N)))
    ensures var bv := Pow(b, vmax);
      Summed(N, w, b', u * bv + s * l, l * bv, done * Pow(b, OddsOrd(b, N)), rest')
  {
    hide Multiple, Pow, Odds, OddsFree, OddsOrd, Agrees;
    var e := OddsOrd(b, N);
    var q, bv := Pow(b, e), Pow(b, vmax);
    OddsSplit(b, N);
    ShareAgrees(b, e, vmax, OddsFree(b, N), w, u, l, rest', s);
    PowPositive(b, vmax);
    MulMono(1, l, bv);
    MulMono(1, done, q);
    forall p: int | Prime(p) && p >= b'
      ensures !Multiple(done * q, p) && !Multiple(l * bv, p)
    {
      OtherPrimePower(p, b, e);
      OtherPrimePower(p, b, vmax);
      NotMultipleProduct(p, done, q);
      NotMultipleProduct(p, l, bv);
    }
    forall p: int | Prime(p) && 3 <= p < b'
      ensures !Multiple(rest', p)
    {
      if p != b {
        assert p < b;
        if Multiple(rest', p) {
          MultipleTimes(rest', p, q);
        }
      }
    }
  }

  /** The primes of (2N - 1)!! are the odd ones below 2N. */
  lemma {:induction false} PrimesOfOdds(N: nat, p: int)
    requires Prime(p) && Multiple(Odds(N), p)
    ensures 3 <= p < 2 * N
  {
    hide Multiple;
    PrimeBound(p);
    if N == 0 {
      SmallNotMultiple(1, p);
    } else {
      OddsPositive(N - 1);
      if Multiple(Odds(N - 1), p) {
        PrimesOfOdds(N - 1, p);
      } else {
        PrimeDividesProduct(p, Odds(N - 1), 2 * N - 1);
        if p > 2 * N - 1 {
          SmallNotMultiple(2 * N - 1, p);
        }
        MultipleRemainder(2 * N - 1, p);
      }
    }
  }

  /** When all primes up to 2N are dealt with, the sum differs from the series by an integer. */
  lemma AllSummed(N: nat, w: int, a: int, u: int, l: int, done: int, rest: int)
    requires Summed(N, w, a, u, l, done, rest) && a >= 2 * N
    ensures Odds(N) >= 1 && Frac(u as real / l as real) == Frac(w as real / Odds(N) as real)
  {
    hide Multiple, Odds, Frac, Prime;
    OddsPositive(N);
    if rest > 1 {
      var p := PrimeDivisor(rest);
      MultipleTimes(rest, p, done);
      PrimesOfOdds(N, p);
      assert false;
    }
    var d := Odds(N);
    assert 1 * (u * d - w * l) == u * d - w * l;
    var z := Cofactor(u * d - w * l, l * d);
    FractionsDiffer(u, l, w, d, z);
    FracShift(u as real / l as real, w as real / d as real, z);
  }

  lemma FractionsDiffer(u: int, l: int, w: int, d: int, z: int)
    requires l >= 1 && d >= 1 && z * (l * d) == u * d - w * l
    ensures u as real / l as real - w as real / d as real == z as real
  {
    var x := w as real / d as real;
    assert x * d as real == w as real;
    assert (z * (l * d)) as real == z as real * l as real * d as real;
    assert (u * d) as real == u as real * d as real;
    assert (w * l) as real == w as real * l as real == x * l as real * d as real;
    var y := (x + z as real) * l as real;
    assert y * d as real == u as real * d as real;
    CancelReal(y, u as real, d as real);
    QuotientUnique(x + z as real, l as real, u as real);
  }

  lemma CancelReal(x: real, y: real, d: real)
    requires d > 0.0 && x * d == y * d
    ensures x == y
  {
    assert (x - y) * d == 0.0;
  }

  // ---------------------------------------------------------------------------------------
  // The program
  // ---------------------------------------------------------------------------------------

  /** (int)(log(x) / log(a)): the largest exponent of a that stays within x. */
  function Log(a: int, x: int): nat
    requires a >= 2
    decreases if x < 0 then 0 else x
  {
    if x < a then 0 else 1 + Log(a, x / a)
  }

  lemma {:induction false} LogBrackets(a: int, x: int)
    requires a >= 2 && x >= 1
    ensures Pow(a, Log(a, x)) <= x < Pow(a, Log(a, x) + 1)
    decreases x
  {
    hide Pow;
    PowNext(a, 0);
    if x >= a {
      var y := x / a;
      QuotientSmaller(a, x);
      LogBrackets(a, y);
      var e := Log(a, y);
      PowNext(a, e);
      PowNext(a, e + 1);
      BracketScaled(a, x, y, Pow(a, e), Pow(a, e + 1));
    }
  }

  lemma QuotientSmaller(a: int, x: int)
    requires a >= 2 && x >= a
    ensures 1 <= x / a < x && a * (x / a) <= x < a * (x / a) + a
  {
  }

  lemma BracketScaled(a: int, x: int, y: int, lo: int, hi: int)
    requires a >= 2 && a * y <= x < a * y + a && lo <= y < hi
    ensures a * lo <= x < a * hi
  {
    MulMono(lo, y, a);
    MulMono(y + 1, hi, a);
    assert (y + 1) * a == a * y + a;
  }

  /** Shifting the share by the digits skipped shifts what it is a share of. */
  lemma ShareShifted(p: int, av: int, N: nat, s: int, shift: int, t: int, s': int)
    requires Prime(p) && p >= 2 && av > 0 && Share(p, av, N, s) && Multiple(t - shift, av) && s' == s * t % av
    ensures Multiple(Odds(N) * s' - av * (shift * Partial(N)), av * Pow(p, OddsOrd(p, N)))
  {
    hide Multiple, Prime, Pow, Odds, Partial;
    var d, q := Odds(N), Pow(p, OddsOrd(p, N));
    OddsSplit(p, N);
    ProductStep(s, s, t, av) by { CongruentRefl(s, av); }
    CongruentRefl(s, av);
    CongruentProducts(s, s, t, shift, av);
    CongruentTrans(s', s * t, s * shift, av);
    MultipleScaled(s' - s * shift, av, q);
    MultipleTimes(q * (s' - s * shift), q * av, OddsFree(p, N));
    MultipleTimes(d * s - av * Partial(N), av * q, shift);
    assert q * av == av * q;
    MultipleSum(OddsFree(p, N) * (q * (s' - s * shift)), shift * (d * s - av * Partial(N)), av * q);
    ShiftAlgebra(q, OddsFree(p, N), s', s, shift, av, Partial(N));
  }

  lemma ShiftAlgebra(q: int, free: int, s': int, s: int, shift: int, av: int, sum: int)
    ensures free * (q * (s' - s * shift)) + shift * (q * free * s - av * sum) == q * free * s' - av * (shift * sum)
  {
    var d := q * free;
    assert free * (q * (s' - s * shift)) == d * (s' - s * shift) == d * s' - d * (s * shift);
    assert shift * (d * s - av * sum) == d * (s * shift) - av * (shift * sum) by {
      Distribute(shift, d * s, av * sum);
      assert shift * (d * s) == d * (s * shift);
      assert shift * (av * sum) == av * (shift * sum);
    }
  }

  /** sum + s / av, its integer part dropped, is the new sum of shares. */
  lemma AddFraction(sum: real, u: int, l: int, s: int, av: int)
    requires l >= 1 && av >= 1 && l * av >= 1 && sum == Frac(u as real / l as real)
    ensures Frac(sum + s as real / av as real) == Frac((u * av + s * l) as real / (l * av) as real)
  {
    hide Frac;
    FractionScale(u, l, av);
    FractionScale(s, av, l);
    assert av * l == l * av;
    FractionSum((u * av) as real, (s * l) as real, (l * av) as real);
    var x := u as real / l as real;
    FracIsShift(x);
    FracShift(sum + s as real / av as real, x + s as real / av as real, 0 - x.Floor);
  }

  lemma FracIsShift(x: real)
    ensures Frac(x) - x == (0 - x.Floor) as real
  {
  }

  lemma StartSum()
    ensures Frac(0 as real / 1 as real) == 0.0
  {
  }

  lemma ShiftedSeries(N: nat, shift: int)
    ensures Odds(N) >= 1 && (shift * Partial(N)) as real / Odds(N) as real == shift as real * Series(N)
  {
    hide Odds, Partial, Series;
    SeriesIsPartial(N);
    assert (shift * Partial(N)) as real == shift as real * Partial(N) as real;
    var x := Partial(N) as real / Odds(N) as real;
    assert x * Odds(N) as real == Partial(N) as real;
    QuotientUnique(shift as real * x, Odds(N) as real, shift as real * Partial(N) as real);
  }

  /** 10^k times the series up to N. */
  function Scaled(k: nat, N: nat): real { Pow(10, k) as real * Series(N) }

  /** N: (int)((n + 20) * log(10) / log(2)), the largest power of two within 10^(n + 20). */
  function Terms(n: nat): (N: nat)
    ensures Pow(2, N) <= Pow(10, n + 20) < Pow(2, N + 1)
  {
    PowPositive(10, n + 20);
    LogBrackets(2, Pow(10, n + 20));
    Log(2, Pow(10, n + 20))
  }

  lemma {:induction false} TermsBound(n: nat)
    ensures Pow(10, n) >= 1 && Log(2, Pow(10, n)) < 4 * n + 1
  {
    hide Pow, Log;
    PowPositive(10, n);
    LogBrackets(2, Pow(10, n));
    TenBelowSixteen(n);
    PowNext(2, 4 * n);
    PowPositive(2, 4 * n);
    if Log(2, Pow(10, n)) >= 4 * n + 1 {
      PowMono(2, 4 * n + 1, Log(2, Pow(10, n)));
    }
  }

  lemma {:induction false} TenBelowSixteen(n: nat)
    ensures Pow(10, n) <= Pow(2, 4 * n)
  {
    if n > 0 {
      TenBelowSixteen(n - 1);
      assert Pow(2, 4 * n) == 16 * Pow(2, 4 * (n - 1)) by {
        hide Pow;
        var m := 4 * (n - 1);
        PowNext(2, m);
        PowNext(2, m + 1);
        PowNext(2, m + 2);
        PowNext(2, m + 3);
      }
      PowPositive(10, n - 1);
    }
  }

  /** The digits before the point do not show in the nine after it. */
  lemma DigitsAfterPoint(x: real, y: real, sum: real)
    requires y == x * 1000000000.0 && sum == Frac(x)
    ensures (sum * 1000000000.0).Floor == y.Floor % 1000000000
    ensures 0 <= (sum * 1000000000.0).Floor < 1000000000
  {
    var m := x.Floor;
    var r := (sum * 1000000000.0).Floor;
    assert 0.0 <= sum < 1.0;
    assert y == (m * 1000000000) as real + sum * 1000000000.0;
    FloorUnique(y, m * 1000000000 + r);
    DivUnique(m * 1000000000 + r, 1000000000, m, r);
  }

  lemma TermsSmall(n: nat)
    ensures Terms(n) < 4 * (n + 20) + 1
  {
    hide Log, Pow;
    TermsBound(n + 20);
  }

  /** Nine digits more. */
  lemma NineMore(k: nat, N: nat)
    ensures Scaled(k + 9, N) == Scaled(k, N) * 1000000000.0
  {
    hide Series;
    PowAdd(10, k, 9);
    TenToNine();
    Regrouped(Pow(10, k), Pow(10, k + 9), Series(N));
  }

  lemma TenToNine()
    ensures Pow(10, 9) == 1000000000
  {
  }

  lemma Regrouped(p: int, q: int, x: real)
    requires q == p * 1000000000
    ensures q as real * x == p as real * x * 1000000000.0
  {
  }

  /**
   The nine digits from position n on, exact arithmetic standing in for the floating-point sum:
   the last nine before the point of 10^(n+8) times the series up to N.
   */
  method Digits(n: int) returns (r: int)
    requires 1 <= n <= 0x700_0000
    ensures 0 <= r < 1000000000
    ensures r == Scaled(n + 8, Terms(n)).Floor % 1000000000
  {
    hide Log, Pow, Frac, Scaled, Terms;
    TermsSmall(n);
    var N := Terms(n);
    var sum := Sum(n, N);
    NineMore(n - 1, N);
    DigitsAfterPoint(Scaled(n - 1, N), Scaled(n + 8, N), sum);
    return (sum * 1000000000.0).Floor;
  }

  /** The loop over the primes up to 2N. */
  method Sum(n: int, N: nat) returns (sum: real)
    requires n >= 1 && N < 0x2000_0000
    ensures sum == Frac(Scaled(n - 1, N))
  {
    hide Prime, Multiple, Pow, Odds, Partial, Summed, Frac, Share, Series, OddsFree, OddsOrd, IsNextPrime, Log;
    sum := 0.0;
    ghost var w := Pow(10, n - 1) * Partial(N);
    ghost var u, l, done, rest := 0, 1, 1, Odds(N);
    StartSummed(N, w);
    StartSum();
    ThreeIsPrime();
    var a := 3;
    while a <= 2 * N
      invariant a >= 3 && Prime(a) && l >= 1 && Summed(N, w, a, u, l, done, rest)
      invariant sum == Frac(u as real / l as real)
      decreases 2 * N - a
    {
      LogBrackets(a, 2 * N);
      var vmax := Log(a, 2 * N);
      PositiveLog(a, 2 * N);
      var av := 1;
      PowNext(a, 0);
      for i := 0 to vmax
        invariant av == Pow(a, i)
      {
        PowNext(a, i);
        av := av * a;
      }
      PowPositive(a, vmax);
      var s := PrimeShare(a, vmax, av, N);
      var t := PowMod(10, n - 1, av);
      PowerResidue(10, n - 1, av, t);
      ghost var shared := s;
      s := MulMod(s, t, av);
      ShareShifted(a, av, N, shared, Pow(10, n - 1), t, s);
      ghost var rest' := TakePrime(N, w, a, u, l, done, rest);
      var next := NextPrime(a);
      SummedNext(N, w, a, next, vmax, u, l, done, rest, rest', s);
      MulMono(1, l, av);
      AddFraction(sum, u, l, s, av);
      sum := Frac(sum + s as real / av as real);
      u, l, done, rest := u * av + s * l, l * av, done * Pow(a, OddsOrd(a, N)), rest';
      NextIsPrime(a, next);
      a := next;
    }
    AllSummed(N, w, a, u, l, done, rest);
    ShiftedSeries(N, Pow(10, n - 1));
    assert sum == Frac(w as real / Odds(N) as real);
    assert w as real / Odds(N) as real == Scaled(n - 1, N);
  }

  // ---------------------------------------------------------------------------------------
  // How much the truncated series is off
  // ---------------------------------------------------------------------------------------

  /** Once the nine digits are before the point no continuation of the series is further away than this. */
  function ShiftedError(n: nat): real {
    PowPositive(10, 12);
    (2 * TailPolynomial(Terms(n))) as real / Pow(10, 12) as real
  }

  lemma {:induction false} PowOfTwo(n: nat)
    ensures Pow(2, n) == Pow2(n)
  {
    if n > 0 {
      PowOfTwo(n - 1);
    }
  }

  /** 2^N is more than half of 10^(n + 20). */
  lemma EnoughBits(n: nat)
    requires n >= 1
    ensures Pow(10, n + 8) * Pow(10, 12) < 2 * Pow2(Terms(n)) && Pow(10, n + 8) >= 1 && Pow(10, 12) >= 1
  {
    hide Pow, Terms, Pow2;
    PowPositive(10, n + 8);
    PowPositive(10, 12);
    PowNext(2, Terms(n));
    PowOfTwo(Terms(n));
    PowAdd(10, n + 8, 12);
  }

  lemma ShiftedTail(n: nat, M: nat)
    requires n >= 1 && M >= Terms(n)
    ensures 0.0 <= Scaled(n + 8, M) - Scaled(n + 8, Terms(n)) <= ShiftedError(n)
  {
    hide Pow, Pow2, Terms, Series, TailPolynomial;
    var N, shift := Terms(n), Pow(10, n + 8);
    SeriesTail(N, M);
    EnoughBits(n);
    ShiftBound(shift, Pow(10, 12), Pow2(N), TailPolynomial(N));
    ScaleLe(shift as real, Series(M) - Series(N), TailBound(N));
    ScaleDifference(shift as real, Series(M), Series(N));
  }

  lemma ScaleDifference(s: real, x: real, y: real)
    ensures s * x - s * y == s * (x - y)
  {
  }

  lemma ScaleLe(s: real, x: real, y: real)
    requires s >= 0.0 && 0.0 <= x <= y
    ensures 0.0 <= s * x <= s * y
  {
  }

  lemma ShiftBound(shift: int, big: int, p: int, t: nat)
    requires shift >= 1 && big >= 1 && p >= 1 && shift * big < 2 * p
    ensures shift as real * (t as real / p as real) <= (2 * t) as real / big as real
  {
    MulMono(shift * big, 2 * p, t);
    assert (shift * t) * big == shift * big * t && 2 * t * p == 2 * p * t;
    MulMono(0, t, shift);
    FractionLe(shift * t, p, 2 * t, big);
    var y := t as real / p as real;
    assert y * p as real == t as real;
    assert (shift * t) as real == shift as real * t as real;
    QuotientUnique(shift as real * y, p as real, (shift * t) as real);
  }

  /**
   The digits printed are those of every longer partial sum, and so of its limit, unless the
   error could carry into them.
   */
  lemma DigitsStay(n: nat, M: nat)
    requires n >= 1 && M >= Terms(n)
    requires var x := Scaled(n + 8, Terms(n)); x + ShiftedError(n) < x.Floor as real + 1.0
    ensures Scaled(n + 8, M).Floor == Scaled(n + 8, Terms(n)).Floor
  {
    hide Pow, Scaled, ShiftedError, Terms;
    ShiftedTail(n, M);
    SameFloor(Scaled(n + 8, Terms(n)), Scaled(n + 8, M), ShiftedError(n));
  }

  lemma SameFloor(x: real, y: real, error: real)
    requires 0.0 <= y - x <= error && x + error < x.Floor as real + 1.0
    ensures y.Floor == x.Floor
  {
    FloorUnique(y, x.Floor);
  }
  lemma ThreeIsPrime()
    ensures Prime(3)
  {
    MultipleRemainder(3, 2);
  }

  lemma NextIsPrime(n: int, p: int)
    requires IsNextPrime(n, p)
    ensures Prime(p) && p > n
  {
  }

  lemma PositiveLog(a: int, x: int)
    requires a >= 2 && x >= a
    ensures Log(a, x) >= 1
  {
  }

  lemma PowerResidue(a: int, b: nat, m: int, t: int)
    requires m > 0 && t == if b == 0 then 1 else Pow(a, b) % m
    ensures Multiple(t - Pow(a, b), m) && t >= 0
  {
    hide Multiple, Pow;
    PowNext(a, 0);
    MultipleRemainder(Pow(a, b), m);
    if b == 0 {
      CongruentRefl(1, m);
    } else {
      CongruentSym(Pow(a, b), t, m);
    }
  }
}
