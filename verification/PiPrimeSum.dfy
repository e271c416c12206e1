/** The inner loop of the digit program: the share of one prime in the series. */
module PiPrimeSum {
  import opened Arith
  import opened NumberTheory
  import opened PiArithmetic
  import opened PiTerms

  /** The series up to k over the common denominator (2k - 1)!!: sum of j * j! / (2j - 1)!!. */
  function Partial(k: nat): int {
    if k == 0 then 0 else Partial(k - 1) * (2 * k - 1) + k * Factorial(k)
  }

  /**
   s / av differs from the series up to k by a fraction without p in its denominator: with Q the
   power of p in (2k - 1)!!, the numerator of the difference is a multiple of av * Q.
   */
  ghost predicate Share(p: int, av: int, k: nat, s: int)
    requires p >= 2
  {
    Multiple(Odds(k) * s - av * Partial(k), av * Pow(p, OddsOrd(p, k)))
  }

  // ---------------------------------------------------------------------------------------
  // One term
  // ---------------------------------------------------------------------------------------

  /** The residue computed for a term: k * num / den * p^(vmax - v) modulo av. */
  lemma TermResidue(av: int, den: int, den': int, num: int, num': int, inv: int, k: int, pw: int, t: int)
    requires Multiple(inv * den - 1, av) && Multiple(den - den', av) && Multiple(num - num', av)
    requires Multiple(t - inv * num * k * pw, av)
    ensures Multiple(den' * t - num' * (k * pw), av)
  {
    hide Multiple;
    CongruentRefl(den', av);
    CongruentProducts(den', den', t, inv * num * k * pw, av);
    CongruentRefl(inv, av);
    CongruentSym(den, den', av);
    CongruentProducts(inv, inv, den', den, av);
    CongruentTrans(inv * den', inv * den, 1, av);
    CongruentRefl(k * pw, av);
    CongruentProducts(num, num', k * pw, k * pw, av);
    CongruentProducts(inv * den', 1, num * (k * pw), num' * (k * pw), av);
    TermRegroup(den', inv, num, k, pw);
    assert 1 * (num' * (k * pw)) == num' * (k * pw);
    CongruentTrans(den' * t, den' * (inv * num * k * pw), num' * (k * pw), av);
  }

  lemma TermRegroup(d: int, i: int, n: int, k: int, w: int)
    ensures d * (i * n * k * w) == i * d * (n * (k * w))
  {
    assert i * n * k * w == i * (n * (k * w));
    assert d * (i * (n * (k * w))) == i * d * (n * (k * w));
  }

  /** With v factors p left in the denominator, the residue matches the term k * k! / (2k - 1)!!. */
  lemma TermExact(av: int, q: int, r: int, pw: int, den': int, num': int, k: int, t: int)
    requires Multiple(den' * t - num' * (k * pw), av) && q * pw == av * r
    ensures Multiple(q * den' * t - av * (k * (r * num')), av * q)
  {
    hide Multiple;
    MultipleScaled(den' * t - num' * (k * pw), av, q);
    assert q * (den' * t - num' * (k * pw)) == q * den' * t - q * pw * (k * num') by {
      Distribute(q, den' * t, num' * (k * pw));
      assert q * (den' * t) == q * den' * t;
      assert q * (num' * (k * pw)) == q * pw * (k * num');
    }
    assert av * r * (k * num') == av * (k * (r * num'));
    assert q * av == av * q;
  }

  lemma Distribute(q: int, x: int, y: int)
    ensures q * (x - y) == q * x - q * y
  {
  }

  /** With none left the term is integral at p, and nothing needs to be added. */
  lemma TermVanishes(av: int, q: int, r: int, w: int, num': int, k: int)
    requires r == q * w
    ensures Multiple(0 - av * (k * (r * num')), av * q)
  {
    MultipleOf(-(k * w * num'), av * q);
    assert av * (k * (q * w * num')) == k * w * num' * (av * q);
  }

  /** Adding the term, modulo av, carries the share to the next k. */
  lemma ShareStep(p: int, av: int, k: nat, s: int, t: int, s': int)
    requires Prime(p) && p >= 2 && k >= 1 && Share(p, av, k - 1, s)
    requires Multiple(Odds(k) * t - av * (k * Factorial(k)), av * Pow(p, OddsOrd(p, k)))
    requires s' == s + t || s' == s + t - av
    ensures Share(p, av, k, s')
  {
    hide Multiple, Prime, Pow, Ord, Free, Factorial;
    var c, d, q := 2 * k - 1, Odds(k - 1), Pow(p, OddsOrd(p, k - 1));
    var q' := Pow(p, OddsOrd(p, k));
    var f, m := Pow(p, Ord(p, c)), Free(p, c);
    FreeOrd(p, c);
    PowAdd(p, OddsOrd(p, k - 1), Ord(p, c));
    ShareOld(av, q, d * s - av * Partial(k - 1), f, m);
    OddsSplit(p, k);
    MultipleOf(OddsFree(p, k), av * q');
    MultipleSum(c * (d * s - av * Partial(k - 1)), Odds(k) * t - av * (k * Factorial(k)), av * q');
    var old' := c * (d * s - av * Partial(k - 1)) + (Odds(k) * t - av * (k * Factorial(k)));
    WholeTurn(Odds(k), q', OddsFree(p, k), av);
    MultipleSum(old', Odds(k) * av, av * q');
    NextShare(c, d, s, t, av, Partial(k - 1), k * Factorial(k));
  }

  lemma ShareOld(av: int, q: int, x: int, f: int, m: int)
    requires Multiple(x, av * q)
    ensures Multiple(f * m * x, av * (q * f))
  {
    hide Multiple;
    MultipleScaled(x, av * q, f);
    MultipleTimes(f * x, f * (av * q), m);
    assert m * (f * x) == f * m * x;
    assert f * (av * q) == av * (q * f);
  }

  lemma WholeTurn(d: int, q: int, free: int, av: int)
    requires d == q * free
    ensures Multiple(d * av, av * q)
  {
    MultipleOf(free, av * q);
    assert q * free * av == free * (av * q);
  }

  lemma NextShare(c: int, d: int, s: int, t: int, av: int, sum: int, kf: int)
    ensures c * (d * s - av * sum) + (d * c * t - av * kf) == d * c * (s + t) - av * (sum * c + kf)
    ensures d * c * (s + t) - d * c * av == d * c * (s + t - av)
  {
    var e := d * c;
    Distribute(c, d * s, av * sum);
    assert c * (d * s) == e * s;
    assert c * (av * sum) == av * (sum * c);
    assert e * (s + t) == e * s + e * t && e * (s + t - av) == e * (s + t) - e * av;
    assert av * (sum * c + kf) == av * (sum * c) + av * kf;
  }

  // ---------------------------------------------------------------------------------------
  // The bookkeeping of the loop
  // ---------------------------------------------------------------------------------------

  /**
   What the loop keeps after step k: num and den are k! and (2k - 1)!! modulo av without their
   factors p, v counts the factors den has lost beyond num, kq and kq2 know when the next
   multiple of p comes, and s is the share so far.
   */
  ghost predicate Kept(p: int, av: int, k: nat, num: int, den: int, v: int, kq: int, kq2: int, s: int)
    requires p >= 2
  {
    && 0 <= num && Multiple(num - FactorialFree(p, k), av)
    && 0 <= den && Multiple(den - OddsFree(p, k), av)
    && v == OddsOrd(p, k) - FactorialOrd(p, k)
    && kq == k % p + 1
    && 1 <= kq2 <= p + 1 && Multiple(kq2 - (2 * k + 1), p)
    && 0 <= s < av && Share(p, av, k, s)
  }

  lemma StartKept(p: int, av: int)
    requires p >= 2 && av > 0
    ensures Kept(p, av, 0, 1, 1, 0, 1, 1, 0)
  {
    CongruentRefl(1, av);
    CongruentRefl(1, p);
    DivUnique(0, p, 0, 0);
    ZeroMultiple(av * Pow(p, 0));
    assert Odds(0) * 0 - av * Partial(0) == 0;
  }

  lemma CounterFindsMultiples(p: int, k: int, kq: int)
    requires p >= 2 && k >= 1 && kq == (k - 1) % p + 1
    ensures kq >= p <==> k % p == 0
    ensures (if kq >= p then 0 else kq) + 1 == k % p + 1
  {
    var q := (k - 1) / p;
    assert k - 1 == q * p + (kq - 1);
    if kq >= p {
      assert (q + 1) * p == q * p + p;
      DivUnique(k, p, q + 1, 0);
    } else {
      DivUnique(k, p, q, kq);
    }
  }

  lemma OddCounterFindsMultiples(p: int, k: int, kq2: int)
    requires p >= 3 && k >= 1 && 1 <= kq2 <= p + 1 && Multiple(kq2 - (2 * (k - 1) + 1), p)
    ensures kq2 == p <==> (2 * k - 1) % p == 0
    ensures var next := (if kq2 >= p then kq2 - p else kq2) + 2;
      1 <= next <= p + 1 && Multiple(next - (2 * k + 1), p)
  {
    hide Multiple;
    var n := 2 * k - 1;
    MultipleRemainder(n, p);
    MultipleOf(1, p);
    assert 1 * p == p;
    MultipleSum(kq2 - n, 1 * p, p);
    if kq2 == p {
      MultipleSum(1 * p, kq2 - n, p);
    } else if n % p == 0 {
      MultipleSum(kq2 - n, n, p);
      if kq2 < p {
        SmallNotMultiple(kq2, p);
      } else {
        MultipleSum(kq2, 1 * p, p);
        SmallNotMultiple(1, p);
      }
    }
  }

  lemma ProductStep(x: int, y: int, t: int, av: int)
    requires av > 0 && Multiple(x - y, av)
    ensures Multiple(x * t % av - y * t, av)
  {
    hide Multiple;
    CongruentRefl(t, av);
    CongruentProducts(x, y, t, t, av);
    MultipleRemainder(x * t, av);
    CongruentSym(x * t, x * t % av, av);
    CongruentTrans(x * t % av, x * t, y * t, av);
  }

  /** den is coprime to av whenever its inverse is asked for. */
  lemma DenominatorInvertible(p: int, vmax: nat, k: nat, den: int)
    requires Prime(p) && vmax >= 1 && den >= 0 && Multiple(den - OddsFree(p, k), Pow(p, vmax))
    ensures den >= 1 && Coprime(den, Pow(p, vmax))
  {
    hide Multiple, Prime, Pow, OddsFree, Coprime;
    PrimeBound(p);
    OddsSplit(p, k);
    PowNext(p, vmax - 1);
    MultipleOf(Pow(p, vmax - 1), p);
    MultipleTrans(den - OddsFree(p, k), Pow(p, vmax), p);
    NotMultipleCongruent(p, den, OddsFree(p, k));
    ZeroMultiple(p);
    CoprimeToPower(p, vmax, den);
  }

  lemma NotMultipleCongruent(p: int, x: int, y: int)
    requires Multiple(x - y, p) && !Multiple(y, p)
    ensures !Multiple(x, p)
  {
    hide Multiple;
    if Multiple(x, p) {
      MultipleSum(x, x - y, p);
    }
  }

  /** The factors p out of t, t being a multiple of p. */
  method StripFactors(p: int, n: int) returns (t: int, count: nat)
    requires p >= 2 && n >= 1 && n % p == 0
    ensures t == Free(p, n) && count == Ord(p, n)
  {
    t, count := n / p, 1;
    DivideOut(n, p, t);
    while t % p == 0
      invariant 1 <= t && Free(p, t) == Free(p, n) && Ord(p, t) + count == Ord(p, n)
      decreases t
    {
      DivideOut(t, p, t / p);
      t, count := t / p, count + 1;
    }
  }

  /** What a term contributes, all factors reduced modulo av as they come. */
  method Term(p: int, vmax: nat, av: int, num: int, den: int, k: int, v: int) returns (t: int)
    requires Prime(p) && av == Pow(p, vmax) && 1 <= av < 0x8000_0000 && 0 < v <= vmax && num >= 0 && k >= 1
    requires 1 <= den < 0x8000_0000 && Coprime(den, av)
    ensures 0 <= t < av
    ensures exists inv: int :: Multiple(inv * den - 1, av) && Multiple(t - inv * num * k * Pow(p, vmax - v), av)
  {
    hide Multiple, Prime, Coprime, Pow;
    var x := InvMod(den as int32, av as int32);
    var inv := x as int;
    PrimeBound(p);
    t := MulMod(inv, num, av);
    MultipleRemainder(inv * num, av);
    CongruentSym(inv * num, t, av);
    ProductStep(t, inv * num, k, av);
    t := MulMod(t, k, av);
    PowNext(p, 0);
    assert inv * num * k * 1 == inv * num * k;
    for i := v to vmax
      invariant 0 <= t < av && Multiple(t - inv * num * k * Pow(p, i - v), av)
    {
      ProductStep(t, inv * num * k * Pow(p, i - v), p, av);
      PowNext(p, i - v);
      assert inv * num * k * Pow(p, i - v) * p == inv * num * k * (p * Pow(p, i - v)) by {
        Reassociate(inv * num * k, Pow(p, i - v), p);
      }
      t := MulMod(t, p, av);
    }
  }

  /** The term of step k, v factors of p short, is worth k * k! / (2k - 1)!!. */
  lemma TermWorth(p: int, vmax: nat, av: int, k: nat, num: int, den: int, v: int, t: int)
    requires Prime(p) && p >= 2 && av == Pow(p, vmax) && k >= 1 && v == OddsOrd(p, k) - FactorialOrd(p, k)
    requires Multiple(num - FactorialFree(p, k), av) && Multiple(den - OddsFree(p, k), av)
    requires if v <= 0 then t == 0
             else v <= vmax && exists inv: int :: Multiple(inv * den - 1, av) && Multiple(t - inv * num * k * Pow(p, vmax - v), av)
    ensures Multiple(Odds(k) * t - av * (k * Factorial(k)), av * Pow(p, OddsOrd(p, k)))
  {
    hide Multiple, Prime, Pow, FactorialFree, OddsFree, Odds, Factorial, FactorialOrd, OddsOrd;
    var q, r := Pow(p, OddsOrd(p, k)), Pow(p, FactorialOrd(p, k));
    var num', den' := FactorialFree(p, k), OddsFree(p, k);
    OddsSplit(p, k);
    FactorialSplit(p, k);
    if v <= 0 {
      PowAdd(p, OddsOrd(p, k), -v);
      TermVanishes(av, q, r, Pow(p, -v), num', k);
      assert Odds(k) * 0 == 0;
    } else {
      var inv: int :| Multiple(inv * den - 1, av) && Multiple(t - inv * num * k * Pow(p, vmax - v), av);
      PowAdd(p, OddsOrd(p, k), vmax - v);
      PowAdd(p, vmax, FactorialOrd(p, k));
      TermResidue(av, den, den', num, num', inv, k, Pow(p, vmax - v), t);
      TermExact(av, q, r, Pow(p, vmax - v), den', num', k, t);
    }
  }

  /** A multiple of p loses its factors; any other number is already free of them. */
  lemma NothingToStrip(p: int, n: int)
    requires p >= 2 && n >= 1 && n % p != 0
    ensures Free(p, n) == n && Ord(p, n) == 0
  {
  }

  /** The factor k of k!. */
  method TakeFactor(p: int, av: int, k: int, num: int, v: int, kq: int) returns (num': int, v': int, kq': int)
    requires p >= 2 && av > 0 && k >= 1 && num >= 0 && kq == (k - 1) % p + 1
    ensures num' == num * Free(p, k) % av && v' == v - Ord(p, k) && kq' == k % p + 1
  {
    hide Free, Ord;
    var t := k;
    v', kq' := v, kq;
    CounterFindsMultiples(p, k, kq);
    if kq' >= p {
      var c;
      t, c := StripFactors(p, t);
      v' := v' - c;
      kq' := 0;
    } else {
      NothingToStrip(p, k);
    }
    FreeOrd(p, k);
    kq' := kq' + 1;
    num' := MulMod(num, t, av);
  }

  /** The factor 2k - 1 of (2k - 1)!!. */
  method TakeOddFactor(p: int, av: int, k: int, den: int, v: int, kq2: int) returns (den': int, v': int, kq2': int)
    requires p >= 3 && av > 0 && k >= 1 && den >= 0
    requires 1 <= kq2 <= p + 1 && Multiple(kq2 - (2 * (k - 1) + 1), p)
    ensures den' == den * Free(p, 2 * k - 1) % av && v' == v + Ord(p, 2 * k - 1)
    ensures 1 <= kq2' <= p + 1 && Multiple(kq2' - (2 * k + 1), p)
  {
    hide Free, Ord, Multiple;
    var t := 2 * k - 1;
    v', kq2' := v, kq2;
    OddCounterFindsMultiples(p, k, kq2);
    if kq2' >= p {
      if kq2' == p {
        var c;
        t, c := StripFactors(p, t);
        v' := v' + c;
      } else {
        NothingToStrip(p, t);
      }
      kq2' := kq2' - p;
    } else {
      NothingToStrip(p, t);
    }
    FreeOrd(p, 2 * k - 1);
    den' := MulMod(den, t, av);
    kq2' := kq2' + 2;
  }

  /**
   The share of the prime p in the series up to N. At every step num and den are k! and
   (2k - 1)!! modulo av = p^vmax without their factors p, v is the difference of the exponents
   and never exceeds vmax, and the inverse is only asked of a den coprime to av.
   */
  method PrimeShare(p: int, vmax: nat, av: int, N: nat) returns (s: int)
    requires Prime(p) && p >= 3 && vmax >= 1 && av == Pow(p, vmax) && 1 <= av < 0x8000_0000
    requires 2 * N <= Pow(p, vmax + 1)
    ensures 0 <= s < av && Share(p, av, N, s)
  {
    hide Prime, Multiple, Pow, Share, Free, Ord, Coprime;
    s := 0;
    var num, den, v, kq, kq2 := 1, 1, 0 as int, 1, 1;
    StartKept(p, av);
    for k := 1 to N + 1
      invariant Kept(p, av, k - 1, num, den, v, kq, kq2, s)
    {
      ProductStep(num, FactorialFree(p, k - 1), Free(p, k), av);
      ProductStep(den, OddsFree(p, k - 1), Free(p, 2 * k - 1), av);
      num, v, kq := TakeFactor(p, av, k, num, v, kq);
      den, v, kq2 := TakeOddFactor(p, av, k, den, v, kq2);
      OrdersDiffer(p, vmax, k);
      ghost var before, term := s, 0;
      if v > 0 {
        DenominatorInvertible(p, vmax, k, den);
        var t := Term(p, vmax, av, num, den, k, v);
        term := t;
        s := s + t;
        if s >= av {
          s := s - av;
        }
      }
      TermWorth(p, vmax, av, k, num, den, v, term);
      ShareStep(p, av, k, before, term, s);
    }
  }
}
