/** Powers of two and the few facts of nonlinear arithmetic the other modules share. */
module Arith {

  function Pow2(n: nat): (p: nat)
    ensures p >= 1
  {
    if n == 0 then 1 else 2 * Pow2(n - 1)
  }

  /** x >> s. */
  function ShiftRight(x: nat, s: nat): nat {
    QuotientNonnegative(x, Pow2(s));
    x / Pow2(s)
  }

  lemma QuotientNonnegative(x: nat, d: nat)
    requires d > 0
    ensures x / d >= 0
  {
  }

  lemma Doubling(k: nat)
    requires k > 0
    ensures Pow2(k) == 2 * Pow2(k - 1)
  {
  }

  lemma SmallPowers()
    ensures Pow2(0) == 1 && Pow2(1) == 2 && Pow2(2) == 4
  {
  }

  lemma {:induction false} Pow2Add(a: nat, b: nat)
    ensures Pow2(a + b) == Pow2(a) * Pow2(b)
  {
    if a == 0 {
    } else {
      Pow2Add(a - 1, b);
      assert Pow2(a + b) == 2 * (Pow2(a - 1) * Pow2(b)) == (2 * Pow2(a - 1)) * Pow2(b);
    }
  }

  lemma {:induction false} Pow2Mono(a: nat, b: nat)
    requires a <= b
    ensures Pow2(a) <= Pow2(b)
    decreases b - a
  {
    if a == b {
    } else {
      Pow2Mono(a + 1, b);
    }
  }

  lemma Pow2Strict(a: nat, b: nat)
    requires a < b
    ensures 2 * Pow2(a) <= Pow2(b)
  {
    Pow2Mono(a + 1, b);
  }

  lemma MulMono(a: int, b: int, c: int)
    requires a <= b && 0 <= c
    ensures a * c <= b * c
  {
  }

  /** The quotient and remainder of a nonnegative division are the only pair with these bounds. */
  lemma DivUnique(n: int, d: int, q: int, r: int)
    requires d > 0 && 0 <= r < d && n == q * d + r
    ensures q == n / d && r == n % d
  {
    var q', r' := n / d, n % d;
    assert (q - q') * d == r' - r;
    if q - q' >= 1 {
      MulMono(1, q - q', d);
    } else if q' - q >= 1 {
      assert (q' - q) * d == r - r';
      MulMono(1, q' - q, d);
    }
  }

  /** Bits shifted up by s, with fewer than s bits filled in below, keep their bracket. */
  lemma Pow2Bracket(a: nat, x: nat, b: nat, s: nat, r: nat)
    requires Pow2(a) <= x < Pow2(b) && r < Pow2(s)
    ensures Pow2(a + s) <= x * Pow2(s) + r < Pow2(b + s)
  {
    Pow2Add(a, s);
    Pow2Add(b, s);
    MulMono(Pow2(a), x, Pow2(s));
    MulMono(x + 1, Pow2(b), Pow2(s));
    assert (x + 1) * Pow2(s) == x * Pow2(s) + Pow2(s);
  }
}
