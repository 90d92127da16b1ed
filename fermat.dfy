/** Fermat's little theorem, proved through the binomial theorem, and the
    fact that 1 has only the square roots 1 and -1 modulo a prime. These
    are the two facts on which the Miller-Rabin test rests: a prime is
    never rejected by it. */
module Fermat {
  import opened Arith

  /** Binomial coefficient, by Pascal's rule. */
  function Binom(n: nat, k: nat): nat
    decreases n
  {
    if k == 0 then 1 else if n == 0 then 0 else Binom(n - 1, k - 1) + Binom(n - 1, k)
  }

  /** The partial binomial sum: the terms i < k of the expansion of (x + 1)^n. */
  function BinomSum(n: nat, x: nat, k: nat): int
    decreases k
  {
    if k == 0 then 0 else BinomSum(n, x, k - 1) + Binom(n, k - 1) * Pow(x, k - 1)
  }

  lemma {:induction false} BinomBeyond(n: nat, k: nat)
    requires k > n
    ensures Binom(n, k) == 0
    decreases n
  {
    if n > 0 {
      BinomBeyond(n - 1, k - 1);
      BinomBeyond(n - 1, k);
    }
  }

  lemma {:induction false} BinomAll(n: nat)
    ensures Binom(n, n) == 1
  {
    if n > 0 {
      BinomAll(n - 1);
      BinomBeyond(n - 1, n);
    }
  }

  /** Pascal's rule lifted to the partial sums. */
  lemma {:induction false} BinomSumStep(n: nat, x: nat, k: nat)
    ensures BinomSum(n + 1, x, k + 1) == BinomSum(n, x, k + 1) + x * BinomSum(n, x, k)
    decreases k
  {
    if k > 0 {
      BinomSumStep(n, x, k - 1);
      var c1, c2 := Binom(n, k - 1), Binom(n, k);
      var p, q := Pow(x, k - 1), Pow(x, k);
      var s0, s1 := BinomSum(n, x, k - 1), BinomSum(n, x, k);
      assert q == x * p;
      assert s1 == s0 + c1 * p;
      assert Binom(n + 1, k) == c1 + c2;
      assert BinomSum(n + 1, x, k) == s1 + x * s0;
      assert BinomSum(n + 1, x, k + 1) == s1 + x * s0 + (c1 + c2) * q;
      Distribute(q, c1, c2);
      Rearrange(c1, x, p);
      Distribute(x, s0, c1 * p);
      assert BinomSum(n, x, k + 1) == s1 + c2 * q;
    }
  }

  /** The binomial theorem for (x + 1)^n. */
  lemma {:induction false} BinomialTheorem(n: nat, x: nat)
    ensures Pow(x + 1, n) == BinomSum(n, x, n + 1)
  {
    if n > 0 {
      BinomialTheorem(n - 1, x);
      BinomSumStep(n - 1, x, n);
      BinomBeyond(n - 1, n);
      var sum := BinomSum(n - 1, x, n);
      assert BinomSum(n - 1, x, n + 1) == sum + Binom(n - 1, n) * Pow(x, n);
      assert Pow(x + 1, n) == (x + 1) * sum;
      Distribute(sum, x, 1);
    }
  }

  /** Absorption: (k + 1) * C(n + 1, k + 1) == (n + 1) * C(n, k). */
  lemma {:induction false} BinomAbsorb(n: nat, k: nat)
    ensures (k + 1) * Binom(n + 1, k + 1) == (n + 1) * Binom(n, k)
    decreases n
  {
    if n == 0 {
      if k > 0 {
        BinomBeyond(0, k);
        BinomBeyond(1, k + 1);
      }
    } else {
      BinomAbsorb(n - 1, k);
      var a, b := Binom(n, k), Binom(n, k + 1);
      assert Binom(n + 1, k + 1) == a + b;
      Distribute(k + 1, a, b);
      assert (k + 1) * b == n * Binom(n - 1, k);
      if k == 0 {
        assert Binom(n - 1, 0) == 1 && a == 1;
      } else {
        BinomAbsorb(n - 1, k - 1);
        var c, d := Binom(n - 1, k - 1), Binom(n - 1, k);
        assert a == c + d;
        assert k * a == n * c;
        Distribute(a, k, 1);
        Distribute(n, c, d);
        Distribute(a, n, 1);
      }
    }
  }

  /** A prime p divides C(p, k) for 0 < k < p. */
  lemma PrimeDividesBinom(p: nat, k: nat)
    requires Prime(p) && 0 < k < p
    ensures Divides(p, Binom(p, k))
  {
    BinomAbsorb(p - 1, k - 1);
    assert k * Binom(p, k) == p * Binom(p - 1, k - 1);
    DividesMultiple(p, Binom(p - 1, k - 1));
    EuclidLemma(p, k, Binom(p, k));
    if Divides(p, k) {
      DivisorBound(p, k);
      assert false;
    }
  }

  /** Modulo a prime p, the inner terms of the expansion of (x + 1)^p vanish. */
  lemma {:induction false} BinomSumModPrime(p: nat, x: nat, k: nat)
    requires Prime(p) && 1 <= k <= p
    ensures Divides(p, BinomSum(p, x, k) - 1)
    decreases k
  {
    if k == 1 {
      DividesMultiple(p, 0);
    } else {
      BinomSumModPrime(p, x, k - 1);
      PrimeDividesBinom(p, k - 1);
      DividesMul(p, Binom(p, k - 1), Pow(x, k - 1));
      DividesAdd(p, BinomSum(p, x, k - 1) - 1, Binom(p, k - 1) * Pow(x, k - 1));
    }
  }

  /** The "freshman's dream": (x + 1)^p == x^p + 1 modulo a prime p. */
  lemma FreshmansDream(p: nat, x: nat)
    requires Prime(p)
    ensures Divides(p, Pow(x + 1, p) - Pow(x, p) - 1)
  {
    BinomialTheorem(p, x);
    BinomSumModPrime(p, x, p);
    BinomAll(p);
    assert Pow(x + 1, p) - Pow(x, p) - 1 == BinomSum(p, x, p) - 1;
  }

  /** Fermat's little theorem, first form: a^p == a modulo a prime p. */
  lemma {:induction false} FermatPow(p: nat, a: nat)
    requires Prime(p)
    ensures Divides(p, Pow(a, p) - a)
    decreases a
  {
    if a == 0 {
      assert Pow(0, p) == 0 * Pow(0, p - 1);
      DividesMultiple(p, 0);
    } else {
      FermatPow(p, a - 1);
      FreshmansDream(p, a - 1);
      DividesAdd(p, Pow(a, p) - Pow(a - 1, p) - 1, Pow(a - 1, p) - (a - 1));
    }
  }

  /** Fermat's little theorem: a^(p-1) == 1 modulo a prime p that does not divide a. */
  lemma FermatLittle(p: nat, a: nat)
    requires Prime(p) && !Divides(p, a)
    ensures Pow(a, p - 1) % p == 1
  {
    FermatPow(p, a);
    assert Pow(a, p) == a * Pow(a, p - 1);
    assert Pow(a, p) - a == a * (Pow(a, p - 1) - 1);
    EuclidLemma(p, a, Pow(a, p - 1) - 1);
    CongruentMod(Pow(a, p - 1), 1, p);
    ModSmall(1, p);
  }

  /** Modulo a prime, the only square roots of 1 are 1 and p - 1. */
  lemma SquareRootOfOne(p: nat, y: nat)
    requires Prime(p) && y < p && (y * y) % p == 1
    ensures y == 1 || y == p - 1
  {
    if y == 0 {
      assert false;
    }
    ModSmall(1, p);
    SameModCongruent(y * y, 1, p);
    assert y * y - 1 == (y - 1) * (y + 1);
    EuclidLemma(p, y - 1, y + 1);
    if Divides(p, y - 1) && y != 1 {
      DivisorBound(p, y - 1);
      assert false;
    }
    if Divides(p, y + 1) && y != 1 {
      DivisorBound(p, y + 1);
    }
  }
}
