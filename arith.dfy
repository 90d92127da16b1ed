/** Integer arithmetic underlying the number-theory routines: powers,
    Euclidean remainders, divisibility, greatest common divisors, Bezout
    coefficients and primality. The big integers of the source are
    modelled as mathematical integers. */
module Arith {

  /** a to the power d. */
  function Pow(a: nat, d: nat): nat
    decreases d
  {
    if d == 0 then 1 else a * Pow(a, d - 1)
  }

  /** d divides x (zero divides only zero). */
  predicate Divides(d: nat, x: int)
  {
    if d == 0 then x == 0 else x % d == 0
  }

  /** x is a prime number. */
  predicate Prime(x: nat)
  {
    x >= 2 && forall d :: 1 < d < x ==> x % d != 0
  }

  // ---------------------------------------------------------------------
  // Ring identities and monotonicity of products

  lemma MulAtLeast(n: int, t: int)
    requires n >= 0 && t >= 1
    ensures n * t >= n
  {
    assert n * t == n + n * (t - 1);
  }

  lemma MulAssoc(x: int, y: int, z: int)
    ensures (x * y) * z == x * (y * z)
  {
  }

  lemma MulComm(x: int, y: int)
    ensures x * y == y * x
  {
  }

  lemma Distribute(a: int, b: int, c: int)
    ensures a * (b + c) == a * b + a * c && (b + c) * a == b * a + c * a
  {
  }

  lemma Rearrange(c: int, x: int, p: int)
    ensures c * (x * p) == x * (c * p)
  {
  }

  lemma NegateProduct(x: int, y: int)
    ensures x * (-y) == -(x * y)
  {
  }

  lemma MulMonotone(a: nat, b: nat, c: nat, d: nat)
    requires a <= b && c <= d
    ensures a * c <= b * d
  {
    assert a * c <= b * c;
    assert b * c <= b * d;
  }

  /** Subtracting q times one Bezout combination from another. */
  lemma StepCombination(a: int, n: int, t: int, t': int, s: int, s': int, q: int)
    ensures (t - q * t') * a + (s - q * s') * n == (t * a + s * n) - q * (t' * a + s' * n)
  {
  }

  /** The weighted sum that bounds Euclid's coefficients, before and after one step. */
  lemma StepWeight(r: int, r': int, q: int, rem: int, x: int, y: int)
    requires r == q * r' + rem
    ensures r' * (x + q * y) + rem * y == r * y + r' * x
  {
  }

  // ---------------------------------------------------------------------
  // Euclidean division

  /** Quotient and remainder are the unique pair with 0 <= r < n. */
  lemma DivModUnique(x: int, n: int, q: int, r: int)
    requires n > 0 && 0 <= r < n && x == n * q + r
    ensures x / n == q && x % n == r
  {
    var q0, r0 := x / n, x % n;
    assert x == n * q0 + r0;
    if q0 > q {
      MulAtLeast(n, q0 - q);
      assert false;
    } else if q0 < q {
      MulAtLeast(n, q - q0);
      assert false;
    }
  }

  /** An exact multiple divides back. */
  lemma ExactDiv(x: int, n: int, k: int)
    requires n > 0 && x == n * k
    ensures x / n == k && x % n == 0
  {
    DivModUnique(x, n, k, 0);
  }

  lemma ModAddMultiple(x: int, n: int, k: int)
    requires n > 0
    ensures (x + n * k) % n == x % n
  {
    var q, r := x / n, x % n;
    assert x + n * k == n * (q + k) + r;
    DivModUnique(x + n * k, n, q + k, r);
  }

  lemma ModOfMod(x: int, n: int)
    requires n > 0
    ensures (x % n) % n == x % n
  {
    DivModUnique(x % n, n, 0, x % n);
  }

  lemma ModSmall(x: int, n: int)
    requires n > 0 && 0 <= x < n
    ensures x % n == x
  {
    DivModUnique(x, n, 0, x);
  }

  lemma ModMultiple(n: int, k: int)
    requires n > 0
    ensures (n * k) % n == 0
  {
    ModAddMultiple(0, n, k);
  }

  lemma ModMulLeft(x: int, y: int, n: int)
    requires n > 0
    ensures (x * y) % n == ((x % n) * y) % n
  {
    var q := x / n;
    assert x == n * q + x % n;
    assert x * y == (x % n) * y + n * (q * y);
    ModAddMultiple((x % n) * y, n, q * y);
  }

  lemma ModMul(x: int, y: int, n: int)
    requires n > 0
    ensures (x * y) % n == ((x % n) * (y % n)) % n
  {
    ModMulLeft(x, y, n);
    ModMulLeft(y, x % n, n);
  }

  lemma ModSub(x: int, y: int, n: int)
    requires n > 0
    ensures (x - y) % n == ((x % n) - (y % n)) % n
  {
    var q, p := x / n, y / n;
    assert x - y == (x % n) - (y % n) + n * (q - p);
    ModAddMultiple((x % n) - (y % n), n, q - p);
  }

  /** Congruent numbers leave the same remainder. */
  lemma CongruentMod(x: int, y: int, n: int)
    requires n > 0 && (x - y) % n == 0
    ensures x % n == y % n
  {
    var k := (x - y) / n;
    assert x == y + n * k;
    ModAddMultiple(y, n, k);
  }

  lemma SameModCongruent(x: int, y: int, n: int)
    requires n > 0 && x % n == y % n
    ensures (x - y) % n == 0
  {
    ModSub(x, y, n);
  }

  // ---------------------------------------------------------------------
  // Powers

  lemma {:induction false} PowAdd(a: nat, i: nat, j: nat)
    ensures Pow(a, i + j) == Pow(a, i) * Pow(a, j)
    decreases i
  {
    if i > 0 {
      PowAdd(a, i - 1, j);
      assert Pow(a, i + j) == a * Pow(a, i - 1 + j);
    }
  }

  lemma {:induction false} PowMul(a: nat, i: nat, j: nat)
    ensures Pow(a, i * j) == Pow(Pow(a, i), j)
    decreases j
  {
    if j > 0 {
      PowMul(a, i, j - 1);
      assert i * j == i + i * (j - 1);
      PowAdd(a, i, i * (j - 1));
    }
  }

  lemma {:induction false} PowOne(j: nat)
    ensures Pow(1, j) == 1
  {
    if j > 0 {
      PowOne(j - 1);
    }
  }

  lemma {:induction false} PowPositive(a: nat, j: nat)
    requires a > 0
    ensures Pow(a, j) > 0
  {
    if j > 0 {
      PowPositive(a, j - 1);
    }
  }

  lemma {:induction false} PowMonotone(a: nat, i: nat, j: nat)
    requires a > 0 && i <= j
    ensures Pow(a, i) <= Pow(a, j)
    decreases j
  {
    if i < j {
      PowMonotone(a, i, j - 1);
      PowPositive(a, j - 1);
      assert Pow(a, j) == a * Pow(a, j - 1);
      MulAtLeast(Pow(a, j - 1), a);
    }
  }

  /** Reducing the base modulo n does not change the power modulo n. */
  lemma {:induction false} PowModBase(a: nat, j: nat, n: nat)
    requires n > 0
    ensures Pow(a % n, j) % n == Pow(a, j) % n
  {
    if j > 0 {
      calc {
        Pow(a % n, j) % n;
        ((a % n) * Pow(a % n, j - 1)) % n;
        { ModMul(a % n, Pow(a % n, j - 1), n); ModOfMod(a, n); }
        ((a % n) * (Pow(a % n, j - 1) % n)) % n;
        { PowModBase(a, j - 1, n); }
        ((a % n) * (Pow(a, j - 1) % n)) % n;
        { ModMul(a, Pow(a, j - 1), n); }
        (a * Pow(a, j - 1)) % n;
      }
    }
  }

  /** A power of a number congruent to 1 is congruent to 1. */
  lemma PowOfOneMod(a: nat, j: nat, n: nat)
    requires n > 1 && a % n == 1
    ensures Pow(a, j) % n == 1
  {
    PowModBase(a, j, n);
    PowOne(j);
    ModSmall(1, n);
  }

  // ---------------------------------------------------------------------
  // Divisibility

  lemma DividesMultiple(d: nat, k: int)
    ensures Divides(d, d * k)
  {
    if d > 0 {
      ModMultiple(d, k);
    }
  }

  lemma DividesAdd(d: nat, x: int, y: int)
    requires Divides(d, x) && Divides(d, y)
    ensures Divides(d, x + y)
  {
    if d > 0 {
      assert x + y == d * (x / d + y / d);
      DividesMultiple(d, x / d + y / d);
    }
  }

  lemma DividesSub(d: nat, x: int, y: int)
    requires Divides(d, x) && Divides(d, y)
    ensures Divides(d, x - y)
  {
    if d > 0 {
      assert x - y == d * (x / d - y / d);
      DividesMultiple(d, x / d - y / d);
    }
  }

  lemma DividesMul(d: nat, x: int, k: int)
    requires Divides(d, x)
    ensures Divides(d, x * k)
  {
    if d > 0 {
      assert x * k == d * ((x / d) * k);
      DividesMultiple(d, (x / d) * k);
    }
  }

  /** A positive multiple of d is at least d. */
  lemma DivisorBound(d: nat, x: int)
    requires d > 0 && x > 0 && Divides(d, x)
    ensures d <= x
  {
    var k := x / d;
    assert x == d * k;
    if k <= 0 {
      assert false;
    }
    MulAtLeast(d, k);
  }

  // ---------------------------------------------------------------------
  // Greatest common divisor

  /** Euclid's algorithm on non-negative numbers. */
  function Gcd(a: nat, b: nat): nat
    decreases b
  {
    if b == 0 then a else Gcd(b, a % b)
  }

  /** Gcd(a, b) divides both a and b. */
  lemma {:induction false} GcdDivides(a: nat, b: nat)
    ensures Divides(Gcd(a, b), a) && Divides(Gcd(a, b), b)
    decreases b
  {
    if b == 0 {
      DividesMultiple(a, 1);
      DividesMultiple(a, 0);
    } else {
      var g := Gcd(b, a % b);
      GcdDivides(b, a % b);
      assert a == b * (a / b) + a % b;
      DividesMul(g, b, a / b);
      DividesAdd(g, b * (a / b), a % b);
    }
  }

  /** Every common divisor of a and b divides Gcd(a, b). */
  lemma {:induction false} GcdGreatest(a: nat, b: nat, c: nat)
    requires Divides(c, a) && Divides(c, b)
    ensures Divides(c, Gcd(a, b))
    decreases b
  {
    if b > 0 {
      assert a % b == a - b * (a / b);
      DividesMul(c, b, a / b);
      DividesSub(c, a, b * (a / b));
      GcdGreatest(b, a % b, c);
    }
  }

  lemma GcdSwap(a: nat, b: nat)
    ensures Gcd(a, b) == Gcd(b, a)
  {
    if a < b {
      ModSmall(a, b);
    } else if b < a {
      ModSmall(b, a);
    }
  }

  lemma GcdZero(a: nat, b: nat)
    ensures Gcd(a, b) == 0 <==> a == 0 && b == 0
  {
    GcdDivides(a, b);
  }

  /** Bezout coefficients: x * a + y * b == Gcd(a, b). */
  ghost function Bezout(a: nat, b: nat): (xy: (int, int))
    ensures xy.0 * a + xy.1 * b == Gcd(a, b)
    decreases b
  {
    if b == 0 then (1, 0)
    else
      var xy' := Bezout(b, a % b);
      var q := a / b;
      assert a % b == a - q * b;
      assert xy'.0 * b + xy'.1 * (a - q * b) == xy'.1 * a + (xy'.0 - q * xy'.1) * b;
      (xy'.1, xy'.0 - q * xy'.1)
  }

  // ---------------------------------------------------------------------
  // Primes

  /** A prime that does not divide a is coprime to it. */
  lemma PrimeCoprime(p: nat, a: nat)
    requires Prime(p) && !Divides(p, a)
    ensures Gcd(a, p) == 1
  {
    var g := Gcd(a, p);
    GcdDivides(a, p);
    DivisorBound(g, p);
    if g == p {
      assert false;
    }
    if g > 1 {
      assert false;
    }
  }

  /** Euclid's lemma: a prime dividing a product divides one of its factors. */
  lemma EuclidLemma(p: nat, a: nat, b: int)
    requires Prime(p) && Divides(p, a * b)
    ensures Divides(p, a) || Divides(p, b)
  {
    if !Divides(p, a) {
      PrimeCoprime(p, a);
      var xy := Bezout(a, p);
      var x, y := xy.0, xy.1;
      assert x * a + y * p == 1;
      assert b == x * (a * b) + p * (y * b) by {
        assert b == (x * a + y * p) * b;
      }
      DividesMul(p, a * b, x);
      DividesMultiple(p, y * b);
      DividesAdd(p, (a * b) * x, p * (y * b));
    }
  }

  /** Two distinct primes that both divide x: their product divides x. */
  lemma DistinctPrimesDivide(p: nat, q: nat, x: int)
    requires Prime(p) && Prime(q) && p != q
    requires Divides(p, x) && Divides(q, x)
    ensures Divides(p * q, x)
  {
    var k := x / p;
    assert x == p * k;
    EuclidLemma(q, p, k);
    if Divides(q, p) {
      DivisorBound(q, p);
      assert false;
    }
    var j := k / q;
    assert k == q * j;
    assert x == (p * q) * j;
    DividesMultiple(p * q, j);
  }
}
