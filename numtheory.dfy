/** The number-theory routines of numtheory.c: Euclid's gcd, lcm, the
    extended-Euclid modular inverse, square-and-multiply modular
    exponentiation, the Miller-Rabin test and the prime search. Each C
    routine is a loop over local big integers and becomes a method proved
    against the arithmetic of module Arith. The random draws that the C
    code takes from the global generator (`mpz_urandomm`, `mpz_urandomb`)
    are parameters here. */
module NumTheory {
  import opened Arith
  import opened Fermat

  // ---------------------------------------------------------------------
  // gcd (numtheory.c:12-26)

  /** Iterative Euclid on copies of the inputs. */
  method ComputeGcd(a: nat, b: nat) returns (d: nat)
    ensures d == Gcd(a, b)
    ensures Divides(d, a) && Divides(d, b)
    ensures forall c: nat :: Divides(c, a) && Divides(c, b) ==> Divides(c, d)
    ensures b == 0 ==> d == a
  {
    var a2, b2 := a, b;
    while b2 != 0
      invariant Gcd(a2, b2) == Gcd(a, b)
      decreases b2
    {
      var temp := b2;
      b2 := a2 % b2;
      a2 := temp;
    }
    d := a2;
    GcdDivides(a, b);
    forall c: nat | Divides(c, a) && Divides(c, b)
      ensures Divides(c, d)
    {
      GcdGreatest(a, b, c);
    }
  }

  // ---------------------------------------------------------------------
  // lcm (numtheory.c:28-38)

  /** `mpz_cdiv_q`: the quotient rounded towards plus infinity. */
  function CeilDiv(x: int, y: int): (q: int)
    requires y > 0
    ensures q * y >= x && (q - 1) * y < x
  {
    var f := (-x) / y;
    assert -x == y * f + (-x) % y;
    -f
  }

  /** The least common multiple of a and b, not both zero. */
  function Lcm(a: nat, b: nat): nat
    requires a != 0 || b != 0
  {
    GcdZero(a, b);
    a * b / Gcd(a, b)
  }

  /** Lcm(a, b) == (a / Gcd(a, b)) * b: the division by the gcd is exact. */
  lemma LcmFactor(a: nat, b: nat)
    requires a != 0 || b != 0
    ensures Gcd(a, b) > 0 && a == Gcd(a, b) * (a / Gcd(a, b))
    ensures Lcm(a, b) == (a / Gcd(a, b)) * b
  {
    var g := Gcd(a, b);
    GcdZero(a, b);
    GcdDivides(a, b);
    var ka := a / g;
    assert a == g * ka;
    MulAssoc(g, ka, b);
    ExactDiv(a * b, g, ka * b);
  }

  /** Lcm(a, b) * Gcd(a, b) == a * b, Lcm(a, b) is a common multiple of a and
      b, and it is positive when a and b are. */
  lemma LcmProperties(a: nat, b: nat)
    requires a != 0 || b != 0
    ensures Lcm(a, b) * Gcd(a, b) == a * b
    ensures Divides(a, Lcm(a, b)) && Divides(b, Lcm(a, b))
    ensures a != 0 && b != 0 ==> Lcm(a, b) > 0
  {
    LcmFactor(a, b);
    LcmFactor(b, a);
    GcdSwap(a, b);
    var g := Gcd(a, b);
    var ka, kb := a / g, b / g;
    assert Lcm(a, b) == ka * b;
    assert Lcm(b, a) == kb * a;
    MulComm(a, b);
    assert Lcm(a, b) == Lcm(b, a);
    MulAssoc(ka, b, g);
    MulComm(b, g);
    MulAssoc(ka, g, b);
    MulComm(ka, g);
    assert Lcm(a, b) * g == a * b;
    MulComm(ka, b);
    MulComm(kb, a);
    DividesMultiple(b, ka);
    DividesMultiple(a, kb);
    if a != 0 && b != 0 {
      assert ka >= 1;
      MulAtLeast(b, ka);
    }
  }

  /** Rounding up an exact quotient changes nothing. */
  lemma CeilDivExact(x: int, g: int, k: int)
    requires g > 0 && x == g * k
    ensures CeilDiv(x, g) == k
  {
    ExactDiv(-x, g, -k);
  }

  /** `|a * b|` divided by the gcd, rounding up; the division is exact. */
  method ComputeLcm(a: nat, b: nat) returns (d: nat)
    requires a != 0 || b != 0
    ensures d == Lcm(a, b)
    ensures d * Gcd(a, b) == a * b
    ensures Divides(a, d) && Divides(b, d)
  {
    var term := a * b;
    var absTerm := if term < 0 then -term else term;
    var g := ComputeGcd(a, b);
    GcdZero(a, b);
    LcmProperties(a, b);
    MulComm(Lcm(a, b), g);
    CeilDivExact(absTerm, g, Lcm(a, b));
    d := CeilDiv(absTerm, g);
  }

  // ---------------------------------------------------------------------
  // mod_inverse (numtheory.c:40-74)

  function Abs(x: int): nat
  {
    if x < 0 then -x else x
  }

  /** t and t' never have the same strict sign. */
  predicate OppositeSigns(t: int, t': int)
  {
    (t <= 0 && t' >= 0) || (t >= 0 && t' <= 0)
  }

  lemma StepSigns(t: int, t': int, q: nat)
    requires OppositeSigns(t, t')
    ensures Abs(t - q * t') == Abs(t) + q * Abs(t')
    ensures OppositeSigns(t', t - q * t')
  {
    if t' >= 0 {
      assert q * t' >= 0;
    } else {
      assert q * t' <= 0;
    }
  }

  /** The invariant of the extended-Euclid loop: r and r' are combinations
      t * a + s * n and t' * a + s' * n, and the weights |t|, |t'| stay small. */
  predicate EuclidInvariant(a: nat, n: nat, r: nat, r': nat, t: int, t': int, s: int, s': int)
  {
    r == t * a + s * n && r' == t' * a + s' * n &&
    r * Abs(t') + r' * Abs(t) == n && OppositeSigns(t, t') &&
    (n > 0 ==> r > 0 && Abs(t) <= n)
  }

  /** The remainder step of Euclid's algorithm keeps the gcd. */
  lemma GcdStep(r: nat, r': nat, q: nat)
    requires r' > 0 && q == r / r'
    ensures r - q * r' == r % r' && Gcd(r', r - q * r') == Gcd(r, r')
  {
    MulComm(r', q);
  }

  /** One step (r, r') := (r', r % r') keeps the invariant. */
  lemma EuclidStep(a: nat, n: nat, r: nat, r': nat, t: int, t': int, s: int, s': int, q: nat)
    requires r' > 0 && q == r / r' && EuclidInvariant(a, n, r, r', t, t', s, s')
    ensures EuclidInvariant(a, n, r', r - q * r', t', t - q * t', s', s - q * s')
  {
    GcdStep(r, r', q);
    var rem := r - q * r';
    StepCombination(a, n, t, t', s, s', q);
    StepSigns(t, t', q);
    StepWeight(r, r', q, rem, Abs(t), Abs(t'));
    StepBound(r, r', Abs(t), Abs(t'), n);
  }

  /** From r * |t'| + r' * |t| == n with r >= 1, the weight |t'| is at most n. */
  lemma StepBound(r: nat, r': nat, x: nat, y: nat, n: nat)
    requires r * y + r' * x == n && (n > 0 ==> r > 0)
    ensures n > 0 ==> y <= n
  {
    if n > 0 {
      MulAtLeast(y, r);
    }
  }

  /** The loop invariant: (r, r') has the gcd of (n, a), and the Bezout
      relations of EuclidInvariant hold. */
  predicate EuclidState(a: nat, n: nat, r: nat, r': nat, t: int, t': int, s: int, s': int)
  {
    Gcd(r, r') == Gcd(n, a) && EuclidInvariant(a, n, r, r', t, t', s, s')
  }

  /** One pass of the loop: q = r / r', then (r, r') := (r', r - q * r') and
      (t, t') := (t', t - q * t'). */
  method EuclidPass(a: nat, n: nat, r: nat, r': nat, t: int, t': int, ghost s: int, ghost s': int)
    returns (r2: nat, r2': nat, t2: int, t2': int, ghost s2: int, ghost s2': int)
    requires r' > 0 && EuclidState(a, n, r, r', t, t', s, s')
    ensures r2 == r' && r2' == r % r' && t2 == t'
    ensures EuclidState(a, n, r2, r2', t2, t2', s2, s2')
  {
    var q: nat := r / r';
    GcdStep(r, r', q);
    EuclidStep(a, n, r, r', t, t', s, s', q);
    r2, r2' := r', r - q * r';
    t2, t2' := t', t - q * t';
    s2, s2' := s', s - q * s';
  }

  /** Extended Euclid; 0 is returned as the "no inverse" sentinel. */
  method ModInverse(a: nat, n: nat) returns (o: int)
    ensures Gcd(a, n) > 1 ==> o == 0
    ensures Gcd(a, n) == 1 && n > 1 ==> 0 < o < n && (a * o) % n == 1
    ensures n > 1 ==> (o != 0 <==> Gcd(a, n) == 1)
  {
    var r: nat, r': nat := n, a;
    var t: int, t': int := 0, 1;
    ghost var s: int, s': int := 1, 0;
    while r' != 0
      invariant EuclidState(a, n, r, r', t, t', s, s')
      decreases r'
    {
      r, r', t, t', s, s' := EuclidPass(a, n, r, r', t, t', s, s');
    }
    EuclidOutcome(a, n, r, t, t', s, s');
    if r > 1 {
      o := 0;
      return;
    }
    ghost var t0 := t;
    if t < 0 {
      t := t + n;
    }
    o := t;
    assert o == Normalize(t0, n);
  }

  /** When the loop stops, r is the gcd, and if it is 1 the normalised t is
      the inverse. */
  lemma EuclidOutcome(a: nat, n: nat, r: nat, t: int, t': int, s: int, s': int)
    requires Gcd(r, 0) == Gcd(n, a) && EuclidInvariant(a, n, r, 0, t, t', s, s')
    ensures r == Gcd(a, n) && (n > 0 ==> r > 0)
    ensures r == 1 && n > 1 ==> 0 < Normalize(t, n) < n && (a * Normalize(t, n)) % n == 1
  {
    GcdSwap(a, n);
    if r == 1 && n > 1 {
      InverseRange(a, n, t, s);
    }
  }

  /** A Bezout coefficient moved into [0, n). */
  function Normalize(t: int, n: int): int
  {
    if t < 0 then t + n else t
  }

  lemma BezoutCongruence(a: nat, n: int, t: int, s: int)
    requires n > 1 && 1 == t * a + s * n
    ensures (a * t) % n == 1
  {
    var k := -s;
    assert a * t == 1 + n * k by {
      MulComm(t, a);
      NegateProduct(n, s);
      MulComm(s, n);
    }
    ModAddMultiple(1, n, k);
    ModSmall(1, n);
  }

  /** a * t is a multiple of n when t is n, -n or 0. */
  lemma MultipleModZero(a: nat, n: int, t: int)
    requires n > 1 && (t == n || t == -n || t == 0)
    ensures (a * t) % n == 0
  {
    if t == n {
      assert a * t == n * a by {
        MulComm(a, n);
      }
      ModMultiple(n, a);
    } else if t == -n {
      var k: int := -(a as int);
      assert a * t == n * k by {
        NegateProduct(a, n);
        NegateProduct(n, a);
        MulComm(a, n);
      }
      ModMultiple(n, k);
    } else {
      ModSmall(0, n);
    }
  }

  /** No multiple of n is congruent to 1 modulo n. */
  lemma MultipleNotOne(a: nat, n: int, t: int)
    requires n > 1 && (a * t) % n == 1
    ensures t != n && t != -n && t != 0
  {
    if t == n || t == -n || t == 0 {
      MultipleModZero(a, n, t);
    }
  }

  lemma ShiftInverse(a: nat, n: int, t: int)
    requires n > 1 && (a * t) % n == 1
    ensures (a * (t + n)) % n == 1
  {
    assert a * (t + n) == a * t + n * a by {
      MulComm(a, n);
    }
    ModAddMultiple(a * t, n, a);
  }

  /** At the end of extended Euclid with remainder 1: a * t == 1 modulo n, and
      |t| <= n; so the normalised t is an inverse in (0, n). */
  lemma InverseRange(a: nat, n: int, t: int, s: int)
    requires n > 1 && 1 == t * a + s * n && Abs(t) <= n
    ensures 0 < Normalize(t, n) < n && (a * Normalize(t, n)) % n == 1
  {
    BezoutCongruence(a, n, t, s);
    MultipleNotOne(a, n, t);
    if t < 0 {
      ShiftInverse(a, n, t);
    }
  }

  // ---------------------------------------------------------------------
  // pow_mod (numtheory.c:101-118)

  /** The value pow_mod computes: a^d reduced modulo n, except that d == 0
      gives 1 unreduced. */
  function ModPow(a: nat, d: nat, n: nat): nat
    requires n > 0
  {
    if d == 0 then 1 else Pow(a, d) % n
  }

  /** One round of square-and-multiply keeps v * p^dd fixed modulo n. */
  lemma SquareMultiplyStep(v: nat, p: nat, dd: nat, n: nat)
    requires n > 0 && dd > 0
    ensures ((if dd % 2 == 1 then (v * p) % n else v) * Pow((p * p) % n, dd / 2)) % n
         == (v * Pow(p, dd)) % n
  {
    var h := dd / 2;
    var v' := if dd % 2 == 1 then (v * p) % n else v;
    PowMul(p, 2, h);
    assert Pow(p, 2) == p * p;
    PowModBase(p * p, h, n);
    ModMul(v', Pow((p * p) % n, h), n);
    ModMul(v', Pow(p * p, h), n);
    if dd % 2 == 1 {
      assert dd == 2 * h + 1;
      PowAdd(p, 2 * h, 1);
      assert Pow(p, dd) == Pow(p, 2 * h) * p;
      ModMulLeft(v * p, Pow(p * p, h), n);
      assert (v * p) * Pow(p * p, h) == v * Pow(p, dd);
    } else {
      assert dd == 2 * h;
    }
  }

  /** Right-to-left square-and-multiply. */
  method PowMod(a: nat, d: nat, n: nat) returns (o: nat)
    requires n > 0
    ensures o == ModPow(a, d, n)
    ensures d > 0 ==> o == Pow(a, d) % n && o < n
    ensures d == 0 ==> o == 1
  {
    var v: nat, p: nat, dd: nat := 1, a, d;
    while dd > 0
      invariant (v * Pow(p, dd)) % n == Pow(a, d) % n
      invariant d > 0 && dd == 0 ==> v < n
      invariant d == 0 ==> v == 1
      decreases dd
    {
      SquareMultiplyStep(v, p, dd, n);
      if dd % 2 == 1 {
        v := (v * p) % n;
      }
      p := (p * p) % n;
      dd := dd / 2;
    }
    o := v;
    if d > 0 {
      ModSmall(v, n);
    }
  }

  lemma PowModExample()
    ensures ModPow(4, 13, 497) == 445 && ModPow(7, 0, 1) == 1
  {
  }

  // ---------------------------------------------------------------------
  // is_prime (numtheory.c:120-165): the Miller-Rabin test

  /** The decomposition m == 2^s * r with r odd, for m > 0. */
  function TwoAdic(m: nat): (sr: (nat, nat))
    requires m > 0
    ensures m == Pow(2, sr.0) * sr.1 && sr.1 % 2 == 1
    decreases m
  {
    if m % 2 == 1 then (0, m)
    else
      var sr' := TwoAdic(m / 2);
      assert Pow(2, sr'.0 + 1) == 2 * Pow(2, sr'.0);
      MulAssoc(2, Pow(2, sr'.0), sr'.1);
      (sr'.0 + 1, sr'.1)
  }

  /** The witness sequence of one round: y_0 = a^r mod n, y_(j+1) = y_j^2 mod n. */
  function Trail(n: nat, a: nat, r: nat, j: nat): nat
    requires n > 0
  {
    if j == 0 then Pow(a, r) % n
    else
      var y := Trail(n, a, r, j - 1);
      (y * y) % n
  }

  /** How many of y_0, y_1, ... the code compares with n - 1: s of them,
      but one when s == 0 (n even). */
  function Checks(s: nat): nat
  {
    if s == 0 then 1 else s
  }

  /** Witness a does not expose n as composite: y_0 == 1, or n - 1 occurs
      among the compared values. */
  predicate PassesRound(n: nat, a: nat)
    requires n >= 2
  {
    var sr := TwoAdic(n - 1);
    Trail(n, a, sr.1, 0) == 1 || exists j :: 0 <= j < Checks(sr.0) && Trail(n, a, sr.1, j) == n - 1
  }

  /** Every round passes: the test with the witnesses draws[i] + 2 says "prime". */
  predicate Accepts(n: nat, draws: seq<nat>)
    requires n >= 2
  {
    forall i :: 0 <= i < |draws| ==> PassesRound(n, draws[i] + 2)
  }

  /** The draws come from `mpz_urandomm(a, state, n - 4)`: each lies in [0, n - 4). */
  predicate DrawsFit(n: nat, draws: seq<nat>)
  {
    forall i :: 0 <= i < |draws| ==> draws[i] + 4 < n
  }

  lemma {:induction false} TrailPow(n: nat, a: nat, r: nat, j: nat)
    requires n > 0
    ensures Trail(n, a, r, j) == Pow(a, Pow(2, j) * r) % n
  {
    if j > 0 {
      TrailPow(n, a, r, j - 1);
      var m := Pow(2, j - 1) * r;
      assert Pow(2, j) * r == m + m;
      PowAdd(a, m, m);
      ModMul(Pow(a, m), Pow(a, m), n);
    }
  }

  lemma {:induction false} OneStaysOne(n: nat, a: nat, r: nat, j: nat, t: nat)
    requires n > 1 && Trail(n, a, r, j) == 1 && j <= t
    ensures Trail(n, a, r, t) == 1
    decreases t
  {
    if t > j {
      OneStaysOne(n, a, r, j, t - 1);
      ModSmall(1, n);
    }
  }

  /** Once y_j == 1 with no n - 1 before it, the round fails. */
  lemma OneBeforeMinusOne(n: nat, a: nat, j: nat)
    requires n >= 3
    requires var sr := TwoAdic(n - 1);
      Trail(n, a, sr.1, 0) != 1 && Trail(n, a, sr.1, j) == 1 &&
      forall t :: 0 <= t < j ==> Trail(n, a, sr.1, t) != n - 1
    ensures !PassesRound(n, a)
  {
    var sr := TwoAdic(n - 1);
    forall t | j <= t
      ensures Trail(n, a, sr.1, t) != n - 1
    {
      OneStaysOne(n, a, sr.1, j, t);
    }
  }

  /** The first y_j equal to 1 follows a y_(j-1) that is not 1. */
  lemma {:induction false} FirstOne(n: nat, a: nat, r: nat, k: nat) returns (j: nat)
    requires n > 0 && Trail(n, a, r, 0) != 1 && Trail(n, a, r, k) == 1
    ensures 1 <= j <= k && Trail(n, a, r, j) == 1 && Trail(n, a, r, j - 1) != 1
    decreases k
  {
    if Trail(n, a, r, k - 1) != 1 {
      j := k;
    } else {
      j := FirstOne(n, a, r, k - 1);
    }
  }

  /** A prime is never rejected, whatever the witness (0 < a < n). */
  lemma PrimePassesRound(n: nat, a: nat)
    requires Prime(n) && 0 < a < n
    ensures PassesRound(n, a)
  {
    var sr := TwoAdic(n - 1);
    var s, r := sr.0, sr.1;
    if Trail(n, a, r, 0) != 1 {
      TrailPow(n, a, r, s);
      if Divides(n, a) {
        DivisorBound(n, a);
        assert false;
      }
      FermatLittle(n, a);
      var j := FirstOne(n, a, r, s);
      var y := Trail(n, a, r, j - 1);
      SquareRootOfOne(n, y);
      assert Trail(n, a, r, j - 1) == n - 1;
    }
  }

  /** A prime passes every round with in-range draws. */
  lemma PrimeAccepted(n: nat, draws: seq<nat>)
    requires Prime(n) && DrawsFit(n, draws)
    ensures Accepts(n, draws)
  {
    forall i | 0 <= i < |draws|
      ensures PassesRound(n, draws[i] + 2)
    {
      PrimePassesRound(n, draws[i] + 2);
    }
  }

  /** Miller-Rabin with `iters` rounds; round i uses witness draws[i] + 2. */
  method IsPrime(n: nat, iters: nat, draws: seq<nat>) returns (result: bool)
    requires n >= 2 && |draws| == iters && DrawsFit(n, draws)
    ensures result == Accepts(n, draws)
    ensures Prime(n) ==> result
  {
    if Prime(n) {
      PrimeAccepted(n, draws);
    }
    var n1 := n - 1;
    var r: nat, s: nat := n1, 0;
    while r % 2 == 0
      invariant r > 0 && TwoAdic(n1) == (s + TwoAdic(r).0, TwoAdic(r).1)
      decreases r
    {
      r := r / 2;
      s := s + 1;
    }
    assert (s, r) == TwoAdic(n1);
    var i := 0;
    while i < iters
      invariant 0 <= i <= iters
      invariant forall k :: 0 <= k < i ==> PassesRound(n, draws[k] + 2)
    {
      var a := draws[i] + 2;
      var y := PowMod(a, r, n);
      if y != 1 && y <= n1 {
        var j := 1;
        while j <= s - 1 && y != n1
          invariant 1 <= j && (s >= 1 ==> j <= s) && (s == 0 ==> j == 1)
          invariant y == Trail(n, a, r, j - 1)
          invariant forall t :: 0 <= t < j - 1 ==> Trail(n, a, r, t) != n1
          invariant forall t :: 0 <= t < j ==> Trail(n, a, r, t) != 1
          decreases s - j
        {
          y := PowMod(y, 2, n);
          assert Pow(Trail(n, a, r, j - 1), 2) == Trail(n, a, r, j - 1) * Trail(n, a, r, j - 1);
          if y == 1 {
            OneBeforeMinusOne(n, a, j);
            return false;
          }
          j := j + 1;
        }
        if y != n1 {
          assert !PassesRound(n, a);
          return false;
        }
      }
      i := i + 1;
    }
    return true;
  }

  // ---------------------------------------------------------------------
  // make_prime (numtheory.c:168-183)

  /** The random input of one prime search: the `mpz_urandomb(bits)` candidates
      and, for each, the witness draws its primality test would make. */
  datatype PrimeDraws = PrimeDraws(candidates: seq<nat>, witnesses: seq<seq<nat>>)

  /** The draws are the generator's possible outputs for a `bits`-bit search with
      `iters` rounds, and some candidate passes the test. */
  predicate SearchSucceeds(bits: nat, iters: nat, pd: PrimeDraws)
  {
    bits >= 1 && |pd.witnesses| == |pd.candidates| &&
    (forall i :: 0 <= i < |pd.candidates| ==>
      pd.candidates[i] < Pow(2, bits) && |pd.witnesses[i]| == iters &&
      DrawsFit(Pow(2, bits) + pd.candidates[i], pd.witnesses[i])) &&
    exists i :: 0 <= i < |pd.candidates| && Accepted(bits, pd, i)
  }

  /** Candidate i, with the top bit set, passes the test. */
  predicate Accepted(bits: nat, pd: PrimeDraws, i: nat)
    requires i < |pd.candidates| && i < |pd.witnesses|
  {
    Pow(2, bits) + pd.candidates[i] >= 2 &&
    Accepts(Pow(2, bits) + pd.candidates[i], pd.witnesses[i])
  }

  /** The index of the first accepted candidate at or after `from`. */
  function FirstAccepted(bits: nat, iters: nat, pd: PrimeDraws, from: nat): (i: nat)
    requires SearchSucceeds(bits, iters, pd)
    requires exists k :: from <= k < |pd.candidates| && Accepted(bits, pd, k)
    ensures from <= i < |pd.candidates| && Accepted(bits, pd, i)
    ensures forall k :: from <= k < i ==> !Accepted(bits, pd, k)
    decreases |pd.candidates| - from
  {
    if Accepted(bits, pd, from) then from else FirstAccepted(bits, iters, pd, from + 1)
  }

  /** The prime the search returns. */
  function FoundPrime(bits: nat, iters: nat, pd: PrimeDraws): nat
    requires SearchSucceeds(bits, iters, pd)
  {
    Pow(2, bits) + pd.candidates[FirstAccepted(bits, iters, pd, 0)]
  }

  /** Resample `bits`-bit candidates with the top bit 2^bits added until the
      test accepts one. */
  method MakePrime(bits: nat, iters: nat, pd: PrimeDraws) returns (p: nat)
    requires SearchSucceeds(bits, iters, pd)
    ensures p == FoundPrime(bits, iters, pd)
  {
    ghost var first := FirstAccepted(bits, iters, pd, 0);
    var i := 0;
    var potential: nat;
    while true
      invariant i <= first
      decreases first - i
    {
      var ok;
      potential, ok := TryCandidate(bits, iters, pd, i);
      if ok {
        break;
      }
      i := i + 1;
    }
    p := potential;
  }

  /** One pass of the search: candidate i with the top bit added, and the
      verdict of the test on it. */
  method TryCandidate(bits: nat, iters: nat, pd: PrimeDraws, i: nat) returns (potential: nat, ok: bool)
    requires SearchSucceeds(bits, iters, pd) && i < |pd.candidates|
    ensures potential == Pow(2, bits) + pd.candidates[i] && potential < 2 * Pow(2, bits)
    ensures ok == Accepted(bits, pd, i)
  {
    var mask := Pow(2, bits);
    PowMonotone(2, 1, bits);
    assert pd.candidates[i] < mask && |pd.witnesses[i]| == iters;
    potential := pd.candidates[i] + mask;
    ok := IsPrime(potential, iters, pd.witnesses[i]);
  }

  /** The prime found has bits + 1 bits: the top bit 2^bits is set. */
  lemma FoundPrimeRange(bits: nat, iters: nat, pd: PrimeDraws)
    requires SearchSucceeds(bits, iters, pd)
    ensures Pow(2, bits) <= FoundPrime(bits, iters, pd) < Pow(2, bits + 1)
    ensures FoundPrime(bits, iters, pd) >= 2
  {
    PowMonotone(2, 1, bits);
    assert Pow(2, bits + 1) == 2 * Pow(2, bits);
  }

  /** The number found passed the test with its own witness draws. */
  lemma FoundPrimeAccepted(bits: nat, iters: nat, pd: PrimeDraws)
    requires SearchSucceeds(bits, iters, pd)
    ensures FoundPrime(bits, iters, pd) >= 2
    ensures Accepts(FoundPrime(bits, iters, pd), pd.witnesses[FirstAccepted(bits, iters, pd, 0)])
  {
  }

  /** Every candidate the search passed over was composite: a prime always
      passes the test. */
  lemma RejectedNotPrime(bits: nat, iters: nat, pd: PrimeDraws)
    requires SearchSucceeds(bits, iters, pd)
    ensures forall k :: 0 <= k < FirstAccepted(bits, iters, pd, 0) ==> !Prime(Pow(2, bits) + pd.candidates[k])
  {
    var first := FirstAccepted(bits, iters, pd, 0);
    PowMonotone(2, 1, bits);
    forall k | 0 <= k < first
      ensures !Prime(Pow(2, bits) + pd.candidates[k])
    {
      var n := Pow(2, bits) + pd.candidates[k];
      if Prime(n) {
        PrimeAccepted(n, pd.witnesses[k]);
        assert Accepted(bits, pd, k);
      }
    }
  }
}
