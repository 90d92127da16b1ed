/** The RSA engine of rsa.c: key derivation, the four raw primitives, and the
    correctness of decryption and signature checking, proved from Fermat's
    little theorem for distinct primes p and q. The random choices the C code
    makes (`random()`, and the generator behind `make_prime` and the search
    for e) are parameters. */
module Rsa {
  import opened Arith
  import opened Fermat
  import opened NumTheory

  // ---------------------------------------------------------------------
  // rsa_make_pub (rsa.c:12-39)

  /** The bit budgets of p and q: p gets between a quarter and three quarters
      of nbits, chosen by the draw rnd, and q gets the rest. */
  function SplitBits(nbits: nat, rnd: nat): (pq: (nat, nat))
    ensures nbits / 4 <= pq.0 <= (nbits * 3) / 4
    ensures pq.0 + pq.1 == nbits
    ensures pq.1 >= nbits - (nbits * 3) / 4
  {
    var low := nbits / 4;
    var high := (nbits * 3) / 4;
    var pBits := rnd % (1 + high - low) + low;
    (pBits, nbits - pBits)
  }

  /** Carmichael's function of n = p * q for distinct primes p, q: lcm(p - 1, q - 1); the same expression is used when p = q. */
  function Lambda(p: nat, q: nat): (l: nat)
    requires p >= 2 && q >= 2
    ensures l > 0 && Divides(p - 1, l) && Divides(q - 1, l)
  {
    LcmProperties(p - 1, q - 1);
    Lcm(p - 1, q - 1)
  }

  /** Everything key generation draws from the random generator. */
  datatype KeyDraws = KeyDraws(rnd: nat, pDraws: PrimeDraws, qDraws: PrimeDraws, eCandidates: seq<nat>)

  /** The prime drawn for p. */
  function PrimeP(nbits: nat, iters: nat, kd: KeyDraws): nat
    requires SearchSucceeds(SplitBits(nbits, kd.rnd).0, iters, kd.pDraws)
  {
    FoundPrime(SplitBits(nbits, kd.rnd).0, iters, kd.pDraws)
  }

  /** The prime drawn for q. */
  function PrimeQ(nbits: nat, iters: nat, kd: KeyDraws): nat
    requires SearchSucceeds(SplitBits(nbits, kd.rnd).1, iters, kd.qDraws)
  {
    FoundPrime(SplitBits(nbits, kd.rnd).1, iters, kd.qDraws)
  }

  /** Both prime searches succeed and some e candidate is coprime to lambda. */
  predicate KeyGenSucceeds(nbits: nat, iters: nat, kd: KeyDraws)
  {
    var (pBits, qBits) := SplitBits(nbits, kd.rnd);
    SearchSucceeds(pBits, iters, kd.pDraws) && SearchSucceeds(qBits, iters, kd.qDraws) &&
    (forall i :: 0 <= i < |kd.eCandidates| ==> kd.eCandidates[i] < Pow(2, nbits)) &&
    (FoundPrimeRange(pBits, iters, kd.pDraws);
     FoundPrimeRange(qBits, iters, kd.qDraws);
     exists i :: 0 <= i < |kd.eCandidates| &&
       Gcd(kd.eCandidates[i], Lambda(PrimeP(nbits, iters, kd), PrimeQ(nbits, iters, kd))) == 1)
  }

  /** The index of the first e candidate, at or after `from`, coprime to l. */
  function FirstCoprime(cands: seq<nat>, l: nat, from: nat): (i: nat)
    requires exists k :: from <= k < |cands| && Gcd(cands[k], l) == 1
    ensures from <= i < |cands| && Gcd(cands[i], l) == 1
    ensures forall k :: from <= k < i ==> Gcd(cands[k], l) != 1
    decreases |cands| - from
  {
    if Gcd(cands[from], l) == 1 then from else FirstCoprime(cands, l, from + 1)
  }

  /** Two primes whose bit budgets add to nbits, their product, and an
      nbits-bit exponent e coprime to lambda(n). */
  method MakePub(nbits: nat, iters: nat, kd: KeyDraws) returns (p: nat, q: nat, n: nat, e: nat)
    requires KeyGenSucceeds(nbits, iters, kd)
    ensures p == PrimeP(nbits, iters, kd) && q == PrimeQ(nbits, iters, kd)
    ensures n == p * q && n >= Pow(2, nbits)
    ensures e < Pow(2, nbits) && Gcd(e, Lambda(p, q)) == 1
    ensures e == kd.eCandidates[FirstCoprime(kd.eCandidates, Lambda(p, q), 0)]
  {
    var split := SplitBits(nbits, kd.rnd);
    var pBits, qBits := split.0, split.1;
    p := MakePrime(pBits, iters, kd.pDraws);
    q := MakePrime(qBits, iters, kd.qDraws);
    FoundPrimeRange(pBits, iters, kd.pDraws);
    FoundPrimeRange(qBits, iters, kd.qDraws);
    ProductBits(pBits, qBits, p, q);
    assert pBits + qBits == nbits;
    n := p * q;
    var lambda := ComputeLcm(p - 1, q - 1);
    assert lambda == Lambda(p, q);
    e := ChooseExponent(kd.eCandidates, lambda);
    assert e in kd.eCandidates;
  }

  /** A product of numbers of at least 2^a and 2^b is at least 2^(a + b). */
  lemma ProductBits(a: nat, b: nat, p: nat, q: nat)
    requires Pow(2, a) <= p && Pow(2, b) <= q
    ensures p * q >= Pow(2, a + b)
  {
    PowAdd(2, a, b);
    MulMonotone(Pow(2, a), p, Pow(2, b), q);
  }

  /** The loop of rsa_make_pub that draws e until gcd(e, lambda) == 1; the
      gcd starts at 0, so at least one draw is made. */
  method ChooseExponent(cands: seq<nat>, lambda: nat) returns (e: nat)
    requires exists k :: 0 <= k < |cands| && Gcd(cands[k], lambda) == 1
    ensures e == cands[FirstCoprime(cands, lambda, 0)]
    ensures Gcd(e, lambda) == 1
  {
    ghost var first := FirstCoprime(cands, lambda, 0);
    var eGcd := 0;
    var i := 0;
    e := 0;
    while eGcd != 1
      invariant i <= first + 1
      invariant eGcd != 1 ==> i <= first
      invariant eGcd == 1 ==> i == first + 1 && e == cands[first]
      decreases first + 1 - i
    {
      e := cands[i];
      eGcd := ComputeGcd(e, lambda);
      i := i + 1;
    }
  }

  // ---------------------------------------------------------------------
  // rsa_make_priv (rsa.c:58-74)

  /** d = e^-1 mod lambda(n), or the sentinel 0 when gcd(e, lambda) > 1. */
  method MakePriv(e: nat, p: nat, q: nat) returns (d: int)
    requires p >= 2 && q >= 2
    ensures Gcd(e, Lambda(p, q)) > 1 ==> d == 0
    ensures Gcd(e, Lambda(p, q)) == 1 && Lambda(p, q) > 1 ==>
      0 < d < Lambda(p, q) && (e * d) % Lambda(p, q) == 1
    ensures Lambda(p, q) > 1 ==> (d != 0 <==> Gcd(e, Lambda(p, q)) == 1)
  {
    var lambda := ComputeLcm(p - 1, q - 1);
    d := ModInverse(e, lambda);
  }

  // ---------------------------------------------------------------------
  // The raw primitives (rsa.c:88-92, 122-126, 148-165)

  /** c = m^e mod n. */
  method Encrypt(m: nat, e: nat, n: nat) returns (c: nat)
    requires n > 0
    ensures c == ModPow(m, e, n)
  {
    c := PowMod(m, e, n);
  }

  /** m = c^d mod n. */
  method Decrypt(c: nat, d: nat, n: nat) returns (m: nat)
    requires n > 0
    ensures m == ModPow(c, d, n)
  {
    m := PowMod(c, d, n);
  }

  /** s = m^d mod n. */
  method Sign(m: nat, d: nat, n: nat) returns (s: nat)
    requires n > 0
    ensures s == ModPow(m, d, n)
  {
    s := PowMod(m, d, n);
  }

  /** Accepts exactly when s^e mod n is m; so never when m >= n and e > 0. */
  method Verify(m: nat, s: nat, e: nat, n: nat) returns (ok: bool)
    requires n > 0
    ensures ok <==> ModPow(s, e, n) == m
    ensures m >= n && e > 0 ==> !ok
  {
    var t := PowMod(s, e, n);
    if t != m {
      return false;
    }
    return true;
  }

  // ---------------------------------------------------------------------
  // Correctness of RSA for distinct primes

  /** m^(lambda * k + 1) == m modulo a prime p with p - 1 dividing lambda. */
  lemma PowCongruentPrime(p: nat, m: nat, l: nat, k: nat)
    requires Prime(p) && Divides(p - 1, l)
    ensures Divides(p, Pow(m, l * k + 1) - m)
  {
    var x := Pow(m, l * k);
    PowAdd(m, l * k, 1);
    assert Pow(m, 1) == m;
    assert Pow(m, l * k + 1) - m == (x - 1) * m;
    if Divides(p, m) {
      DividesMul(p, m, x - 1);
      MulComm(m, x - 1);
    } else {
      FermatLittle(p, m);
      var j := (l / (p - 1)) * k;
      assert l == (p - 1) * (l / (p - 1));
      MulAssoc(p - 1, l / (p - 1), k);
      assert l * k == (p - 1) * j;
      PowMul(m, p - 1, j);
      PowOfOneMod(Pow(m, p - 1), j, p);
      ModSmall(1, p);
      SameModCongruent(x, 1, p);
      DividesMul(p, x - 1, m);
    }
  }

  /** Raising to e and then to d returns m when e * d == 1 modulo lambda(n). */
  lemma RsaCorrect(p: nat, q: nat, e: nat, d: nat, m: nat)
    requires Prime(p) && Prime(q) && p != q
    requires (e * d) % Lambda(p, q) == 1
    requires m < p * q
    ensures ModPow(ModPow(m, e, p * q), d, p * q) == m
  {
    var n := p * q;
    var l := Lambda(p, q);
    assert l > 1;
    assert e > 0 && d > 0;
    var k := (e * d) / l;
    assert e * d == l * k + 1;
    PowModBase(Pow(m, e), d, n);
    PowMul(m, e, d);
    assert ModPow(ModPow(m, e, n), d, n) == Pow(m, l * k + 1) % n;
    PowCongruentPrime(p, m, l, k);
    PowCongruentPrime(q, m, l, k);
    DistinctPrimesDivide(p, q, Pow(m, l * k + 1) - m);
    CongruentMod(Pow(m, l * k + 1), m, n);
    ModSmall(m, n);
  }

  /** A signature made with d passes the check with e, for every m < n. */
  lemma SignVerifies(p: nat, q: nat, e: nat, d: nat, m: nat)
    requires Prime(p) && Prime(q) && p != q
    requires (e * d) % Lambda(p, q) == 1
    requires m < p * q
    ensures ModPow(ModPow(m, d, p * q), e, p * q) == m
  {
    MulComm(e, d);
    RsaCorrect(p, q, d, e, m);
  }

  /** For distinct primes lambda(n) exceeds 1, so MakePriv's inverse clause
      applies to every e coprime to it. */
  lemma LambdaAboveOne(p: nat, q: nat)
    requires Prime(p) && Prime(q) && p != q
    ensures Lambda(p, q) > 1
  {
    var l := Lambda(p, q);
    if p > 2 {
      DivisorBound(p - 1, l);
    } else {
      DivisorBound(q - 1, l);
    }
  }
}
