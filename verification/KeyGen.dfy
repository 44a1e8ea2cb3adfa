/** Key generation: two probable primes of half the length each, and the
    numbers computed from them. */
module KeyGen {
  import opened Arith
  import opened NumberTheory
  import opened Words
  import opened Value
  import opened NNBasic
  import opened NNMult
  import opened NNModular
  import opened NNEuclid
  import opened NNBytes
  import opened RsaTheory
  import opened Keys
  import opened Outcome
  import opened Rsa
  import opened RsaPair
  import opened Prime

  // ---------- the interval for a prime ----------

  ghost function LowEnd(bits: nat): nat
    requires 2 <= bits
  {
    PowPositive(2, bits - 2);
    3 * Pow(2, bits - 2)
  }

  ghost function HighEnd(bits: nat): nat {
    PowPositive(2, bits);
    Pow(2, bits) - 1
  }

  ghost predicate PrimeBits(p: nat, bits: nat)
    requires 2 <= bits
  {
    LowEnd(bits) <= p <= HighEnd(bits)
  }

  lemma IntervalNumbers(bits: nat, digits: nat)
    requires 3 <= bits <= 32 * digits
    ensures Pow(2, bits - 1) == 2 * Pow(2, bits - 2) && Pow(2, bits) == 4 * Pow(2, bits - 2)
    ensures 2 <= Pow(2, bits - 2) && Pow(2, bits) <= Weight(digits)
    ensures LowEnd(bits) == 3 * Pow(2, bits - 2) && HighEnd(bits) == Pow(2, bits) - 1
    ensures SearchRange(LowEnd(bits), HighEnd(bits), 2, Weight(digits))
  {
    PowMono(2, 1, bits - 2);
    PowMono(2, bits, 32 * digits);
    WeightIsPow2(digits);
    IntervalRange(Pow(2, bits - 2), Weight(digits));
  }

  lemma IntervalRange(h: nat, w: nat)
    requires 2 <= h && 4 * h <= w
    ensures SearchRange(3 * h, 4 * h - 1, 2, w)
  {
    assert 4 * h - 1 == 2 * (2 * h - 1) + 1;
    DivModUnique(4 * h - 1, 2 * h - 1, 1, 2);
  }

  /** The interval from 3*2^(bits-2) to 2^bits - 1, and the step 2. */
  method Interval(t: array<Digit>, u: array<Digit>, v: array<Digit>, bits: nat, digits: nat)
    requires t != u && t != v && u != v
    requires digits <= t.Length && digits <= u.Length && digits <= v.Length
    requires 3 <= bits <= 32 * digits
    modifies t, u, v
    ensures Val(t[..digits]) == LowEnd(bits) && Val(u[..digits]) == HighEnd(bits)
    ensures Val(v[..digits]) == 2
  {
    hide Val, Weight, Pow, LowEnd, HighEnd;
    ghost var h, w := Pow(2, bits - 2), Weight(digits);
    IntervalNumbers(bits, digits);
    Assign2Exp(t, bits - 1, digits);
    Assign2Exp(u, bits - 2, digits);
    var carry := Add(t, t, u, digits);
    NoCarry(carry, Val(t[..digits]), 3 * h, w);
    AssignDigit(v, 1, digits);
    var borrow := Sub(v, t, v, digits);
    ValBound(v[..digits]);
    NoBorrow(borrow, Val(v[..digits]), 1, 3 * h, w);
    carry := Add(u, u, v, digits);
    NoCarry(carry, Val(u[..digits]), 4 * h - 1, w);
    AssignDigit(v, 2, digits);
  }

  // ---------- the filter ----------

  /** Tells whether a-1 and b are coprime. */
  method RSAFilter(a: array<Digit>, aDigits: nat, b: array<Digit>) returns (ok: bool)
    requires 0 < aDigits <= a.Length && aDigits <= b.Length && 0 < Val(a[..aDigits])
    ensures ok <==> Gcd(Val(a[..aDigits]) - 1, Val(b[..aDigits])) == 1
  {
    hide Val, Weight, Gcd;
    ghost var av: nat := Val(a[..aDigits]);
    var t, aMinus1, u := new Digit[aDigits], new Digit[aDigits], new Digit[aDigits];
    AssignDigit(t, 1, aDigits);
    MinusOne(aMinus1, a, t, aDigits);
    GcdOf(u, aMinus1, b, aDigits);
    var sign := Cmp(t, u, aDigits);
    ok := sign == 0;
  }

  /** m := a - 1, where one holds 1. */
  method MinusOne(m: array<Digit>, a: array<Digit>, one: array<Digit>, digits: nat)
    requires m != a && m != one
    requires digits <= m.Length && digits <= a.Length && digits <= one.Length
    requires Val(one[..digits]) == 1 && 0 < Val(a[..digits])
    modifies m
    ensures Val(m[..digits]) == Val(a[..digits]) - 1
  {
    hide Val, Weight;
    ghost var av := Val(a[..digits]);
    var borrow := Sub(m, a, one, digits);
    ValBound(m[..digits]);
    NoBorrow(borrow, Val(m[..digits]), 1, av, Weight(digits));
  }

  // ---------- a prime of the right size ----------

  /** A probable prime of the right size whose predecessor is coprime to e. */
  ghost predicate GoodPrime(p: nat, bits: nat, e: nat, digits: nat, table: seq<Digit>)
    requires 2 <= bits && TrialDivisors(table)
  {
    0 < p && PrimeBits(p, bits) && Gcd(p - 1, e) == 1 && Accepts(p, digits, table)
  }

  lemma FoundPrime(r: Result<()>, p: nat, bits: nat, digits: nat, first: int, table: seq<Digit>)
    requires 3 <= bits && TrialDivisors(table)
    requires r.Ok? && Searched(r, p, first, LowEnd(bits), HighEnd(bits), 2, digits, table)
    ensures 0 < p && PrimeBits(p, bits) && Accepts(p, digits, table)
  {
    PowPositive(2, bits - 2);
  }

  /** One search from a random block ends in a, with this status. */
  ghost predicate Drawn(block: seq<Byte>, a: nat, status: Result<()>, bits: nat, digits: nat, table: seq<Digit>)
    requires 3 <= bits && TrialDivisors(table)
  {
    LowEnd(bits) <= HighEnd(bits)
    && Searched(status, a, FirstCandidate(BytesVal(block), LowEnd(bits), HighEnd(bits), 2),
                LowEnd(bits), HighEnd(bits), 2, digits, table)
  }

  /** The search from a block succeeds, but the filter refuses what it finds. */
  ghost predicate Filtered(block: seq<Byte>, bits: nat, e: nat, digits: nat, table: seq<Digit>)
    requires 3 <= bits && TrialDivisors(table)
  {
    exists a: nat :: 0 < a && Drawn(block, a, Ok(()), bits, digits, table) && Gcd(a - 1, e) != 1
  }

  ghost predicate AllFiltered(draws: seq<seq<Byte>>, bits: nat, e: nat, digits: nat, table: seq<Digit>)
    requires 3 <= bits && TrialDivisors(table)
  {
    forall k :: 0 <= k < |draws| ==> Filtered(draws[k], bits, e, digits, table)
  }

  /** What the repeated search gives: the prime of the first block that the
      filter lets through, with the number of blocks used; or RE_DATA from the
      first block whose search fails; or no block is left. */
  ghost predicate PrimeFound(r: Result<nat>, p: nat, bits: nat, e: nat, digits: nat, seeded: bool,
                             draws: seq<seq<Byte>>, table: seq<Digit>)
    requires 3 <= bits && TrialDivisors(table)
  {
    if !seeded then r == Err(RE_NEED_RANDOM)
    else match r
      case Ok(k) =>
        && 0 < k <= |draws| && AllFiltered(draws[..k - 1], bits, e, digits, table)
        && 0 < p && Drawn(draws[k - 1], p, Ok(()), bits, digits, table) && Gcd(p - 1, e) == 1
      case Err(RE_DATA) =>
        exists k, a :: 0 <= k < |draws| && AllFiltered(draws[..k], bits, e, digits, table)
                       && Drawn(draws[k], a, Err(RE_DATA), bits, digits, table)
      case Err(RE_NEED_RANDOM) => AllFiltered(draws, bits, e, digits, table)
      case _ => false
  }

  lemma FilteredNext(draws: seq<seq<Byte>>, i: nat, a: nat, bits: nat, e: nat, digits: nat, table: seq<Digit>)
    requires 3 <= bits && TrialDivisors(table) && i < |draws| && 0 < a
    requires AllFiltered(draws[..i], bits, e, digits, table)
    requires Drawn(draws[i], a, Ok(()), bits, digits, table) && Gcd(a - 1, e) != 1
    ensures AllFiltered(draws[..i + 1], bits, e, digits, table)
  {
    hide Drawn;
    var next := draws[..i + 1];
    forall k | 0 <= k < |next|
      ensures Filtered(next[k], bits, e, digits, table)
    {
      if k < i {
        assert next[k] == draws[..i][k];
      }
    }
  }

  lemma SearchFailed(r: Result<nat>, draws: seq<seq<Byte>>, k: nat, a: nat, status: Result<()>, bits: nat, e: nat,
                     digits: nat, table: seq<Digit>)
    requires 3 <= bits && TrialDivisors(table) && k < |draws| && status.Err?
    requires AllFiltered(draws[..k], bits, e, digits, table) && Drawn(draws[k], a, status, bits, digits, table)
    requires r == Err(status.error)
    ensures forall p: nat :: PrimeFound(r, p, bits, e, digits, true, draws, table)
  {
    hide AllFiltered;
    assert status == Err(RE_DATA);
  }

  /** Repeats the search with the next random block until the filter accepts;
      draws are the random blocks that are available. */
  method FindPrime(p: array<Digit>, bits: nat, digits: nat, e: array<Digit>, seeded: bool, draws: seq<seq<Byte>>,
                   table: seq<Digit>) returns (r: Result<nat>)
    requires p != e && 0 < digits <= p.Length && digits <= e.Length && 3 <= bits <= 32 * digits
    requires TrialDivisors(table) && forall k :: 0 <= k < |draws| ==> |draws[k]| == 4 * digits
    modifies p
    ensures PrimeFound(r, Val(p[..digits]), bits, Val(e[..digits]), digits, seeded, draws, table)
    ensures r.Ok? ==> r.value <= |draws| && GoodPrime(Val(p[..digits]), bits, Val(e[..digits]), digits, table)
  {
    hide Val, Weight, Pow, LowEnd, HighEnd, Gcd, SearchRange, StartRange, Searched, PrimeBits, Accepts, FirstCandidate;
    hide AllFiltered;
    var t, u, v := new Digit[digits], new Digit[digits], new Digit[digits];
    Interval(t, u, v, bits, digits);
    IntervalNumbers(bits, digits);
    NoneFiltered(bits, Val(e[..digits]), digits, table);
    var i := 0;
    assert draws[..i] == [];
    while i < |draws|
      invariant i <= |draws|
      invariant i != 0 ==> seeded
      invariant Val(t[..digits]) == LowEnd(bits) && Val(u[..digits]) == HighEnd(bits)
      invariant Val(v[..digits]) == 2
      invariant AllFiltered(draws[..i], bits, Val(e[..digits]), digits, table)
      modifies p
    {
      var status := GeneratePrime(p, t, u, v, digits, seeded, draws[i], table);
      if !seeded {
        return Err(RE_NEED_RANDOM);
      }
      IntervalOrder(bits, digits);
      if status.Err? {
        r := Err(status.error);
        SearchFailed(r, draws, i, Val(p[..digits]), status, bits, Val(e[..digits]), digits, table);
        return;
      }
      assert status.value == ();
      assert Drawn(draws[i], Val(p[..digits]), Ok(()), bits, digits, table);
      FoundPrime(status, Val(p[..digits]), bits, digits,
                 FirstCandidate(BytesVal(draws[i]), LowEnd(bits), HighEnd(bits), 2), table);
      i := i + 1;
      var ok := RSAFilter(p, digits, e);
      if ok {
        return Ok(i);
      }
      FilteredNext(draws, i - 1, Val(p[..digits]), bits, Val(e[..digits]), digits, table);
    }
    assert draws[..i] == draws;
    return Err(RE_NEED_RANDOM);
  }

  lemma NoneFiltered(bits: nat, e: nat, digits: nat, table: seq<Digit>)
    requires 3 <= bits && TrialDivisors(table)
    ensures AllFiltered([], bits, e, digits, table)
  {
  }

  lemma IntervalOrder(bits: nat, digits: nat)
    requires 3 <= bits <= 32 * digits
    ensures LowEnd(bits) <= HighEnd(bits)
  {
    IntervalNumbers(bits, digits);
  }

  // ---------- the numbers of a key ----------

  /** The modulus and the inverse of q that belong to the primes. */
  ghost predicate DerivedModulus(p: nat, q: nat, n: nat, qInv: nat) {
    n == p * q && (Gcd(q, p) == 1 ==> IsInverse(qInv, q, p))
  }

  /** The private exponent and its residues that belong to the primes and the
      public exponent. */
  ghost predicate DerivedExponents(p: nat, q: nat, e: nat, d: nat, dP: nat, dQ: nat)
    requires 1 < p && 1 < q
  {
    && 0 <= (p - 1) * (q - 1)
    && (Gcd(e, (p - 1) * (q - 1)) == 1 ==> IsInverse(d, e, (p - 1) * (q - 1)))
    && dP == d % (p - 1) && dQ == d % (q - 1)
  }

  /** The product of two numbers of pDigits digits that fits nDigits. */
  method Product(p: array<Digit>, q: array<Digit>, pDigits: nat, nDigits: nat) returns (n: array<Digit>)
    requires pDigits <= p.Length && pDigits <= q.Length && nDigits <= 2 * pDigits
    requires Val(p[..pDigits]) * Val(q[..pDigits]) < Weight(nDigits)
    ensures fresh(n) && n.Length == 2 * pDigits
    ensures Val(n[..nDigits]) == Val(p[..pDigits]) * Val(q[..pDigits])
  {
    hide Val, Weight;
    n := new Digit[2 * pDigits];
    Mult(n, p, q, pDigits);
    ValOther(n[..2 * pDigits], nDigits);
    assert n[..2 * pDigits][..nDigits] == n[..nDigits];
  }

  lemma PhiBounds(p: nat, q: nat, w: nat)
    requires 1 < p && 1 < q && p * q < w
    ensures 0 < (p - 1) * (q - 1) < w && 0 < p - 1 && 0 < q - 1
  {
    MulPositive(p - 1, q - 1);
    assert (p - 1) * (q - 1) == p * q - p - q + 1;
  }

  /** n and qInv. */
  method DeriveModulus(p: array<Digit>, q: array<Digit>, pDigits: nat, nDigits: nat)
    returns (n: array<Digit>, qInv: array<Digit>)
    requires 0 < pDigits <= p.Length && pDigits <= q.Length && nDigits <= 2 * pDigits
    requires 1 < Val(p[..pDigits]) && Val(p[..pDigits]) * Val(q[..pDigits]) < Weight(nDigits)
    ensures fresh(n) && fresh(qInv) && nDigits <= n.Length && pDigits <= qInv.Length
    ensures DerivedModulus(Val(p[..pDigits]), Val(q[..pDigits]), Val(n[..nDigits]), Val(qInv[..pDigits]))
  {
    hide Val, Weight, Gcd, IsInverse;
    n := Product(p, q, pDigits, nDigits);
    qInv := new Digit[pDigits];
    ModInv(qInv, q, p, pDigits);
  }

  /** p-1, q-1 and their product. */
  method Totient(p: array<Digit>, q: array<Digit>, pDigits: nat, nDigits: nat)
    returns (pMinus1: array<Digit>, qMinus1: array<Digit>, phiN: array<Digit>)
    requires 0 < pDigits <= p.Length && pDigits <= q.Length && nDigits <= 2 * pDigits
    requires 1 < Val(p[..pDigits]) && 1 < Val(q[..pDigits])
    requires Val(p[..pDigits]) * Val(q[..pDigits]) < Weight(nDigits)
    ensures fresh(pMinus1) && fresh(qMinus1) && fresh(phiN)
    ensures pMinus1.Length == qMinus1.Length == pDigits && nDigits <= phiN.Length
    ensures Val(pMinus1[..pDigits]) == Val(p[..pDigits]) - 1 && Val(qMinus1[..pDigits]) == Val(q[..pDigits]) - 1
    ensures Val(phiN[..nDigits]) == (Val(p[..pDigits]) - 1) * (Val(q[..pDigits]) - 1) > 0
  {
    hide Val, Weight;
    PhiBounds(Val(p[..pDigits]), Val(q[..pDigits]), Weight(nDigits));
    var t := new Digit[pDigits];
    pMinus1, qMinus1 := new Digit[pDigits], new Digit[pDigits];
    AssignDigit(t, 1, pDigits);
    MinusOne(pMinus1, p, t, pDigits);
    MinusOne(qMinus1, q, t, pDigits);
    phiN := Product(pMinus1, qMinus1, pDigits, nDigits);
  }

  /** d, dP and dQ. */
  method DeriveExponents(p: array<Digit>, q: array<Digit>, e: array<Digit>, pDigits: nat, nDigits: nat)
    returns (d: array<Digit>, dP: array<Digit>, dQ: array<Digit>)
    requires 0 < pDigits <= p.Length && pDigits <= q.Length && nDigits <= e.Length && nDigits <= 2 * pDigits
    requires 1 < Val(p[..pDigits]) && 1 < Val(q[..pDigits])
    requires Val(p[..pDigits]) * Val(q[..pDigits]) < Weight(nDigits)
    ensures fresh(d) && fresh(dP) && fresh(dQ)
    ensures nDigits <= d.Length && pDigits <= dP.Length && pDigits <= dQ.Length
    ensures DerivedExponents(Val(p[..pDigits]), Val(q[..pDigits]), Val(e[..nDigits]), Val(d[..nDigits]),
                             Val(dP[..pDigits]), Val(dQ[..pDigits]))
  {
    hide Val, Weight, Gcd, IsInverse;
    ghost var pv, qv := Val(p[..pDigits]), Val(q[..pDigits]);
    var pMinus1, qMinus1, phiN := Totient(p, q, pDigits, nDigits);
    d := new Digit[nDigits];
    ModInv(d, e, phiN, nDigits);
    dP, dQ := new Digit[pDigits], new Digit[pDigits];
    Mod(dP, d, nDigits, pMinus1, pDigits);
    Mod(dQ, d, nDigits, qMinus1, pDigits);
  }

  /** Derived numbers of distinct primes are a consistent key. */
  lemma DerivedConsistent(k: Numbers)
    requires IsPrime(k.p) && IsPrime(k.q) && k.q < k.p
    requires Gcd(k.p - 1, k.e) == 1 && Gcd(k.q - 1, k.e) == 1
    requires DerivedModulus(k.p, k.q, k.n, k.qInv) && DerivedExponents(k.p, k.q, k.e, k.d, k.dP, k.dQ)
    ensures Consistent(k)
  {
    DistinctPrimesCoprime(k.q, k.p);
    CoprimeProduct(k.p - 1, k.q - 1, k.e);
    CoprimeSymmetric((k.p - 1) * (k.q - 1), k.e);
    assert k.d * k.e == k.e * k.d;
  }

  /** The product of two primes of half the bits has exactly all the bits. */
  lemma ProductBits(p: nat, q: nat, pBits: nat, qBits: nat)
    requires 2 <= pBits && 2 <= qBits && PrimeBits(p, pBits) && PrimeBits(q, qBits)
    ensures Pow(2, pBits + qBits - 1) <= p * q < Pow(2, pBits + qBits)
  {
    hide Pow;
    var x, y := Pow(2, pBits - 2), Pow(2, qBits - 2);
    PowPositive(2, pBits - 2);
    PowPositive(2, qBits - 2);
    FourTimes(pBits);
    FourTimes(qBits);
    PowAdd(2, pBits - 2, qBits - 2);
    PowAdd(2, pBits + qBits - 4, 3);
    PowAdd(2, pBits + qBits - 4, 4);
    SmallPowers();
    ProductRange(p, q, x, y);
  }

  lemma SmallPowers()
    ensures Pow(2, 2) == 4 && Pow(2, 3) == 8 && Pow(2, 4) == 16
  {
  }

  lemma FourTimes(bits: nat)
    requires 2 <= bits
    ensures Pow(2, bits) == 4 * Pow(2, bits - 2)
  {
  }

  lemma ProductRange(p: int, q: int, x: int, y: int)
    requires 0 < x && 0 < y && 3 * x <= p < 4 * x && 3 * y <= q < 4 * y
    ensures (x * y) * 8 <= p * q < (x * y) * 16
  {
    MulBoth(3 * x, p, 3 * y, q);
    MulBoth(p + 1, 4 * x, q + 1, 4 * y);
    MulPositive(x, y);
    assert (3 * x) * (3 * y) == 9 * (x * y);
    assert (4 * x) * (4 * y) == 16 * (x * y);
    assert (p + 1) * (q + 1) == p * q + p + q + 1;
  }

  lemma MulBoth(a: int, b: int, c: int, d: int)
    requires 0 <= a <= b && 0 <= c <= d
    ensures a * c <= b * d
  {
    MulMono(a, b, c);
    MulMono(c, d, b);
  }

  // ---------- the key pair ----------

  /** What a generated pair of keys holds. */
  ghost predicate Generated(bits: nat, e: nat, pub: PublicKey, priv: PrivateKey, table: seq<Digit>)
    requires TrialDivisors(table)
  {
    var k := priv.KeyNumbers();
    && pub.Sized() && priv.Sized() && pub.bits == priv.bits == bits
    && pub.modulus == priv.modulus && pub.exponent == priv.publicExponent
    && k.e == e && 2 < k.q <= k.p && Gcd(k.p - 1, e) == 1 && Gcd(k.q - 1, e) == 1
    && 0 < bits && Pow(2, bits - 1) <= k.n < Pow(2, bits)
    && DerivedModulus(k.p, k.q, k.n, k.qInv) && DerivedExponents(k.p, k.q, e, k.d, k.dP, k.dQ)
    && Accepts(k.p, PrimeDigits(bits), table) && Accepts(k.q, PrimeDigits(bits), table)
  }

  function PrimeDigits(bits: nat): nat {
    ((bits + DIGIT_BITS - 1) / DIGIT_BITS + 1) / 2
  }

  /** When the two probable primes are distinct primes, the keys belong
      together. */
  lemma GeneratedPair(bits: nat, e: nat, pub: PublicKey, priv: PrivateKey, table: seq<Digit>)
    requires TrialDivisors(table) && Generated(bits, e, pub, priv, table)
    requires MIN_RSA_MODULUS_BITS <= bits <= MAX_RSA_MODULUS_BITS
    requires IsPrime(priv.KeyNumbers().p) && IsPrime(priv.KeyNumbers().q)
    requires priv.KeyNumbers().p != priv.KeyNumbers().q
    ensures KeyPair(pub, priv)
  {
    DerivedConsistent(priv.KeyNumbers());
  }

  /** The number of digits digits as a string of len bytes. */
  method EncodeNumber(a: array<Digit>, digits: nat, len: nat) returns (s: seq<Byte>)
    requires digits <= a.Length && Val(a[..digits]) < Pow(256, len)
    ensures |s| == len && BytesVal(s) == Val(a[..digits])
  {
    hide Val, Pow, BytesVal, BytesOf;
    var b := new Byte[len];
    Encode(b, len, a, digits);
    BytesOfVal(Val(a[..digits]), len);
    ModSmall(Val(a[..digits]), Pow(256, len));
    s := b[..len];
  }

  lemma FitsBytes(s: seq<Digit>, len: nat)
    requires 4 * |s| <= len
    ensures Val(s) < Pow(256, len)
  {
    ValBound(s);
    WeightIsPow256(|s|);
    PowMono(256, 4 * |s|, len);
  }

  /** Larger prime first. */
  method SortPrimes(p: array<Digit>, q: array<Digit>, digits: nat)
    requires p != q && digits <= p.Length && digits <= q.Length
    modifies p, q
    ensures var x, y := old(Val(p[..digits])), old(Val(q[..digits]));
            if x < y then Val(p[..digits]) == y && Val(q[..digits]) == x
            else Val(p[..digits]) == x && Val(q[..digits]) == y
  {
    hide Val;
    var sign := Cmp(p, q, digits);
    if sign < 0 {
      var t := new Digit[digits];
      Assign(t, p, digits);
      Assign(p, q, digits);
      Assign(q, t, digits);
    }
  }

  lemma KeySizes(bits: nat)
    requires MIN_RSA_MODULUS_BITS <= bits <= MAX_RSA_MODULUS_BITS
    ensures var nDigits := (bits + 31) / 32;
            var pDigits := PrimeDigits(bits);
            var pBits := (bits + 1) / 2;
            && 0 < pDigits <= 16 && nDigits <= 32 && nDigits <= 2 * pDigits && pDigits <= nDigits
            && 3 <= pBits <= 32 * pDigits && 3 <= bits - pBits <= 32 * pDigits && bits <= 32 * nDigits
  {
  }

  /** The numbers that are stored in a pair of keys, as byte strings. */
  ghost predicate Stored(pub: PublicKey, priv: PrivateKey, bits: nat, p: nat, q: nat, n: nat, e: nat, d: nat, dP: nat,
                         dQ: nat, qInv: nat)
  {
    && pub.Sized() && priv.Sized() && pub.bits == priv.bits == bits
    && pub.modulus == priv.modulus && pub.exponent == priv.publicExponent
    && priv.KeyNumbers() == Numbers(p, q, n, e, d, dP, dQ, qInv)
  }

  /** Writes the key structures. */
  method Store(bits: nat, p: array<Digit>, q: array<Digit>, n: array<Digit>, e: array<Digit>, d: array<Digit>,
               dP: array<Digit>, dQ: array<Digit>, qInv: array<Digit>, pDigits: nat, nDigits: nat)
    returns (pub: PublicKey, priv: PrivateKey)
    requires pDigits <= 16 && 0 < nDigits <= 32
    requires pDigits <= p.Length && pDigits <= q.Length && nDigits <= n.Length && nDigits <= e.Length
    requires nDigits <= d.Length && pDigits <= dP.Length && pDigits <= dQ.Length && pDigits <= qInv.Length
    ensures Stored(pub, priv, bits, Val(p[..pDigits]), Val(q[..pDigits]), Val(n[..nDigits]), Val(e[..1]),
                   Val(d[..nDigits]), Val(dP[..pDigits]), Val(dQ[..pDigits]), Val(qInv[..pDigits]))
  {
    hide Val, BytesVal, Pow;
    FitsBytes(n[..nDigits], MAX_RSA_MODULUS_LEN);
    FitsBytes(e[..1], MAX_RSA_MODULUS_LEN);
    FitsBytes(d[..nDigits], MAX_RSA_MODULUS_LEN);
    FitsBytes(p[..pDigits], MAX_RSA_PRIME_LEN);
    FitsBytes(q[..pDigits], MAX_RSA_PRIME_LEN);
    FitsBytes(dP[..pDigits], MAX_RSA_PRIME_LEN);
    FitsBytes(dQ[..pDigits], MAX_RSA_PRIME_LEN);
    FitsBytes(qInv[..pDigits], MAX_RSA_PRIME_LEN);
    var modulus := EncodeNumber(n, nDigits, MAX_RSA_MODULUS_LEN);
    var exponent := EncodeNumber(e, 1, MAX_RSA_MODULUS_LEN);
    pub := PublicKey(bits, modulus, exponent);
    var privateExponent := EncodeNumber(d, nDigits, MAX_RSA_MODULUS_LEN);
    var prime0 := EncodeNumber(p, pDigits, MAX_RSA_PRIME_LEN);
    var prime1 := EncodeNumber(q, pDigits, MAX_RSA_PRIME_LEN);
    var primeExponent0 := EncodeNumber(dP, pDigits, MAX_RSA_PRIME_LEN);
    var primeExponent1 := EncodeNumber(dQ, pDigits, MAX_RSA_PRIME_LEN);
    var coefficient := EncodeNumber(qInv, pDigits, MAX_RSA_PRIME_LEN);
    priv := PrivateKey(bits, modulus, exponent, privateExponent, prime0, prime1, primeExponent0, primeExponent1,
                       coefficient);
  }

  /** The public exponent. */
  function PublicExponent(useFermat4: bool): Digit {
    if useFermat4 then 65537 else 3
  }

  /** The digits of e at any length are e. */
  lemma ShortExponent(s: seq<Digit>, n: nat, e: Digit)
    requires 0 < n <= |s| && s[0] == e && forall k :: 0 < k < |s| ==> s[k] == 0
    ensures Val(s[..n]) == e
  {
    ValZerosAbove(s[..n], 1);
    assert s[..n][..1] == [e];
    ValSingle(e);
  }

  /** What the two searches found, sorted, is what a generated pair needs. */
  lemma SortedPrimes(p: nat, q: nat, bits: nat, e: nat, table: seq<Digit>)
    requires TrialDivisors(table) && MIN_RSA_MODULUS_BITS <= bits <= MAX_RSA_MODULUS_BITS
    requires GoodPrime(p, (bits + 1) / 2, e, PrimeDigits(bits), table)
    requires GoodPrime(q, bits - (bits + 1) / 2, e, PrimeDigits(bits), table)
    ensures 2 < p && 2 < q && p * q == q * p && Pow(2, bits - 1) <= p * q < Pow(2, bits)
    ensures p * q < Weight((bits + 31) / 32)
    ensures Gcd(p - 1, e) == 1 && Gcd(q - 1, e) == 1
    ensures Accepts(p, PrimeDigits(bits), table) && Accepts(q, PrimeDigits(bits), table)
  {
    hide Pow, Gcd, Accepts, Weight;
    var pBits := (bits + 1) / 2;
    var qBits := bits - pBits;
    ProductBits(p, q, pBits, qBits);
    PowPositive(2, pBits - 2);
    PowPositive(2, qBits - 2);
    WeightIsPow2((bits + 31) / 32);
    PowMono(2, bits, 32 * ((bits + 31) / 32));
  }

  lemma Fermat4()
    ensures Pow(2, 16) == 65536
  {
    assert Pow(2, 8) == 256;
    PowAdd(2, 8, 8);
  }

  /** The two searches of a key generation; the second goes on with the blocks
      that the first has left. */
  ghost predicate KeySearch(bits: nat, e: nat, seeded: bool, draws: seq<seq<Byte>>, table: seq<Digit>,
                            first: Result<nat>, x: nat, second: Result<nat>, y: nat)
    requires TrialDivisors(table) && MIN_RSA_MODULUS_BITS <= bits <= MAX_RSA_MODULUS_BITS
  {
    && PrimeFound(first, x, (bits + 1) / 2, e, PrimeDigits(bits), seeded, draws, table)
    && (first.Ok? ==>
          && first.value <= |draws|
          && PrimeFound(second, y, bits - (bits + 1) / 2, e, PrimeDigits(bits), seeded, draws[first.value..], table))
  }

  /** How the keys come from the two searches: the first failure ends the
      generation, otherwise the larger number becomes p and the smaller q, and
      distinct primes make a key pair. */
  ghost predicate KeysFrom(r: Result<(PublicKey, PrivateKey)>, bits: nat, e: nat, table: seq<Digit>,
                           first: Result<nat>, x: nat, second: Result<nat>, y: nat)
    requires TrialDivisors(table)
  {
    if first.Err? then r == Err(first.error)
    else if second.Err? then r == Err(second.error)
    else
      && r.Ok? && Generated(bits, e, r.value.0, r.value.1, table)
      && var k := r.value.1.KeyNumbers();
         && k.p == (if x < y then y else x) && k.q == (if x < y then x else y)
         && (IsPrime(k.p) && IsPrime(k.q) && k.p != k.q ==> KeyPair(r.value.0, r.value.1))
  }

  /** Generates a key pair with a modulus of exactly the given length.  The
      random blocks for the two searches are drawn from draws in order. */
  method GeneratePEMKeys(bits: nat, useFermat4: bool, seeded: bool, draws: seq<seq<Byte>>, table: seq<Digit>)
    returns (r: Result<(PublicKey, PrivateKey)>, ghost first: Result<nat>, ghost x: nat, ghost second: Result<nat>,
             ghost y: nat)
    requires TrialDivisors(table)
    requires forall k :: 0 <= k < |draws| ==> |draws[k]| == 4 * PrimeDigits(bits)
    ensures !(MIN_RSA_MODULUS_BITS <= bits <= MAX_RSA_MODULUS_BITS) ==> r == Err(RE_MODULUS_LEN)
    ensures MIN_RSA_MODULUS_BITS <= bits <= MAX_RSA_MODULUS_BITS ==>
              && KeySearch(bits, PublicExponent(useFermat4), seeded, draws, table, first, x, second, y)
              && KeysFrom(r, bits, PublicExponent(useFermat4), table, first, x, second, y)
    ensures r.Ok? ==> r.value.1.KeyNumbers().e == if useFermat4 then Pow(2, 16) + 1 else 3
  {
    Fermat4();
    first, x, second, y := Err(RE_MODULUS_LEN), 0, Err(RE_MODULUS_LEN), 0;
    if bits < MIN_RSA_MODULUS_BITS || bits > MAX_RSA_MODULUS_BITS {
      r := Err(RE_MODULUS_LEN);
      return;
    }
    r, first, x, second, y := GenerateSized(bits, useFermat4, seeded, draws, table);
  }

  /** The generation for a size within the limits. */
  method GenerateSized(bits: nat, useFermat4: bool, seeded: bool, draws: seq<seq<Byte>>, table: seq<Digit>)
    returns (r: Result<(PublicKey, PrivateKey)>, ghost first: Result<nat>, ghost x: nat, ghost second: Result<nat>,
             ghost y: nat)
    requires TrialDivisors(table) && MIN_RSA_MODULUS_BITS <= bits <= MAX_RSA_MODULUS_BITS
    requires forall k :: 0 <= k < |draws| ==> |draws[k]| == 4 * PrimeDigits(bits)
    ensures KeySearch(bits, PublicExponent(useFermat4), seeded, draws, table, first, x, second, y)
    ensures KeysFrom(r, bits, PublicExponent(useFermat4), table, first, x, second, y)
  {
    hide Val, Weight, Pow, Gcd, GoodPrime, PrimeFound, KeysFrom, KeySearch, PublicExponent;
    KeySizes(bits);
    var nDigits := (bits + DIGIT_BITS - 1) / DIGIT_BITS;
    var pDigits := (nDigits + 1) / 2;
    var pBits := (bits + 1) / 2;
    var qBits := bits - pBits;
    var e := ExponentDigits(useFermat4, nDigits, pDigits);
    var p, q := new Digit[pDigits], new Digit[pDigits];
    second, y := Err(RE_NEED_RANDOM), 0;
    var found := FindPrime(p, pBits, pDigits, e, seeded, draws, table);
    first, x := found, Val(p[..pDigits]);
    if found.Err? {
      r := Err(found.error);
      FirstFailed(bits, PublicExponent(useFermat4), seeded, draws, table, first, x, second, y);
      return;
    }
    var found2 := FindPrime(q, qBits, pDigits, e, seeded, draws[found.value..], table);
    second, y := found2, Val(q[..pDigits]);
    BothSearched(bits, PublicExponent(useFermat4), seeded, draws, table, first, x, second, y);
    if found2.Err? {
      r := Err(found2.error);
      return;
    }
    r := FinishKeys(bits, useFermat4, p, q, e, pDigits, nDigits, table, first, second);
  }

  lemma FirstFailed(bits: nat, e: nat, seeded: bool, draws: seq<seq<Byte>>, table: seq<Digit>,
                    first: Result<nat>, x: nat, second: Result<nat>, y: nat)
    requires TrialDivisors(table) && MIN_RSA_MODULUS_BITS <= bits <= MAX_RSA_MODULUS_BITS && first.Err?
    requires PrimeFound(first, x, (bits + 1) / 2, e, PrimeDigits(bits), seeded, draws, table)
    ensures KeySearch(bits, e, seeded, draws, table, first, x, second, y)
    ensures KeysFrom(Err(first.error), bits, e, table, first, x, second, y)
  {
    hide PrimeFound;
  }

  lemma BothSearched(bits: nat, e: nat, seeded: bool, draws: seq<seq<Byte>>, table: seq<Digit>,
                     first: Result<nat>, x: nat, second: Result<nat>, y: nat)
    requires TrialDivisors(table) && MIN_RSA_MODULUS_BITS <= bits <= MAX_RSA_MODULUS_BITS
    requires first.Ok? && first.value <= |draws|
    requires PrimeFound(first, x, (bits + 1) / 2, e, PrimeDigits(bits), seeded, draws, table)
    requires PrimeFound(second, y, bits - (bits + 1) / 2, e, PrimeDigits(bits), seeded, draws[first.value..], table)
    ensures KeySearch(bits, e, seeded, draws, table, first, x, second, y)
    ensures second.Err? ==> KeysFrom(Err(second.error), bits, e, table, first, x, second, y)
  {
    hide PrimeFound;
  }

  /** The digits of the public exponent. */
  method ExponentDigits(useFermat4: bool, nDigits: nat, pDigits: nat) returns (e: array<Digit>)
    requires 0 < pDigits <= nDigits
    ensures fresh(e) && e.Length == nDigits && e[0] == PublicExponent(useFermat4)
    ensures forall k :: 0 < k < nDigits ==> e[k] == 0
    ensures Val(e[..pDigits]) == PublicExponent(useFermat4)
  {
    hide Val;
    e := new Digit[nDigits];
    AssignDigit(e, PublicExponent(useFermat4), nDigits);
    ShortExponent(e[..], pDigits, e[0]);
    assert e[..][..pDigits] == e[..pDigits];
  }

  /** The part of the generation after both searches. */
  method FinishKeys(bits: nat, useFermat4: bool, p: array<Digit>, q: array<Digit>, e: array<Digit>, pDigits: nat,
                    nDigits: nat, table: seq<Digit>, ghost first: Result<nat>, ghost second: Result<nat>)
    returns (r: Result<(PublicKey, PrivateKey)>)
    requires first.Ok? && second.Ok?
    requires TrialDivisors(table) && MIN_RSA_MODULUS_BITS <= bits <= MAX_RSA_MODULUS_BITS
    requires nDigits == (bits + 31) / 32 && pDigits == PrimeDigits(bits)
    requires p != q && pDigits == p.Length == q.Length && nDigits == e.Length
    requires 0 < nDigits && e[0] == PublicExponent(useFermat4) && forall k :: 0 < k < nDigits ==> e[k] == 0
    requires GoodPrime(Val(p[..pDigits]), (bits + 1) / 2, PublicExponent(useFermat4), pDigits, table)
    requires GoodPrime(Val(q[..pDigits]), bits - (bits + 1) / 2, PublicExponent(useFermat4), pDigits, table)
    modifies p, q
    ensures KeysFrom(r, bits, PublicExponent(useFermat4), table, first, old(Val(p[..pDigits])), second,
                     old(Val(q[..pDigits])))
  {
    hide Val, Weight, Pow, BytesVal, Gcd, GoodPrime, Stored, KeyPair, Generated, DerivedModulus, DerivedExponents;
    KeySizes(bits);
    SortedPrimes(Val(p[..pDigits]), Val(q[..pDigits]), bits, PublicExponent(useFermat4), table);
    ghost var x, y := Val(p[..pDigits]), Val(q[..pDigits]);
    SortPrimes(p, q, pDigits);
    ShortExponent(e[..], nDigits, e[0]);
    ShortExponent(e[..], 1, e[0]);
    assert e[..][..nDigits] == e[..nDigits] && e[..][..1] == e[..1];
    var n, qInv := DeriveModulus(p, q, pDigits, nDigits);
    var d, dP, dQ := DeriveExponents(p, q, e, pDigits, nDigits);
    var pub, priv := Store(bits, p, q, n, e, d, dP, dQ, qInv, pDigits, nDigits);
    StoredGenerated(pub, priv, bits, Val(p[..pDigits]), Val(q[..pDigits]), Val(n[..nDigits]),
                    PublicExponent(useFermat4), Val(d[..nDigits]), Val(dP[..pDigits]), Val(dQ[..pDigits]),
                    Val(qInv[..pDigits]), table);
    r := Ok((pub, priv));
  }

  lemma StoredGenerated(pub: PublicKey, priv: PrivateKey, bits: nat, p: nat, q: nat, n: nat, e: nat, d: nat, dP: nat,
                        dQ: nat, qInv: nat, table: seq<Digit>)
    requires TrialDivisors(table) && MIN_RSA_MODULUS_BITS <= bits <= MAX_RSA_MODULUS_BITS
    requires Stored(pub, priv, bits, p, q, n, e, d, dP, dQ, qInv)
    requires 2 < q <= p && Pow(2, bits - 1) <= p * q < Pow(2, bits) && Gcd(p - 1, e) == 1 && Gcd(q - 1, e) == 1
    requires Accepts(p, PrimeDigits(bits), table) && Accepts(q, PrimeDigits(bits), table)
    requires DerivedModulus(p, q, n, qInv) && DerivedExponents(p, q, e, d, dP, dQ)
    ensures Generated(bits, e, pub, priv, table) && priv.KeyNumbers().p == p && priv.KeyNumbers().q == q
    ensures var k := priv.KeyNumbers();
            IsPrime(k.p) && IsPrime(k.q) && k.p != k.q ==> KeyPair(pub, priv)
  {
    hide Pow, Gcd, Accepts, DerivedExponents, KeyPair, IsPrime;
    var k := priv.KeyNumbers();
    if IsPrime(k.p) && IsPrime(k.q) && k.p != k.q {
      GeneratedPair(bits, e, pub, priv, table);
    }
  }
}
