/** RSA on numbers: decryption by the Chinese remainder theorem computes the
    plain power, and the two powers undo each other. */
module RsaTheory {
  import opened Arith
  import opened NumberTheory
  import opened NNModular

  /** The numbers of a key pair. */
  datatype Numbers = Numbers(p: nat, q: nat, n: nat, e: nat, d: nat, dP: nat, dQ: nat, qInv: nat)

  /** What key generation promises about them. */
  ghost predicate Consistent(k: Numbers) {
    && IsPrime(k.p) && IsPrime(k.q) && k.q < k.p && k.n == k.p * k.q
    && InverseMod(k.e, k.d, (k.p - 1) * (k.q - 1))
    && k.dP == k.d % (k.p - 1) && k.dQ == k.d % (k.q - 1)
    && k.qInv < k.p && InverseMod(k.qInv, k.q, k.p)
  }

  ghost predicate InverseMod(x: int, y: int, m: int) {
    0 < m && (x * y) % m == 1 % m
  }

  /** There are such numbers. */
  lemma ConsistentExample()
    ensures Consistent(Numbers(5, 3, 15, 3, 3, 3, 1, 2))
  {
  }

  /** What the private operation computes from the residues modulo p and q. */
  ghost function Recombine(p: nat, q: nat, qInv: nat, mP: int, mQ: int): int
    requires 0 < p
  {
    ((((mP - mQ) % p) * qInv) % p) * q + mQ
  }

  ghost function CrtPower(c: nat, k: Numbers): int
    requires 0 < k.p && 0 < k.q
  {
    Recombine(k.p, k.q, k.qInv, PowMod(c % k.p, k.dP, k.p), PowMod(c % k.q, k.dQ, k.q))
  }

  // ---------- recombination ----------

  /** The recombined number has the given residues and stays below p*q. */
  lemma RecombineResidues(p: nat, q: nat, qInv: nat, mP: int, mQ: int)
    requires 0 < p && 0 < q && InverseMod(qInv, q, p) && 0 <= mP < p && 0 <= mQ < q
    ensures var m := Recombine(p, q, qInv, mP, mQ);
            0 <= m < p * q && m % p == mP && m % q == mQ
  {
    var x := (mP - mQ) % p;
    var h := (x * qInv) % p;
    var m := h * q + mQ;
    MulMono(0, h, q);
    MulMonoStrict(h, p, q);
    DivModUnique(m, h, mQ, q);
    // h*q is congruent to x*qInv*q, hence to x
    CongMul(h, x * qInv, q, q, p) by { ModMod(x * qInv, p); }
    assert (x * qInv) * q == x * (qInv * q);
    CongMul(x, x, qInv * q, 1, p);
    assert x * 1 == x;
    ModMod(mP - mQ, p);
    CongAdd(h * q, mP - mQ, mQ, mQ, p);
    assert (mP - mQ) + mQ == mP;
    ModSmall(mP, p);
  }

  /** A number below p*q is known from its residues. */
  lemma FromResidues(p: nat, q: nat, x: int, y: int)
    requires 0 < p && 0 < q && Gcd(p, q) == 1
    requires 0 <= x < p * q && 0 <= y < p * q && x % p == y % p && x % q == y % q
    ensures x == y
  {
    ChineseRemainder(p, q, x, y);
    ModSmall(x, p * q);
    ModSmall(y, p * q);
  }

  // ---------- reduced exponents ----------

  /** An exponent that is invertible modulo a*b is positive and does not vanish
      modulo a, unless a is 1. */
  lemma ReducedExponent(e: nat, d: nat, a: nat, b: nat)
    requires 1 < a && 0 < b && InverseMod(e, d, a * b)
    ensures 0 < d && 0 < d % a
  {
    MulPositive(a, b);
    assert a * b == b * a;
    ModModMultiple(e * d, b, a);
    ModModMultiple(1, b, a);
    ModSmall(1, a);
    assert (e * d) % a == 1;
    if Divides(a, d) {
      DividesProduct(a, d, e);
    }
    ModSmall(0, a);
  }

  lemma InverseSymmetric(e: nat, d: nat, a: nat, b: nat)
    requires InverseMod(e, d, a * b)
    ensures InverseMod(e, d, b * a) && InverseMod(d, e, a * b) && InverseMod(d, e, b * a)
  {
    assert a * b == b * a && e * d == d * e;
  }

  /** Reducing the exponent modulo p-1 does not change the power modulo p, as
      long as neither exponent is zero. */
  lemma PowerReduced(c: nat, p: nat, d: nat)
    requires IsPrime(p) && 0 < d && 0 < d % (p - 1)
    ensures Pow(c, d % (p - 1)) % p == Pow(c, d) % p
  {
    var r, k := d % (p - 1), d / (p - 1);
    DivLower(d, 0, p - 1);
    assert d == r + k * (p - 1);
    if Divides(p, c) {
      PowerOfMultiple(c, p, r);
      PowerOfMultiple(c, p, d);
    } else {
      FermatMultiple(c, p, r, k);
    }
  }

  lemma FermatMultiple(c: nat, p: nat, r: nat, k: nat)
    requires IsPrime(p) && !Divides(p, c)
    ensures 0 <= k * (p - 1) && Pow(c, r + k * (p - 1)) % p == Pow(c, r) % p
  {
    hide Pow;
    MulMono(0, k, p - 1);
    PowAdd(c, r, k * (p - 1));
    Fermat(c, p);
    assert k * (p - 1) == (p - 1) * k;
    PowPow(c, p - 1, k);
    ModSmall(1, p);
    PowCong(Pow(c, p - 1), 1, k, p);
    PowOne(k);
    CongMul(Pow(c, r), Pow(c, r), Pow(c, k * (p - 1)), 1, p);
  }

  lemma PowerOfMultiple(c: nat, p: nat, e: nat)
    requires 0 < p && Divides(p, c) && 0 < e
    ensures Pow(c, e) % p == 0
  {
    DividesProduct(p, c, Pow(c, e - 1));
  }

  /** The residue modulo p that the private operation works with. */
  lemma ResiduePower(c: nat, p: nat, d: nat)
    requires IsPrime(p) && 0 < d && 0 < d % (p - 1)
    ensures PowMod(c % p, d % (p - 1), p) == Pow(c, d) % p
  {
    PowerReduced(c, p, d);
    ModMod(c, p);
    PowCong(c % p, c, d % (p - 1), p);
  }

  // ---------- the private operation ----------

  /** The exponents of a consistent key, read off one at a time. */
  lemma KeyExponents(k: Numbers)
    requires Consistent(k)
    ensures 2 < k.p && 2 <= k.q && 0 < k.n == k.p * k.q && Gcd(k.p, k.q) == 1
    ensures 0 < k.d && 0 < k.e && 0 < k.dP
    ensures k.q != 2 ==> 0 < k.dQ
  {
    hide Gcd, InverseMod;
    MulPositive(k.p, k.q);
    DistinctPrimesCoprime(k.p, k.q);
    ReducedExponent(k.e, k.d, k.p - 1, k.q - 1);
    InverseSymmetric(k.e, k.d, k.p - 1, k.q - 1);
    ReducedExponent(k.d, k.e, k.p - 1, k.q - 1);
    if k.q != 2 { ReducedExponent(k.e, k.d, k.q - 1, k.p - 1); }
  }

  /** The private operation computes c^d mod n for every c, when q is odd. */
  lemma CrtPowerIsPower(c: nat, k: Numbers)
    requires Consistent(k) && k.q != 2
    ensures 0 < k.n && CrtPower(c, k) == Pow(c, k.d) % k.n
  {
    KeyExponents(k);
    ResiduePower(c, k.p, k.d);
    ResiduePower(c, k.q, k.d);
    hide PowMod, Pow, Recombine, Gcd, IsPrime;
    var w := Pow(c, k.d);
    RecombineResidues(k.p, k.q, k.qInv, w % k.p, w % k.q);
    ResiduesOfProduct(w, k.p, k.q);
    FromResidues(k.p, k.q, CrtPower(c, k), w % k.n);
  }

  lemma ResiduesOfProduct(w: int, p: nat, q: nat)
    requires 0 < p && 0 < q
    ensures 0 < p * q && 0 <= w % (p * q) < p * q
    ensures (w % (p * q)) % p == w % p && (w % (p * q)) % q == w % q
    ensures (w % p) % p == w % p && (w % q) % q == w % q
  {
    assert p * q == q * p;
    ModModMultiple(w, q, p);
    ModModMultiple(w, p, q);
    ModMod(w, p);
    ModMod(w, q);
  }

  /** With q = 2 the exponent modulo q-1 is zero, the residue modulo q comes
      out as 1, and the ciphertext 0 is decrypted to an odd number. */
  lemma CrtPowerFailsForTwo(k: Numbers)
    requires Consistent(k) && k.q == 2
    ensures 0 < k.n && CrtPower(0, k) != Pow(0, k.d) % k.n
  {
    KeyExponents(k);
    PowerOfMultiple(0, k.n, k.d) by { ModSmall(0, k.n); }
    assert k.dQ == 0;
    var mP := PowMod(0 % k.p, k.dP, k.p);
    assert CrtPower(0, k) == Recombine(k.p, 2, k.qInv, mP, 1);
    var h := (((mP - 1) % k.p) * k.qInv) % k.p;
    assert CrtPower(0, k) == h * 2 + 1;
  }

  /** The private operation is c^d mod n for every c exactly when q is not 2. */
  lemma CrtPowerCorrectIff(k: Numbers)
    requires Consistent(k)
    ensures 0 < k.n
    ensures (forall c: nat | c < k.n :: CrtPower(c, k) == Pow(c, k.d) % k.n) <==> k.q != 2
  {
    KeyExponents(k);
    if k.q != 2 {
      forall c: nat | c < k.n
        ensures CrtPower(c, k) == Pow(c, k.d) % k.n
      {
        CrtPowerIsPower(c, k);
      }
    } else {
      CrtPowerFailsForTwo(k);
    }
  }

  // ---------- the two operations undo each other ----------

  /** m^(e*d) is m modulo n, also when m shares a factor with n. */
  lemma PowerRoundTrip(m: nat, k: Numbers)
    requires Consistent(k) && m < k.n
    ensures 0 < k.n && 0 <= k.e * k.d && Pow(m, k.e * k.d) % k.n == m
  {
    KeyExponents(k);
    hide Gcd, Pow, InverseMod;
    MulMono(0, k.e, k.d);
    var a, b := k.p - 1, k.q - 1;
    MulMono(2, a, b);
    assert a * b == b * a;
    OneModProduct(m, k.p, k.e, k.d, b);
    InverseSymmetric(k.e, k.d, a, b);
    OneModProduct(m, k.q, k.e, k.d, a);
    ChineseRemainder(k.p, k.q, Pow(m, k.e * k.d), m);
    ModSmall(m, k.n);
  }

  lemma OneModProduct(m: nat, p: nat, e: nat, d: nat, b: nat)
    requires IsPrime(p) && 0 < b && 1 < (p - 1) * b && InverseMod(e, d, (p - 1) * b)
    ensures 0 <= e * d && Pow(m, e * d) % p == m % p
  {
    hide Pow;
    var a, x := p - 1, e * d;
    var k := CongWitness(x, 1, a * b);
    assert k * (a * b) == (k * b) * a;
    MulMono(0, e, d);
    if k < 0 { MulMono(k, -1, a * b); }
    MulMono(0, k, b);
    PowOneModPhi(m, p, k * b);
  }

  /** Encrypting and decrypting, and signing and verifying. */
  lemma OperationsUndo(m: nat, k: Numbers)
    requires Consistent(k) && k.q != 2 && m < k.n
    ensures 0 < k.n && 0 < k.e && 0 < k.d
    ensures 0 <= PowMod(m, k.e, k.n) < k.n && CrtPower(PowMod(m, k.e, k.n), k) == m
    ensures 0 <= CrtPower(m, k) < k.n && PowMod(CrtPower(m, k), k.e, k.n) == m
  {
    KeyExponents(k);
    PowerRoundTrip(m, k);
    assert k.e * k.d == k.d * k.e;
    PowerTwice(m, k.e, k.d, k.n);
    PowerTwice(m, k.d, k.e, k.n);
    CrtPowerIsPower(PowMod(m, k.e, k.n), k);
    CrtPowerIsPower(m, k);
  }

  /** A key of the failing kind: the smaller prime is 2. */
  lemma ConsistentExampleTwo()
    ensures Consistent(Numbers(3, 2, 6, 1, 1, 1, 0, 2))
  {
  }

  /** With q = 2 the private operation takes 0 to p. */
  lemma CrtPowerOfZero(k: Numbers)
    requires Consistent(k) && k.q == 2
    ensures CrtPower(0, k) == k.p && 0 < k.p < k.n && k.p % 2 == 1
  {
    hide CrtPower, Recombine, InverseMod, IsPrime;
    KeyExponents(k);
    ZeroResidues(k);
    RecombineZeroOne(k.p, k.qInv);
  }

  lemma ZeroResidues(k: Numbers)
    requires 0 < k.p && 0 < k.dP && k.q == 2 && k.dQ == 0
    ensures CrtPower(0, k) == Recombine(k.p, 2, k.qInv, 0, 1)
  {
    hide Recombine;
    PowerOfMultiple(0, k.p, k.dP) by { ModSmall(0, k.p); }
    ModSmall(0, k.p);
  }

  lemma RecombineZeroOne(p: nat, qInv: nat)
    requires 0 < p && InverseMod(qInv, 2, p)
    ensures Recombine(p, 2, qInv, 0, 1) == p && p % 2 == 1
  {
    hide Recombine;
    RecombineResidues(p, 2, qInv, 0, 1);
    var m := Recombine(p, 2, qInv, 0, 1);
    OddMultiple(m / p, p, m);
  }

  /** An odd multiple of p below 2p is p itself. */
  lemma OddMultiple(h: int, p: int, m: int)
    requires 0 < p && m == h * p && 0 <= m < p * 2 && m % 2 == 1
    ensures m == p && p % 2 == 1
  {
    MulCancelOrder(h, 2, p);
    MulCancelOrder(-1, h, p);
    assert h == 0 ==> h * p == 0;
  }

  /** Decrypting undoes encrypting, for all numbers below the modulus, exactly
      when the smaller prime is not 2. */
  lemma DecryptUndoesIff(k: Numbers)
    requires Consistent(k)
    ensures 0 < k.n
    ensures (forall m: nat | m < k.n :: 0 <= PowMod(m, k.e, k.n) && CrtPower(PowMod(m, k.e, k.n), k) == m)
            <==> k.q != 2
  {
    KeyExponents(k);
    if k.q != 2 {
      forall m: nat | m < k.n
        ensures 0 <= PowMod(m, k.e, k.n) && CrtPower(PowMod(m, k.e, k.n), k) == m
      {
        OperationsUndo(m, k);
      }
    } else {
      EncryptZero(k);
      CrtPowerOfZero(k);
    }
  }

  lemma EncryptZero(k: Numbers)
    requires Consistent(k)
    ensures 0 < k.n && PowMod(0, k.e, k.n) == 0
  {
    KeyExponents(k);
    PowerOfMultiple(0, k.n, k.e) by { ModSmall(0, k.n); }
  }

  /** Verifying undoes signing under the same condition. */
  lemma VerifyUndoesIff(k: Numbers)
    requires Consistent(k)
    ensures 0 < k.n
    ensures (forall m: nat | m < k.n :: PowMod(CrtPower(m, k), k.e, k.n) == m) <==> k.q != 2
  {
    KeyExponents(k);
    if k.q != 2 {
      forall m: nat | m < k.n
        ensures PowMod(CrtPower(m, k), k.e, k.n) == m
      {
        OperationsUndo(m, k);
      }
    } else {
      CrtPowerOfZero(k);
      PowerOfOdd(k.p, k.e);
      ModModMultiple(Pow(k.p, k.e), k.p, 2);
      assert PowMod(CrtPower(0, k), k.e, k.n) % 2 == 1;
    }
  }

  lemma PowerOfOdd(x: nat, e: nat)
    requires x % 2 == 1
    ensures Pow(x, e) % 2 == 1
  {
    PowCong(x, 1, e, 2);
    PowOne(e);
  }

  lemma PowerTwice(m: nat, e: nat, d: nat, n: nat)
    requires 0 < n
    ensures 0 <= e * d
    ensures Pow(Pow(m, e) % n, d) % n == Pow(m, e * d) % n
  {
    ModMod(Pow(m, e), n);
    PowCong(Pow(m, e) % n, Pow(m, e), d, n);
    PowPow(m, e, d);
  }
}
