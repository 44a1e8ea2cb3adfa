/** The raw operations of a key pair undo each other on byte strings. */
module RsaPair {
  import opened Arith
  import opened Words
  import opened Value
  import opened NNBasic
  import opened NNModular
  import opened NNBytes
  import opened RsaTheory
  import opened Keys
  import opened Outcome
  import opened Rsa

  /** A public and a private key that belong together, with a modulus of
      exactly the stated number of bits. */
  ghost predicate MatchingKeys(pub: PublicKey, priv: PrivateKey) {
    && pub.Sized() && priv.Sized()
    && pub.bits == priv.bits && MIN_RSA_MODULUS_BITS <= pub.bits <= MAX_RSA_MODULUS_BITS
    && pub.modulus == priv.modulus && pub.exponent == priv.publicExponent
    && Pow(2, pub.bits - 1) <= priv.KeyNumbers().n < Pow(2, pub.bits)
    && Consistent(priv.KeyNumbers())
  }

  /** Keys for which the operations undo each other: the smaller prime is not
      2 (see UndoesIff). */
  ghost predicate KeyPair(pub: PublicKey, priv: PrivateKey) {
    MatchingKeys(pub, priv) && priv.KeyNumbers().q != 2
  }

  lemma PairUsable(pub: PublicKey, priv: PrivateKey)
    requires KeyPair(pub, priv)
    ensures Usable(priv.KeyNumbers())
  {
  }

  /** A modulus of b bits fills its bytes and its digits. */
  lemma ModulusSpan(n: nat, bits: nat)
    requires 0 < bits && Pow(2, bits - 1) <= n < Pow(2, bits)
    ensures var len := (bits + 7) / 8;
            0 < len && Pow(256, len - 1) <= n < Pow(256, len) <= Weight(SigDigits(n))
    ensures Pow(256, (bits + 7) / 8) <= Weight(SigDigits(n))
  {
    hide Pow, Weight, SigDigits;
    var len, m := (bits + 7) / 8, SigDigits(n);
    Pow2Is256(len);
    Pow2Is256(len - 1);
    PowMono(2, bits, 8 * len);
    PowMono(2, 8 * (len - 1), bits - 1);
    SigDigitsBounds(n);
    WeightIsPow2(m);
    if 32 * m < bits { PowMono(2, 32 * m, bits - 1); }
    WeightIsPow256(m);
    PowMono(256, len, 4 * m);
  }

  /** An input of at most the modulus length is not cut. */
  lemma ReducedShort(input: seq<Byte>, n: nat, bits: nat)
    requires 0 < bits <= MAX_RSA_MODULUS_BITS && Pow(2, bits - 1) <= n < Pow(2, bits)
    requires |input| <= (bits + 7) / 8
    ensures Reduced(input, n) == BytesVal(input)
    ensures BytesVal(input) % Weight(MAX_NN_DIGITS) == BytesVal(input)
  {
    hide Pow, Weight, BytesVal;
    ModulusSpan(n, bits);
    BytesBound(input);
    PowMono(256, |input|, (bits + 7) / 8);
    ModSmall(BytesVal(input), Weight(SigDigits(n)));
    BytesFit(input, MAX_NN_DIGITS);
    ModSmall(BytesVal(input), Weight(MAX_NN_DIGITS));
  }

  /** A number below the modulus, as bytes. */
  lemma BytesBelow(v: nat, n: nat, bits: nat)
    requires 0 < bits && Pow(2, bits - 1) <= n < Pow(2, bits) && v < n
    ensures BytesVal(BytesOf(v, (bits + 7) / 8)) == v
  {
    hide Pow, BytesVal, BytesOf;
    ModulusSpan(n, bits);
    BytesOfVal(v, (bits + 7) / 8);
    ModSmall(v, Pow(256, (bits + 7) / 8));
  }

  /** The private operation undoes the public one, on every number below the
      modulus; larger inputs are refused. */
  lemma PrivateUndoesPublic(input: seq<Byte>, pub: PublicKey, priv: PrivateKey)
    requires KeyPair(pub, priv) && |input| == pub.ModulusLen()
    ensures Usable(priv.KeyNumbers())
    ensures BytesVal(input) < BytesVal(pub.modulus) ==>
              var c := PublicSpec(input, pub);
              c.Ok? && |c.value| == pub.ModulusLen() && PrivateSpec(c.value, priv) == Ok(input)
    ensures BytesVal(input) >= BytesVal(pub.modulus) ==> PublicSpec(input, pub) == Err(RE_DATA)
  {
    hide PowMod, CrtPower, Pow, BytesVal, BytesOf, Reduced, Consistent, Usable;
    PairUsable(pub, priv);
    var k, v := priv.KeyNumbers(), BytesVal(input);
    ReducedShort(input, k.n, pub.bits);
    if v < k.n {
      OperationsUndo(v, k);
      var w := PowMod(v, k.e, k.n);
      BytesBelow(w, k.n, pub.bits);
      ReducedShort(BytesOf(w, pub.ModulusLen()), k.n, pub.bits);
      BytesOfUnique(input, v);
    }
  }

  /** The public operation undoes the private one. */
  lemma PublicUndoesPrivate(input: seq<Byte>, pub: PublicKey, priv: PrivateKey)
    requires KeyPair(pub, priv) && |input| == pub.ModulusLen()
    ensures Usable(priv.KeyNumbers())
    ensures BytesVal(input) < BytesVal(pub.modulus) ==>
              var s := PrivateSpec(input, priv);
              s.Ok? && |s.value| == pub.ModulusLen() && PublicSpec(s.value, pub) == Ok(input)
    ensures BytesVal(input) >= BytesVal(pub.modulus) ==> PrivateSpec(input, priv) == Err(RE_DATA)
  {
    hide PowMod, CrtPower, Pow, BytesVal, BytesOf, Reduced, Consistent, Usable;
    PairUsable(pub, priv);
    var k, v := priv.KeyNumbers(), BytesVal(input);
    ReducedShort(input, k.n, pub.bits);
    if v < k.n {
      OperationsUndo(v, k);
      var w := CrtPower(v, k);
      BytesBelow(w, k.n, pub.bits);
      ReducedShort(BytesOf(w, pub.ModulusLen()), k.n, pub.bits);
      BytesOfUnique(input, v);
    }
  }

  /** The block of zeros is encrypted to itself and, when the smaller prime is
      2, decrypted to something else. */
  lemma ZerosFail(pub: PublicKey, priv: PrivateKey, zeros: seq<Byte>)
    requires MatchingKeys(pub, priv) && priv.KeyNumbers().q == 2 && zeros == BytesOf(0, pub.ModulusLen())
    ensures Usable(priv.KeyNumbers())
    ensures BytesVal(zeros) == 0 < BytesVal(pub.modulus) && PublicSpec(zeros, pub) == Ok(zeros)
    ensures PrivateSpec(zeros, priv) != Ok(zeros)
  {
    hide Pow, BytesVal, BytesOf, Reduced, Consistent, CrtPower, PowMod;
    var k := priv.KeyNumbers();
    MatchingUsable(pub, priv);
    CrtPowerOfZero(k);
    EncryptZero(k);
    BytesBelow(0, k.n, pub.bits);
    BytesBelow(k.p, k.n, pub.bits);
    ReducedShort(zeros, k.n, pub.bits);
  }

  lemma MatchingUsable(pub: PublicKey, priv: PrivateKey)
    requires MatchingKeys(pub, priv)
    ensures Usable(priv.KeyNumbers()) && 0 < priv.KeyNumbers().n
  {
    KeyExponents(priv.KeyNumbers());
    ExponentsBelow(priv.KeyNumbers());
  }

  lemma ExponentsBelow(k: Numbers)
    requires Consistent(k)
    ensures k.dP < k.p && k.dQ < k.q && k.qInv < k.p
  {
  }

  /** The private operation undoes the public one on all blocks below the
      modulus exactly when the smaller prime is not 2. */
  lemma UndoesIff(pub: PublicKey, priv: PrivateKey)
    requires MatchingKeys(pub, priv)
    ensures Usable(priv.KeyNumbers())
    ensures (forall input: seq<Byte> | |input| == pub.ModulusLen() && BytesVal(input) < BytesVal(pub.modulus) ::
               var c := PublicSpec(input, pub);
               c.Ok? && PrivateSpec(c.value, priv) == Ok(input))
            <==> priv.KeyNumbers().q != 2
  {
    hide BytesVal, BytesOf, PublicSpec, PrivateSpec, Pow, Consistent, Usable;
    MatchingUsable(pub, priv);
    if priv.KeyNumbers().q != 2 {
      forall input: seq<Byte> | |input| == pub.ModulusLen() && BytesVal(input) < BytesVal(pub.modulus)
        ensures var c := PublicSpec(input, pub);
                c.Ok? && PrivateSpec(c.value, priv) == Ok(input)
      {
        PrivateUndoesPublic(input, pub, priv);
      }
    } else {
      ZerosFail(pub, priv, BytesOf(0, pub.ModulusLen()));
    }
  }

  /** The public operation in plain terms: a number below the modulus is raised
      to the exponent, and no other is accepted. */
  lemma PublicMeaning(input: seq<Byte>, key: PublicKey)
    requires 0 < key.bits <= MAX_RSA_MODULUS_BITS && |input| <= (key.bits + 7) / 8
    requires Pow(2, key.bits - 1) <= BytesVal(key.modulus) < Pow(2, key.bits) && 1 < BytesVal(key.modulus)
    ensures var n, e := BytesVal(key.modulus), BytesVal(key.exponent);
            match PublicSpec(input, key)
            case Err(error) => error == RE_DATA && n <= BytesVal(input)
            case Ok(s) =>
              && BytesVal(input) < n && |s| == (key.bits + 7) / 8
              && BytesVal(s) == Pow(BytesVal(input), e) % n
  {
    hide Pow, BytesVal, BytesOf, Reduced, PowMod;
    var n, e, v := BytesVal(key.modulus), BytesVal(key.exponent), BytesVal(input);
    ReducedShort(input, n, key.bits);
    if v < n {
      PowerMeaning(v, e, n);
      BytesBelow(PowMod(v, e, n), n, key.bits);
    }
  }

  lemma PowerMeaning(v: int, e: nat, n: nat)
    requires 1 < n
    ensures 0 <= PowMod(v, e, n) < n && PowMod(v, e, n) == Pow(v, e) % n
  {
    if e == 0 {
      ModSmall(1, n);
    }
  }

  /** The private operation in plain terms. */
  lemma PrivateMeaning(input: seq<Byte>, pub: PublicKey, priv: PrivateKey)
    requires KeyPair(pub, priv) && |input| <= (priv.bits + 7) / 8
    ensures Usable(priv.KeyNumbers()) && 0 < BytesVal(priv.modulus)
    ensures var n, d := BytesVal(priv.modulus), BytesVal(priv.exponent);
            match PrivateSpec(input, priv)
            case Err(error) => error == RE_DATA && n <= BytesVal(input)
            case Ok(s) =>
              && BytesVal(input) < n && |s| == (priv.bits + 7) / 8
              && BytesVal(s) == Pow(BytesVal(input), d) % n
  {
    hide Pow, BytesVal, BytesOf, Consistent, Usable, PrivateSpec, KeyPair;
    PrivateResult(input, pub, priv);
    var k, v := priv.KeyNumbers(), BytesVal(input);
    PairBits(pub, priv);
    if v < k.n {
      PrivatePower(v, k);
      BytesBelow(Pow(v, k.d) % k.n, k.n, pub.bits);
    }
  }

  lemma PairBits(pub: PublicKey, priv: PrivateKey)
    requires KeyPair(pub, priv)
    ensures 0 < pub.bits == priv.bits && Consistent(priv.KeyNumbers()) && priv.KeyNumbers().q != 2
    ensures Pow(2, pub.bits - 1) <= priv.KeyNumbers().n < Pow(2, pub.bits)
  {
  }

  lemma PrivateResult(input: seq<Byte>, pub: PublicKey, priv: PrivateKey)
    requires KeyPair(pub, priv) && |input| <= (priv.bits + 7) / 8
    ensures Usable(priv.KeyNumbers()) && 0 < priv.KeyNumbers().n
    ensures 0 <= Pow(BytesVal(input), priv.KeyNumbers().d) % priv.KeyNumbers().n
    ensures PrivateSpec(input, priv)
            == if priv.KeyNumbers().n <= BytesVal(input) then Err(RE_DATA)
               else Ok(BytesOf(Pow(BytesVal(input), priv.KeyNumbers().d) % priv.KeyNumbers().n, (priv.bits + 7) / 8))
  {
    hide Pow, BytesVal, BytesOf, Reduced, CrtValue, Consistent, Usable;
    PairUsable(pub, priv);
    ReducedShort(input, priv.KeyNumbers().n, pub.bits);
    PrivatePower(BytesVal(input), priv.KeyNumbers());
  }

  lemma PrivatePower(v: nat, k: Numbers)
    requires Consistent(k) && k.q != 2
    ensures 0 < k.p && 0 < k.q && 0 < k.n && 0 <= Pow(v, k.d) % k.n < k.n
    ensures CrtValue(v, k) == Pow(v, k.d) % k.n
  {
    hide Pow, CrtPower, Consistent;
    KeyExponents(k);
    CrtPowerIsPower(v, k);
  }
}
