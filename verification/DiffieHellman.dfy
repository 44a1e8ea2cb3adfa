/** Diffie-Hellman key agreement. */
module DiffieHellman {
  import opened Arith
  import opened Words
  import opened Value
  import opened NNBasic
  import opened NNModular
  import opened NNBytes
  import opened Keys
  import opened Outcome
  import opened Rsa

  datatype Params = Params(prime: seq<Byte>, generator: seq<Byte>) {
    predicate Sized() {
      |prime| <= 4 * MAX_NN_DIGITS
    }

    ghost function P(): nat {
      BytesVal(prime)
    }
  }

  /** The public value that belongs to a private value. */
  ghost function PublicValue(params: Params, private: seq<Byte>): (s: seq<Byte>)
    requires 0 < params.P()
    ensures |s| == |params.prime|
  {
    var p := params.P();
    BytesOf(PowMod(Reduced(params.generator, p), Reduced(private, p), p), |params.prime|)
  }

  /** The agreed key that belongs to the other public value and a private one. */
  ghost function AgreedKey(params: Params, other: seq<Byte>, private: seq<Byte>): Result<seq<Byte>>
    requires |other| == |params.prime|
  {
    var p := params.P();
    if p <= Reduced(other, p) then Err(RE_DATA)
    else Ok(BytesOf(PowMod(Reduced(other, p), Reduced(private, p), p), |params.prime|))
  }

  /** A byte string in the digits of the prime. */
  method DecodeReduced(b: seq<Byte>, n: nat, ghost p: nat) returns (a: array<Digit>)
    requires n == SigDigits(p)
    ensures fresh(a) && a.Length == n && Val(a[..n]) == Reduced(b, p)
  {
    a := new Digit[n];
    Decode(a, n, b);
  }

  /** Computes the public value; the private value is random. */
  method SetupAgreement(params: Params, seeded: bool, private: seq<Byte>) returns (r: Result<seq<Byte>>)
    requires params.Sized() && 0 < params.P()
    ensures r == if seeded then Ok(PublicValue(params, private)) else Err(RE_NEED_RANDOM)
  {
    hide Val, BytesVal, BytesOf, PowMod, SigDigits, Reduced;
    var p, pDigits := DecodeNumber(params.prime);
    var g := DecodeReduced(params.generator, pDigits, params.P());
    if !seeded {
      return Err(RE_NEED_RANDOM);
    }
    var x := DecodeReduced(private, pDigits, params.P());
    var xDigits := Digits(x, pDigits);
    var y := new Digit[pDigits];
    ModExp(y, g, x, xDigits, p, pDigits);
    var output := new Byte[|params.prime|];
    Encode(output, |params.prime|, y, pDigits);
    assert output[..] == output[..|params.prime|];
    return Ok(output[..]);
  }

  /** Computes the agreed key; a public value that is too large is refused. */
  method ComputeAgreedKey(params: Params, other: seq<Byte>, private: seq<Byte>) returns (r: Result<seq<Byte>>)
    requires params.Sized() && |other| == |params.prime|
    ensures r == AgreedKey(params, other, private)
  {
    hide Val, BytesVal, BytesOf, PowMod, SigDigits, Reduced;
    var p, pDigits := DecodeNumber(params.prime);
    var x := DecodeReduced(private, pDigits, params.P());
    var y := DecodeReduced(other, pDigits, params.P());
    var xDigits := Digits(x, pDigits);
    var sign := Cmp(y, p, pDigits);
    if sign >= 0 {
      return Err(RE_DATA);
    }
    var z := new Digit[pDigits];
    ModExp(z, y, x, xDigits, p, pDigits);
    var output := new Byte[|params.prime|];
    Encode(output, |params.prime|, z, pDigits);
    assert output[..] == output[..|params.prime|];
    return Ok(output[..]);
  }

  // ---------- agreement ----------

  /** Above the modulus 1 the exponent 0 is no exception. */
  lemma PowModPlain(b: int, e: nat, d: nat)
    requires 1 < d
    ensures 0 <= PowMod(b, e, d) == Pow(b, e) % d < d
  {
    if e == 0 { ModSmall(1, d); }
  }

  /** A number below the prime survives the way through its bytes. */
  lemma ReducedBytes(v: nat, s: seq<Byte>)
    requires v < BytesVal(s)
    ensures Reduced(BytesOf(v, |s|), BytesVal(s)) == v
  {
    hide BytesVal, BytesOf;
    BytesBound(s);
    BytesOfVal(v, |s|);
    ModSmall(v, Pow(256, |s|));
    SigDigitsBounds(BytesVal(s));
    ModSmall(v, Weight(SigDigits(BytesVal(s))));
  }

  /** k digits are those of p when p fits them, and no fewer. */
  lemma DigitsOfPrime(p: nat, k: nat)
    requires 0 < k && Weight(k - 1) <= p < Weight(k)
    ensures SigDigits(p) == k
  {
    SigDigitsUnique(p, k);
  }

  /** The public value in plain terms, for a prime of k digits: the generator
      to the private value modulo the prime; both are cut to k digits. */
  lemma PublicValueMeaning(params: Params, private: seq<Byte>, k: nat)
    requires 1 < params.P() && 0 < k && Weight(k - 1) <= BytesVal(params.prime) < Weight(k)
    ensures var p := BytesVal(params.prime);
            var g, x := BytesVal(params.generator) % Weight(k), BytesVal(private) % Weight(k);
            && |PublicValue(params, private)| == |params.prime|
            && BytesVal(PublicValue(params, private)) == Pow(g, x) % p
  {
    hide Weight, BytesVal, BytesOf, PowMod, Pow;
    var p := params.P();
    DigitsOfPrime(p, k);
    var g, x := BytesVal(params.generator) % Weight(k), BytesVal(private) % Weight(k);
    PowModPlain(g, x, p);
    BytesBack(PowMod(g, x, p), params.prime);
  }

  lemma BytesBack(v: nat, s: seq<Byte>)
    requires v < BytesVal(s)
    ensures BytesVal(BytesOf(v, |s|)) == v
  {
    BytesBound(s);
    BytesOfVal(v, |s|);
    ModSmall(v, Pow(256, |s|));
  }

  /** The agreed key in plain terms: the other value, cut to k digits, is
      refused exactly when it is not below the prime, and else raised to the
      private one. */
  lemma AgreedKeyMeaning(params: Params, other: seq<Byte>, private: seq<Byte>, k: nat)
    requires 1 < params.P() && 0 < k && Weight(k - 1) <= BytesVal(params.prime) < Weight(k)
    requires |other| == |params.prime|
    ensures var p := BytesVal(params.prime);
            var y, x := BytesVal(other) % Weight(k), BytesVal(private) % Weight(k);
            match AgreedKey(params, other, private)
            case Err(e) => e == RE_DATA && p <= y
            case Ok(s) => y < p && |s| == |params.prime| && BytesVal(s) == Pow(y, x) % p
  {
    hide Weight, BytesVal, BytesOf, PowMod, Pow;
    var p := params.P();
    DigitsOfPrime(p, k);
    var y, x := BytesVal(other) % Weight(k), BytesVal(private) % Weight(k);
    PowModPlain(y, x, p);
    if y < p {
      BytesBack(PowMod(y, x, p), params.prime);
    }
  }

  lemma PowersCommute(g: nat, x: nat, y: nat, p: nat)
    requires 1 < p
    ensures Pow(Pow(g, x) % p, y) % p == Pow(Pow(g, y) % p, x) % p
  {
    ModMod(Pow(g, x), p);
    ModMod(Pow(g, y), p);
    PowCong(Pow(g, x) % p, Pow(g, x), y, p);
    PowCong(Pow(g, y) % p, Pow(g, y), x, p);
    PowPow(g, x, y);
    PowPow(g, y, x);
    assert x * y == y * x;
  }

  /** An honest public value is accepted, and leads to this key. */
  lemma HonestKey(params: Params, mine: seq<Byte>, theirs: seq<Byte>)
    requires 1 < params.P()
    ensures var p := params.P();
            var g := Reduced(params.generator, p);
            AgreedKey(params, PublicValue(params, theirs), mine)
            == Ok(BytesOf(Pow(Pow(g, Reduced(theirs, p)) % p, Reduced(mine, p)) % p, |params.prime|))
  {
    var p := params.P();
    var g, x, y := Reduced(params.generator, p), Reduced(mine, p), Reduced(theirs, p);
    hide BytesVal, BytesOf, Reduced, PowMod, Pow;
    PowModPlain(g, y, p);
    ReducedBytes(PowMod(g, y, p), params.prime);
    PowModPlain(Pow(g, y) % p, x, p);
  }

  /** Both parties compute the same key, whatever their private values are. */
  lemma Agreement(params: Params, a: seq<Byte>, b: seq<Byte>)
    requires 1 < params.P()
    ensures AgreedKey(params, PublicValue(params, a), b).Ok?
    ensures AgreedKey(params, PublicValue(params, a), b) == AgreedKey(params, PublicValue(params, b), a)
  {
    var p := params.P();
    HonestKey(params, a, b);
    HonestKey(params, b, a);
    hide AgreedKey, PublicValue, BytesOf, BytesVal;
    PowersCommute(Reduced(params.generator, p), Reduced(a, p), Reduced(b, p), p);
  }

  /** An honest value is never refused exactly when the modulus is not 1: then
      the private value 0 leads to the public value 1. */
  lemma HonestAcceptedIff(params: Params)
    requires 0 < params.P()
    ensures (forall a: seq<Byte>, b: seq<Byte> :: AgreedKey(params, PublicValue(params, a), b).Ok?) <==> 1 < params.P()
  {
    if 1 < params.P() {
      forall a: seq<Byte>, b: seq<Byte>
        ensures AgreedKey(params, PublicValue(params, a), b).Ok?
      {
        Agreement(params, a, b);
      }
    } else {
      BytesEmpty();
      SigDigitsOne();
      ModSmall(0, Weight(1));
      assert Reduced([], 1) == 0;
      NonEmptyPrime(params.prime);
      BytesOfVal(1, |params.prime|);
      OneFits(|params.prime|);
      ModSmall(1, Pow(256, |params.prime|));
      ModSmall(1, Weight(1));
      assert !AgreedKey(params, PublicValue(params, []), []).Ok?;
    }
  }

  lemma SigDigitsOne()
    ensures SigDigits(1) == 1 && Weight(1) == BASE
  {
    assert SigDigits(0) == 0;
    assert Weight(0) == 1;
    WeightSucc(0);
  }

  lemma NonEmptyPrime(s: seq<Byte>)
    requires BytesVal(s) == 1
    ensures |s| != 0
  {
  }

  lemma OneFits(n: nat)
    requires n != 0
    ensures 1 < Pow(256, n)
  {
    PowMonoStrict(256, 0, n);
  }
}
