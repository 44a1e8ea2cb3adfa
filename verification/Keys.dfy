/** RSA keys as the library stores them: fixed-length byte strings, most
    significant byte first. */
module Keys {
  import opened Words
  import opened NNBytes
  import opened RsaTheory

  const MAX_NN_DIGITS: nat := 33
  const MIN_RSA_MODULUS_BITS: nat := 508
  const MAX_RSA_MODULUS_BITS: nat := 1024
  const MAX_RSA_MODULUS_LEN: nat := 128
  const MAX_RSA_PRIME_LEN: nat := 64

  datatype PublicKey = PublicKey(bits: nat, modulus: seq<Byte>, exponent: seq<Byte>) {
    predicate Sized() {
      |modulus| == MAX_RSA_MODULUS_LEN && |exponent| == MAX_RSA_MODULUS_LEN
    }

    function ModulusLen(): nat {
      (bits + 7) / 8
    }
  }

  datatype PrivateKey = PrivateKey(bits: nat, modulus: seq<Byte>, publicExponent: seq<Byte>, exponent: seq<Byte>,
                                   prime0: seq<Byte>, prime1: seq<Byte>, primeExponent0: seq<Byte>,
                                   primeExponent1: seq<Byte>, coefficient: seq<Byte>) {
    predicate Sized() {
      && |modulus| == MAX_RSA_MODULUS_LEN && |publicExponent| == MAX_RSA_MODULUS_LEN
      && |exponent| == MAX_RSA_MODULUS_LEN
      && |prime0| == MAX_RSA_PRIME_LEN && |prime1| == MAX_RSA_PRIME_LEN
      && |primeExponent0| == MAX_RSA_PRIME_LEN && |primeExponent1| == MAX_RSA_PRIME_LEN
      && |coefficient| == MAX_RSA_PRIME_LEN
    }

    function ModulusLen(): nat {
      (bits + 7) / 8
    }

    /** The numbers in the byte strings. */
    ghost function KeyNumbers(): Numbers {
      Numbers(BytesVal(prime0), BytesVal(prime1), BytesVal(modulus), BytesVal(publicExponent),
              BytesVal(exponent), BytesVal(primeExponent0), BytesVal(primeExponent1), BytesVal(coefficient))
    }
  }
}
