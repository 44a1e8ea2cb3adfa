/** The block formats of PKCS #1 (section 8.1 of RFC 2313) around the raw
    operations. */
module Pkcs {
  import opened Arith
  import opened Words
  import opened NNBytes
  import opened Keys
  import opened Outcome
  import opened Rsa
  import opened RsaPair

  /** A block of type 1: at least eight bytes 255 in front of the data. */
  ghost predicate IsType1(b: seq<Byte>, x: seq<Byte>) {
    && |x| + 11 <= |b| && b[0] == 0 && b[1] == 1
    && (forall k :: 2 <= k < |b| - |x| - 1 ==> b[k] == 0xff)
    && b[|b| - |x| - 1] == 0 && b[|b| - |x|..] == x
  }

  /** A block of type 2: at least eight nonzero bytes in front of the data. */
  ghost predicate IsType2(b: seq<Byte>, x: seq<Byte>) {
    && |x| + 11 <= |b| && b[0] == 0 && b[1] == 2
    && (forall k :: 2 <= k < |b| - |x| - 1 ==> b[k] != 0)
    && b[|b| - |x| - 1] == 0 && b[|b| - |x|..] == x
  }

  /** What stripping a block of type 1 gives: the data, or an error exactly
      when the block has no such form. */
  ghost predicate Stripped1(b: seq<Byte>, r: Result<seq<Byte>>) {
    match r
    case Ok(x) => IsType1(b, x)
    case Err(e) => e == RE_DATA && forall x :: !IsType1(b, x)
  }

  /** What stripping a block of type 2 gives; empty data is refused. */
  ghost predicate Stripped2(b: seq<Byte>, r: Result<seq<Byte>>) {
    match r
    case Ok(x) => IsType2(b, x) && x != []
    case Err(e) => e == RE_DATA && forall x :: IsType2(b, x) ==> x == []
  }

  lemma Type1Unique(b: seq<Byte>, x: seq<Byte>, y: seq<Byte>)
    requires IsType1(b, x) && IsType1(b, y)
    ensures x == y
  {
    assert |x| == |y|;
  }

  lemma Type2Unique(b: seq<Byte>, x: seq<Byte>, y: seq<Byte>)
    requires IsType2(b, x) && IsType2(b, y)
    ensures x == y
  {
    assert |x| == |y|;
  }

  function Fill(b: Byte, n: nat): (s: seq<Byte>)
    ensures |s| == n && forall i :: 0 <= i < n ==> s[i] == b
  {
    seq(n, i => b)
  }

  /** A block of type 1, written out. */
  lemma Type1Form(b: seq<Byte>, x: seq<Byte>)
    requires |x| + 11 <= |b|
    ensures IsType1(b, x) <==> b == [0, 1] + Fill(255, |b| - |x| - 3) + [0] + x
  {
    var n := |b| - |x| - 3;
    if IsType1(b, x) {
      assert b == [b[0], b[1]] + b[2..n + 2] + [b[n + 2]] + b[n + 3..];
      assert b[2..n + 2] == Fill(255, n);
    }
  }

  /** A block of type 2, written out. */
  lemma Type2Form(b: seq<Byte>, x: seq<Byte>)
    requires |x| + 11 <= |b|
    ensures IsType2(b, x) <==>
              && b == [0, 2] + b[2..|b| - |x| - 1] + [0] + x
              && forall k :: 2 <= k < |b| - |x| - 1 ==> b[k] != 0
  {
    var n := |b| - |x| - 3;
    assert b == [b[0], b[1]] + b[2..n + 2] + [b[n + 2]] + b[n + 3..];
    if b == [0, 2] + b[2..n + 2] + [0] + x {
      assert b[0] == 0 && b[1] == 2 && b[n + 2] == 0 && b[n + 3..] == x;
    }
  }

  // ---------- building blocks ----------

  /** Copies the data behind the separator. */
  method PutData(block: array<Byte>, i: nat, input: seq<Byte>)
    requires i + |input| <= block.Length
    modifies block
    ensures block[i..i + |input|] == input
    ensures forall k :: 0 <= k < i || i + |input| <= k < block.Length ==> block[k] == old(block[k])
  {
    var j := 0;
    while j < |input|
      invariant 0 <= j <= |input|
      invariant forall k :: 0 <= k < j ==> block[i + k] == input[k]
      invariant forall k :: 0 <= k < i || i + |input| <= k < block.Length ==> block[k] == old(block[k])
    {
      block[i + j] := input[j];
      j := j + 1;
    }
  }

  method BuildType1(input: seq<Byte>, modulusLen: nat) returns (b: seq<Byte>)
    requires |input| + 11 <= modulusLen <= MAX_RSA_MODULUS_LEN
    ensures |b| == modulusLen && IsType1(b, input)
  {
    var block := new Byte[MAX_RSA_MODULUS_LEN];
    block[0] := 0;
    block[1] := 1;
    var i := 2;
    while i < modulusLen - |input| - 1
      invariant 2 <= i <= modulusLen - |input| - 1
      invariant block[0] == 0 && block[1] == 1
      invariant forall k :: 2 <= k < i ==> block[k] == 0xff
    {
      block[i] := 0xff;
      i := i + 1;
    }
    block[i] := 0;
    i := i + 1;
    PutData(block, i, input);
    b := block[..modulusLen];
  }

  /** The padding is random; every byte of it is drawn until it is not zero. */
  method BuildType2(input: seq<Byte>, modulusLen: nat) returns (b: seq<Byte>)
    requires |input| + 11 <= modulusLen <= MAX_RSA_MODULUS_LEN
    ensures |b| == modulusLen && IsType2(b, input)
  {
    var block := new Byte[MAX_RSA_MODULUS_LEN];
    block[0] := 0;
    block[1] := 2;
    var i := 2;
    while i < modulusLen - |input| - 1
      invariant 2 <= i <= modulusLen - |input| - 1
      invariant block[0] == 0 && block[1] == 2
      invariant forall k :: 2 <= k < i ==> block[k] != 0
    {
      var byte: Byte :| byte != 0;
      block[i] := byte;
      i := i + 1;
    }
    block[i] := 0;
    i := i + 1;
    PutData(block, i, input);
    b := block[..modulusLen];
  }

  // ---------- parsing blocks ----------

  /** The search for the end of the padding of type 1. */
  method StripType1(b: seq<Byte>) returns (r: Result<seq<Byte>>)
    requires 3 <= |b|
    ensures Stripped1(b, r)
  {
    if b[0] != 0 || b[1] != 1 {
      return Err(RE_DATA);
    }
    var i := 2;
    while i < |b| - 1 && b[i] == 0xff
      invariant 2 <= i <= |b| - 1
      invariant forall k :: 2 <= k < i ==> b[k] == 0xff
    {
      i := i + 1;
    }
    NoOther1(b, i);
    if b[i] != 0 {
      return Err(RE_DATA);
    }
    i := i + 1;
    var outputLen := |b| - i;
    if outputLen + 11 > |b| {
      return Err(RE_DATA);
    }
    return Ok(b[i..]);
  }

  /** The data can only start behind the first byte that is not 255. */
  lemma NoOther1(b: seq<Byte>, i: nat)
    requires 2 <= i < |b| && (forall k :: 2 <= k < i ==> b[k] == 0xff) && (i == |b| - 1 || b[i] != 0xff)
    ensures forall x :: IsType1(b, x) ==> b[i] == 0 && |x| == |b| - i - 1
  {
    forall x | IsType1(b, x)
      ensures b[i] == 0 && |x| == |b| - i - 1
    {
      var s := |b| - |x| - 1;
      assert b[s] == 0;
    }
  }

  /** The search for the separator of type 2. */
  method StripType2(b: seq<Byte>) returns (r: Result<seq<Byte>>)
    requires 3 <= |b|
    ensures Stripped2(b, r)
  {
    if b[0] != 0 || b[1] != 2 {
      return Err(RE_DATA);
    }
    var i := 2;
    while i < |b| - 1 && b[i] != 0
      invariant 2 <= i <= |b| - 1
      invariant forall k :: 2 <= k < i ==> b[k] != 0
    {
      i := i + 1;
    }
    NoOther2(b, i);
    i := i + 1;
    if i >= |b| {
      return Err(RE_DATA);
    }
    var outputLen := |b| - i;
    if outputLen + 11 > |b| {
      return Err(RE_DATA);
    }
    return Ok(b[i..]);
  }

  lemma NoOther2(b: seq<Byte>, i: nat)
    requires 2 <= i < |b| && (forall k :: 2 <= k < i ==> b[k] != 0) && (i == |b| - 1 || b[i] == 0)
    ensures forall x :: IsType2(b, x) ==> |x| == |b| - i - 1
  {
    forall x | IsType2(b, x)
      ensures |x| == |b| - i - 1
    {
      var s := |b| - |x| - 1;
      assert b[s] == 0;
    }
  }

  // ---------- the four operations ----------

  /** r is the public operation on some block of type 2 around the data. */
  ghost predicate PublicEncrypted(input: seq<Byte>, key: PublicKey, r: Result<seq<Byte>>) {
    exists b :: |b| == key.ModulusLen() && IsType2(b, input) && r == PublicSpec(b, key)
  }

  method PublicEncrypt(input: seq<Byte>, key: PublicKey, bytesNeeded: nat) returns (r: Result<seq<Byte>>)
    requires key.Sized() && key.ModulusLen() <= MAX_RSA_MODULUS_LEN
    ensures |input| + 11 > key.ModulusLen() ==> r == Err(RE_LEN)
    ensures |input| + 11 <= key.ModulusLen() && bytesNeeded != 0 ==> r == Err(RE_NEED_RANDOM)
    ensures |input| + 11 <= key.ModulusLen() && bytesNeeded == 0 ==> PublicEncrypted(input, key, r)
  {
    hide PublicSpec, IsType2;
    var modulusLen := key.ModulusLen();
    if |input| + 11 > modulusLen {
      return Err(RE_LEN);
    }
    if bytesNeeded != 0 {
      return Err(RE_NEED_RANDOM);
    }
    var b := BuildType2(input, modulusLen);
    r := PublicFunc(b, key);
  }

  /** r is the private operation on the block of type 1 around the data. */
  ghost predicate PrivateEncrypted(input: seq<Byte>, key: PrivateKey, r: Result<seq<Byte>>)
    requires Usable(key.KeyNumbers())
  {
    exists b :: |b| == key.ModulusLen() && IsType1(b, input) && r == PrivateSpec(b, key)
  }

  method PrivateEncrypt(input: seq<Byte>, key: PrivateKey) returns (r: Result<seq<Byte>>)
    requires key.Sized() && key.ModulusLen() <= MAX_RSA_MODULUS_LEN && Usable(key.KeyNumbers())
    ensures |input| + 11 > key.ModulusLen() ==> r == Err(RE_LEN)
    ensures |input| + 11 <= key.ModulusLen() ==> PrivateEncrypted(input, key, r)
  {
    hide PrivateSpec, IsType1, Usable;
    var modulusLen := key.ModulusLen();
    if |input| + 11 > modulusLen {
      return Err(RE_LEN);
    }
    var b := BuildType1(input, modulusLen);
    r := PrivateFunc(b, key);
  }

  /** r is what the block in a signature holds. */
  ghost predicate PublicDecrypted(input: seq<Byte>, key: PublicKey, r: Result<seq<Byte>>) {
    if |input| > key.ModulusLen() then r == Err(RE_LEN)
    else match PublicSpec(input, key)
         case Ok(b) => Stripped1(b, r)
         case Err(e) => r == Err(e)
  }

  method PublicDecrypt(input: seq<Byte>, key: PublicKey) returns (r: Result<seq<Byte>>)
    requires key.Sized() && 3 <= key.ModulusLen() <= MAX_RSA_MODULUS_LEN
    ensures PublicDecrypted(input, key, r)
  {
    hide Stripped1;
    var modulusLen := key.ModulusLen();
    if |input| > modulusLen {
      return Err(RE_LEN);
    }
    var status := PublicFunc(input, key);
    if status.Err? {
      return Err(status.error);
    }
    if |status.value| != modulusLen {
      return Err(RE_LEN);
    }
    r := StripType1(status.value);
  }

  /** r is what the block in a ciphertext holds. */
  ghost predicate PrivateDecrypted(input: seq<Byte>, key: PrivateKey, r: Result<seq<Byte>>)
    requires Usable(key.KeyNumbers())
  {
    if |input| > key.ModulusLen() then r == Err(RE_LEN)
    else match PrivateSpec(input, key)
         case Ok(b) => Stripped2(b, r)
         case Err(e) => r == Err(e)
  }

  method PrivateDecrypt(input: seq<Byte>, key: PrivateKey) returns (r: Result<seq<Byte>>)
    requires key.Sized() && 3 <= key.ModulusLen() <= MAX_RSA_MODULUS_LEN && Usable(key.KeyNumbers())
    ensures PrivateDecrypted(input, key, r)
  {
    hide Stripped2, Usable;
    var modulusLen := key.ModulusLen();
    if |input| > modulusLen {
      return Err(RE_LEN);
    }
    var status := PrivateFunc(input, key);
    if status.Err? {
      return Err(status.error);
    }
    if |status.value| != modulusLen {
      return Err(RE_LEN);
    }
    r := StripType2(status.value);
  }

  // ---------- round trips ----------

  /** A block that starts with a zero byte is below the modulus. */
  lemma BlockBelowModulus(b: seq<Byte>, n: nat, bits: nat)
    requires 0 < bits && Pow(2, bits - 1) <= n < Pow(2, bits) && |b| == (bits + 7) / 8 && b[0] == 0
    ensures BytesVal(b) < n
  {
    hide Pow, BytesVal;
    ModulusSpan(n, bits);
    assert b == [b[0]] + b[1..];
    BytesCons(b[0], b[1..]);
    BytesBound(b[1..]);
  }

  /** What was encrypted for the public key is decrypted with the private one;
      only empty data is not. */
  lemma PublicRoundTrip(x: seq<Byte>, c: Result<seq<Byte>>, r: Result<seq<Byte>>, pub: PublicKey, priv: PrivateKey)
    requires KeyPair(pub, priv) && Usable(priv.KeyNumbers()) && PublicEncrypted(x, pub, c)
    ensures c.Ok? && |c.value| == pub.ModulusLen()
    ensures PrivateDecrypted(c.value, priv, r) ==> r == if x == [] then Err(RE_DATA) else Ok(x)
  {
    var b :| |b| == pub.ModulusLen() && IsType2(b, x) && c == PublicSpec(b, pub);
    BlockBelowModulus(b, priv.KeyNumbers().n, pub.bits);
    PrivateUndoesPublic(b, pub, priv);
    if PrivateDecrypted(c.value, priv, r) {
      assert Stripped2(b, r);
      if r.Ok? { Type2Unique(b, x, r.value); }
    }
  }

  /** What was signed with the private key is recovered with the public one,
      for every length that fits. */
  lemma PrivateRoundTrip(x: seq<Byte>, s: Result<seq<Byte>>, r: Result<seq<Byte>>, pub: PublicKey, priv: PrivateKey)
    requires KeyPair(pub, priv) && Usable(priv.KeyNumbers()) && PrivateEncrypted(x, priv, s)
    ensures s.Ok? && |s.value| == pub.ModulusLen()
    ensures PublicDecrypted(s.value, pub, r) ==> r == Ok(x)
  {
    var b :| |b| == priv.ModulusLen() && IsType1(b, x) && s == PrivateSpec(b, priv);
    BlockBelowModulus(b, priv.KeyNumbers().n, pub.bits);
    PublicUndoesPrivate(b, pub, priv);
    if PublicDecrypted(s.value, pub, r) {
      assert Stripped1(b, r);
      if r.Ok? { Type1Unique(b, x, r.value); }
    }
  }

  /** What the private key makes of a ciphertext: 0, 2, eight or more nonzero
      bytes, 0 and the data. */
  lemma PublicBlock(x: seq<Byte>, c: Result<seq<Byte>>, pub: PublicKey, priv: PrivateKey)
    requires KeyPair(pub, priv) && Usable(priv.KeyNumbers()) && PublicEncrypted(x, pub, c)
    ensures c.Ok?
    ensures var r := PrivateSpec(c.value, priv);
            && r.Ok? && |r.value| == (pub.bits + 7) / 8 && |x| + 11 <= |r.value|
            && r.value == [0, 2] + r.value[2..|r.value| - |x| - 1] + [0] + x
            && forall k :: 2 <= k < |r.value| - |x| - 1 ==> r.value[k] != 0
  {
    hide PublicSpec, PrivateSpec, KeyPair, IsType1, IsType2;
    var b :| |b| == pub.ModulusLen() && IsType2(b, x) && c == PublicSpec(b, pub);
    PairSpan(pub, priv);
    FirstIsZero(b, x);
    BlockBelowModulus(b, priv.KeyNumbers().n, pub.bits);
    PrivateUndoesPublic(b, pub, priv);
    Type2Form(b, x);
  }

  lemma FirstIsZero(b: seq<Byte>, x: seq<Byte>)
    requires IsType1(b, x) || IsType2(b, x)
    ensures |x| + 11 <= |b| && b[0] == 0
  {
  }

  lemma PairSpan(pub: PublicKey, priv: PrivateKey)
    requires KeyPair(pub, priv)
    ensures 0 < pub.bits == priv.bits && Pow(2, pub.bits - 1) <= priv.KeyNumbers().n < Pow(2, pub.bits)
    ensures pub.modulus == priv.modulus
  {
  }

  /** What the public key makes of a signature: 0, 1, bytes 255, 0 and the
      data. */
  lemma PrivateBlock(x: seq<Byte>, s: Result<seq<Byte>>, pub: PublicKey, priv: PrivateKey)
    requires KeyPair(pub, priv) && Usable(priv.KeyNumbers()) && PrivateEncrypted(x, priv, s)
    ensures s.Ok?
    ensures var r := PublicSpec(s.value, pub);
            && r.Ok? && |r.value| == (pub.bits + 7) / 8 && |x| + 11 <= |r.value|
            && r.value == [0, 1] + Fill(255, |r.value| - |x| - 3) + [0] + x
  {
    hide PublicSpec, PrivateSpec, KeyPair, IsType1, IsType2;
    var b :| |b| == priv.ModulusLen() && IsType1(b, x) && s == PrivateSpec(b, priv);
    PairSpan(pub, priv);
    FirstIsZero(b, x);
    BlockBelowModulus(b, priv.KeyNumbers().n, pub.bits);
    PublicUndoesPrivate(b, pub, priv);
    Type1Form(b, x);
  }
}
