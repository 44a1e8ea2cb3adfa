/** Messages of any length: the class CRSA splits them into RSA blocks. */
module Crsa {
  import opened Words
  import opened Sequences
  import opened Keys
  import opened Outcome
  import opened Rsa
  import opened RsaPair
  import opened Pkcs

  // ---------- splitting and joining ----------

  /** The part of at most step bytes from offset i. */
  function Part(data: seq<Byte>, i: nat, step: nat): (p: seq<Byte>)
    requires i <= |data|
  {
    if i + step > |data| then data[i..] else data[i..i + step]
  }

  /** The parts in which a message is processed. */
  function Parts(data: seq<Byte>, step: nat): (ps: seq<seq<Byte>>)
    requires 0 < step
  {
    if |data| == 0 then []
    else [Part(data, 0, step)] + Parts(data[|Part(data, 0, step)|..], step)
  }

  /** The parts make up the message. */
  lemma {:induction false} PartsFlatten(data: seq<Byte>, step: nat)
    requires 0 < step
    ensures Flatten(Parts(data, step)) == data
    decreases |data|
  {
    if data != [] {
      var p := Part(data, 0, step);
      PartsFlatten(data[|p|..], step);
      FlattenCons(p, Parts(data[|p|..], step));
    }
  }

  /** Every part is a nonempty string of at most step bytes. */
  lemma {:induction false} PartsSizes(data: seq<Byte>, step: nat)
    requires 0 < step
    ensures forall p :: p in Parts(data, step) ==> 0 < |p| <= step
    decreases |data|
  {
    if data != [] {
      PartsSizes(data[|Part(data, 0, step)|..], step);
    }
  }

  /** The number of parts. */
  lemma {:induction false} PartsCount(data: seq<Byte>, step: nat)
    requires 0 < step
    ensures step * |Parts(data, step)| - step < |data| <= step * |Parts(data, step)|
    decreases |data|
  {
    if data == [] {
      assert step * 0 == 0;
    } else {
      var p := Part(data, 0, step);
      var rest := Parts(data[|p|..], step);
      PartsCount(data[|p|..], step);
      assert step * (1 + |rest|) == step + step * |rest|;
      if data[|p|..] == [] {
        assert rest == [] && step * 0 == 0;
      }
    }
  }

  lemma {:induction false} FlattenLength(ss: seq<seq<Byte>>, len: nat)
    requires forall k :: 0 <= k < |ss| ==> |ss[k]| == len
    ensures |Flatten(ss)| == len * |ss|
    decreases |ss|
  {
    if ss == [] {
      assert len * 0 == 0;
    } else {
      var n := |ss| - 1;
      FlattenLength(ss[..n], len);
      assert len * (n + 1) == len * n + len;
    }
  }

  /** Strings that all have the full length are their own parts. */
  lemma {:induction false} FullParts(ss: seq<seq<Byte>>, step: nat)
    requires 0 < step && forall s :: s in ss ==> |s| == step
    ensures Parts(Flatten(ss), step) == ss
    decreases |ss|
  {
    if ss != [] {
      var s, rest := ss[0], ss[1..];
      assert ss == [s] + rest;
      FlattenCons(s, rest);
      FullParts(rest, step);
      assert Flatten(ss)[..step] == s && Flatten(ss)[step..] == Flatten(rest);
    }
  }

  /** What is left from offset i. */
  function Rest(data: seq<Byte>, i: nat): seq<Byte> {
    if i < |data| then data[i..] else []
  }

  /** The next part of the loop. */
  lemma NextPart(data: seq<Byte>, i: nat, step: nat, done: seq<seq<Byte>>)
    requires 0 < step && i < |data|
    requires done + Parts(Rest(data, i), step) == Parts(data, step)
    ensures (done + [Part(data, i, step)]) + Parts(Rest(data, i + step), step) == Parts(data, step)
  {
    hide Parts;
    var p := Part(data, i, step);
    assert p == Part(data[i..], 0, step) && data[i..][|p|..] == Rest(data, i + step);
    FirstPart(data[i..], step);
    assert (done + [p]) + Parts(Rest(data, i + step), step) == done + ([p] + Parts(Rest(data, i + step), step));
  }

  lemma FirstPart(data: seq<Byte>, step: nat)
    requires 0 < step && data != []
    ensures var p := Part(data, 0, step); Parts(data, step) == [p] + Parts(data[|p|..], step)
  {
  }

  // ---------- the class ----------

  datatype EnType = EnType_Pub | EnType_Pri
  datatype DeType = DeType_Pub | DeType_Pri

  /** One block in, one block out. */
  ghost predicate Encrypted(t: EnType, x: seq<Byte>, pub: PublicKey, priv: PrivateKey, c: seq<Byte>)
    requires Usable(priv.KeyNumbers())
  {
    match t
    case EnType_Pub => PublicEncrypted(x, pub, Ok(c))
    case EnType_Pri => PrivateEncrypted(x, priv, Ok(c))
  }

  ghost predicate Decrypted(t: DeType, c: seq<Byte>, pub: PublicKey, priv: PrivateKey, r: Result<seq<Byte>>)
    requires Usable(priv.KeyNumbers())
  {
    match t
    case DeType_Pub => PublicDecrypted(c, pub, r)
    case DeType_Pri => PrivateDecrypted(c, priv, r)
  }

  /** Everything an encryption can return. */
  ghost predicate EncryptedResult(t: EnType, x: seq<Byte>, pub: PublicKey, priv: PrivateKey, r: Result<seq<Byte>>)
    requires Usable(priv.KeyNumbers())
  {
    match t
    case EnType_Pub => PublicEncrypted(x, pub, r)
    case EnType_Pri => PrivateEncrypted(x, priv, r)
  }

  /** The part of a message that is refused. */
  datatype Refusal = Refusal(part: seq<Byte>, error: Error)

  /** Block by block. */
  ghost predicate AllEncrypted(t: EnType, xs: seq<seq<Byte>>, pub: PublicKey, priv: PrivateKey, cs: seq<seq<Byte>>)
    requires Usable(priv.KeyNumbers())
  {
    |xs| == |cs| && forall k :: 0 <= k < |xs| ==> Encrypted(t, xs[k], pub, priv, cs[k])
  }

  ghost predicate AllDecrypted(t: DeType, cs: seq<seq<Byte>>, pub: PublicKey, priv: PrivateKey, xs: seq<seq<Byte>>)
    requires Usable(priv.KeyNumbers())
  {
    |xs| == |cs| && forall k :: 0 <= k < |cs| ==> Decrypted(t, cs[k], pub, priv, Ok(xs[k]))
  }

  /** The outcome of a whole encryption: the joined blocks, or nothing after a
      part that is refused; without a seed the public key refuses them all. */
  ghost predicate EncryptedMessage(t: EnType, data: seq<Byte>, step: nat, pub: PublicKey, priv: PrivateKey,
                                   bytesNeeded: nat, out: seq<Byte>)
    requires Usable(priv.KeyNumbers()) && 0 < step
  {
    var seeded := t == EnType_Pri || bytesNeeded == 0;
    || ((seeded || data == [])
        && exists blocks: seq<seq<Byte>> ::
             AllEncrypted(t, Parts(data, step), pub, priv, blocks) && out == Flatten(blocks))
    || (out == [] && !seeded)
    || (out == [] && seeded && exists bad: Refusal :: EncryptionRefused(t, Parts(data, step), pub, priv, bad))
  }

  ghost predicate EncryptionRefused(t: EnType, parts: seq<seq<Byte>>, pub: PublicKey, priv: PrivateKey, bad: Refusal)
    requires Usable(priv.KeyNumbers())
  {
    bad.part in parts && EncryptedResult(t, bad.part, pub, priv, Err(bad.error))
  }

  /** The outcome of a whole decryption. */
  ghost predicate DecryptedMessage(t: DeType, data: seq<Byte>, step: nat, pub: PublicKey, priv: PrivateKey,
                                   out: seq<Byte>)
    requires Usable(priv.KeyNumbers()) && 0 < step
  {
    || (exists plains: seq<seq<Byte>> ::
          AllDecrypted(t, Parts(data, step), pub, priv, plains) && out == Flatten(plains))
    || (out == [] && exists bad: Refusal :: DecryptionRefused(t, Parts(data, step), pub, priv, bad))
  }

  ghost predicate DecryptionRefused(t: DeType, parts: seq<seq<Byte>>, pub: PublicKey, priv: PrivateKey, bad: Refusal)
    requires Usable(priv.KeyNumbers())
  {
    bad.part in parts && Decrypted(t, bad.part, pub, priv, Err(bad.error))
  }

  class CRSA {
    var pubKey: PublicKey
    var priKey: PrivateKey
    var bytesNeeded: nat

    ghost predicate Valid()
      reads this
    {
      && pubKey.Sized() && priKey.Sized() && Usable(priKey.KeyNumbers())
      && 11 < pubKey.ModulusLen() <= MAX_RSA_MODULUS_LEN && 11 < priKey.ModulusLen() <= MAX_RSA_MODULUS_LEN
    }

    constructor (pub: PublicKey, priv: PrivateKey, bytesNeeded: nat)
      ensures pubKey == pub && priKey == priv && this.bytesNeeded == bytesNeeded
    {
      pubKey, priKey := pub, priv;
      this.bytesNeeded := bytesNeeded;
    }

    method SetKey(pub: PublicKey, priv: PrivateKey, bytesNeeded: nat)
      modifies this
      ensures pubKey == pub && priKey == priv && this.bytesNeeded == bytesNeeded
    {
      pubKey, priKey := pub, priv;
      this.bytesNeeded := bytesNeeded;
    }

    /** The length of the modulus in bytes: the parts of a decryption have it,
        and those of an encryption eleven less. */
    ghost function Len(public: bool): nat
      reads this
    {
      ((if public then pubKey.bits else priKey.bits) + 7) / 8
    }

    /** One block; neither key is changed. */
    method EncryptBlock(t: EnType, x: seq<Byte>) returns (r: Result<seq<Byte>>)
      requires Valid() && |x| + 11 <= Len(t == EnType_Pub)
      ensures r.Ok? ==> Encrypted(t, x, pubKey, priKey, r.value)
      ensures if t == EnType_Pri || bytesNeeded == 0 then EncryptedResult(t, x, pubKey, priKey, r)
              else r == Err(RE_NEED_RANDOM)
    {
      hide Usable, PublicEncrypted, PrivateEncrypted;
      match t {
        case EnType_Pub => r := PublicEncrypt(x, pubKey, bytesNeeded);
        case EnType_Pri => r := PrivateEncrypt(x, priKey);
      }
    }

    method DecryptBlock(t: DeType, c: seq<Byte>) returns (r: Result<seq<Byte>>)
      requires Valid()
      ensures Decrypted(t, c, pubKey, priKey, r)
    {
      hide Usable, PublicDecrypted, PrivateDecrypted;
      match t {
        case DeType_Pub => r := PublicDecrypt(c, pubKey);
        case DeType_Pri => r := PrivateDecrypt(c, priKey);
      }
    }

    /** The message in encrypted blocks; the empty string when a block cannot
        be encrypted. */
    method RSAEncrypt(t: EnType, data: seq<Byte>) returns (out: seq<Byte>)
      requires Valid()
      ensures var len := Len(t == EnType_Pub);
              11 < len && EncryptedMessage(t, data, len - 11, pubKey, priKey, bytesNeeded, out)
    {
      hide Usable, EncryptedResult, EncryptedMessage, EncryptedUpTo;
      var iStep := match t case EnType_Pub => pubKey.ModulusLen() - 11 case EnType_Pri => priKey.ModulusLen() - 11;
      assert iStep == Len(t == EnType_Pub) - 11;
      ghost var parts: seq<seq<Byte>>, blocks: seq<seq<Byte>> := [], [];
      out := [];
      var i := 0;
      EncryptStart(t, data, iStep, pubKey, priKey);
      while i < |data|
        invariant 0 <= i
        invariant t == EnType_Pub && bytesNeeded != 0 ==> i == 0
        invariant EncryptedUpTo(t, data, i, iStep, pubKey, priKey, parts, blocks, out)
      {
        var part := Part(data, i, iStep);
        var r := EncryptBlock(t, part);
        if r.Err? {
          EncryptRefused(t, data, i, iStep, pubKey, priKey, bytesNeeded, parts, blocks, out, r);
          return [];
        }
        EncryptNext(t, data, i, iStep, pubKey, priKey, parts, blocks, out, r.value);
        out := out + r.value;
        parts, blocks := parts + [part], blocks + [r.value];
        i := i + iStep;
      }
      EncryptEnd(t, data, i, iStep, pubKey, priKey, bytesNeeded, parts, blocks, out);
    }

    /** The message in the blocks; the empty string when one does not decrypt. */
    method RSADecrypt(t: DeType, data: seq<Byte>) returns (out: seq<Byte>)
      requires Valid()
      ensures var len := Len(t == DeType_Pub);
              0 < len && DecryptedMessage(t, data, len, pubKey, priKey, out)
    {
      hide Usable, Decrypted, DecryptedMessage, DecryptedUpTo;
      var iStep := match t case DeType_Pub => pubKey.ModulusLen() case DeType_Pri => priKey.ModulusLen();
      assert iStep == Len(t == DeType_Pub);
      ghost var parts: seq<seq<Byte>>, plains: seq<seq<Byte>> := [], [];
      out := [];
      var i := 0;
      DecryptStart(t, data, iStep, pubKey, priKey);
      while i < |data|
        invariant 0 <= i
        invariant DecryptedUpTo(t, data, i, iStep, pubKey, priKey, parts, plains, out)
      {
        var part := Part(data, i, iStep);
        var r := DecryptBlock(t, part);
        if r.Err? {
          DecryptRefused(t, data, i, iStep, pubKey, priKey, parts, plains, out, r);
          return [];
        }
        DecryptNext(t, data, i, iStep, pubKey, priKey, parts, plains, out, r);
        out := out + r.value;
        parts, plains := parts + [part], plains + [r.value];
        i := i + iStep;
      }
      DecryptEnd(t, data, i, iStep, pubKey, priKey, parts, plains, out);
    }
  }

  /** The parts in front of offset i are encrypted to the blocks, which make up
      out. */
  ghost predicate EncryptedUpTo(t: EnType, data: seq<Byte>, i: nat, step: nat, pub: PublicKey, priv: PrivateKey,
                                parts: seq<seq<Byte>>, blocks: seq<seq<Byte>>, out: seq<Byte>)
    requires Usable(priv.KeyNumbers()) && 0 < step
  {
    && out == Flatten(blocks) && AllEncrypted(t, parts, pub, priv, blocks)
    && parts + Parts(Rest(data, i), step) == Parts(data, step)
  }

  lemma EncryptStart(t: EnType, data: seq<Byte>, step: nat, pub: PublicKey, priv: PrivateKey)
    requires Usable(priv.KeyNumbers()) && 0 < step
    ensures EncryptedUpTo(t, data, 0, step, pub, priv, [], [], [])
  {
    hide Usable, Parts;
    NoBlocks(t, pub, priv);
    AllLeft(data, step);
  }

  lemma AllLeft(data: seq<Byte>, step: nat)
    requires 0 < step
    ensures [] + Parts(Rest(data, 0), step) == Parts(data, step)
  {
    hide Parts;
    assert Rest(data, 0) == data;
  }

  lemma NoneLeft(data: seq<Byte>, i: nat, step: nat, parts: seq<seq<Byte>>)
    requires 0 < step && |data| <= i && parts + Parts(Rest(data, i), step) == Parts(data, step)
    ensures parts == Parts(data, step)
  {
    hide Parts;
    NoParts(step);
    assert parts + [] == parts;
  }

  lemma PartIn(data: seq<Byte>, i: nat, step: nat, parts: seq<seq<Byte>>)
    requires 0 < step && i < |data| && parts + Parts(Rest(data, i), step) == Parts(data, step)
    ensures Part(data, i, step) in Parts(data, step)
  {
    hide Parts;
    NextPart(data, i, step, parts);
    assert (parts + [Part(data, i, step)])[|parts|] == Part(data, i, step);
  }

  lemma EncryptNext(t: EnType, data: seq<Byte>, i: nat, step: nat, pub: PublicKey, priv: PrivateKey,
                    parts: seq<seq<Byte>>, blocks: seq<seq<Byte>>, out: seq<Byte>, c: seq<Byte>)
    requires Usable(priv.KeyNumbers()) && 0 < step && i < |data|
    requires EncryptedUpTo(t, data, i, step, pub, priv, parts, blocks, out)
    requires Encrypted(t, Part(data, i, step), pub, priv, c)
    ensures EncryptedUpTo(t, data, i + step, step, pub, priv, parts + [Part(data, i, step)], blocks + [c], out + c)
  {
    hide Usable, Parts, Encrypted, AllEncrypted, Flatten;
    NextPart(data, i, step, parts);
    AppendBlock(t, parts, Part(data, i, step), pub, priv, blocks, c);
  }

  lemma EncryptRefused(t: EnType, data: seq<Byte>, i: nat, step: nat, pub: PublicKey, priv: PrivateKey,
                       bytesNeeded: nat, parts: seq<seq<Byte>>, blocks: seq<seq<Byte>>, out: seq<Byte>,
                       r: Result<seq<Byte>>)
    requires Usable(priv.KeyNumbers()) && 0 < step && i < |data| && r.Err?
    requires EncryptedUpTo(t, data, i, step, pub, priv, parts, blocks, out)
    requires t == EnType_Pri || bytesNeeded == 0 ==> EncryptedResult(t, Part(data, i, step), pub, priv, r)
    ensures EncryptedMessage(t, data, step, pub, priv, bytesNeeded, [])
  {
    hide Usable, Parts, Encrypted, EncryptedResult, EncryptedMessage, AllEncrypted, Flatten;
    PartIn(data, i, step, parts);
    PartRefused(t, data, step, pub, priv, bytesNeeded, Part(data, i, step), r);
  }

  lemma EncryptEnd(t: EnType, data: seq<Byte>, i: nat, step: nat, pub: PublicKey, priv: PrivateKey, bytesNeeded: nat,
                   parts: seq<seq<Byte>>, blocks: seq<seq<Byte>>, out: seq<Byte>)
    requires Usable(priv.KeyNumbers()) && 0 < step && |data| <= i
    requires t == EnType_Pub && bytesNeeded != 0 ==> i == 0
    requires EncryptedUpTo(t, data, i, step, pub, priv, parts, blocks, out)
    ensures EncryptedMessage(t, data, step, pub, priv, bytesNeeded, out)
  {
    hide Usable, Parts, Encrypted, EncryptedMessage, AllEncrypted, Flatten;
    NoneLeft(data, i, step, parts);
    AllAccepted(t, data, step, pub, priv, bytesNeeded, blocks);
  }

  /** The parts in front of offset i are decrypted, and make up out. */
  ghost predicate DecryptedUpTo(t: DeType, data: seq<Byte>, i: nat, step: nat, pub: PublicKey, priv: PrivateKey,
                                parts: seq<seq<Byte>>, plains: seq<seq<Byte>>, out: seq<Byte>)
    requires Usable(priv.KeyNumbers()) && 0 < step
  {
    && out == Flatten(plains) && AllDecrypted(t, parts, pub, priv, plains)
    && parts + Parts(Rest(data, i), step) == Parts(data, step)
  }

  lemma DecryptStart(t: DeType, data: seq<Byte>, step: nat, pub: PublicKey, priv: PrivateKey)
    requires Usable(priv.KeyNumbers()) && 0 < step
    ensures DecryptedUpTo(t, data, 0, step, pub, priv, [], [], [])
  {
    hide Usable, Parts;
    NoPlains(t, pub, priv);
    AllLeft(data, step);
  }

  lemma DecryptNext(t: DeType, data: seq<Byte>, i: nat, step: nat, pub: PublicKey, priv: PrivateKey,
                    parts: seq<seq<Byte>>, plains: seq<seq<Byte>>, out: seq<Byte>, r: Result<seq<Byte>>)
    requires Usable(priv.KeyNumbers()) && 0 < step && i < |data| && r.Ok?
    requires DecryptedUpTo(t, data, i, step, pub, priv, parts, plains, out)
    requires Decrypted(t, Part(data, i, step), pub, priv, r)
    ensures DecryptedUpTo(t, data, i + step, step, pub, priv, parts + [Part(data, i, step)], plains + [r.value],
                          out + r.value)
  {
    hide Usable, Parts, Decrypted, AllDecrypted, Flatten;
    NextPart(data, i, step, parts);
    AppendPlain(t, parts, Part(data, i, step), pub, priv, plains, r);
  }

  lemma DecryptRefused(t: DeType, data: seq<Byte>, i: nat, step: nat, pub: PublicKey, priv: PrivateKey,
                       parts: seq<seq<Byte>>, plains: seq<seq<Byte>>, out: seq<Byte>, r: Result<seq<Byte>>)
    requires Usable(priv.KeyNumbers()) && 0 < step && i < |data| && r.Err?
    requires DecryptedUpTo(t, data, i, step, pub, priv, parts, plains, out)
    requires Decrypted(t, Part(data, i, step), pub, priv, r)
    ensures DecryptedMessage(t, data, step, pub, priv, [])
  {
    hide Usable, Parts, Decrypted, AllDecrypted, Flatten;
    PartIn(data, i, step, parts);
    assert DecryptionRefused(t, Parts(data, step), pub, priv, Refusal(Part(data, i, step), r.error));
  }

  lemma DecryptEnd(t: DeType, data: seq<Byte>, i: nat, step: nat, pub: PublicKey, priv: PrivateKey,
                   parts: seq<seq<Byte>>, plains: seq<seq<Byte>>, out: seq<Byte>)
    requires Usable(priv.KeyNumbers()) && 0 < step && |data| <= i
    requires DecryptedUpTo(t, data, i, step, pub, priv, parts, plains, out)
    ensures DecryptedMessage(t, data, step, pub, priv, out)
  {
    hide Usable, Parts, Decrypted, AllDecrypted, Flatten;
    NoneLeft(data, i, step, parts);
  }

  lemma PartRefused(t: EnType, data: seq<Byte>, step: nat, pub: PublicKey, priv: PrivateKey, bytesNeeded: nat,
                    part: seq<Byte>, r: Result<seq<Byte>>)
    requires Usable(priv.KeyNumbers()) && 0 < step && part in Parts(data, step) && r.Err?
    requires t == EnType_Pri || bytesNeeded == 0 ==> EncryptedResult(t, part, pub, priv, r)
    ensures EncryptedMessage(t, data, step, pub, priv, bytesNeeded, [])
  {
    hide Usable, EncryptedResult, AllEncrypted, Parts;
    if t == EnType_Pri || bytesNeeded == 0 {
      assert EncryptionRefused(t, Parts(data, step), pub, priv, Refusal(part, r.error));
    }
  }

  lemma AllAccepted(t: EnType, data: seq<Byte>, step: nat, pub: PublicKey, priv: PrivateKey, bytesNeeded: nat,
                    blocks: seq<seq<Byte>>)
    requires Usable(priv.KeyNumbers()) && 0 < step && (t == EnType_Pri || bytesNeeded == 0 || data == [])
    requires AllEncrypted(t, Parts(data, step), pub, priv, blocks)
    ensures EncryptedMessage(t, data, step, pub, priv, bytesNeeded, Flatten(blocks))
  {
    hide Usable, EncryptedResult, AllEncrypted, Parts, Flatten;
  }

  lemma NoBlocks(t: EnType, pub: PublicKey, priv: PrivateKey)
    requires Usable(priv.KeyNumbers())
    ensures AllEncrypted(t, [], pub, priv, []) && Flatten<Byte>([]) == []
  {
  }

  lemma NoPlains(t: DeType, pub: PublicKey, priv: PrivateKey)
    requires Usable(priv.KeyNumbers())
    ensures AllDecrypted(t, [], pub, priv, []) && Flatten<Byte>([]) == []
  {
  }

  lemma NoParts(step: nat)
    requires 0 < step
    ensures Parts([], step) == []
  {
  }

  lemma AppendBlock(t: EnType, xs: seq<seq<Byte>>, x: seq<Byte>, pub: PublicKey, priv: PrivateKey, cs: seq<seq<Byte>>,
                    c: seq<Byte>)
    requires Usable(priv.KeyNumbers()) && AllEncrypted(t, xs, pub, priv, cs) && Encrypted(t, x, pub, priv, c)
    ensures AllEncrypted(t, xs + [x], pub, priv, cs + [c])
    ensures Flatten(cs + [c]) == Flatten(cs) + c
  {
    assert (cs + [c])[..|cs|] == cs;
  }

  lemma AppendPlain(t: DeType, cs: seq<seq<Byte>>, c: seq<Byte>, pub: PublicKey, priv: PrivateKey, xs: seq<seq<Byte>>,
                    r: Result<seq<Byte>>)
    requires Usable(priv.KeyNumbers()) && AllDecrypted(t, cs, pub, priv, xs) && r.Ok? && Decrypted(t, c, pub, priv, r)
    ensures AllDecrypted(t, cs + [c], pub, priv, xs + [r.value])
    ensures Flatten(xs + [r.value]) == Flatten(xs) + r.value
  {
    assert (xs + [r.value])[..|xs|] == xs;
  }

  // ---------- the round trip ----------

  /** The operation that undoes an encryption. */
  function Opposite(t: EnType): DeType {
    match t case EnType_Pub => DeType_Pri case EnType_Pri => DeType_Pub
  }

  /** One nonempty block comes back. */
  lemma BlockRoundTrip(t: EnType, x: seq<Byte>, c: seq<Byte>, r: Result<seq<Byte>>, pub: PublicKey, priv: PrivateKey)
    requires KeyPair(pub, priv) && Usable(priv.KeyNumbers()) && x != [] && Encrypted(t, x, pub, priv, c)
    ensures |c| == pub.ModulusLen()
    ensures Decrypted(Opposite(t), c, pub, priv, r) ==> r == Ok(x)
  {
    match t {
      case EnType_Pub => PublicRoundTrip(x, Ok(c), r, pub, priv);
      case EnType_Pri => PrivateRoundTrip(x, Ok(c), r, pub, priv);
    }
  }

  /** With a key pair no block that fits is refused. */
  lemma NoRefusal(t: EnType, x: seq<Byte>, r: Result<seq<Byte>>, pub: PublicKey, priv: PrivateKey)
    requires KeyPair(pub, priv) && Usable(priv.KeyNumbers()) && EncryptedResult(t, x, pub, priv, r)
    ensures r.Ok?
  {
    match t {
      case EnType_Pub => PublicRoundTrip(x, r, r, pub, priv);
      case EnType_Pri => PrivateRoundTrip(x, r, r, pub, priv);
    }
  }

  /** What the other key makes of a block: the form of PKCS #1, around the
      data, that belongs to the key it was encrypted with. */
  lemma EncryptedForm(t: EnType, x: seq<Byte>, pub: PublicKey, priv: PrivateKey, c: seq<Byte>)
    requires KeyPair(pub, priv) && Usable(priv.KeyNumbers()) && Encrypted(t, x, pub, priv, c)
    ensures t == EnType_Pub ==>
              var r := PrivateSpec(c, priv);
              && r.Ok? && |x| + 11 <= |r.value|
              && r.value == [0, 2] + r.value[2..|r.value| - |x| - 1] + [0] + x
    ensures t == EnType_Pri ==>
              var r := PublicSpec(c, pub);
              && r.Ok? && |x| + 11 <= |r.value|
              && r.value == [0, 1] + Fill(255, |r.value| - |x| - 3) + [0] + x
  {
    hide KeyPair, Usable, PublicEncrypted, PrivateEncrypted, PublicSpec, PrivateSpec;
    match t {
      case EnType_Pub => PublicBlock(x, Ok(c), pub, priv);
      case EnType_Pri => PrivateBlock(x, Ok(c), pub, priv);
    }
  }

  /** The length of an encrypted message: a whole modulus for every part, and
      as many parts as steps of modulusLen - 11 bytes cover the data. */
  lemma EncryptedLength(t: EnType, data: seq<Byte>, sealed: seq<Byte>, pub: PublicKey, priv: PrivateKey,
                        bytesNeeded: nat)
    requires KeyPair(pub, priv) && Usable(priv.KeyNumbers()) && (t == EnType_Pri || bytesNeeded == 0)
    requires 11 < (pub.bits + 7) / 8
    requires EncryptedMessage(t, data, (pub.bits + 7) / 8 - 11, pub, priv, bytesNeeded, sealed)
    ensures var len := (pub.bits + 7) / 8;
            exists n: nat :: |sealed| == len * n && (len - 11) * n - (len - 11) < |data| <= (len - 11) * n
  {
    hide KeyPair, Usable, Encrypted, EncryptedResult, Parts, Flatten;
    var len := (pub.bits + 7) / 8;
    var parts := Parts(data, len - 11);
    forall bad: Refusal
      ensures !EncryptionRefused(t, parts, pub, priv, bad)
    {
      if EncryptionRefused(t, parts, pub, priv, bad) {
        NoRefusal(t, bad.part, Err(bad.error), pub, priv);
      }
    }
    var blocks: seq<seq<Byte>> :| AllEncrypted(t, parts, pub, priv, blocks) && sealed == Flatten(blocks);
    PartsCount(data, len - 11);
    PartsSizes(data, len - 11);
    forall k | 0 <= k < |blocks|
      ensures |blocks[k]| == len
    {
      assert parts[k] in parts;
      BlockRoundTrip(t, parts[k], blocks[k], Err(RE_DATA), pub, priv);
    }
    FlattenLength(blocks, len);
    var n := |blocks|;
    assert |sealed| == len * n && (len - 11) * n - (len - 11) < |data| <= (len - 11) * n;
  }

  /** The encrypted blocks are cut apart again where they were joined. */
  lemma BlocksCut(t: EnType, data: seq<Byte>, blocks: seq<seq<Byte>>, pub: PublicKey, priv: PrivateKey)
    requires KeyPair(pub, priv) && Usable(priv.KeyNumbers()) && 11 < pub.ModulusLen()
    requires AllEncrypted(t, Parts(data, pub.ModulusLen() - 11), pub, priv, blocks)
    ensures Parts(Flatten(blocks), pub.ModulusLen()) == blocks
  {
    hide KeyPair, Usable, Encrypted, Flatten, Parts;
    var parts := Parts(data, pub.ModulusLen() - 11);
    PartsSizes(data, pub.ModulusLen() - 11);
    forall k | 0 <= k < |parts|
      ensures |blocks[k]| == pub.ModulusLen()
    {
      assert parts[k] in parts;
      BlockRoundTrip(t, parts[k], blocks[k], Err(RE_DATA), pub, priv);
    }
    FullParts(blocks, pub.ModulusLen());
  }

  /** No block is refused. */
  lemma BlockAccepted(t: EnType, data: seq<Byte>, blocks: seq<seq<Byte>>, bad: Refusal, pub: PublicKey,
                      priv: PrivateKey)
    requires KeyPair(pub, priv) && Usable(priv.KeyNumbers()) && 11 < pub.ModulusLen()
    requires AllEncrypted(t, Parts(data, pub.ModulusLen() - 11), pub, priv, blocks)
    ensures !DecryptionRefused(Opposite(t), blocks, pub, priv, bad)
  {
    hide KeyPair, Usable, Encrypted, Decrypted, Flatten, Parts;
    var parts := Parts(data, pub.ModulusLen() - 11);
    PartsSizes(data, pub.ModulusLen() - 11);
    if DecryptionRefused(Opposite(t), blocks, pub, priv, bad) {
      var k :| 0 <= k < |blocks| && blocks[k] == bad.part;
      assert parts[k] in parts;
      BlockRoundTrip(t, parts[k], blocks[k], Err(bad.error), pub, priv);
    }
  }

  /** All blocks come back. */
  lemma BlocksBack(t: EnType, data: seq<Byte>, blocks: seq<seq<Byte>>, plains: seq<seq<Byte>>, pub: PublicKey,
                   priv: PrivateKey)
    requires KeyPair(pub, priv) && Usable(priv.KeyNumbers()) && 11 < pub.ModulusLen()
    requires AllEncrypted(t, Parts(data, pub.ModulusLen() - 11), pub, priv, blocks)
    requires AllDecrypted(Opposite(t), blocks, pub, priv, plains)
    ensures Flatten(plains) == data
  {
    hide KeyPair, Usable, Encrypted, Decrypted, Flatten, Parts;
    var parts := Parts(data, pub.ModulusLen() - 11);
    PartsSizes(data, pub.ModulusLen() - 11);
    forall k | 0 <= k < |parts|
      ensures plains[k] == parts[k]
    {
      assert parts[k] in parts;
      BlockRoundTrip(t, parts[k], blocks[k], Ok(plains[k]), pub, priv);
    }
    assert plains == parts;
    PartsFlatten(data, pub.ModulusLen() - 11);
  }

  /** Every message of every length comes back, in both directions. */
  lemma MessageRoundTrip(t: EnType, data: seq<Byte>, sealed: seq<Byte>, out: seq<Byte>, pub: PublicKey,
                         priv: PrivateKey, bytesNeeded: nat)
    requires KeyPair(pub, priv) && Usable(priv.KeyNumbers()) && 11 < pub.ModulusLen()
    requires t == EnType_Pri || bytesNeeded == 0
    requires EncryptedMessage(t, data, pub.ModulusLen() - 11, pub, priv, bytesNeeded, sealed)
    requires DecryptedMessage(Opposite(t), sealed, pub.ModulusLen(), pub, priv, out)
    ensures out == data
  {
    hide KeyPair, Usable, EncryptedResult, AllEncrypted, AllDecrypted, DecryptionRefused, Parts, Flatten;
    var parts := Parts(data, pub.ModulusLen() - 11);
    forall bad: Refusal
      ensures !EncryptionRefused(t, parts, pub, priv, bad)
    {
      if EncryptionRefused(t, parts, pub, priv, bad) {
        NoRefusal(t, bad.part, Err(bad.error), pub, priv);
      }
    }
    var blocks: seq<seq<Byte>> :| AllEncrypted(t, parts, pub, priv, blocks) && sealed == Flatten(blocks);
    BlocksCut(t, data, blocks, pub, priv);
    forall bad: Refusal
      ensures !DecryptionRefused(Opposite(t), blocks, pub, priv, bad)
    {
      BlockAccepted(t, data, blocks, bad, pub, priv);
    }
    var plains: seq<seq<Byte>> :| AllDecrypted(Opposite(t), blocks, pub, priv, plains) && out == Flatten(plains);
    BlocksBack(t, data, blocks, plains, pub, priv);
  }

  lemma PairLength(pub: PublicKey, priv: PrivateKey)
    requires KeyPair(pub, priv)
    ensures 11 < pub.ModulusLen() == priv.ModulusLen()
  {
  }

  /** Encrypting with one key and decrypting with the other gives the message
      back. */
  method RoundTrip(rsa: CRSA, t: EnType, data: seq<Byte>) returns (out: seq<Byte>)
    requires rsa.Valid() && KeyPair(rsa.pubKey, rsa.priKey)
    requires t == EnType_Pri || rsa.bytesNeeded == 0
    ensures out == data
  {
    hide KeyPair, Usable, EncryptedMessage, DecryptedMessage;
    PairLength(rsa.pubKey, rsa.priKey);
    var sealed := rsa.RSAEncrypt(t, data);
    out := rsa.RSADecrypt(Opposite(t), sealed);
    MessageRoundTrip(t, data, sealed, out, rsa.pubKey, rsa.priKey, rsa.bytesNeeded);
  }
}
