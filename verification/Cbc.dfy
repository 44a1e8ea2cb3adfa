/** Cipher block chaining over DES, DESX and triple DES: decrypting undoes
    encrypting, and the result does not depend on how the input is split. */
module Cbc {
  import opened Des

  type Octet = bv8

  // ---------- bytes and words ----------

  function Pack(b0: Octet, b1: Octet, b2: Octet, b3: Octet): Word {
    ((b0 as Word) << 24) | ((b1 as Word) << 16) | ((b2 as Word) << 8) | (b3 as Word)
  }

  function Unpack(w: Word, shift: nat): Octet
    requires shift == 24 || shift == 16 || shift == 8 || shift == 0
  {
    if shift == 24 then ((w >> 24) & 0xff) as Octet
    else if shift == 16 then ((w >> 16) & 0xff) as Octet
    else if shift == 8 then ((w >> 8) & 0xff) as Octet
    else (w & 0xff) as Octet
  }

  /** Eight bytes as two words, most significant byte first. */
  function Scrunch(s: seq<Octet>): Halves
    requires |s| == 8
  {
    Halves(Pack(s[0], s[1], s[2], s[3]), Pack(s[4], s[5], s[6], s[7]))
  }

  function Unscrunch(h: Halves): (s: seq<Octet>)
    ensures |s| == 8
  {
    [Unpack(h.l, 24), Unpack(h.l, 16), Unpack(h.l, 8), Unpack(h.l, 0),
     Unpack(h.r, 24), Unpack(h.r, 16), Unpack(h.r, 8), Unpack(h.r, 0)]
  }

  lemma PackUnpack(w: Word)
    ensures Pack(Unpack(w, 24), Unpack(w, 16), Unpack(w, 8), Unpack(w, 0)) == w
  {
  }

  lemma UnpackPack(b0: Octet, b1: Octet, b2: Octet, b3: Octet)
    ensures Unpack(Pack(b0, b1, b2, b3), 24) == b0 && Unpack(Pack(b0, b1, b2, b3), 16) == b1
    ensures Unpack(Pack(b0, b1, b2, b3), 8) == b2 && Unpack(Pack(b0, b1, b2, b3), 0) == b3
  {
  }

  /** The first byte is the most significant one. */
  lemma PackPlaces(b0: Octet, b1: Octet, b2: Octet, b3: Octet)
    ensures var w := Pack(b0, b1, b2, b3);
            && w >> 24 == b0 as Word && (w << 8) >> 24 == b1 as Word
            && (w << 16) >> 24 == b2 as Word && (w << 24) >> 24 == b3 as Word
  {
  }

  /** The eight bytes lie in the two words in order. */
  lemma ScrunchPlaces(s: seq<Octet>)
    requires |s| == 8
    ensures var h := Scrunch(s);
            && h.l >> 24 == s[0] as Word && (h.l << 8) >> 24 == s[1] as Word
            && (h.l << 16) >> 24 == s[2] as Word && (h.l << 24) >> 24 == s[3] as Word
            && h.r >> 24 == s[4] as Word && (h.r << 8) >> 24 == s[5] as Word
            && (h.r << 16) >> 24 == s[6] as Word && (h.r << 24) >> 24 == s[7] as Word
  {
    hide Pack;
    PackPlaces(s[0], s[1], s[2], s[3]);
    PackPlaces(s[4], s[5], s[6], s[7]);
  }

  lemma ScrunchBack(h: Halves)
    ensures Scrunch(Unscrunch(h)) == h
  {
    hide Pack, Unpack;
    PackUnpack(h.l);
    PackUnpack(h.r);
  }

  lemma UnscrunchBack(s: seq<Octet>)
    requires |s| == 8
    ensures Unscrunch(Scrunch(s)) == s
  {
    hide Pack, Unpack;
    UnpackPack(s[0], s[1], s[2], s[3]);
    UnpackPack(s[4], s[5], s[6], s[7]);
  }

  // ---------- one block ----------

  /** The three block ciphers with their subkeys and whiteners. */
  datatype Cipher =
    | DES(subkeys: Subkeys)
    | DESX(xsubkeys: Subkeys, inputWhitener: Halves, outputWhitener: Halves)
    | DES3(subkeys0: Subkeys, subkeys1: Subkeys, subkeys2: Subkeys)

  predicate Scheduled(c: Cipher) {
    match c
    case DES(ks) => Schedule(ks)
    case DESX(ks, _, _) => Schedule(ks)
    case DES3(k0, k1, k2) => Schedule(k0) && Schedule(k1) && Schedule(k2)
  }

  function XorHalves(a: Halves, b: Halves): Halves {
    Halves(Xor(a.l, b.l), Xor(a.r, b.r))
  }

  lemma XorHalvesTwice(a: Halves, b: Halves)
    ensures XorHalves(XorHalves(a, b), b) == a
  {
    hide Xor;
    XorTwice(a.l, b.l);
    XorTwice(a.r, b.r);
  }

  /** The block function of the cipher. */
  function Raw(c: Cipher, x: Halves, sp: SBoxes): Halves
    requires Scheduled(c) && Boxes(sp)
  {
    match c
    case DES(ks) => Crypt(x, ks, sp)
    case DESX(ks, _, _) => Crypt(x, ks, sp)
    case DES3(k0, k1, k2) => Crypt(Crypt(Crypt(x, k0, sp), k1, sp), k2, sp)
  }

  /** One chained block: the new output; encrypting chains the output and
      decrypting chains the input. */
  function Step(c: Cipher, encrypt: bool, iv: Halves, x: Halves, sp: SBoxes): Halves
    requires Scheduled(c) && Boxes(sp)
  {
    if encrypt then
      if c.DESX? then
        XorHalves(Raw(c, XorHalves(XorHalves(x, iv), c.inputWhitener), sp), c.outputWhitener)
      else Raw(c, XorHalves(x, iv), sp)
    else
      if c.DESX? then
        XorHalves(Raw(c, XorHalves(x, c.outputWhitener), sp), XorHalves(iv, c.inputWhitener))
      else XorHalves(Raw(c, x, sp), iv)
  }

  function Chain(encrypt: bool, x: Halves, y: Halves): Halves {
    if encrypt then y else x
  }

  /** The cipher d decrypts what the cipher e encrypts. */
  predicate Undoes(e: Cipher, d: Cipher) {
    match (e, d)
    case (DES(ks), DES(rs)) => Reversed(ks, rs)
    case (DESX(ks, a, b), DESX(rs, a', b')) => Reversed(ks, rs) && a == a' && b == b'
    case (DES3(k0, k1, k2), DES3(r0, r1, r2)) => Reversed(k0, r2) && Reversed(k1, r1) && Reversed(k2, r0)
    case _ => false
  }

  lemma RawBack(e: Cipher, d: Cipher, x: Halves, sp: SBoxes)
    requires Undoes(e, d) && Boxes(sp)
    ensures Scheduled(e) && Scheduled(d) && Raw(d, Raw(e, x, sp), sp) == x
  {
    hide Crypt;
    match e {
      case DES(ks) =>
        CryptBack(x, ks, d.subkeys, sp);
      case DESX(ks, _, _) =>
        CryptBack(x, ks, d.xsubkeys, sp);
      case DES3(k0, k1, k2) =>
        var y := Crypt(x, k0, sp);
        CryptBack(x, k0, d.subkeys2, sp);
        CryptBack(y, k1, d.subkeys1, sp);
        CryptBack(Crypt(y, k1, sp), k2, d.subkeys0, sp);
    }
  }

  lemma StepBack(e: Cipher, d: Cipher, iv: Halves, x: Halves, sp: SBoxes)
    requires Undoes(e, d) && Boxes(sp)
    ensures Scheduled(e) && Scheduled(d) && Step(d, false, iv, Step(e, true, iv, x, sp), sp) == x
  {
    hide Raw, XorHalves;
    if e.DESX? {
      var u := XorHalves(XorHalves(x, iv), e.inputWhitener);
      RawBack(e, d, u, sp);
      XorHalvesTwice(Raw(e, u, sp), e.outputWhitener);
      Unwhiten(x, iv, e.inputWhitener);
    } else {
      RawBack(e, d, XorHalves(x, iv), sp);
      XorHalvesTwice(x, iv);
    }
  }

  lemma Unwhiten(x: Halves, iv: Halves, w: Halves)
    ensures XorHalves(XorHalves(XorHalves(x, iv), w), XorHalves(iv, w)) == x
  {
    hide Xor;
    UnwhitenWord(x.l, iv.l, w.l);
    UnwhitenWord(x.r, iv.r, w.r);
  }

  lemma UnwhitenWord(x: Word, iv: Word, w: Word)
    ensures Xor(Xor(Xor(x, iv), w), Xor(iv, w)) == x
  {
  }

  // ---------- whole messages ----------

  /** The output for a message of whole blocks, and the chaining value after
      it. */
  function Run(c: Cipher, encrypt: bool, iv: Halves, input: seq<Octet>, sp: SBoxes): (r: (seq<Octet>, Halves))
    requires Scheduled(c) && Boxes(sp) && |input| % 8 == 0
    ensures |r.0| == |input|
    decreases |input|
  {
    if |input| == 0 then ([], iv)
    else
      var rest := input[8..];
      assert |rest| == |input| - 8 && |rest| % 8 == 0;
      var x := Scrunch(input[..8]);
      var y := Step(c, encrypt, iv, x, sp);
      var r := Run(c, encrypt, Chain(encrypt, x, y), rest, sp);
      (Unscrunch(y) + r.0, r.1)
  }

  /** The output of a message in two parts. */
  lemma {:induction false} RunSplit(c: Cipher, encrypt: bool, iv: Halves, a: seq<Octet>, b: seq<Octet>, sp: SBoxes)
    requires Scheduled(c) && Boxes(sp) && |a| % 8 == 0 && |b| % 8 == 0
    ensures |a + b| % 8 == 0
    ensures var ra := Run(c, encrypt, iv, a, sp);
            var rb := Run(c, encrypt, ra.1, b, sp);
            Run(c, encrypt, iv, a + b, sp) == (ra.0 + rb.0, rb.1)
    decreases |a|
  {
    hide Step, Chain, Scrunch, Unscrunch;
    if a == [] {
      assert a + b == b;
      var rb := Run(c, encrypt, iv, b, sp);
      assert [] + rb.0 == rb.0;
    } else {
      var x := Scrunch(a[..8]);
      var y := Step(c, encrypt, iv, x, sp);
      assert (a + b)[..8] == a[..8] && (a + b)[8..] == a[8..] + b;
      RunSplit(c, encrypt, Chain(encrypt, x, y), a[8..], b, sp);
      var ra := Run(c, encrypt, Chain(encrypt, x, y), a[8..], sp);
      var rb := Run(c, encrypt, ra.1, b, sp);
      assert Unscrunch(y) + (ra.0 + rb.0) == (Unscrunch(y) + ra.0) + rb.0;
    }
  }

  /** Decrypting gives the message back, and ends with the same chaining
      value. */
  lemma {:induction false} RunBack(e: Cipher, d: Cipher, iv: Halves, input: seq<Octet>, sp: SBoxes)
    requires Undoes(e, d) && Boxes(sp) && |input| % 8 == 0
    ensures Scheduled(e) && Scheduled(d)
    ensures var r := Run(e, true, iv, input, sp);
            Run(d, false, iv, r.0, sp) == (input, r.1)
    decreases |input|
  {
    hide Step, Scrunch, Unscrunch;
    UndoesScheduled(e, d);
    if input != [] {
      var x := Scrunch(input[..8]);
      var y := Step(e, true, iv, x, sp);
      var rest := Run(e, true, y, input[8..], sp);
      var out := Unscrunch(y) + rest.0;
      assert out[..8] == Unscrunch(y) && out[8..] == rest.0;
      ScrunchBack(y);
      StepBack(e, d, iv, x, sp);
      UnscrunchBack(input[..8]);
      RunBack(e, d, y, input[8..], sp);
      assert input == input[..8] + input[8..];
    }
  }

  lemma UndoesScheduled(e: Cipher, d: Cipher)
    requires Undoes(e, d)
    ensures Scheduled(e) && Scheduled(d)
  {
  }

  // ---------- chaining, block by block ----------

  /** Block i of a string, as words. */
  function BlockAt(s: seq<Octet>, i: nat): Halves
    requires 8 * i + 8 <= |s|
  {
    Scrunch(s[8 * i..8 * i + 8])
  }

  /** The block in front of block i, or the start value. */
  function Before(start: Halves, s: seq<Octet>, i: nat): Halves
    requires 8 * i <= |s|
  {
    if i == 0 then start else BlockAt(s, i - 1)
  }

  /** Every block is encrypted after the ciphertext block in front of it was
      added; DESX whitens on both sides. */
  ghost predicate EncryptChained(c: Cipher, start: Halves, input: seq<Octet>, output: seq<Octet>, end: Halves,
                                 sp: SBoxes)
    requires Scheduled(c) && Boxes(sp) && |input| % 8 == 0
  {
    && |output| == |input| && end == Before(start, output, |input| / 8)
    && forall i :: 0 <= i < |input| / 8 ==>
         BlockAt(output, i)
         == match c
            case DES(ks) => Crypt(XorHalves(BlockAt(input, i), Before(start, output, i)), ks, sp)
            case DESX(ks, w, v) =>
              XorHalves(Crypt(XorHalves(XorHalves(BlockAt(input, i), Before(start, output, i)), w), ks, sp), v)
            case DES3(k0, k1, k2) =>
              Crypt(Crypt(Crypt(XorHalves(BlockAt(input, i), Before(start, output, i)), k0, sp), k1, sp), k2, sp)
  }

  /** Every block is decrypted, and the ciphertext block in front of it is added
      afterwards. */
  ghost predicate DecryptChained(c: Cipher, start: Halves, input: seq<Octet>, output: seq<Octet>, end: Halves,
                                 sp: SBoxes)
    requires Scheduled(c) && Boxes(sp) && |input| % 8 == 0
  {
    && |output| == |input| && end == Before(start, input, |input| / 8)
    && forall i :: 0 <= i < |input| / 8 ==>
         BlockAt(output, i)
         == match c
            case DES(ks) => XorHalves(Crypt(BlockAt(input, i), ks, sp), Before(start, input, i))
            case DESX(ks, w, v) =>
              XorHalves(Crypt(XorHalves(BlockAt(input, i), v), ks, sp), XorHalves(Before(start, input, i), w))
            case DES3(k0, k1, k2) =>
              XorHalves(Crypt(Crypt(Crypt(BlockAt(input, i), k0, sp), k1, sp), k2, sp), Before(start, input, i))
  }

  lemma BlocksBehind(block: seq<Octet>, rest: seq<Octet>, start: Halves, i: nat)
    requires |block| == 8 && 8 * i + 8 <= |rest|
    ensures BlockAt(block + rest, i + 1) == BlockAt(rest, i)
    ensures Before(start, block + rest, i + 1) == Before(Scrunch(block), rest, i)
  {
    hide Scrunch;
    assert (block + rest)[8 * (i + 1)..8 * (i + 1) + 8] == rest[8 * i..8 * i + 8];
    if i == 0 {
      assert (block + rest)[..8] == block;
    } else {
      assert (block + rest)[8 * i..8 * i + 8] == rest[8 * (i - 1)..8 * (i - 1) + 8];
    }
  }

  lemma EndBehind(block: seq<Octet>, rest: seq<Octet>, start: Halves, n: nat)
    requires |block| == 8 && 8 * n == |rest|
    ensures Before(start, block + rest, n + 1) == Before(Scrunch(block), rest, n)
  {
    hide Scrunch;
    if n == 0 {
      assert (block + rest)[..8] == block;
    } else {
      assert (block + rest)[8 * n..8 * n + 8] == rest[8 * (n - 1)..8 * (n - 1) + 8];
    }
  }

  lemma FirstBlock(block: seq<Octet>, rest: seq<Octet>)
    requires |block| == 8
    ensures BlockAt(block + rest, 0) == Scrunch(block)
  {
    hide Scrunch;
    assert (block + rest)[8 * 0..8 * 0 + 8] == block;
  }

  /** What a run encrypts is chained. */
  lemma {:induction false} RunEncrypts(c: Cipher, start: Halves, input: seq<Octet>, sp: SBoxes)
    requires Scheduled(c) && Boxes(sp) && |input| % 8 == 0
    ensures var r := Run(c, true, start, input, sp); EncryptChained(c, start, input, r.0, r.1, sp)
    decreases |input|
  {
    hide Scrunch, Unscrunch, XorHalves, Crypt, BlockAt, Before, EncryptChained;
    if input == [] {
      NothingChained(c, start, sp);
    } else {
      var block, rest := input[..8], input[8..];
      var x := Scrunch(block);
      var y := Step(c, true, start, x, sp);
      assert input == block + rest;
      RunEncrypts(c, y, rest, sp);
      var r := Run(c, true, y, rest, sp);
      ScrunchBack(y);
      EncryptStep(c, start, block, rest, Unscrunch(y), r.0, r.1, sp);
    }
  }

  lemma NothingChained(c: Cipher, start: Halves, sp: SBoxes)
    requires Scheduled(c) && Boxes(sp)
    ensures EncryptChained(c, start, [], [], start, sp) && DecryptChained(c, start, [], [], start, sp)
  {
  }

  lemma EncryptStep(c: Cipher, start: Halves, block: seq<Octet>, rest: seq<Octet>, out: seq<Octet>, tail: seq<Octet>,
                    end: Halves, sp: SBoxes)
    requires Scheduled(c) && Boxes(sp) && |block| == |out| == 8 && |rest| % 8 == 0
    requires Scrunch(out) == Step(c, true, start, Scrunch(block), sp)
    requires EncryptChained(c, Scrunch(out), rest, tail, end, sp)
    ensures |block + rest| % 8 == 0 && EncryptChained(c, start, block + rest, out + tail, end, sp)
  {
    hide Scrunch, XorHalves, Crypt, BlockAt, Before;
    var n := |rest| / 8;
    assert |block + rest| / 8 == n + 1;
    FirstBlock(block, rest);
    FirstBlock(out, tail);
    NoneBefore(start, out + tail);
    EndBehind(out, tail, start, n);
    forall j | 1 <= j < n + 1
      ensures BlockAt(block + rest, j) == BlockAt(rest, j - 1) && BlockAt(out + tail, j) == BlockAt(tail, j - 1)
      ensures Before(start, out + tail, j) == Before(Scrunch(out), tail, j - 1)
    {
      BlocksBehind(block, rest, start, j - 1);
      BlocksBehind(out, tail, start, j - 1);
    }
  }

  lemma NoneBefore(start: Halves, s: seq<Octet>)
    ensures Before(start, s, 0) == start
  {
  }

  /** What a run decrypts is chained. */
  lemma {:induction false} RunDecrypts(c: Cipher, start: Halves, input: seq<Octet>, sp: SBoxes)
    requires Scheduled(c) && Boxes(sp) && |input| % 8 == 0
    ensures var r := Run(c, false, start, input, sp); DecryptChained(c, start, input, r.0, r.1, sp)
    decreases |input|
  {
    hide Scrunch, Unscrunch, XorHalves, Crypt, BlockAt, Before, DecryptChained;
    if input == [] {
      NothingChained(c, start, sp);
    } else {
      var block, rest := input[..8], input[8..];
      var x := Scrunch(block);
      var y := Step(c, false, start, x, sp);
      assert input == block + rest;
      RunDecrypts(c, x, rest, sp);
      var r := Run(c, false, x, rest, sp);
      ScrunchBack(y);
      DecryptStep(c, start, block, rest, Unscrunch(y), r.0, r.1, sp);
    }
  }

  lemma DecryptStep(c: Cipher, start: Halves, block: seq<Octet>, rest: seq<Octet>, out: seq<Octet>, tail: seq<Octet>,
                    end: Halves, sp: SBoxes)
    requires Scheduled(c) && Boxes(sp) && |block| == |out| == 8 && |rest| % 8 == 0
    requires Scrunch(out) == Step(c, false, start, Scrunch(block), sp)
    requires DecryptChained(c, Scrunch(block), rest, tail, end, sp)
    ensures |block + rest| % 8 == 0 && DecryptChained(c, start, block + rest, out + tail, end, sp)
  {
    hide Scrunch, XorHalves, Crypt, BlockAt, Before;
    var n := |rest| / 8;
    assert |block + rest| / 8 == n + 1;
    FirstBlock(block, rest);
    FirstBlock(out, tail);
    NoneBefore(start, block + rest);
    EndBehind(block, rest, start, n);
    forall j | 1 <= j < n + 1
      ensures BlockAt(block + rest, j) == BlockAt(rest, j - 1) && BlockAt(out + tail, j) == BlockAt(tail, j - 1)
      ensures Before(start, block + rest, j) == Before(Scrunch(block), rest, j - 1)
    {
      BlocksBehind(block, rest, start, j - 1);
      BlocksBehind(out, tail, start, j - 1);
    }
  }

  // ---------- the loop over the blocks ----------

  /** All blocks in front of rest are processed, and the chaining value stands
      at iv. */
  ghost predicate RunUpTo(c: Cipher, encrypt: bool, start: Halves, input: seq<Octet>, rest: seq<Octet>,
                          output: seq<Octet>, iv: Halves, sp: SBoxes)
    requires Scheduled(c) && Boxes(sp) && |input| % 8 == 0 && |rest| % 8 == 0
  {
    var r := Run(c, encrypt, iv, rest, sp);
    Run(c, encrypt, start, input, sp) == (output + r.0, r.1)
  }

  lemma RunStart(c: Cipher, encrypt: bool, start: Halves, input: seq<Octet>, sp: SBoxes)
    requires Scheduled(c) && Boxes(sp) && |input| % 8 == 0
    ensures RunUpTo(c, encrypt, start, input, input, [], start, sp)
  {
    hide Run;
    var r := Run(c, encrypt, start, input, sp);
    assert [] + r.0 == r.0;
  }

  lemma RunFirst(c: Cipher, encrypt: bool, iv: Halves, block: seq<Octet>, rest: seq<Octet>, x: Halves, y: Halves,
                 sp: SBoxes)
    requires Scheduled(c) && Boxes(sp) && |block| == 8 && |rest| % 8 == 0
    requires x == Scrunch(block) && y == Step(c, encrypt, iv, x, sp)
    ensures |block + rest| % 8 == 0
    ensures var r := Run(c, encrypt, Chain(encrypt, x, y), rest, sp);
            Run(c, encrypt, iv, block + rest, sp) == (Unscrunch(y) + r.0, r.1)
  {
    hide Step, Scrunch, Unscrunch, Chain;
    assert (block + rest)[..8] == block && (block + rest)[8..] == rest;
  }

  lemma RunNext(c: Cipher, encrypt: bool, start: Halves, input: seq<Octet>, block: seq<Octet>, rest: seq<Octet>,
                output: seq<Octet>, iv: Halves, x: Halves, y: Halves, sp: SBoxes)
    requires Scheduled(c) && Boxes(sp) && |input| % 8 == 0 && |block| == 8 && |rest| % 8 == 0
    requires x == Scrunch(block) && y == Step(c, encrypt, iv, x, sp)
    requires RunUpTo(c, encrypt, start, input, block + rest, output, iv, sp)
    ensures RunUpTo(c, encrypt, start, input, rest, output + Unscrunch(y), Chain(encrypt, x, y), sp)
  {
    hide Run, Step, Scrunch, Unscrunch, Chain;
    RunFirst(c, encrypt, iv, block, rest, x, y, sp);
    var r := Run(c, encrypt, Chain(encrypt, x, y), rest, sp);
    assert output + (Unscrunch(y) + r.0) == (output + Unscrunch(y)) + r.0;
  }

  lemma RunEnd(c: Cipher, encrypt: bool, start: Halves, input: seq<Octet>, output: seq<Octet>, iv: Halves, sp: SBoxes)
    requires Scheduled(c) && Boxes(sp) && |input| % 8 == 0
    requires RunUpTo(c, encrypt, start, input, [], output, iv, sp)
    ensures Run(c, encrypt, start, input, sp) == (output, iv)
  {
    assert output + [] == output;
  }

  /** A block of the input and what lies behind it. */
  lemma BlockSplit(input: seq<Octet>, i: nat)
    requires |input| % 8 == 0 && 8 * i + 8 <= |input|
    ensures |input[8 * i + 8..]| % 8 == 0
    ensures input[8 * i..] == input[8 * i..8 * i + 8] + input[8 * i + 8..]
  {
  }

  // ---------- the context ----------

  datatype Algorithm = DesCbc | DesxCbc | Des3Cbc

  function KeyLen(alg: Algorithm): nat {
    if alg == DesCbc then 8 else 24
  }

  /** The raw subkeys of a key; how they are chosen from its bits does not
      matter here. */
  type Expansion = seq<Octet> -> seq<Word>

  ghost predicate Expands(expand: Expansion) {
    forall key: seq<Octet> :: |expand(key)| == 32
  }

  /** What the three initialisations put into a context. */
  ghost predicate Initialised(c: Cipher, alg: Algorithm, key: seq<Octet>, encrypt: bool, expand: Expansion)
    requires |key| == KeyLen(alg)
  {
    match alg
    case DesCbc => c.DES? && Cooked(c.subkeys, expand(key), encrypt)
    case DesxCbc =>
      && c.DESX? && Cooked(c.xsubkeys, expand(key[..8]), encrypt)
      && c.inputWhitener == Scrunch(key[8..16]) && c.outputWhitener == Scrunch(key[16..24])
    case Des3Cbc =>
      && c.DES3?
      && Cooked(c.subkeys0, expand(if encrypt then key[..8] else key[16..24]), encrypt)
      && Cooked(c.subkeys1, expand(key[8..16]), !encrypt)
      && Cooked(c.subkeys2, expand(if encrypt then key[16..24] else key[..8]), encrypt)
  }

  /** Two contexts for one key and opposite directions undo each other. */
  lemma InitialisedUndoes(e: Cipher, d: Cipher, alg: Algorithm, key: seq<Octet>, expand: Expansion)
    requires |key| == KeyLen(alg)
    requires Initialised(e, alg, key, true, expand) && Initialised(d, alg, key, false, expand)
    ensures Undoes(e, d)
  {
    hide Cooked, Reversed, Scrunch;
    match alg {
      case DesCbc => CookedReversed(e.subkeys, d.subkeys, expand(key), true);
      case DesxCbc => CookedReversed(e.xsubkeys, d.xsubkeys, expand(key[..8]), true);
      case Des3Cbc =>
        CookedReversed(e.subkeys0, d.subkeys2, expand(key[..8]), true);
        CookedReversed(e.subkeys1, d.subkeys1, expand(key[8..16]), false);
        CookedReversed(e.subkeys2, d.subkeys0, expand(key[16..24]), true);
    }
  }

  /** Cooking leaves no choice. */
  lemma CookedSame(ks: Subkeys, rs: Subkeys, kn: seq<Word>, encrypt: bool)
    requires Cooked(ks, kn, encrypt) && Cooked(rs, kn, encrypt)
    ensures ks == rs
  {
    hide CookFirst, CookSecond;
    forall j | 0 <= j < 32
      ensures ks[j] == rs[j]
    {
      var i := if encrypt then j / 2 else 15 - j / 2;
      assert PairPlace(i, encrypt) == j - j % 2;
    }
  }

  /** Triple DES encrypts with the first eight bytes of the key, decrypts with
      the second and encrypts with the third; it decrypts the other way round. */
  lemma TripleKeys(c: Cipher, key: seq<Octet>, encrypt: bool, expand: Expansion, a: Cipher, b: Cipher, d: Cipher,
                   x: Halves, sp: SBoxes)
    requires |key| == 24 && Boxes(sp) && Initialised(c, Des3Cbc, key, encrypt, expand)
    requires Initialised(a, DesCbc, key[..8], encrypt, expand)
    requires Initialised(b, DesCbc, key[8..16], !encrypt, expand)
    requires Initialised(d, DesCbc, key[16..24], encrypt, expand)
    ensures Scheduled(a) && Scheduled(b) && Scheduled(c) && Scheduled(d)
    ensures encrypt ==> Raw(c, x, sp) == Raw(d, Raw(b, Raw(a, x, sp), sp), sp)
    ensures !encrypt ==> Raw(c, x, sp) == Raw(a, Raw(b, Raw(d, x, sp), sp), sp)
  {
    hide Crypt;
    hide Cooked;
    CookedScheduled(a.subkeys, expand(key[..8]), encrypt);
    CookedScheduled(b.subkeys, expand(key[8..16]), !encrypt);
    CookedScheduled(d.subkeys, expand(key[16..24]), encrypt);
    CookedSame(b.subkeys, c.subkeys1, expand(key[8..16]), !encrypt);
    if encrypt {
      CookedSame(a.subkeys, c.subkeys0, expand(key[..8]), encrypt);
      CookedSame(d.subkeys, c.subkeys2, expand(key[16..24]), encrypt);
    } else {
      CookedSame(a.subkeys, c.subkeys2, expand(key[..8]), encrypt);
      CookedSame(d.subkeys, c.subkeys0, expand(key[16..24]), encrypt);
    }
  }

  lemma CookedScheduled(ks: Subkeys, kn: seq<Word>, encrypt: bool)
    requires Cooked(ks, kn, encrypt)
    ensures Schedule(ks)
  {
  }

  /** DESX is DES with the first eight bytes of the key, between the second
      eight in front and the third eight behind. */
  lemma WhitenedKeys(c: Cipher, key: seq<Octet>, expand: Expansion, a: Cipher, iv: Halves, x: Halves, sp: SBoxes)
    requires |key| == 24 && Boxes(sp) && Initialised(c, DesxCbc, key, true, expand)
    requires Initialised(a, DesCbc, key[..8], true, expand)
    ensures Scheduled(a) && Scheduled(c)
    ensures Step(c, true, iv, x, sp)
            == XorHalves(Raw(a, XorHalves(XorHalves(x, iv), Scrunch(key[8..16])), sp), Scrunch(key[16..24]))
  {
    hide Crypt, Cooked, Scrunch, XorHalves;
    CookedScheduled(a.subkeys, expand(key[..8]), true);
    CookedSame(a.subkeys, c.xsubkeys, expand(key[..8]), true);
  }

  method DesKey(key: seq<Octet>, encrypt: bool, expand: Expansion) returns (ks: Subkeys)
    requires Expands(expand)
    ensures Cooked(ks, expand(key), encrypt)
  {
    var subkeys := new Word[32];
    CookKey(subkeys, expand(key), encrypt);
    ks := subkeys[..];
  }

  method CipherKeys(alg: Algorithm, key: seq<Octet>, encrypt: bool, expand: Expansion) returns (c: Cipher)
    requires Expands(expand) && |key| == KeyLen(alg)
    ensures Initialised(c, alg, key, encrypt, expand) && Scheduled(c)
  {
    match alg {
      case DesCbc =>
        var ks := DesKey(key, encrypt, expand);
        c := DES(ks);
      case DesxCbc =>
        var ks := DesKey(key[..8], encrypt, expand);
        c := DESX(ks, Scrunch(key[8..16]), Scrunch(key[16..24]));
      case Des3Cbc =>
        var k0 := DesKey(if encrypt then key[..8] else key[16..24], encrypt, expand);
        var k1 := DesKey(key[8..16], !encrypt, expand);
        var k2 := DesKey(if encrypt then key[16..24] else key[..8], encrypt, expand);
        c := DES3(k0, k1, k2);
    }
  }

  /** The block cipher on the two words of the work array. */
  method RawInPlace(c: Cipher, work: array<Word>, sp: SBoxes)
    requires work.Length == 2 && Scheduled(c) && Boxes(sp)
    modifies work
    ensures Halves(work[0], work[1]) == Raw(c, old(Halves(work[0], work[1])), sp)
  {
    hide Crypt;
    match c {
      case DES(ks) => DesFunc(work, ks, sp);
      case DESX(ks, _, _) => DesFunc(work, ks, sp);
      case DES3(k0, k1, k2) =>
        DesFunc(work, k0, sp);
        DesFunc(work, k1, sp);
        DesFunc(work, k2, sp);
    }
  }

  /** A cipher context: the chaining value moves on with every update. */
  class Context {
    const cipher: Cipher
    const encrypt: bool
    const originalIV: Halves
    var iv: Halves

    constructor (alg: Algorithm, key: seq<Octet>, start: seq<Octet>, encrypt: bool, expand: Expansion)
      requires Expands(expand) && |key| == KeyLen(alg) && |start| == 8
      ensures Initialised(cipher, alg, key, encrypt, expand) && Scheduled(cipher)
      ensures this.encrypt == encrypt && iv == originalIV == Scrunch(start)
    {
      var c := CipherKeys(alg, key, encrypt, expand);
      this.cipher, this.encrypt := c, encrypt;
      iv, originalIV := Scrunch(start), Scrunch(start);
    }

    /** One block: chain before the cipher when encrypting and after it when
        decrypting, then move the chaining value on. */
    method Block(inputBlock: Halves, work: array<Word>, sp: SBoxes) returns (out: Halves)
      requires Scheduled(cipher) && Boxes(sp) && work.Length == 2
      modifies this`iv, work
      ensures out == Step(cipher, encrypt, old(iv), inputBlock, sp)
      ensures iv == Chain(encrypt, inputBlock, out)
    {
      hide Raw;
      var first := inputBlock;
      if encrypt {
        first := XorHalves(inputBlock, iv);
        if cipher.DESX? {
          first := XorHalves(first, cipher.inputWhitener);
        }
      } else if cipher.DESX? {
        first := XorHalves(inputBlock, cipher.outputWhitener);
      }
      work[0], work[1] := first.l, first.r;
      RawInPlace(cipher, work, sp);
      out := Halves(work[0], work[1]);
      if encrypt {
        if cipher.DESX? {
          out := XorHalves(out, cipher.outputWhitener);
        }
        iv := out;
      } else {
        var after := if cipher.DESX? then XorHalves(iv, cipher.inputWhitener) else iv;
        out := XorHalves(out, after);
        iv := inputBlock;
      }
    }

    /** Encrypts or decrypts whole blocks; other lengths are refused. */
    method Update(input: seq<Octet>, sp: SBoxes) returns (output: seq<Octet>, ok: bool)
      requires Scheduled(cipher) && Boxes(sp)
      modifies this`iv
      ensures ok == (|input| % 8 == 0)
      ensures ok ==> (output, iv) == Run(cipher, encrypt, old(iv), input, sp)
      ensures ok && encrypt ==> EncryptChained(cipher, old(iv), input, output, iv, sp)
      ensures ok && !encrypt ==> DecryptChained(cipher, old(iv), input, output, iv, sp)
      ensures !ok ==> output == [] && iv == old(iv)
    {
      hide Run, Step, Scrunch, Unscrunch, Chain, RunUpTo, EncryptChained, DecryptChained;
      output := [];
      if |input| % 8 != 0 {
        return output, false;
      }
      ok := true;
      var work := new Word[2];
      var i := 0;
      RunStart(cipher, encrypt, iv, input, sp);
      ghost var rest := input;
      while i < |input| / 8
        invariant 0 <= i <= |input| / 8 && rest == input[8 * i..] && |rest| % 8 == 0
        invariant RunUpTo(cipher, encrypt, old(iv), input, rest, output, iv, sp)
      {
        BlockSplit(input, i);
        ghost var chained := iv;
        var x := Scrunch(input[8 * i..8 * i + 8]);
        var y := Block(x, work, sp);
        rest := input[8 * i + 8..];
        RunNext(cipher, encrypt, old(iv), input, input[8 * i..8 * i + 8], rest, output, chained, x, y, sp);
        output := output + Unscrunch(y);
        i := i + 1;
      }
      assert rest == [];
      RunEnd(cipher, encrypt, old(iv), input, output, iv, sp);
      if encrypt {
        RunEncrypts(cipher, old(iv), input, sp);
      } else {
        RunDecrypts(cipher, old(iv), input, sp);
      }
    }

    /** Back to the first chaining value. */
    method Restart()
      modifies this`iv
      ensures iv == originalIV
    {
      iv := originalIV;
    }
  }
}
