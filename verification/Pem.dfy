/** Printable encoding: three bytes as four characters, and envelopes as
    text. */
module Pem {
  import opened Outcome
  import opened Sequences
  import opened Des
  import opened Cbc
  import opened Envelope

  // ---------- characters ----------

  const PAD: Octet := 0x3d
  const ILLEGAL: Octet := 0x80

  /** The characters A-Z, a-z, 0-9, + and / for the values 0 to 63. */
  function BinToAsc(v: Octet): Octet
    requires v < 64
  {
    if v < 26 then v + 65
    else if v < 52 then v + 71
    else if v < 62 then v - 4
    else if v == 62 then 43
    else 47
  }

  /** The value of a character; characters with the high bit set and those
      that stand for no value give ILLEGAL. */
  function AscToBin(c: Octet): Octet {
    if c & 0x80 != 0 then ILLEGAL
    else if 65 <= c <= 90 then c - 65
    else if 97 <= c <= 122 then c - 71
    else if 48 <= c <= 57 then c + 4
    else if c == 43 then 62
    else if c == 47 then 63
    else ILLEGAL
  }

  predicate Legal(c: Octet) {
    AscToBin(c) & 0x80 == 0
  }

  lemma AscBack(v: Octet)
    requires v < 64
    ensures AscToBin(BinToAsc(v)) == v && Legal(BinToAsc(v)) && BinToAsc(v) != PAD
  {
  }

  lemma BinBack(c: Octet)
    requires Legal(c)
    ensures AscToBin(c) < 64 && BinToAsc(AscToBin(c)) == c && c != PAD
  {
  }

  /** The characters stand in the order of RFC 1421: each range begins and ends
      where it should, and counts up in between. */
  lemma Alphabet(v: Octet)
    requires v < 64
    ensures BinToAsc(0) as int == 'A' as int && BinToAsc(25) as int == 'Z' as int
    ensures BinToAsc(26) as int == 'a' as int && BinToAsc(51) as int == 'z' as int
    ensures BinToAsc(52) as int == '0' as int && BinToAsc(61) as int == '9' as int
    ensures BinToAsc(62) as int == '+' as int && BinToAsc(63) as int == '/' as int && PAD as int == '=' as int
    ensures v != 25 && v != 51 && v != 61 && v != 62 && v != 63 ==> BinToAsc(v + 1) == BinToAsc(v) + 1
  {
  }

  // ---------- one group ----------

  // the six bits that go into each of the four characters

  function First6(a: Octet): Octet {
    a >> 2
  }

  function Second6(a: Octet, b: Octet): Octet {
    ((a << 4) & 0x30) | ((b >> 4) & 0x0f)
  }

  function Third6(b: Octet, c: Octet): Octet {
    ((b << 2) & 0x3c) | ((c >> 6) & 0x03)
  }

  function Fourth6(c: Octet): Octet {
    c & 0x3f
  }

  function Six(p: seq<Octet>, k: nat): (v: Octet)
    requires |p| == 3 && k < 4
    ensures v < 64
  {
    if k == 0 then First6(p[0])
    else if k == 1 then Second6(p[0], p[1])
    else if k == 2 then Third6(p[1], p[2])
    else Fourth6(p[2])
  }

  /** The four values of six bits, first to last, are the 24 bits of the three
      bytes, first to last. */
  lemma SixValue(a: Octet, b: Octet, c: Octet)
    ensures ((a as bv24) << 16) | ((b as bv24) << 8) | (c as bv24)
            == ((First6(a) as bv24) << 18) | ((Second6(a, b) as bv24) << 12) | ((Third6(b, c) as bv24) << 6)
               | (Fourth6(c) as bv24)
  {
  }

  function EncodeGroup(p: seq<Octet>, count: nat): (f: seq<Octet>)
    requires |p| == 3 && 1 <= count <= 3
    ensures |f| == 4
  {
    [BinToAsc(Six(p, 0)), BinToAsc(Six(p, 1)),
     if count == 1 then PAD else BinToAsc(Six(p, 2)),
     if count <= 2 then PAD else BinToAsc(Six(p, 3))]
  }

  /** Decoded bytes, and how many of them mean something. */
  datatype Plain = Plain(out: seq<Octet>, length: nat)

  function Byte1(c1: Octet, c2: Octet): Octet {
    (c1 << 2) | (c2 >> 4)
  }

  function Byte2(c2: Octet, c3: Octet): Octet {
    (c2 << 4) | (c3 >> 2)
  }

  function Byte3(c3: Octet, c4: Octet): Octet {
    (c3 << 6) | c4
  }

  /** The three bytes of four values. */
  function Three(c1: Octet, c2: Octet, c3: Octet, c4: Octet): (out: seq<Octet>)
    ensures |out| == 3
  {
    [Byte1(c1, c2), Byte2(c2, c3), Byte3(c3, c4)]
  }

  /** A pad in third place needs another one behind it. */
  predicate LegalGroup(f: seq<Octet>)
    requires |f| == 4
  {
    && Legal(f[0]) && Legal(f[1])
    && if f[2] == PAD then f[3] == PAD else Legal(f[2]) && (f[3] == PAD || Legal(f[3]))
  }

  function DecodeGroup(f: seq<Octet>): (p: Plain)
    requires |f| == 4
    ensures |p.out| == 3 && 1 <= p.length <= 3
  {
    var c1, c2 := AscToBin(f[0]), AscToBin(f[1]);
    if f[2] == PAD then Plain(Three(c1, c2, 0, 0), 1)
    else if f[3] == PAD then Plain(Three(c1, c2, AscToBin(f[2]), 0), 2)
    else Plain(Three(c1, c2, AscToBin(f[2]), AscToBin(f[3])), 3)
  }

  lemma ThreeSix(p: seq<Octet>)
    requires |p| == 3
    ensures Three(Six(p, 0), Six(p, 1), Six(p, 2), Six(p, 3)) == p
    ensures Three(Six(p, 0), Six(p, 1), Six(p, 2), 0)[..2] == p[..2]
    ensures Three(Six(p, 0), Six(p, 1), 0, 0)[..1] == p[..1]
  {
    hide First6, Second6, Third6, Fourth6, Byte1, Byte2, Byte3;
    BytesBack(p[0], p[1], p[2]);
  }

  lemma BytesBack(a: Octet, b: Octet, c: Octet)
    ensures Byte1(First6(a), Second6(a, b)) == a
    ensures Byte2(Second6(a, b), Third6(b, c)) == b
    ensures Byte3(Third6(b, c), Fourth6(c)) == c
  {
  }

  /** A group decodes to the bytes that were in it, whatever the others. */
  lemma GroupBack(p: seq<Octet>, count: nat)
    requires |p| == 3 && 1 <= count <= 3
    ensures var f := EncodeGroup(p, count);
            && LegalGroup(f) && DecodeGroup(f).length == count
            && DecodeGroup(f).out[..count] == p[..count]
  {
    hide Six, Three, Legal, AscToBin, BinToAsc;
    AscBack(Six(p, 0));
    AscBack(Six(p, 1));
    AscBack(Six(p, 2));
    AscBack(Six(p, 3));
    ThreeSix(p);
  }

  /** A full group: its characters are those of the four values in order. A
      group of two bytes ends in one pad, and a group of one in two. */
  lemma GroupCharacters(p: seq<Octet>, count: nat)
    requires |p| == 3 && 1 <= count <= 3
    ensures var f := EncodeGroup(p, count);
            && AscToBin(f[0]) == First6(p[0]) && AscToBin(f[1]) == Second6(p[0], p[1])
            && (if count == 1 then f[2] as int == '=' as int else AscToBin(f[2]) == Third6(p[1], p[2]))
            && (if count <= 2 then f[3] as int == '=' as int else AscToBin(f[3]) == Fourth6(p[2]))
  {
    hide AscToBin, BinToAsc, Legal, First6, Second6, Third6, Fourth6;
    AscBack(Six(p, 0));
    AscBack(Six(p, 1));
    AscBack(Six(p, 2));
    AscBack(Six(p, 3));
  }

  // ---------- blocks ----------

  /** How many groups the bytes fill. */
  function Groups(len: nat): (g: nat)
    ensures 3 * g - 3 < len <= 3 * g
  {
    (len + 2) / 3
  }

  /** The characters of the first len bytes in memory. The bytes behind them
      are read when the last group is not full. */
  function Encoded(memory: seq<Octet>, len: nat): (text: seq<Octet>)
    requires 3 * Groups(len) <= |memory|
    ensures |text| == 4 * Groups(len)
    decreases len
  {
    if len == 0 then []
    else if len < 3 then EncodeGroup(memory[..3], len)
    else EncodeGroup(memory[..3], 3) + Encoded(memory[3..], len - 3)
  }

  /** The characters of whole groups. */
  function EncodedFull(block: seq<Octet>): (text: seq<Octet>)
    requires |block| % 3 == 0
  {
    Encoded(block, |block|)
  }

  ghost predicate IsEncoding(text: seq<Octet>, data: seq<Octet>) {
    exists extra: seq<Octet> ::
      3 * Groups(|data|) <= |data + extra| && text == Encoded(data + extra, |data|)
  }

  /** All groups, one after the other. */
  function DecodeGroups(text: seq<Octet>): (p: Plain)
    requires |text| % 4 == 0
    ensures |p.out| == 3 * (|text| / 4) && p.length <= |p.out|
    decreases |text|
  {
    if |text| == 0 then Plain([], 0)
    else
      var first := DecodeGroup(text[..4]);
      var rest := DecodeGroups(text[4..]);
      Plain(first.out + rest.out, first.length + rest.length)
  }

  predicate LegalText(text: seq<Octet>) {
    |text| % 4 == 0 && forall i :: 0 <= i < |text| / 4 ==> LegalGroup(text[4 * i..4 * i + 4])
  }

  function Decoded(text: seq<Octet>): (p: Result<Plain>)
    ensures p.Ok? ==> p.value.length <= |p.value.out|
  {
    if LegalText(text) then Ok(DecodeGroups(text)) else Err(RE_ENCODING)
  }

  lemma LegalTextCons(text: seq<Octet>)
    requires |text| % 4 == 0 && 4 <= |text|
    ensures LegalText(text) <==> LegalGroup(text[..4]) && LegalText(text[4..])
  {
    hide LegalGroup;
    var rest := text[4..];
    var n := |rest| / 4;
    assert text[4 * 0..4 * 0 + 4] == text[..4];
    forall i | 0 <= i < n
      ensures rest[4 * i..4 * i + 4] == text[4 * (i + 1)..4 * (i + 1) + 4]
    {
    }
    if LegalGroup(text[..4]) && LegalText(rest) {
      forall i | 0 <= i < n + 1
        ensures LegalGroup(text[4 * i..4 * i + 4])
      {
        if i != 0 {
          var j := i - 1;
          assert LegalGroup(rest[4 * j..4 * j + 4]);
        }
      }
    }
    if LegalText(text) {
      forall i | 0 <= i < n
        ensures LegalGroup(rest[4 * i..4 * i + 4])
      {
        var j := i + 1;
        assert LegalGroup(text[4 * j..4 * j + 4]);
      }
      assert LegalText(rest);
      var z := 0;
      assert LegalGroup(text[4 * z..4 * z + 4]);
    }
  }

  /** Decoding gives the encoded bytes back, whatever lies behind them. */
  lemma {:induction false} EncodedBack(memory: seq<Octet>, len: nat)
    requires 3 * Groups(len) <= |memory|
    ensures LegalText(Encoded(memory, len))
    ensures var p := DecodeGroups(Encoded(memory, len));
            p.length == len && p.out[..len] == memory[..len]
    decreases len
  {
    hide EncodeGroup, DecodeGroup, DecodeGroups, LegalGroup, LegalText, Groups;
    NoGroups();
    if len != 0 {
      var count := if len < 3 then len else 3;
      var f := EncodeGroup(memory[..3], count);
      GroupBack(memory[..3], count);
      var first := DecodeGroup(f).out;
      if len < 3 {
        assert Encoded(memory, len) == f + [];
        GroupInFront(f, []);
        assert (first + [])[..len] == first[..len] && memory[..3][..len] == memory[..len];
      } else {
        var rest := Encoded(memory[3..], len - 3);
        GroupInFront(f, rest);
        EncodedBack(memory[3..], len - 3);
        InFront(first, DecodeGroups(rest).out, memory, len);
      }
    }
  }

  lemma InFront(first: seq<Octet>, rest: seq<Octet>, memory: seq<Octet>, len: nat)
    requires |first| == 3 <= len <= |memory| && len - 3 <= |rest|
    requires first[..3] == memory[..3][..3] && rest[..len - 3] == memory[3..][..len - 3]
    ensures (first + rest)[..len] == memory[..len]
  {
    assert memory[..len] == memory[..3] + memory[3..][..len - 3];
  }

  lemma NoGroups()
    ensures LegalText([]) && DecodeGroups([]) == Plain([], 0)
  {
  }

  lemma DecodeFirst(text: seq<Octet>)
    requires |text| % 4 == 0 && 4 <= |text|
    ensures var p, q := DecodeGroup(text[..4]), DecodeGroups(text[4..]);
            DecodeGroups(text) == Plain(p.out + q.out, p.length + q.length)
  {
  }

  lemma GroupInFront(f: seq<Octet>, rest: seq<Octet>)
    requires |f| == 4 && |rest| % 4 == 0
    ensures LegalText(f + rest) <==> LegalGroup(f) && LegalText(rest)
    ensures var p, q := DecodeGroup(f), DecodeGroups(rest);
            DecodeGroups(f + rest) == Plain(p.out + q.out, p.length + q.length)
  {
    hide DecodeGroup, DecodeGroups, LegalGroup, LegalText;
    var text := f + rest;
    assert text[..4] == f && text[4..] == rest;
    LegalTextCons(text);
    DecodeFirst(text);
  }

  lemma FullEncoded(block: seq<Octet>)
    requires |block| % 3 == 0
    ensures 3 * Groups(|block|) <= |block| && EncodedFull(block) == Encoded(block, |block|)
  {
  }

  lemma GroupsAfter(a: nat, len: nat)
    requires a % 3 == 0
    ensures 3 * Groups(a) == a && 3 * Groups(a + len) == a + 3 * Groups(len)
  {
  }

  /** Full groups and what follows them are encoded one after the other. */
  lemma {:induction false} EncodedSplit(a: seq<Octet>, memory: seq<Octet>, len: nat)
    requires |a| % 3 == 0 && 3 * Groups(len) <= |memory|
    ensures 3 * Groups(|a| + len) <= |a + memory|
    ensures Encoded(a + memory, |a| + len) == EncodedFull(a) + Encoded(memory, len)
    decreases |a|
  {
    hide EncodeGroup, Groups;
    GroupsAfter(|a|, len);
    if a == [] {
      assert a + memory == memory;
      assert EncodedFull(a) == [];
      assert [] + Encoded(memory, len) == Encoded(memory, len);
    } else {
      var all := a + memory;
      assert all[..3] == a[..3] && all[3..] == a[3..] + memory;
      EncodedSplit(a[3..], memory, len);
      var f, rest := EncodeGroup(a[..3], 3), EncodedFull(a[3..]);
      assert EncodedFull(a) == f + rest;
      assert f + (rest + Encoded(memory, len)) == (f + rest) + Encoded(memory, len);
    }
  }

  /** How many of len bytes are left from byte i on. */
  function Left(len: nat, i: nat): nat {
    if i < len then len - i else 0
  }

  /** The groups before byte i are encoded. */
  ghost predicate EncodedUpTo(done: seq<Octet>, memory: seq<Octet>, i: nat, len: nat)
    requires 3 * Groups(len) <= |memory|
  {
    && i + 3 * Groups(Left(len, i)) <= |memory|
    && done + Encoded(memory[i..], Left(len, i)) == Encoded(memory, len)
  }

  lemma EncodedStart(memory: seq<Octet>, len: nat)
    requires 3 * Groups(len) <= |memory|
    ensures EncodedUpTo([], memory, 0, len)
  {
    hide Encoded, Groups;
    assert memory[0..] == memory;
    assert [] + Encoded(memory, len) == Encoded(memory, len);
  }

  lemma EncodedFirst(memory: seq<Octet>, len: nat)
    requires 0 < len && 3 * Groups(len) <= |memory|
    ensures 3 * Groups(Left(len, 3)) <= |memory[3..]|
    ensures Encoded(memory, len)
            == EncodeGroup(memory[..3], if len >= 3 then 3 else len) + Encoded(memory[3..], Left(len, 3))
  {
    hide EncodeGroup, Groups;
  }

  lemma EncodedNext(done: seq<Octet>, memory: seq<Octet>, i: nat, len: nat)
    requires i < len && 3 * Groups(len) <= |memory| && EncodedUpTo(done, memory, i, len)
    ensures i + 3 <= |memory|
    ensures EncodedUpTo(done + EncodeGroup(memory[i..i + 3], if len - i >= 3 then 3 else len - i), memory, i + 3, len)
  {
    hide Encoded, EncodeGroup, Groups;
    var rest := memory[i..];
    EncodedFirst(rest, len - i);
    assert rest[..3] == memory[i..i + 3] && rest[3..] == memory[i + 3..];
    var f := EncodeGroup(memory[i..i + 3], if len - i >= 3 then 3 else len - i);
    var behind := Encoded(memory[i + 3..], Left(len, i + 3));
    assert done + (f + behind) == (done + f) + behind;
  }

  lemma EncodedEnd(done: seq<Octet>, memory: seq<Octet>, i: nat, len: nat)
    requires len <= i && 3 * Groups(len) <= |memory| && EncodedUpTo(done, memory, i, len)
    ensures done == Encoded(memory, len)
  {
    assert done + [] == done;
  }

  /** Encodes a block, group by group. */
  method EncodePEMBlock(memory: seq<Octet>, blockLen: nat) returns (encodedBlock: seq<Octet>)
    requires 3 * Groups(blockLen) <= |memory|
    ensures encodedBlock == Encoded(memory, blockLen)
  {
    hide Encoded, EncodeGroup, Groups, EncodedUpTo;
    encodedBlock := [];
    EncodedStart(memory, blockLen);
    if blockLen < 1 {
      EncodedEnd(encodedBlock, memory, 0, blockLen);
      return;
    }
    var i, lastLen := 0, blockLen as int;
    while i < blockLen
      invariant lastLen == blockLen - i
      invariant EncodedUpTo(encodedBlock, memory, i, blockLen)
    {
      EncodedNext(encodedBlock, memory, i, blockLen);
      encodedBlock := encodedBlock + EncodeGroup(memory[i..i + 3], if lastLen >= 3 then 3 else lastLen);
      lastLen := lastLen - 3;
      i := i + 3;
    }
    EncodedEnd(encodedBlock, memory, i, blockLen);
  }

  /** The groups in front of rest are legal, and decoded to out. */
  ghost predicate DecodedUpTo(text: seq<Octet>, rest: seq<Octet>, out: seq<Octet>, length: nat)
    requires |text| % 4 == 0 && |rest| % 4 == 0
  {
    var behind := DecodeGroups(rest);
    && (LegalText(text) <==> LegalText(rest))
    && DecodeGroups(text) == Plain(out + behind.out, length + behind.length)
  }

  lemma DecodedStart(text: seq<Octet>)
    requires |text| % 4 == 0
    ensures DecodedUpTo(text, text, [], 0)
  {
    hide DecodeGroups, LegalText;
    var all := DecodeGroups(text);
    assert [] + all.out == all.out;
  }

  lemma DecodedNext(text: seq<Octet>, f: seq<Octet>, rest: seq<Octet>, out: seq<Octet>, length: nat)
    requires |text| % 4 == 0 && |f| == 4 && |rest| % 4 == 0 && DecodedUpTo(text, f + rest, out, length)
    ensures LegalGroup(f) ==> DecodedUpTo(text, rest, out + DecodeGroup(f).out, length + DecodeGroup(f).length)
    ensures !LegalGroup(f) ==> !LegalText(text)
  {
    hide LegalGroup, DecodeGroup, DecodeGroups, LegalText;
    GroupInFront(f, rest);
    var p, behind := DecodeGroup(f), DecodeGroups(rest);
    assert out + (p.out + behind.out) == (out + p.out) + behind.out;
  }

  lemma DecodedEnd(text: seq<Octet>, out: seq<Octet>, length: nat)
    requires |text| % 4 == 0 && DecodedUpTo(text, [], out, length)
    ensures LegalText(text) && DecodeGroups(text) == Plain(out, length)
  {
    hide DecodeGroups, LegalText;
    NoGroups();
    assert out + [] == out;
  }

  /** The next group and what lies behind it. */
  lemma GroupSplit(text: seq<Octet>, bp: nat)
    requires bp < |text| && |text[bp..]| % 4 == 0
    ensures bp + 4 <= |text| && |text[bp + 4..]| % 4 == 0
    ensures text[bp..] == text[bp..bp + 4] + text[bp + 4..]
  {
  }

  /** Decodes one group after the other, until one is not legal. */
  method DecodePEMBlock(text: seq<Octet>) returns (r: Result<Plain>)
    ensures r == Decoded(text)
  {
    hide LegalGroup, DecodeGroup, DecodeGroups, LegalText, DecodedUpTo;
    if |text| % 4 != 0 {
      LegalLength(text);
      return Err(RE_ENCODING);
    }
    var bp: nat, length: nat, outbuf := 0, 0, [];
    DecodedStart(text);
    ghost var rest := text;
    while bp < |text|
      invariant bp <= |text| && rest == text[bp..] && |rest| % 4 == 0
      invariant DecodedUpTo(text, rest, outbuf, length)
    {
      GroupSplit(text, bp);
      var f := text[bp..bp + 4];
      rest := text[bp + 4..];
      DecodedNext(text, f, rest, outbuf, length);
      var ok, p := ReadGroup(f);
      if !ok {
        return Err(RE_ENCODING);
      }
      outbuf := outbuf + p.out;
      length := length + p.length;
      bp := bp + 4;
    }
    assert rest == [];
    DecodedEnd(text, outbuf, length);
    r := Ok(Plain(outbuf, length));
  }

  lemma LegalLength(text: seq<Octet>)
    requires |text| % 4 != 0
    ensures !LegalText(text)
  {
  }

  /** The four characters in order; the first illegal one stops. */
  method ReadGroup(f: seq<Octet>) returns (ok: bool, p: Plain)
    requires |f| == 4
    ensures ok == LegalGroup(f) && (ok ==> p == DecodeGroup(f))
  {
    p := Plain([], 0);
    var c1 := AscToBin(f[0]);
    if c1 & 0x80 != 0 {
      return false, p;
    }
    var c2 := AscToBin(f[1]);
    if c2 & 0x80 != 0 {
      return false, p;
    }
    var c3: Octet, c4: Octet := 0, 0;
    var length := 3;
    if f[2] == PAD {
      length := 1;
      if f[3] != PAD {
        return false, p;
      }
    } else {
      c3 := AscToBin(f[2]);
      if c3 & 0x80 != 0 {
        return false, p;
      }
      if f[3] == PAD {
        length := 2;
      } else {
        c4 := AscToBin(f[3]);
        if c4 & 0x80 != 0 {
          return false, p;
        }
      }
    }
    ok, p := true, Plain(Three(c1, c2, c3, c4), length);
  }

  // ---------- envelopes as text ----------

  /** The parts handed over to the envelope: all 24 bytes of every 32
      characters, and the meaningful bytes of the last characters. */
  function TextParts(text: seq<Octet>): (r: Result<seq<seq<Octet>>>)
    decreases |text|
  {
    if |text| < 32 then
      match Decoded(text)
      case Err(e) => Err(e)
      case Ok(p) => Ok([p.out[..p.length]])
    else
      match Decoded(text[..32])
      case Err(e) => Err(e)
      case Ok(p) => Behind([p.out], TextParts(text[32..]))
  }

  function Behind(done: seq<seq<Octet>>, rest: Result<seq<seq<Octet>>>): Result<seq<seq<Octet>>> {
    match rest
    case Err(e) => Err(e)
    case Ok(parts) => Ok(done + parts)
  }

  /** The plaintext of an encoded envelope. */
  function TextOpened(c: Cipher, f: Flow, text: seq<Octet>, sp: SBoxes): (r: Result<seq<Octet>>)
    requires Scheduled(c) && Boxes(sp)
  {
    match TextParts(text)
    case Err(e) => Err(e)
    case Ok(parts) => Opened(c, f, parts, sp)
  }

  /** Text that encodes whole cipher blocks is cut into parts of just these
      bytes. */
  lemma {:induction false} TextPartsBack(data: seq<Octet>, extra: seq<Octet>)
    requires |data| % 8 == 0 && 3 * Groups(|data|) <= |data + extra|
    ensures var parts := TextParts(Encoded(data + extra, |data|));
            parts.Ok? && Flatten(parts.value) == data
    decreases |data|
  {
    hide Encoded, Decoded, Groups, TextParts, Flatten;
    var memory := data + extra;
    var text := Encoded(memory, |data|);
    if |text| < 32 {
      DecodedBack(memory, |data|);
      assert memory[..|data|] == data;
      TextPartsLast(text);
    } else {
      var first, rest := data[..24], data[24..];
      EncodedBlock(data, extra);
      DecodedBlock(first);
      TextPartsFirst(first, Encoded(first, 24), Encoded(rest + extra, |rest|));
      TextPartsBack(rest, extra);
      assert data == first + rest;
    }
  }

  lemma EncodedBlock(data: seq<Octet>, extra: seq<Octet>)
    requires 24 <= |data| && 3 * Groups(|data|) <= |data + extra|
    ensures Groups(24) == 8
    ensures var rest := data[24..];
            && 3 * Groups(|rest|) <= |rest + extra|
            && Encoded(data + extra, |data|) == Encoded(data[..24], 24) + Encoded(rest + extra, |rest|)
  {
    hide Encoded, Groups;
    var first, rest := data[..24], data[24..];
    assert data + extra == first + (rest + extra);
    GroupsAfter(24, |rest|);
    EncodedSplit(first, rest + extra, |rest|);
    FullEncoded(first);
  }

  lemma TextPartsLast(text: seq<Octet>)
    requires |text| < 32 && Decoded(text).Ok?
    ensures var parts := TextParts(text);
            var p := Decoded(text).value;
            parts.Ok? && Flatten(parts.value) == p.out[..p.length]
  {
    hide Decoded;
    var p := Decoded(text).value;
    FlattenCons(p.out[..p.length], []);
    assert [p.out[..p.length]] + [] == [p.out[..p.length]];
  }

  lemma TextPartsFirst(first: seq<Octet>, text: seq<Octet>, rest: seq<Octet>)
    requires |text| == 32 && Decoded(text).Ok? && Decoded(text).value.out == first
    ensures var behind := TextParts(rest);
            var parts := TextParts(text + rest);
            behind.Ok? ==> parts.Ok? && Flatten(parts.value) == first + Flatten(behind.value)
  {
    hide Decoded;
    assert (text + rest)[..32] == text && (text + rest)[32..] == rest;
    if TextParts(rest).Ok? {
      FlattenCons(first, TextParts(rest).value);
    }
  }

  lemma DecodedBack(memory: seq<Octet>, len: nat)
    requires 3 * Groups(len) <= |memory|
    ensures var r := Decoded(Encoded(memory, len));
            r.Ok? && r.value.length == len && r.value.out[..len] == memory[..len]
  {
    hide LegalText, DecodeGroups, Encoded, Groups;
    EncodedBack(memory, len);
  }

  lemma DecodedBlock(block: seq<Octet>)
    requires |block| == 24
    ensures Decoded(Encoded(block, 24)) == Ok(Plain(block, 24))
  {
    hide LegalText, DecodeGroups, Encoded, Groups;
    EncodedBack(block, 24);
    var text := Encoded(block, 24);
    var out := DecodeGroups(text).out;
    assert Groups(24) == 8 && |text| == 32 && |out| == 24;
    assert out == out[..24] && block == block[..24];
  }

  /** What EncryptOpenPEMBlock makes of a message, opened again. */
  lemma TextRoundTrip(e: Cipher, d: Cipher, iv: Halves, text: seq<Octet>, x: seq<Octet>, sp: SBoxes)
    requires Undoes(e, d) && Boxes(sp)
    ensures Scheduled(e) && Scheduled(d)
    ensures IsEncoding(text, Run(e, true, iv, Padded(x), sp).0) ==> TextOpened(d, Flow(iv, []), text, sp) == Ok(x)
  {
    hide Run, Padded, Encoded, TextParts, Opened, Flatten;
    UndoesScheduled(e, d);
    var s := Run(e, true, iv, Padded(x), sp).0;
    if IsEncoding(text, s) {
      var extra: seq<Octet> :| 3 * Groups(|s|) <= |s + extra| && text == Encoded(s + extra, |s|);
      TextPartsBack(s, extra);
      RunBack(e, d, iv, Padded(x), sp);
      OpenedIff(d, Flow(iv, []), TextParts(text).value, x, sp);
      assert [] + s == s;
    }
  }

  /** There is a block of 32 characters exactly when the message has 16 bytes
      or more. */
  lemma LongEnough(text: seq<Octet>, s: seq<Octet>, x: seq<Octet>)
    requires |s| == |Padded(x)| && IsEncoding(text, s)
    ensures 32 <= |text| <==> 16 <= |x|
  {
    hide Encoded;
    var extra: seq<Octet> :| 3 * Groups(|s|) <= |s + extra| && text == Encoded(s + extra, |s|);
  }

  /** A part of 24 bytes leaves as much behind as there was before. */
  lemma AdvanceBlock(c: Cipher, f: Flow, part: seq<Octet>, sp: SBoxes)
    requires Scheduled(c) && Boxes(sp) && |f.pending| < 8 && |part| == 24
    ensures var r := Advance(c, true, f, part, sp); |r.0| == 24 && |r.1.pending| == |f.pending|
  {
    hide Run;
  }

  lemma AdvanceSize(c: Cipher, seal: bool, f: Flow, part: seq<Octet>, sp: SBoxes)
    requires Scheduled(c) && Boxes(sp)
    ensures |Advance(c, seal, f, part, sp).0| == Ready(seal, |f.pending| + |part|)
  {
    hide Run;
  }

  /** The characters of full groups and of what follows them encode both. */
  lemma BothEncoded(blocks: seq<Octet>, memory: seq<Octet>, len: nat)
    requires |blocks| % 3 == 0 && len <= |memory| && 3 * Groups(len) <= |memory|
    ensures IsEncoding(EncodedFull(blocks) + Encoded(memory, len), blocks + memory[..len])
  {
    hide Encoded, EncodedFull, Groups, IsEncoding;
    var data, extra := blocks + memory[..len], memory[len..];
    EncodedSplit(blocks, memory, len);
    assert data + extra == blocks + memory;
    WithExtra(data, extra, blocks + memory, |blocks| + len);
  }

  lemma WithExtra(data: seq<Octet>, extra: seq<Octet>, memory: seq<Octet>, len: nat)
    requires memory == data + extra && len == |data| && 3 * Groups(len) <= |memory|
    ensures IsEncoding(Encoded(memory, len), data)
  {
    hide Encoded, Groups;
  }

  /** Some parts of the data are sealed, and their ciphertext is encoded. */
  ghost predicate Progress(c: Cipher, start: Flow, now: Flow, parts: seq<seq<Octet>>, data: seq<Octet>,
                           sealed: seq<Octet>, output: seq<Octet>, sp: SBoxes)
    requires Scheduled(c) && Boxes(sp)
  {
    && AdvanceAll(c, true, start, parts, sp) == (sealed, now) && Flatten(parts) == data
    && |sealed| % 3 == 0 && output == EncodedFull(sealed)
  }

  lemma ProgressNext(c: Cipher, start: Flow, now: Flow, parts: seq<seq<Octet>>, data: seq<Octet>,
                     sealed: seq<Octet>, output: seq<Octet>, part: seq<Octet>, out: seq<Octet>, sp: SBoxes)
    requires Scheduled(c) && Boxes(sp) && out == Advance(c, true, now, part, sp).0 && |out| % 3 == 0
    requires Progress(c, start, now, parts, data, sealed, output, sp)
    ensures Progress(c, start, Advance(c, true, now, part, sp).1, parts + [part], data + part, sealed + out,
                     output + EncodedFull(out), sp)
  {
    hide Run, Encoded, EncodedFull, Advance, AdvanceAll, Flatten, Groups;
    AdvanceNext(c, true, start, parts, part, sp);
    FullEncoded(out);
    EncodedSplit(sealed, out, |out|);
    FullEncoded(sealed + out);
  }

  /** Seals and encodes as many parts of 24 bytes as possible. */
  method EncryptBlocks(context: EnvelopeCtx, input: seq<Octet>, encryptedPart: array<Octet>, sp: SBoxes)
    returns (output: seq<Octet>, ghost parts: seq<seq<Octet>>, ghost sealed: seq<Octet>)
    requires context.Valid() && context.bufferLen < 8 && context.cipher.encrypt && Boxes(sp)
    requires encryptedPart.Length == 24
    modifies context`bufferLen, context.buffer, context.cipher`iv, encryptedPart
    ensures context.Valid() && context.bufferLen == old(context.bufferLen)
    ensures Progress(context.cipher.cipher, old(context.State()), context.State(), parts,
                     input[..24 * (|input| / 24)], sealed, output, sp)
  {
    hide Run, Encoded, EncodedFull, Scheduled, Advance, Progress;
    ghost var c := context.cipher.cipher;
    ghost var start := context.State();
    output, parts, sealed := [], [], [];
    NothingYet(c, start, sp);
    var i := 0;
    assert input[..24 * i] == [];
    while i < |input| / 24
      invariant i <= |input| / 24 && context.Valid() && context.bufferLen == old(context.bufferLen)
      invariant Progress(c, start, context.State(), parts, input[..24 * i], sealed, output, sp)
    {
      var part := input[24 * i..24 * i + 24];
      ghost var now := context.State();
      AdvanceBlock(c, now, part, sp);
      var out := context.SealUpdate(part, sp);
      ProgressNext(c, start, now, parts, input[..24 * i], sealed, output, part, out, sp);
      assert input[..24 * i] + part == input[..24 * (i + 1)];
      CopyIn(encryptedPart, 0, out);
      assert encryptedPart[..] == out;
      var text := EncodeFull(encryptedPart[..]);
      output, parts, sealed := output + text, parts + [part], sealed + out;
      i := i + 1;
    }
  }

  lemma NothingYet(c: Cipher, f: Flow, sp: SBoxes)
    requires Scheduled(c) && Boxes(sp)
    ensures AdvanceAll(c, true, f, [], sp) == ([], f) && AdvanceAll(c, false, f, [], sp) == ([], f)
    ensures Progress(c, f, f, [], [], [], [], sp)
  {
  }

  method EncodeFull(block: seq<Octet>) returns (text: seq<Octet>)
    requires |block| % 3 == 0
    ensures text == EncodedFull(block)
  {
    text := EncodePEMBlock(block, |block|);
  }

  /** Seals a message and encodes it, 24 bytes at a time. */
  method EncryptOpenPEMBlock(context: EnvelopeCtx, input: seq<Octet>, sp: SBoxes) returns (output: seq<Octet>)
    requires context.Valid() && context.bufferLen + |input| % 24 < 24 && context.bufferLen < 8
    requires context.cipher.encrypt && Boxes(sp)
    modifies context`bufferLen, context.buffer, context.cipher`iv
    ensures context.Valid() && context.State() == Flow(context.cipher.originalIV, [])
    ensures IsEncoding(output, Run(context.cipher.cipher, true, old(context.cipher.iv),
                                   Padded(old(context.State()).pending + input), sp).0)
  {
    hide Run, Padded, Encoded, Scheduled, Advance, IsEncoding, SealEnd, Progress;
    ghost var c := context.cipher.cipher;
    ghost var start := context.State();
    var encryptedPart := new Octet[24];
    var blocks;
    ghost var parts, sealed;
    blocks, parts, sealed := EncryptBlocks(context, input, encryptedPart, sp);
    ghost var data := input[..24 * (|input| / 24)];
    var rest := input[24 * (|input| / 24)..];
    ghost var f := context.State();
    AdvanceSize(c, true, f, rest, sp);
    var last := context.SealUpdate(rest, sp);
    CopyIn(encryptedPart, 0, last);
    var final := context.SealFinal(sp);
    CopyIn(encryptedPart, |last|, final);
    var lastPartLen := |last| + |final|;
    assert encryptedPart[..][..lastPartLen] == last + final;
    var text := EncodePEMBlock(encryptedPart[..], lastPartLen);
    output := blocks + text;
    ProgressEnd(c, start, f, parts, data, sealed, blocks, rest, encryptedPart[..], lastPartLen, sp);
    assert data + rest == input;
  }

  /** The last part and the final block complete the ciphertext. */
  lemma ProgressEnd(c: Cipher, start: Flow, now: Flow, parts: seq<seq<Octet>>, data: seq<Octet>, sealed: seq<Octet>,
                    blocks: seq<Octet>, rest: seq<Octet>, memory: seq<Octet>, len: nat, sp: SBoxes)
    requires Scheduled(c) && Boxes(sp) && |start.pending| < 8
    requires Progress(c, start, now, parts, data, sealed, blocks, sp)
    requires len <= |memory| && 3 * Groups(len) <= |memory|
    requires var r := Advance(c, true, now, rest, sp); memory[..len] == r.0 + SealEnd(c, r.1, sp)
    ensures IsEncoding(blocks + Encoded(memory, len),
                       Run(c, true, start.iv, Padded(start.pending + (data + rest)), sp).0)
  {
    hide Run, Padded, Encoded, EncodedFull, Scheduled, Advance, AdvanceAll, Flatten, IsEncoding, SealEnd, Groups;
    SealedNext(c, start, parts, rest, sp);
    BothEncoded(sealed, memory, len);
  }

  /** The ciphertext of a message whose last part is rest. */
  lemma SealedNext(c: Cipher, f: Flow, parts: seq<seq<Octet>>, rest: seq<Octet>, sp: SBoxes)
    requires Scheduled(c) && Boxes(sp) && |f.pending| < 8
    ensures var before := AdvanceAll(c, true, f, parts, sp);
            var r := Advance(c, true, before.1, rest, sp);
            Run(c, true, f.iv, Padded(f.pending + (Flatten(parts) + rest)), sp).0
            == before.0 + (r.0 + SealEnd(c, r.1, sp))
  {
    hide Run, Padded, Advance, AdvanceAll, Flatten, SealEnd;
    AdvanceNext(c, true, f, parts, rest, sp);
    SealedOneShot(c, f, parts + [rest], sp);
    var before := AdvanceAll(c, true, f, parts, sp);
    var r := Advance(c, true, before.1, rest, sp);
    assert (before.0 + r.0) + SealEnd(c, r.1, sp) == before.0 + (r.0 + SealEnd(c, r.1, sp));
  }

  lemma BehindTwice(a: seq<seq<Octet>>, b: seq<seq<Octet>>, rest: Result<seq<seq<Octet>>>)
    ensures Behind(a, Behind(b, rest)) == Behind(a + b, rest)
  {
    if rest.Ok? {
      assert a + (b + rest.value) == (a + b) + rest.value;
    }
  }

  /** One more block of 32 characters. */
  lemma TextPartsNext(input: seq<Octet>, i: nat, parts: seq<seq<Octet>>)
    requires 32 * (i + 1) <= |input|
    requires TextParts(input) == Behind(parts, TextParts(input[32 * i..]))
    ensures match Decoded(input[32 * i..32 * i + 32])
            case Err(e) => TextParts(input) == Err(e)
            case Ok(p) => TextParts(input) == Behind(parts + [p.out], TextParts(input[32 * (i + 1)..]))
  {
    hide Decoded;
    var left := input[32 * i..];
    assert left[..32] == input[32 * i..32 * i + 32] && left[32..] == input[32 * (i + 1)..];
    var r := Decoded(left[..32]);
    if r.Ok? {
      BehindTwice(parts, [r.value.out], TextParts(left[32..]));
    }
  }

  /** Decodes and opens as many blocks of 32 characters as possible. The
      status is only set when there is one. */
  method DecryptBlocks(context: EnvelopeCtx, input: seq<Octet>, unset: Result<()>, sp: SBoxes)
    returns (output: seq<Octet>, status: Result<()>, ghost parts: seq<seq<Octet>>)
    requires context.Valid() && !context.cipher.encrypt && Boxes(sp)
    modifies context`bufferLen, context.buffer, context.cipher`iv
    ensures context.Valid()
    ensures |input| < 32 ==> status == unset && output == []
    ensures status.Ok? ==>
              && AdvanceAll(context.cipher.cipher, false, old(context.State()), parts, sp) == (output, context.State())
              && TextParts(input) == Behind(parts, TextParts(input[32 * (|input| / 32)..]))
              && (context.bufferLen == 0 ==> context.State() == old(context.State()))
    ensures status.Err? && 32 <= |input| ==> TextParts(input) == Err(status.error)
  {
    hide Run, Decoded, Scheduled, Advance, AdvanceAll, TextParts, Behind;
    ghost var c := context.cipher.cipher;
    ghost var start := context.State();
    output, status, parts := [], unset, [];
    NothingYet(c, start, sp);
    assert input[32 * 0..] == input;
    BehindNothing(TextParts(input));
    var i := 0;
    while i < |input| / 32
      invariant i <= |input| / 32 && context.Valid()
      invariant status == (if i == 0 then unset else Ok(()))
      invariant |input| < 32 ==> output == []
      invariant AdvanceAll(c, false, start, parts, sp) == (output, context.State())
      invariant context.bufferLen == 0 ==> context.State() == start
      invariant TextParts(input) == Behind(parts, TextParts(input[32 * i..]))
    {
      TextPartsNext(input, i, parts);
      var r := DecodePEMBlock(input[32 * i..32 * i + 32]);
      if r.Err? {
        status := Err(r.error);
        return;
      }
      status := Ok(());
      var len := context.OpenUpdate(r.value.out, sp);
      AdvanceNext(c, false, start, parts, r.value.out, sp);
      output, parts := output + len, parts + [r.value.out];
      i := i + 1;
    }
  }

  lemma BehindNothing(rest: Result<seq<seq<Octet>>>)
    ensures Behind([], rest) == rest
  {
    if rest.Ok? {
      assert [] + rest.value == rest.value;
    }
  }

  /** Decodes and opens a whole text; unset is what the status holds before
      it is first set. */
  method DecryptOpenPEMBlock(context: EnvelopeCtx, input: seq<Octet>, unset: Result<()>, sp: SBoxes)
    returns (output: seq<Octet>, status: Result<()>)
    requires context.Valid() && !context.cipher.encrypt && Boxes(sp)
    modifies context`bufferLen, context.buffer, context.cipher`iv
    ensures context.Valid()
    ensures status.Ok? && old(context.State()) == Flow(context.cipher.originalIV, []) ==>
              context.State() == Flow(context.cipher.originalIV, [])
    ensures |input| < 32 && unset.Err? ==> status == unset && output == []
    ensures 32 <= |input| || unset.Ok? ==>
              match TextOpened(context.cipher.cipher, old(context.State()), input, sp)
              case Err(e) => status == Err(e)
              case Ok(x) => status == Ok(()) && output == x
  {
    hide Run, Decoded, Scheduled, Advance, AdvanceAll, OpenEnd;
    ghost var c := context.cipher.cipher;
    ghost var start := context.State();
    ghost var parts;
    output, status, parts := DecryptBlocks(context, input, unset, sp);
    if status.Err? {
      return;
    }
    var rest := input[32 * (|input| / 32)..];
    var r := DecodePEMBlock(rest);
    if r.Err? {
      status := Err(r.error);
      return;
    }
    var part := r.value.out[..r.value.length];
    assert TextParts(rest) == Ok([part]) && TextParts(input) == Ok(parts + [part]);
    var len := context.OpenUpdate(part, sp);
    AdvanceNext(c, false, start, parts, part, sp);
    ghost var f := context.State();
    output := output + len;
    ghost var body := output;
    var last := context.OpenFinal(sp);
    assert last == OpenEnd(c, f, sp);
    if last.Err? {
      status := Err(last.error);
      return;
    }
    output, status := output + last.value, Ok(());
    assert AdvanceAll(c, false, start, parts + [part], sp) == (body, f);
    assert Opened(c, start, parts + [part], sp) == Ok(body + last.value);
  }

  /** Encoding a sealed message and opening the text on the other side returns
      the message, and restarts both contexts, when there is a block of 32
      characters or the status happens to be clear. */
  method SealAndOpenText(seal: EnvelopeCtx, open: EnvelopeCtx, x: seq<Octet>, unset: Result<()>, sp: SBoxes)
    returns (output: seq<Octet>, status: Result<()>)
    requires Boxes(sp) && Apart(seal, open) && seal.Valid() && open.Valid()
    requires seal.cipher.encrypt && !open.cipher.encrypt && Undoes(seal.cipher.cipher, open.cipher.cipher)
    requires seal.State() == open.State() == Flow(open.cipher.originalIV, [])
    modifies seal`bufferLen, seal.buffer, seal.cipher`iv, open`bufferLen, open.buffer, open.cipher`iv
    ensures if 16 <= |x| || unset.Ok? then status == Ok(()) && output == x else status == unset && output == []
    ensures seal.Valid() && seal.State() == Flow(seal.cipher.originalIV, [])
    ensures open.Valid() && (status.Ok? ==> open.State() == Flow(open.cipher.originalIV, []))
  {
    hide Run, Padded, IsEncoding, TextOpened, Scheduled;
    ghost var iv := seal.cipher.iv;
    assert seal.State().pending + x == x;
    var text := EncryptOpenPEMBlock(seal, x, sp);
    LongEnough(text, Run(seal.cipher.cipher, true, iv, Padded(x), sp).0, x);
    TextRoundTrip(seal.cipher.cipher, open.cipher.cipher, iv, text, x, sp);
    output, status := DecryptOpenPEMBlock(open, text, unset, sp);
  }
}
