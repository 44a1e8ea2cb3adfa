/** The DES block function on 32-bit words, for any contents of the S-boxes:
    running it with the subkey pairs in reverse order undoes it. */
module Des {

  type Word = bv32
  type SBoxes = seq<bv6 -> Word>
  type Subkeys = seq<Word>

  predicate Boxes(sp: SBoxes) {
    |sp| == 8
  }

  predicate Schedule(ks: Subkeys) {
    |ks| == 32
  }

  // ---------- the bit permutations ----------

  datatype Halves = Halves(l: Word, r: Word)

  /** Exchanges the bits of r under a mask with the bits of l that lie some
      places higher. */
  function Swap4(h: Halves): Halves {
    var work := ((h.l >> 4) ^ h.r) & 0x0f0f_0f0f;
    Halves(h.l ^ (work << 4), h.r ^ work)
  }

  function Swap16(h: Halves): Halves {
    var work := ((h.l >> 16) ^ h.r) & 0xffff;
    Halves(h.l ^ (work << 16), h.r ^ work)
  }

  function Swap2(h: Halves): Halves {
    var work := ((h.l >> 2) ^ h.r) & 0x3333_3333;
    Halves(h.l ^ (work << 2), h.r ^ work)
  }

  function Swap8(h: Halves): Halves {
    var work := ((h.l >> 8) ^ h.r) & 0xff_00ff;
    Halves(h.l ^ (work << 8), h.r ^ work)
  }

  function Xor(x: Word, y: Word): Word {
    x ^ y
  }

  lemma XorTwice(x: Word, y: Word)
    ensures Xor(Xor(x, y), y) == x
  {
  }

  function MixBits(left: Word, right: Word): Word {
    (left ^ right) & 0xaaaa_aaaa
  }

  function Mix(h: Halves): Halves {
    var work := MixBits(h.l, h.r);
    Halves(Xor(h.l, work), Xor(h.r, work))
  }

  function Flip(h: Halves): Halves {
    Halves(h.r, h.l)
  }

  function RotateLeft(x: Word): Word {
    (x << 1) | (x >> 31)
  }

  function RotateRight(x: Word): Word {
    (x << 31) | (x >> 1)
  }

  /** The permutation in front of the rounds. */
  function Initial(b: Halves): Halves {
    var h := Flip(Swap8(Swap2(Flip(Swap16(Swap4(b))))));
    var m := Mix(Halves(h.l, RotateLeft(h.r)));
    Halves(RotateLeft(m.l), m.r)
  }

  /** The permutation behind the rounds; it stores the right half first. */
  function Final(h: Halves): Halves {
    var m := Mix(Halves(h.l, RotateRight(h.r)));
    Swap4(Swap16(Flip(Swap2(Swap8(Halves(RotateRight(m.l), m.r))))))
  }

  lemma Swap4Twice(h: Halves)
    ensures Swap4(Swap4(h)) == h
  {
    var w := ((h.l >> 4) ^ h.r) & 0x0f0f_0f0f;
    assert (((h.l ^ (w << 4)) >> 4) ^ (h.r ^ w)) & 0x0f0f_0f0f == w;
  }

  lemma Swap16Twice(h: Halves)
    ensures Swap16(Swap16(h)) == h
  {
    var w := ((h.l >> 16) ^ h.r) & 0xffff;
    assert (((h.l ^ (w << 16)) >> 16) ^ (h.r ^ w)) & 0xffff == w;
  }

  lemma Swap2Twice(h: Halves)
    ensures Swap2(Swap2(h)) == h
  {
    var w := ((h.l >> 2) ^ h.r) & 0x3333_3333;
    assert (((h.l ^ (w << 2)) >> 2) ^ (h.r ^ w)) & 0x3333_3333 == w;
  }

  lemma Swap8Twice(h: Halves)
    ensures Swap8(Swap8(h)) == h
  {
    var w := ((h.l >> 8) ^ h.r) & 0xff_00ff;
    assert (((h.l ^ (w << 8)) >> 8) ^ (h.r ^ w)) & 0xff_00ff == w;
  }

  lemma MixTwice(h: Halves)
    ensures Mix(Mix(h)) == h
  {
    hide Xor, MixBits;
    var w := MixBits(h.l, h.r);
    MixBitsKept(h.l, h.r, w);
    XorTwice(h.l, w);
    XorTwice(h.r, w);
  }

  lemma MixBitsKept(x: Word, y: Word, w: Word)
    ensures MixBits(Xor(x, w), Xor(y, w)) == MixBits(x, y)
  {
  }

  lemma RotateBack(x: Word)
    ensures RotateLeft(RotateRight(x)) == x && RotateRight(RotateLeft(x)) == x
  {
  }

  /** The two permutations undo each other up to the exchange of the halves. */
  lemma InitialFinal(h: Halves)
    ensures Initial(Final(h)) == Flip(h)
  {
    hide Swap2, Swap4, Swap8, Swap16, Mix, RotateLeft, RotateRight;
    var m := Mix(Halves(h.l, RotateRight(h.r)));
    var a := Halves(RotateRight(m.l), m.r);
    var b := Swap2(Swap8(a));
    Swap4Twice(Swap16(Flip(b)));
    Swap16Twice(Flip(b));
    Swap2Twice(Swap8(a));
    Swap8Twice(a);
    RotateBack(m.l);
    MixTwice(Halves(h.l, RotateRight(h.r)));
    RotateBack(h.r);
    // the halves are exchanged on the way in, and the mixing is symmetric
    MixFlip(m);
  }

  lemma MixFlip(h: Halves)
    ensures Mix(Flip(h)) == Flip(Mix(h))
  {
    hide MixBits, Xor;
    MixBitsSymmetric(h.l, h.r);
  }

  lemma MixBitsSymmetric(x: Word, y: Word)
    ensures MixBits(x, y) == MixBits(y, x)
  {
  }

  lemma FinalInitial(b: Halves)
    ensures Final(Flip(Initial(b))) == b
  {
    hide Swap2, Swap4, Swap8, Swap16, Mix, RotateLeft, RotateRight;
    var h := Flip(Swap8(Swap2(Flip(Swap16(Swap4(b))))));
    var m := Mix(Halves(h.l, RotateLeft(h.r)));
    RotateBack(m.l);
    MixTwice(Halves(h.l, RotateLeft(h.r)));
    MixFlip(m);
    RotateBack(h.r);
    Swap8Twice(Swap2(Flip(Swap16(Swap4(b)))));
    Swap2Twice(Flip(Swap16(Swap4(b))));
    Swap16Twice(Swap4(b));
    Swap4Twice(b);
  }

  // ---------- the rounds ----------

  function Low6(w: Word): bv6 {
    (w & 0x3f) as bv6
  }

  function Xor8(a: Word, b: Word, c: Word, d: Word, e: Word, f: Word, g: Word, h: Word): Word {
    a ^ b ^ c ^ d ^ e ^ f ^ g ^ h
  }

  /** What one round adds to a half, from the other half and a subkey pair. */
  function Feistel(r: Word, k0: Word, k1: Word, sp: SBoxes): Word
    requires Boxes(sp)
  {
    var u := ((r >> 4) | (r << 28)) ^ k0;
    var v := r ^ k1;
    Xor8(sp[6](Low6(u)), sp[4](Low6(u >> 8)), sp[2](Low6(u >> 16)), sp[0](Low6(u >> 24)),
         sp[7](Low6(v)), sp[5](Low6(v >> 8)), sp[3](Low6(v >> 16)), sp[1](Low6(v >> 24)))
  }

  /** Round i changes the left half when i is even and the right half when it
      is odd. */
  function Round(h: Halves, i: nat, ks: Subkeys, sp: SBoxes): Halves
    requires i < 16 && Schedule(ks) && Boxes(sp)
  {
    if i % 2 == 0 then Halves(Xor(h.l, Feistel(h.r, ks[2 * i], ks[2 * i + 1], sp)), h.r)
    else Halves(h.l, Xor(h.r, Feistel(h.l, ks[2 * i], ks[2 * i + 1], sp)))
  }

  function Rounds(h: Halves, n: nat, ks: Subkeys, sp: SBoxes): Halves
    requires n <= 16 && Schedule(ks) && Boxes(sp)
  {
    if n == 0 then h else Round(Rounds(h, n - 1, ks, sp), n - 1, ks, sp)
  }

  /** The block function. */
  function Crypt(b: Halves, ks: Subkeys, sp: SBoxes): Halves
    requires Schedule(ks) && Boxes(sp)
  {
    Final(Rounds(Initial(b), 16, ks, sp))
  }

  /** The subkey pairs of one schedule are those of the other backwards. */
  predicate Reversed(ks: Subkeys, rs: Subkeys) {
    && Schedule(ks) && Schedule(rs)
    && forall i :: 0 <= i < 16 ==> ks[2 * i] == rs[30 - 2 * i] && ks[2 * i + 1] == rs[31 - 2 * i]
  }

  /** A round undoes itself, seen with the halves exchanged, one index parity
      later. */
  lemma RoundBack(h: Halves, i: nat, ks: Subkeys, rs: Subkeys, sp: SBoxes)
    requires i < 16 && Boxes(sp) && Reversed(ks, rs)
    ensures Round(Flip(Round(h, i, ks, sp)), 15 - i, rs, sp) == Flip(h)
  {
    hide Feistel, Xor;
    var j := 15 - i;
    assert rs[2 * j] == ks[2 * i] && rs[2 * j + 1] == ks[2 * i + 1];
    XorTwice(h.l, Feistel(h.r, ks[2 * i], ks[2 * i + 1], sp));
    XorTwice(h.r, Feistel(h.l, ks[2 * i], ks[2 * i + 1], sp));
  }

  lemma {:induction false} RoundsBack(h: Halves, n: nat, ks: Subkeys, rs: Subkeys, sp: SBoxes)
    requires n <= 16 && Boxes(sp) && Reversed(ks, rs)
    ensures Rounds(Flip(Rounds(h, 16, ks, sp)), n, rs, sp) == Flip(Rounds(h, 16 - n, ks, sp))
  {
    if n != 0 {
      RoundsBack(h, n - 1, ks, rs, sp);
      hide Round;
      RoundBack(Rounds(h, 16 - n, ks, sp), 16 - n, ks, rs, sp);
    }
  }

  /** Running the block function with the subkey pairs backwards undoes it. */
  lemma CryptBack(b: Halves, ks: Subkeys, rs: Subkeys, sp: SBoxes)
    requires Boxes(sp) && Reversed(ks, rs)
    ensures Crypt(Crypt(b, ks, sp), rs, sp) == b
  {
    hide Initial, Final, Round;
    var h := Initial(b);
    InitialFinal(Rounds(h, 16, ks, sp));
    RoundsBack(h, 16, ks, rs, sp);
    FinalInitial(b);
  }

  /** The block function in place. */
  method DesFunc(block: array<Word>, ks: Subkeys, sp: SBoxes)
    requires block.Length == 2 && Schedule(ks) && Boxes(sp)
    modifies block
    ensures Halves(block[0], block[1]) == Crypt(old(Halves(block[0], block[1])), ks, sp)
  {
    hide Initial, Final, Feistel, Xor;
    ghost var h := Initial(Halves(block[0], block[1]));
    var start := Initial(Halves(block[0], block[1]));
    var left, right := start.l, start.r;
    var i := 0;
    while i < 16
      invariant i <= 16 && i % 2 == 0
      invariant Halves(left, right) == Rounds(h, i, ks, sp)
    {
      left := Xor(left, Feistel(right, ks[2 * i], ks[2 * i + 1], sp));
      assert Halves(left, right) == Rounds(h, i + 1, ks, sp);
      right := Xor(right, Feistel(left, ks[2 * i + 2], ks[2 * i + 3], sp));
      i := i + 2;
    }
    var end := Final(Halves(left, right));
    block[0], block[1] := end.l, end.r;
  }

  // ---------- the key schedule ----------

  /** The two cooked words of one pair of raw subkeys. */
  function CookFirst(raw0: Word, raw1: Word): Word {
    ((raw0 & 0x00fc_0000) << 6) | ((raw0 & 0x0000_0fc0) << 10)
    | ((raw1 & 0x00fc_0000) >> 10) | ((raw1 & 0x0000_0fc0) >> 6)
  }

  function CookSecond(raw0: Word, raw1: Word): Word {
    ((raw0 & 0x0003_f000) << 12) | ((raw0 & 0x0000_003f) << 16)
    | ((raw1 & 0x0003_f000) >> 4) | (raw1 & 0x0000_003f)
  }

  /** The place of the cooked pair i: forwards, or backwards from the end. */
  function PairPlace(i: nat, encrypt: bool): int {
    if encrypt then 2 * i else 30 - 2 * i
  }

  ghost predicate Cooked(subkeys: Subkeys, kn: seq<Word>, encrypt: bool) {
    && |subkeys| == 32 && |kn| == 32
    && forall i :: 0 <= i < 16 ==>
         && subkeys[PairPlace(i, encrypt)] == CookFirst(kn[2 * i], kn[2 * i + 1])
         && subkeys[PairPlace(i, encrypt) + 1] == CookSecond(kn[2 * i], kn[2 * i + 1])
  }

  /** Cooks the raw subkeys; the pointer steps on by two places, or back by
      two after it moved one place on. */
  method CookKey(subkeys: array<Word>, kn: seq<Word>, encrypt: bool)
    requires subkeys.Length == 32 && |kn| == 32
    modifies subkeys
    ensures Cooked(subkeys[..], kn, encrypt)
    ensures forall i :: 0 <= i < 16 ==>
              var place := if encrypt then i else 15 - i;
              && subkeys[2 * place] == CookFirst(kn[2 * i], kn[2 * i + 1])
              && subkeys[2 * place + 1] == CookSecond(kn[2 * i], kn[2 * i + 1])
  {
    hide CookFirst, CookSecond;
    var cooked := if encrypt then 0 else 30;
    var increment := if encrypt then 1 else -3;
    var i := 0;
    while i < 16
      invariant i <= 16 && cooked == PairPlace(i, encrypt)
      invariant forall j :: 0 <= j < i ==>
                  && subkeys[PairPlace(j, encrypt)] == CookFirst(kn[2 * j], kn[2 * j + 1])
                  && subkeys[PairPlace(j, encrypt) + 1] == CookSecond(kn[2 * j], kn[2 * j + 1])
    {
      subkeys[cooked] := CookFirst(kn[2 * i], kn[2 * i + 1]);
      cooked := cooked + 1;
      subkeys[cooked] := CookSecond(kn[2 * i], kn[2 * i + 1]);
      cooked := cooked + increment;
      i := i + 1;
    }
  }

  /** Cooking for encryption and for decryption gives reversed schedules. */
  lemma CookedReversed(ks: Subkeys, rs: Subkeys, kn: seq<Word>, encrypt: bool)
    requires Cooked(ks, kn, encrypt) && Cooked(rs, kn, !encrypt)
    ensures Reversed(ks, rs)
  {
    hide CookFirst, CookSecond;
    forall i | 0 <= i < 16
      ensures ks[2 * i] == rs[30 - 2 * i] && ks[2 * i + 1] == rs[31 - 2 * i]
    {
      var j := if encrypt then i else 15 - i;
      assert PairPlace(j, encrypt) == 2 * i && PairPlace(j, !encrypt) == 30 - 2 * i;
    }
  }

  // ---------- the standard ----------

  /** The eight bits of the first byte of a word, the most significant one
      first. */
  function ByteBits(w: Word): (s: seq<bool>)
    ensures |s| == 8
  {
    [w & 0x8000_0000 != 0, w & 0x4000_0000 != 0, w & 0x2000_0000 != 0, w & 0x1000_0000 != 0,
     w & 0x800_0000 != 0, w & 0x400_0000 != 0, w & 0x200_0000 != 0, w & 0x100_0000 != 0]
  }

  function WordBits(w: Word): (s: seq<bool>)
    ensures |s| == 32
  {
    ByteBits(w) + ByteBits(w << 8) + ByteBits(w << 16) + ByteBits(w << 24)
  }

  /** The bits at place j of the eight bytes of a block, from the last byte to
      the first. */
  function Column(b: Halves, j: nat): (s: seq<bool>)
    requires j < 8
    ensures |s| == 8
  {
    [ByteBits(b.r << 24)[j], ByteBits(b.r << 16)[j], ByteBits(b.r << 8)[j], ByteBits(b.r)[j],
     ByteBits(b.l << 24)[j], ByteBits(b.l << 16)[j], ByteBits(b.l << 8)[j], ByteBits(b.l)[j]]
  }

  /** The initial permutation of the standard: the bits 58, 50, up to 8 to the
      left, and the bits 57, 49, up to 7 to the right. */
  predicate Permuted(b: Halves, l: Word, r: Word) {
    && WordBits(l) == Column(b, 1) + Column(b, 3) + Column(b, 5) + Column(b, 7)
    && WordBits(r) == Column(b, 0) + Column(b, 2) + Column(b, 4) + Column(b, 6)
  }

  lemma Column1(b: Halves)
    ensures ByteBits(RotateRight(Initial(b).l)) == Column(b, 1)
  {
  }

  lemma Column3(b: Halves)
    ensures ByteBits(RotateRight(Initial(b).l) << 8) == Column(b, 3)
  {
  }

  lemma Column5(b: Halves)
    ensures ByteBits(RotateRight(Initial(b).l) << 16) == Column(b, 5)
  {
  }

  lemma Column7(b: Halves)
    ensures ByteBits(RotateRight(Initial(b).l) << 24) == Column(b, 7)
  {
  }

  lemma Column0(b: Halves)
    ensures ByteBits(RotateRight(Initial(b).r)) == Column(b, 0)
  {
  }

  lemma Column2(b: Halves)
    ensures ByteBits(RotateRight(Initial(b).r) << 8) == Column(b, 2)
  {
  }

  lemma Column4(b: Halves)
    ensures ByteBits(RotateRight(Initial(b).r) << 16) == Column(b, 4)
  {
  }

  lemma Column6(b: Halves)
    ensures ByteBits(RotateRight(Initial(b).r) << 24) == Column(b, 6)
  {
  }

  /** The permutation in front of the rounds is that of the standard, with both
      halves rotated by one bit. */
  lemma InitialIsStandard(b: Halves)
    ensures Permuted(b, RotateRight(Initial(b).l), RotateRight(Initial(b).r))
  {
    hide Initial, RotateRight, ByteBits, Column;
    Column0(b);
    Column1(b);
    Column2(b);
    Column3(b);
    Column4(b);
    Column5(b);
    Column6(b);
    Column7(b);
  }

  /** The rounds of the standard from round i on: the halves change places, and
      one is added to. */
  function StandardRounds(l: Word, r: Word, i: nat, ks: Subkeys, sp: SBoxes): Halves
    requires i <= 16 && Schedule(ks) && Boxes(sp)
    decreases 16 - i
  {
    if i == 16 then Halves(l, r)
    else StandardRounds(r, Xor(l, Feistel(r, ks[2 * i], ks[2 * i + 1], sp)), i + 1, ks, sp)
  }

  lemma {:induction false} RoundsAreStandard(h: Halves, n: nat, ks: Subkeys, sp: SBoxes)
    requires n <= 16 && n % 2 == 0 && Schedule(ks) && Boxes(sp)
    ensures var m := Rounds(h, n, ks, sp);
            StandardRounds(m.l, m.r, n, ks, sp) == StandardRounds(h.l, h.r, 0, ks, sp)
  {
    hide Feistel, Xor;
    if n != 0 {
      RoundsAreStandard(h, n - 2, ks, sp);
      var m := Rounds(h, n - 2, ks, sp);
      TwoRounds(m, n - 2, ks, sp);
      assert Rounds(h, n, ks, sp) == Round(Round(m, n - 2, ks, sp), n - 1, ks, sp);
    }
  }

  lemma TwoRounds(m: Halves, n: nat, ks: Subkeys, sp: SBoxes)
    requires n <= 14 && n % 2 == 0 && Schedule(ks) && Boxes(sp)
    ensures var next := Round(Round(m, n, ks, sp), n + 1, ks, sp);
            StandardRounds(m.l, m.r, n, ks, sp) == StandardRounds(next.l, next.r, n + 2, ks, sp)
  {
    hide Feistel, Xor;
    var one := Round(m, n, ks, sp);
    assert StandardRounds(m.l, m.r, n, ks, sp) == StandardRounds(one.r, one.l, n + 1, ks, sp);
  }

  /** The block function is that of the standard: the initial permutation of
      the input goes through sixteen rounds with the subkey pairs in order, and
      the result, halves exchanged, is the initial permutation of the output. */
  lemma CryptIsStandard(b: Halves, ks: Subkeys, sp: SBoxes) returns (l: Word, r: Word)
    requires Schedule(ks) && Boxes(sp)
    ensures Permuted(b, l, r)
    ensures var end := StandardRounds(RotateLeft(l), RotateLeft(r), 0, ks, sp);
            Permuted(Crypt(b, ks, sp), RotateRight(end.r), RotateRight(end.l))
  {
    hide Initial, Final, Permuted, RotateLeft, RotateRight, Rounds, StandardRounds;
    var start := Initial(b);
    var end := StandardRounds(start.l, start.r, 0, ks, sp);
    l, r := RotateRight(start.l), RotateRight(start.r);
    RotateBack(start.l);
    RotateBack(start.r);
    RoundsAreStandard(start, 16, ks, sp);
    AllRounds(start, ks, sp);
    InitialIsStandard(b);
    InitialFinal(end);
    InitialIsStandard(Crypt(b, ks, sp));
  }

  lemma AllRounds(h: Halves, ks: Subkeys, sp: SBoxes)
    requires Schedule(ks) && Boxes(sp)
    ensures var m := Rounds(h, 16, ks, sp); StandardRounds(m.l, m.r, 16, ks, sp) == m
  {
  }

  function Rotate4(r: Word): Word {
    (r >> 4) | (r << 28)
  }

  /** The bits of a half that go into box k: the last six for box 7, and four
      places further on for every box in front of it. */
  function BoxBits(r: Word, k: nat): bv6
    requires k < 8
    decreases 8 - k
  {
    if k == 7 then Low6(r) else BoxBits(Rotate4(r), k + 1)
  }

  /** The bits of a subkey pair that belong to box k: the last six of the two
      words for the boxes 6 and 7, and a byte further on for the pair of boxes
      in front of them. */
  function BoxKey(k0: Word, k1: Word, k: nat): bv6
    requires k < 8
    decreases 8 - k
  {
    if k == 6 then Low6(k0) else if k == 7 then Low6(k1) else BoxKey(k0 >> 8, k1 >> 8, k + 2)
  }

  /** What box k adds. */
  function Box(r: Word, k0: Word, k1: Word, sp: SBoxes, k: nat): Word
    requires Boxes(sp) && k < 8
  {
    sp[k](BoxBits(r, k) ^ BoxKey(k0, k1, k))
  }

  lemma BoxInput0(r: Word, k0: Word, k1: Word)
    ensures Low6((((r >> 4) | (r << 28)) ^ k0) >> 24) == BoxBits(r, 0) ^ BoxKey(k0, k1, 0)
  {
    assert BoxBits(r, 0)
        == Low6(Rotate4(Rotate4(Rotate4(Rotate4(Rotate4(Rotate4(Rotate4(r))))))));
  }

  lemma BoxInput1(r: Word, k0: Word, k1: Word)
    ensures Low6((r ^ k1) >> 24) == BoxBits(r, 1) ^ BoxKey(k0, k1, 1)
  {
    assert BoxBits(r, 1)
        == Low6(Rotate4(Rotate4(Rotate4(Rotate4(Rotate4(Rotate4(r)))))));
  }

  lemma BoxInput2(r: Word, k0: Word, k1: Word)
    ensures Low6((((r >> 4) | (r << 28)) ^ k0) >> 16) == BoxBits(r, 2) ^ BoxKey(k0, k1, 2)
  {
    assert BoxBits(r, 2)
        == Low6(Rotate4(Rotate4(Rotate4(Rotate4(Rotate4(r))))));
  }

  lemma BoxInput3(r: Word, k0: Word, k1: Word)
    ensures Low6((r ^ k1) >> 16) == BoxBits(r, 3) ^ BoxKey(k0, k1, 3)
  {
    assert BoxBits(r, 3)
        == Low6(Rotate4(Rotate4(Rotate4(Rotate4(r)))));
  }

  lemma BoxInput4(r: Word, k0: Word, k1: Word)
    ensures Low6((((r >> 4) | (r << 28)) ^ k0) >> 8) == BoxBits(r, 4) ^ BoxKey(k0, k1, 4)
  {
    assert BoxBits(r, 4)
        == Low6(Rotate4(Rotate4(Rotate4(r))));
  }

  lemma BoxInput5(r: Word, k0: Word, k1: Word)
    ensures Low6((r ^ k1) >> 8) == BoxBits(r, 5) ^ BoxKey(k0, k1, 5)
  {
    assert BoxBits(r, 5)
        == Low6(Rotate4(Rotate4(r)));
  }

  lemma BoxInput6(r: Word, k0: Word, k1: Word)
    ensures Low6((((r >> 4) | (r << 28)) ^ k0)) == BoxBits(r, 6) ^ BoxKey(k0, k1, 6)
  {
    assert BoxBits(r, 6)
        == Low6(Rotate4(r));
  }

  lemma BoxInput7(r: Word, k0: Word, k1: Word)
    ensures Low6((r ^ k1)) == BoxBits(r, 7) ^ BoxKey(k0, k1, 7)
  {
  }

  lemma BoxValue0(r: Word, k0: Word, k1: Word, sp: SBoxes)
    requires Boxes(sp)
    ensures sp[0](Low6((((r >> 4) | (r << 28)) ^ k0) >> 24)) == Box(r, k0, k1, sp, 0)
  {
    hide Low6, BoxBits, BoxKey;
    BoxInput0(r, k0, k1);
  }

  lemma BoxValue1(r: Word, k0: Word, k1: Word, sp: SBoxes)
    requires Boxes(sp)
    ensures sp[1](Low6((r ^ k1) >> 24)) == Box(r, k0, k1, sp, 1)
  {
    hide Low6, BoxBits, BoxKey;
    BoxInput1(r, k0, k1);
  }

  lemma BoxValue2(r: Word, k0: Word, k1: Word, sp: SBoxes)
    requires Boxes(sp)
    ensures sp[2](Low6((((r >> 4) | (r << 28)) ^ k0) >> 16)) == Box(r, k0, k1, sp, 2)
  {
    hide Low6, BoxBits, BoxKey;
    BoxInput2(r, k0, k1);
  }

  lemma BoxValue3(r: Word, k0: Word, k1: Word, sp: SBoxes)
    requires Boxes(sp)
    ensures sp[3](Low6((r ^ k1) >> 16)) == Box(r, k0, k1, sp, 3)
  {
    hide Low6, BoxBits, BoxKey;
    BoxInput3(r, k0, k1);
  }

  lemma BoxValue4(r: Word, k0: Word, k1: Word, sp: SBoxes)
    requires Boxes(sp)
    ensures sp[4](Low6((((r >> 4) | (r << 28)) ^ k0) >> 8)) == Box(r, k0, k1, sp, 4)
  {
    hide Low6, BoxBits, BoxKey;
    BoxInput4(r, k0, k1);
  }

  lemma BoxValue5(r: Word, k0: Word, k1: Word, sp: SBoxes)
    requires Boxes(sp)
    ensures sp[5](Low6((r ^ k1) >> 8)) == Box(r, k0, k1, sp, 5)
  {
    hide Low6, BoxBits, BoxKey;
    BoxInput5(r, k0, k1);
  }

  lemma BoxValue6(r: Word, k0: Word, k1: Word, sp: SBoxes)
    requires Boxes(sp)
    ensures sp[6](Low6((((r >> 4) | (r << 28)) ^ k0))) == Box(r, k0, k1, sp, 6)
  {
    hide Low6, BoxBits, BoxKey;
    BoxInput6(r, k0, k1);
  }

  lemma BoxValue7(r: Word, k0: Word, k1: Word, sp: SBoxes)
    requires Boxes(sp)
    ensures sp[7](Low6((r ^ k1))) == Box(r, k0, k1, sp, 7)
  {
    hide Low6, BoxBits, BoxKey;
    BoxInput7(r, k0, k1);
  }

  /** A round adds, for every box k, what it makes of six bits of the half and
      six bits of the subkey pair. */
  lemma FeistelBoxes(r: Word, k0: Word, k1: Word, sp: SBoxes)
    requires Boxes(sp)
    ensures Feistel(r, k0, k1, sp)
            == Xor8(Box(r, k0, k1, sp, 6), Box(r, k0, k1, sp, 4), Box(r, k0, k1, sp, 2), Box(r, k0, k1, sp, 0),
                    Box(r, k0, k1, sp, 7), Box(r, k0, k1, sp, 5), Box(r, k0, k1, sp, 3), Box(r, k0, k1, sp, 1))
  {
    hide Low6, Box, Xor8;
    BoxValue0(r, k0, k1, sp);
    BoxValue1(r, k0, k1, sp);
    BoxValue2(r, k0, k1, sp);
    BoxValue3(r, k0, k1, sp);
    BoxValue4(r, k0, k1, sp);
    BoxValue5(r, k0, k1, sp);
    BoxValue6(r, k0, k1, sp);
    BoxValue7(r, k0, k1, sp);
  }

  /** With a single box that is not zero everywhere, the round adds what this
      box makes of its bits. */
  lemma OneBox(r: Word, k0: Word, k1: Word, sp: SBoxes, k: nat)
    requires Boxes(sp) && k < 8 && forall j, x :: 0 <= j < 8 && j != k ==> sp[j](x) == 0
    ensures Feistel(r, k0, k1, sp) == sp[k](BoxBits(r, k) ^ BoxKey(k0, k1, k))
  {
    hide Feistel, Box, Xor8;
    FeistelBoxes(r, k0, k1, sp);
    forall j | 0 <= j < 8
      ensures Box(r, k0, k1, sp, j) == if j == k then sp[k](BoxBits(r, k) ^ BoxKey(k0, k1, k)) else 0
    {
      BoxIs(r, k0, k1, sp, j);
    }
    XorZeros(sp[k](BoxBits(r, k) ^ BoxKey(k0, k1, k)));
  }

  lemma XorZeros(x: Word)
    ensures Xor8(x, 0, 0, 0, 0, 0, 0, 0) == x && Xor8(0, x, 0, 0, 0, 0, 0, 0) == x
    ensures Xor8(0, 0, x, 0, 0, 0, 0, 0) == x && Xor8(0, 0, 0, x, 0, 0, 0, 0) == x
    ensures Xor8(0, 0, 0, 0, x, 0, 0, 0) == x && Xor8(0, 0, 0, 0, 0, x, 0, 0) == x
    ensures Xor8(0, 0, 0, 0, 0, 0, x, 0) == x && Xor8(0, 0, 0, 0, 0, 0, 0, x) == x
  {
  }

  lemma BoxIs(r: Word, k0: Word, k1: Word, sp: SBoxes, k: nat)
    requires Boxes(sp) && k < 8
    ensures Box(r, k0, k1, sp, k) == sp[k](BoxBits(r, k) ^ BoxKey(k0, k1, k))
  {
  }

  /** Six bits of the 48 bits of a raw subkey, which lie in two words of four
      times six bits. */
  function RawKey(raw0: Word, raw1: Word, k: nat): bv6
    requires k < 8
    decreases 8 - k
  {
    if k == 3 then Low6(raw0) else if k == 7 then Low6(raw1) else RawKey(raw0 >> 6, raw1 >> 6, k + 1)
  }

  lemma CookedSix0(raw0: Word, raw1: Word)
    ensures Low6(CookFirst(raw0, raw1) >> 8 >> 8 >> 8) == Low6(raw0 >> 6 >> 6 >> 6)
  {
  }

  lemma CookedBits0(raw0: Word, raw1: Word)
    ensures BoxKey(CookFirst(raw0, raw1), CookSecond(raw0, raw1), 0) == RawKey(raw0, raw1, 0)
  {
    hide CookFirst, CookSecond, Low6;
    CookedSix0(raw0, raw1);
  }

  lemma CookedSix1(raw0: Word, raw1: Word)
    ensures Low6(CookSecond(raw0, raw1) >> 8 >> 8 >> 8) == Low6(raw0 >> 6 >> 6)
  {
  }

  lemma CookedBits1(raw0: Word, raw1: Word)
    ensures BoxKey(CookFirst(raw0, raw1), CookSecond(raw0, raw1), 1) == RawKey(raw0, raw1, 1)
  {
    hide CookFirst, CookSecond, Low6;
    CookedSix1(raw0, raw1);
  }

  lemma CookedSix2(raw0: Word, raw1: Word)
    ensures Low6(CookFirst(raw0, raw1) >> 8 >> 8) == Low6(raw0 >> 6)
  {
  }

  lemma CookedBits2(raw0: Word, raw1: Word)
    ensures BoxKey(CookFirst(raw0, raw1), CookSecond(raw0, raw1), 2) == RawKey(raw0, raw1, 2)
  {
    hide CookFirst, CookSecond, Low6;
    CookedSix2(raw0, raw1);
  }

  lemma CookedSix3(raw0: Word, raw1: Word)
    ensures Low6(CookSecond(raw0, raw1) >> 8 >> 8) == Low6(raw0)
  {
  }

  lemma CookedBits3(raw0: Word, raw1: Word)
    ensures BoxKey(CookFirst(raw0, raw1), CookSecond(raw0, raw1), 3) == RawKey(raw0, raw1, 3)
  {
    hide CookFirst, CookSecond, Low6;
    CookedSix3(raw0, raw1);
  }

  lemma CookedSix4(raw0: Word, raw1: Word)
    ensures Low6(CookFirst(raw0, raw1) >> 8) == Low6(raw1 >> 6 >> 6 >> 6)
  {
  }

  lemma CookedBits4(raw0: Word, raw1: Word)
    ensures BoxKey(CookFirst(raw0, raw1), CookSecond(raw0, raw1), 4) == RawKey(raw0, raw1, 4)
  {
    hide CookFirst, CookSecond, Low6;
    CookedSix4(raw0, raw1);
  }

  lemma CookedSix5(raw0: Word, raw1: Word)
    ensures Low6(CookSecond(raw0, raw1) >> 8) == Low6(raw1 >> 6 >> 6)
  {
  }

  lemma CookedBits5(raw0: Word, raw1: Word)
    ensures BoxKey(CookFirst(raw0, raw1), CookSecond(raw0, raw1), 5) == RawKey(raw0, raw1, 5)
  {
    hide CookFirst, CookSecond, Low6;
    CookedSix5(raw0, raw1);
  }

  lemma CookedSix6(raw0: Word, raw1: Word)
    ensures Low6(CookFirst(raw0, raw1)) == Low6(raw1 >> 6)
  {
  }

  lemma CookedBits6(raw0: Word, raw1: Word)
    ensures BoxKey(CookFirst(raw0, raw1), CookSecond(raw0, raw1), 6) == RawKey(raw0, raw1, 6)
  {
    hide CookFirst, CookSecond, Low6;
    CookedSix6(raw0, raw1);
  }

  lemma CookedSix7(raw0: Word, raw1: Word)
    ensures Low6(CookSecond(raw0, raw1)) == Low6(raw1)
  {
  }

  lemma CookedBits7(raw0: Word, raw1: Word)
    ensures BoxKey(CookFirst(raw0, raw1), CookSecond(raw0, raw1), 7) == RawKey(raw0, raw1, 7)
  {
    hide CookFirst, CookSecond, Low6;
    CookedSix7(raw0, raw1);
  }

  /** Cooking hands the six bits k of the raw subkey to the box k. */
  lemma CookedBits(raw0: Word, raw1: Word, k: nat)
    requires k < 8
    ensures BoxKey(CookFirst(raw0, raw1), CookSecond(raw0, raw1), k) == RawKey(raw0, raw1, k)
  {
    hide BoxKey, RawKey, CookFirst, CookSecond;
    CookedBits0(raw0, raw1);
    CookedBits1(raw0, raw1);
    CookedBits2(raw0, raw1);
    CookedBits3(raw0, raw1);
    CookedBits4(raw0, raw1);
    CookedBits5(raw0, raw1);
    CookedBits6(raw0, raw1);
    CookedBits7(raw0, raw1);
  }
}
