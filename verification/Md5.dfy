/** The MD5 context: buffered updates of any size give the digest of the whole
    message, for any compression function. */
module Md5 {
  import opened Words
  import opened Sequences

  datatype State = State(a: Digit, b: Digit, c: Digit, d: Digit)

  /** What one block of 64 bytes does to the state. */
  type Transform = (State, seq<Byte>) -> State

  const INITIAL: State := State(0x67452301, 0xefcdab89, 0x98badcfe, 0x10325476)

  // ---------- the simple form ----------

  /** The state after all blocks of a message. */
  function Fold(f: Transform, data: seq<Byte>): (s: State)
    requires |data| % 64 == 0
    decreases |data|
  {
    if |data| == 0 then INITIAL
    else f(Fold(f, data[..|data| - 64]), data[|data| - 64..])
  }

  /** The lowest byte of what is left of x after some bytes. */
  function ByteOf(x: int, shift: int): Byte
    requires 0 < shift
  {
    x / shift % 256
  }

  function EncodeWord(x: Digit): (s: seq<Byte>)
    ensures |s| == 4
  {
    [ByteOf(x, 1), ByteOf(x, 0x100), ByteOf(x, 0x1_0000), ByteOf(x, 0x100_0000)]
  }

  function EncodeState(s: State): (digest: seq<Byte>)
    ensures |digest| == 16
  {
    EncodeWord(s.a) + EncodeWord(s.b) + EncodeWord(s.c) + EncodeWord(s.d)
  }

  /** A byte 0x80 and zeros up to 56 bytes modulo 64. */
  function PadLen(len: nat): (n: nat)
    ensures 1 <= n <= 64 && (len + n) % 64 == 56
  {
    var index := len % 64;
    if index < 56 then 56 - index else 120 - index
  }

  function Padding(n: nat): (s: seq<Byte>)
    ensures |s| == n
  {
    seq(n, i => if i == 0 then 0x80 else 0)
  }

  /** The message length in bits modulo 2^64, lowest byte first. */
  function BitLength(len: nat): (s: seq<Byte>)
    ensures |s| == 8
  {
    EncodeWord(8 * len % 0x1_0000_0000) + EncodeWord(8 * len / 0x1_0000_0000 % 0x1_0000_0000)
  }

  function PaddedMessage(data: seq<Byte>): (s: seq<Byte>)
    ensures |s| % 64 == 0
  {
    var n := PadLen(|data|);
    assert (|data| + n + 8) % 64 == 0;
    data + Padding(n) + BitLength(|data|)
  }

  function Digest(f: Transform, data: seq<Byte>): (digest: seq<Byte>)
    ensures |digest| == 16
  {
    EncodeState(Fold(f, PaddedMessage(data)))
  }

  lemma WordBytes(x: Digit)
    ensures var s := EncodeWord(x);
            x as int == s[0] as int + 0x100 * s[1] as int + 0x1_0000 * s[2] as int + 0x100_0000 * s[3] as int
  {
    ByteParts(x);
  }

  lemma ByteParts(x: int)
    requires 0 <= x < 0x1_0000_0000
    ensures x == x % 256 + 0x100 * (x / 0x100 % 256) + 0x1_0000 * (x / 0x1_0000 % 256)
                 + 0x100_0000 * (x / 0x100_0000 % 256)
  {
    assert x / 0x1_0000 == x / 0x100 / 0x100 && x / 0x100_0000 == x / 0x1_0000 / 0x100;
  }

  /** The padded message: behind the data the byte 0x80, then zeros, and in the
      last eight bytes the number of bits modulo 2^64, lowest byte first. */
  lemma PaddedShape(data: seq<Byte>)
    ensures var s, n := PaddedMessage(data), |data|;
            && |s| % 64 == 0 && n + 9 <= |s| < n + 9 + 64
            && s[..n] == data && s[n] == 0x80 && (forall i :: n < i < |s| - 8 ==> s[i] == 0)
            && LowFirst(s[|s| - 8..]) == 8 * n % 0x1_0000_0000_0000_0000
  {
    hide PadLen, BitLength;
    var s, n := PaddedMessage(data), |data|;
    var pad := Padding(PadLen(n));
    assert s == data + pad + BitLength(n);
    assert forall i :: n <= i < |s| - 8 ==> s[i] == pad[i - n];
    assert s[|s| - 8..] == BitLength(n);
    BitLengthValue(n);
  }

  /** The number in a string of bytes, lowest byte first. */
  function LowFirst(s: seq<Byte>): (v: nat) {
    if |s| == 0 then 0 else s[0] as nat + 256 * LowFirst(s[1..])
  }

  lemma LowFirstWord(x: Digit)
    ensures LowFirst(EncodeWord(x)) == x
  {
    hide EncodeWord;
    var s := EncodeWord(x);
    WordBytes(x);
    LowFirstFour(s);
  }

  lemma LowFirstFour(s: seq<Byte>)
    requires |s| == 4
    ensures LowFirst(s) == s[0] as int + 0x100 * s[1] as int + 0x1_0000 * s[2] as int + 0x100_0000 * s[3] as int
  {
    assert s[1..][1..] == s[2..] && s[2..][1..] == s[3..] && s[3..][1..] == [];
    assert LowFirst(s[3..]) == s[3] as int;
    assert LowFirst(s[2..]) == s[2] as int + 256 * LowFirst(s[3..]);
    assert LowFirst(s[1..]) == s[1] as int + 256 * LowFirst(s[2..]);
  }

  lemma {:induction false} LowFirstJoined(s: seq<Byte>, t: seq<Byte>)
    requires |s| == 4
    ensures LowFirst(s + t) == LowFirst(s) + 0x1_0000_0000 * LowFirst(t)
  {
    var all := s + t;
    LowFirstFour(s);
    assert all[1..][1..] == all[2..] && all[2..][1..] == all[3..] && all[3..][1..] == t;
    assert LowFirst(all[3..]) == s[3] as int + 256 * LowFirst(t);
    assert LowFirst(all[2..]) == s[2] as int + 256 * LowFirst(all[3..]);
    assert LowFirst(all[1..]) == s[1] as int + 256 * LowFirst(all[2..]);
  }

  lemma BitLengthValue(len: nat)
    ensures LowFirst(BitLength(len)) == 8 * len % 0x1_0000_0000_0000_0000
  {
    hide LowFirst, EncodeWord;
    var low, high := 8 * len % 0x1_0000_0000, 8 * len / 0x1_0000_0000 % 0x1_0000_0000;
    LowFirstJoined(EncodeWord(low), EncodeWord(high));
    LowFirstWord(low);
    LowFirstWord(high);
    TwoWordsOf(8 * len);
  }

  lemma TwoWordsOf(x: nat)
    ensures x % 0x1_0000_0000_0000_0000 == x % 0x1_0000_0000 + 0x1_0000_0000 * (x / 0x1_0000_0000 % 0x1_0000_0000)
  {
    var q := x / 0x1_0000_0000;
    var k := q / 0x1_0000_0000;
    assert x == x % 0x1_0000_0000 + 0x1_0000_0000 * (q % 0x1_0000_0000) + 0x1_0000_0000_0000_0000 * k;
  }

  /** The words of the state follow each other, each with its lowest byte
      first. */
  lemma StateBytes(s: State)
    ensures var d := EncodeState(s);
            && LowFirst(d[..4]) == s.a && LowFirst(d[4..8]) == s.b
            && LowFirst(d[8..12]) == s.c && LowFirst(d[12..]) == s.d
  {
    hide EncodeWord, LowFirst;
    var d := EncodeState(s);
    assert d[..4] == EncodeWord(s.a) && d[4..8] == EncodeWord(s.b);
    assert d[8..12] == EncodeWord(s.c) && d[12..] == EncodeWord(s.d);
    LowFirstWord(s.a);
    LowFirstWord(s.b);
    LowFirstWord(s.c);
    LowFirstWord(s.d);
  }

  /** The state at the start, as the bytes of the standard. */
  lemma InitialBytes(f: Transform)
    ensures EncodeState(Fold(f, []))
            == [0x01, 0x23, 0x45, 0x67, 0x89, 0xab, 0xcd, 0xef, 0xfe, 0xdc, 0xba, 0x98, 0x76, 0x54, 0x32, 0x10]
  {
  }

  /** A message of less than 56 bytes is one block. */
  lemma ShortDigest(f: Transform, data: seq<Byte>)
    requires |data| < 56
    ensures |PaddedMessage(data)| == 64
    ensures Digest(f, data)
            == EncodeState(f(State(0x67452301, 0xefcdab89, 0x98badcfe, 0x10325476), PaddedMessage(data)))
  {
    hide EncodeState, PaddedMessage, Fold;
    PaddedShape(data);
    OneBlock(f, PaddedMessage(data));
  }

  lemma OneBlock(f: Transform, s: seq<Byte>)
    requires |s| == 64
    ensures Fold(f, s) == f(State(0x67452301, 0xefcdab89, 0x98badcfe, 0x10325476), s)
  {
    assert s[..0] == [] && s[0..] == s;
    assert Fold(f, s[..0]) == INITIAL;
  }

  /** Different messages of less than 2^61 bytes are padded differently. */
  lemma PaddedInjective(x: seq<Byte>, y: seq<Byte>)
    requires |x| < 0x2000_0000_0000_0000 && |y| < 0x2000_0000_0000_0000
    requires PaddedMessage(x) == PaddedMessage(y)
    ensures x == y
  {
    hide EncodeWord, PadLen;
    var s := PaddedMessage(x);
    var n := |s| - 8;
    assert s[n..] == BitLength(|x|) && s[n..] == BitLength(|y|);
    LengthInjective(|x|, |y|);
    assert x == s[..|x|] && y == s[..|y|];
  }

  lemma LengthInjective(a: nat, b: nat)
    requires a < 0x2000_0000_0000_0000 && b < 0x2000_0000_0000_0000 && BitLength(a) == BitLength(b)
    ensures a == b
  {
    hide EncodeWord;
    var s, t := BitLength(a), BitLength(b);
    var la, lb := 8 * a % 0x1_0000_0000, 8 * b % 0x1_0000_0000;
    var ha, hb := 8 * a / 0x1_0000_0000 % 0x1_0000_0000, 8 * b / 0x1_0000_0000 % 0x1_0000_0000;
    assert s[..4] == EncodeWord(la) && s[4..] == EncodeWord(ha);
    assert t[..4] == EncodeWord(lb) && t[4..] == EncodeWord(hb);
    WordInjective(la, lb);
    WordInjective(ha, hb);
    TwoWords(a);
    TwoWords(b);
  }

  lemma WordInjective(x: Digit, y: Digit)
    requires EncodeWord(x) == EncodeWord(y)
    ensures x == y
  {
    hide EncodeWord;
    WordBytes(x);
    WordBytes(y);
  }

  lemma TwoWords(a: nat)
    requires a < 0x2000_0000_0000_0000
    ensures 8 * a == 8 * a % 0x1_0000_0000 + 0x1_0000_0000 * (8 * a / 0x1_0000_0000 % 0x1_0000_0000)
  {
    assert 8 * a / 0x1_0000_0000 < 0x1_0000_0000;
  }

  // ---------- the context ----------

  /** The two words hold the number of bits modulo 2^64. */
  predicate Counted(count0: int, count1: int, len: nat) {
    count0 == 8 * len % 0x1_0000_0000 && count1 == 8 * len / 0x1_0000_0000 % 0x1_0000_0000
  }

  /** Adding the input to the count, with the carry found by comparing. */
  lemma CountedStep(c0: int, c1: int, len: nat, inputLen: nat, bits: int, low: int, c1': int, high: int)
    requires Counted(c0, c1, len) && bits == Wrap(8 * inputLen) && low == Wrap(c0 + bits)
    requires c1' == (if low < bits then Wrap(c1 + 1) else c1) && high == Wrap(c1' + inputLen / 0x2000_0000)
    ensures Counted(low, high, len + inputLen)
  {
    hide Counted, Wrap;
    var q, p := 8 * len / 0x1_0000_0000, inputLen / 0x2000_0000;
    var carry := if low < bits then 1 else 0;
    CountedParts(c0, c1, len, q);
    InputParts(inputLen, p, bits);
    LowWord(c0, bits, low, carry);
    HighWord(q, c1, carry, c1', p, high);
    CountedFrom(low, high, len + inputLen, q + p + carry);
  }

  lemma HighWord(q: int, c1: int, carry: int, c1': int, p: int, high: int)
    requires c1 == q % 0x1_0000_0000 && (carry == 0 || carry == 1)
    requires c1' == (if carry == 1 then Wrap(c1 + 1) else c1) && high == Wrap(c1' + p)
    ensures high == (q + p + carry) % 0x1_0000_0000
  {
    WrapTwice(q, c1, carry, p);
  }

  lemma CountedParts(c0: int, c1: int, len: nat, q: int)
    requires Counted(c0, c1, len) && q == 8 * len / 0x1_0000_0000
    ensures 8 * len == 0x1_0000_0000 * q + c0 && 0 <= c0 < 0x1_0000_0000 && c1 == q % 0x1_0000_0000
  {
  }

  lemma CountedFrom(c0: int, c1: int, len: nat, q: int)
    requires 8 * len == 0x1_0000_0000 * q + c0 && 0 <= c0 < 0x1_0000_0000 && c1 == q % 0x1_0000_0000
    ensures Counted(c0, c1, len)
  {
    Quotient(8 * len, q, c0);
  }

  lemma InputParts(inputLen: nat, p: int, r: int)
    requires p == inputLen / 0x2000_0000 && r == Wrap(8 * inputLen)
    ensures 8 * inputLen == 0x1_0000_0000 * p + r && 0 <= r < 0x1_0000_0000
  {
    Quotient(8 * inputLen, p, 8 * (inputLen - 0x2000_0000 * p));
  }

  lemma Quotient(x: int, q: int, r: int)
    requires x == 0x1_0000_0000 * q + r && 0 <= r < 0x1_0000_0000
    ensures x / 0x1_0000_0000 == q && x % 0x1_0000_0000 == r
  {
  }

  /** The sum wrapped around exactly when it is less than a summand. */
  lemma LowWord(c0: int, r: int, low: int, carry: int)
    requires 0 <= c0 < 0x1_0000_0000 && 0 <= r < 0x1_0000_0000 && low == Wrap(c0 + r)
    requires carry == if low < r then 1 else 0
    ensures low == c0 + r - 0x1_0000_0000 * carry && 0 <= low < 0x1_0000_0000
  {
  }

  lemma WrapTwice(q: int, c: int, carry: int, p: int)
    requires c == q % 0x1_0000_0000
    ensures ((c + carry) % 0x1_0000_0000 + p) % 0x1_0000_0000 == (q + p + carry) % 0x1_0000_0000
  {
    var k := q / 0x1_0000_0000;
    var j := (c + carry) / 0x1_0000_0000;
    var x := (c + carry) % 0x1_0000_0000 + p;
    assert q + p + carry == x + 0x1_0000_0000 * (k + j);
    Shifted(x, k + j);
  }

  lemma Shifted(x: int, k: int)
    ensures (x + 0x1_0000_0000 * k) % 0x1_0000_0000 == x % 0x1_0000_0000
  {
  }

  /** The low word gives the number of bytes in the buffer. */
  lemma Index(count0: int, count1: int, len: nat)
    requires Counted(count0, count1, len)
    ensures count0 / 8 % 64 == len % 64
  {
    hide Counted;
    var q := 8 * len / 0x1_0000_0000;
    CountedParts(count0, count1, len, q);
    assert count0 == 8 * (len - 64 * (0x80_0000 * q));
    LowSix(len, 0x80_0000 * q);
  }

  lemma LowSix(len: int, k: int)
    ensures 8 * (len - 64 * k) / 8 % 64 == len % 64
  {
  }

  function Blocks(len: nat): (n: nat)
    ensures n <= len < n + 64 && n % 64 == 0 && len % 64 == len - n
  {
    64 * (len / 64)
  }

  lemma BlocksOf(len: nat, n: nat)
    requires n <= len < n + 64 && n % 64 == 0
    ensures Blocks(len) == n
  {
  }

  /** The lengths that fit 32 bits and for which the counter of the loop over
      the blocks does not wrap around before it stops. */
  predicate Takes(len: nat, inputLen: nat) {
    inputLen < 0x1_0000_0000 && inputLen + 63 - (len + inputLen) % 64 < 0x1_0000_0000
  }

  /** At the place where the loop must stop it does, exactly for these. */
  lemma LoopStopsIff(len: nat, inputLen: nat, i: nat)
    requires inputLen < 0x1_0000_0000 && i <= inputLen < i + 64 && (len + i) % 64 == 0
    ensures !(Wrap(i + 63) < inputLen) <==> Takes(len, inputLen)
  {
  }

  /** At every block boundary the loop goes on as long as there is a block. */
  lemma MoreBlocks(len: nat, inputLen: nat, i: nat)
    requires Takes(len, inputLen) && i <= inputLen && (len + i) % 64 == 0
    ensures Wrap(i + 63) < inputLen <==> i + 64 <= inputLen
  {
    if inputLen < i + 64 {
      LoopStopsIff(len, inputLen, i);
    }
  }

  lemma TakesWord(len: nat, inputLen: nat)
    requires Takes(len, inputLen)
    ensures inputLen < 0x1_0000_0000
  {
  }

  lemma TakesShort(len: nat, inputLen: nat)
    requires inputLen <= 0x1_0000_0000 - 64
    ensures Takes(len, inputLen)
  {
  }

  /** One more block. */
  lemma FoldNext(f: Transform, all: seq<Byte>, n: nat)
    requires n % 64 == 0 && n + 64 <= |all|
    ensures Fold(f, all[..n + 64]) == f(Fold(f, all[..n]), all[n..n + 64])
  {
    var s := all[..n + 64];
    assert s[..n] == all[..n] && s[n..] == all[n..n + 64];
  }

  /** The data from a place on, and the input behind it. */
  lemma Joined(data: seq<Byte>, input: seq<Byte>, n: nat)
    requires n <= |data|
    ensures var all := data + input;
            all[..n] == data[..n] && all[n..] == data[n..] + input && all[|data|..] == input
  {
  }

  lemma FirstPart(all: seq<Byte>, n: nat, kept: seq<Byte>, input: seq<Byte>, partLen: nat)
    requires n <= |all| && all[n..] == kept + input && partLen <= |input| && |kept| + partLen == 64
    ensures n + 64 <= |all| && all[n..n + 64] == kept + input[..partLen]
  {
    assert all[n..n + 64] == all[n..][..64];
  }

  /** The whole blocks of the data are folded, and the rest lies in front in
      the buffer. */
  ghost predicate Folded(f: Transform, state: State, buffer: seq<Byte>, data: seq<Byte>)
    requires |buffer| == 64
  {
    var n := Blocks(|data|);
    state == Fold(f, data[..n]) && buffer[..|data| - n] == data[n..]
  }

  lemma FoldedIs(f: Transform, state: State, buffer: seq<Byte>, data: seq<Byte>, n: nat)
    requires |buffer| == 64 && n <= |data| < n + 64 && n % 64 == 0
    ensures Folded(f, state, buffer, data) <==> state == Fold(f, data[..n]) && buffer[..|data| - n] == data[n..]
  {
    hide Fold;
    BlocksOf(|data|, n);
  }

  /** The buffer, the number of bits in two words, and the state. */
  class Context {
    const transform: Transform
    const buffer: array<Byte>
    var state: State
    var count0: Digit
    var count1: Digit
    ghost var data: seq<Byte>

    /** The whole blocks of the data are folded into the state, the rest lies
        in the buffer, and the counts are its length in bits modulo 2^64. */
    ghost predicate Valid()
      reads this, buffer
    {
      && buffer.Length == 64
      && Counted(count0, count1, |data|)
      && Folded(transform, state, buffer[..], data)
    }

    constructor (transform: Transform)
      ensures Valid() && fresh(buffer) && data == [] && this.transform == transform
    {
      this.transform := transform;
      buffer := new Byte[64];
      state := INITIAL;
      count0, count1 := 0, 0;
      data := [];
    }

    /** Adds the bits of the input to the two words. */
    method Count(inputLen: nat)
      requires inputLen < 0x1_0000_0000 && Counted(count0, count1, |data|)
      modifies this`count0, this`count1
      ensures Counted(count0, count1, |data| + inputLen)
    {
      hide Counted, Wrap;
      ghost var c0, c1 := count0, count1;
      var bits := Wrap(8 * inputLen);
      count0 := Wrap(count0 + bits);
      if count0 < bits {
        count1 := Wrap(count1 + 1);
      }
      ghost var carried := count1;
      count1 := Wrap(count1 + inputLen / 0x2000_0000);
      CountedStep(c0, c1, |data|, inputLen, bits, count0, carried, count1);
    }

    /** Folds the blocks of the input that follow its first bytes. */
    method FoldBlocks(input: seq<Byte>, partLen: nat, ghost all: seq<Byte>, ghost before: nat) returns (i: nat)
      requires before <= |all| && all[before..] == input && partLen <= |input| && Takes(before, |input|)
      requires (before + partLen) % 64 == 0
      requires state == Fold(transform, all[..before + partLen])
      modifies this`state
      ensures partLen <= i <= |input| < i + 64 && (before + i) % 64 == 0
      ensures state == Fold(transform, all[..before + i])
    {
      hide Fold, Wrap, Takes;
      i := partLen;
      while Wrap(i + 63) < |input|
        invariant partLen <= i <= |input| && (before + i) % 64 == 0
        invariant state == Fold(transform, all[..before + i])
        decreases |input| - i
      {
        MoreBlocks(before, |input|, i);
        FoldNext(transform, all, before + i);
        assert input[i..i + 64] == all[before + i..before + i + 64];
        state := transform(state, input[i..i + 64]);
        i := i + 64;
      }
      MoreBlocks(before, |input|, i);
    }

    /** Fills the buffer and folds it in. */
    method FoldFirst(first: seq<Byte>, index: nat, ghost all: seq<Byte>, ghost n: nat)
      requires index + |first| == 64 == buffer.Length && n % 64 == 0 && n + 64 <= |all|
      requires state == Fold(transform, all[..n]) && all[n..n + 64] == buffer[..index] + first
      modifies this`state, buffer
      ensures state == Fold(transform, all[..n + 64])
    {
      hide Fold;
      CopyIn(buffer, index, first);
      assert buffer[..] == all[n..n + 64];
      FoldNext(transform, all, n);
      state := transform(state, buffer[..]);
    }

    /** Leaves in the buffer what is not folded. */
    method Keep(index: nat, rest: seq<Byte>, ghost all: seq<Byte>, ghost n: nat)
      requires n <= |all| < n + 64 && n % 64 == 0 && index + |rest| < 64 == buffer.Length
      requires state == Fold(transform, all[..n]) && buffer[..index] + rest == all[n..]
      modifies buffer
      ensures Folded(transform, state, buffer[..], all)
    {
      hide Fold, Folded;
      CopyIn(buffer, index, rest);
      assert buffer[..][..|all| - n] == all[n..];
      FoldedIs(transform, state, buffer[..], all, n);
    }

    /** What is folded and what is in the buffer. */
    lemma Holds(index: nat)
      requires Valid() && index == count0 / 8 % 64
      ensures var n := Blocks(|data|);
              && index == |data| - n
              && state == Fold(transform, data[..n]) && buffer[..index] == data[n..]
    {
      hide Counted, Fold, Folded, Blocks;
      var n := Blocks(|data|);
      Index(count0, count1, |data|);
      FoldedIs(transform, state, buffer[..], data, n);
      assert buffer[..][..index] == buffer[..index];
    }

    /** Folds what the input completes: i bytes of it, and next bytes stay in
        the buffer. */
    method FoldInput(input: seq<Byte>, index: nat, ghost all: seq<Byte>, ghost before: nat)
      returns (i: nat, next: nat, ghost end: nat)
      requires buffer.Length == 64 && index < 64 && index <= before <= |all| && all[before..] == input
      requires Takes(before, |input|) && (before - index) % 64 == 0
      requires state == Fold(transform, all[..before - index]) && all[before - index..] == buffer[..index] + input
      modifies this`state, buffer
      ensures i <= |input| && end <= |all| < end + 64 && end % 64 == 0 && next + |input| - i < 64
      ensures state == Fold(transform, all[..end]) && buffer[..next] + input[i..] == all[end..]
    {
      hide Fold, Takes, Wrap;
      ghost var n := before - index;
      var partLen := 64 - index;
      if |input| < partLen {
        assert input[0..] == input;
        return 0, index, n;
      }
      FirstPart(all, n, buffer[..index], input, partLen);
      FoldFirst(input[..partLen], index, all, n);
      i := FoldBlocks(input, partLen, all, before);
      next, end := 0, before + i;
      assert all[end..] == input[i..] && buffer[..0] == [];
      assert [] + input[i..] == input[i..];
    }

    /** Appends the input to the data. */
    method Update(input: seq<Byte>)
      requires Valid() && Takes(|data|, |input|)
      modifies this, buffer
      ensures Valid() && data == old(data) + input
    {
      hide Counted, Fold, Folded, Blocks, Wrap, Takes;
      TakesWord(|data|, |input|);
      var index := count0 / 8 % 64;
      Holds(index);
      ghost var before, n := |data|, Blocks(|data|);
      Count(|input|);
      ghost var all := data + input;
      Joined(data, input, n);
      var i, next;
      ghost var end;
      i, next, end := FoldInput(input, index, all, before);
      Keep(next, input[i..], all, end);
      data := all;
    }

    /** The digest of the data; the context is used up. */
    method Final() returns (digest: seq<Byte>)
      requires Valid()
      modifies this, buffer
      ensures digest == Digest(transform, old(data))
    {
      hide Fold, Folded, Blocks, EncodeState, EncodeWord, PadLen, Takes;
      ghost var message := data;
      var bits := EncodeWord(count0) + EncodeWord(count1);
      assert bits == BitLength(|data|);
      Index(count0, count1, |data|);
      var index := count0 / 8 % 64;
      var padLen := if index < 56 then 56 - index else 120 - index;
      PadLenIs(|data|);
      TakesShort(|data|, padLen);
      Update(Padding(64)[..padLen]);
      assert Padding(64)[..padLen] == Padding(padLen);
      TakesShort(|data|, 8);
      Update(bits);
      assert data == PaddedMessage(message);
      FoldedIs(transform, state, buffer[..], data, |data|);
      assert data[..|data|] == data;
      digest := EncodeState(state);
    }
  }

  lemma PadLenIs(len: nat)
    ensures PadLen(len) == if len % 64 < 56 then 56 - len % 64 else 120 - len % 64
  {
  }

  /** The digest of a block in one call. */
  method DigestBlock(transform: Transform, block: seq<Byte>) returns (digest: seq<Byte>)
    requires Takes(0, |block|)
    ensures digest == Digest(transform, block)
  {
    var context := new Context(transform);
    context.Update(block);
    assert [] + block == block;
    digest := context.Final();
  }

  /** The digest does not depend on how the message is split. */
  method DigestParts(transform: Transform, parts: seq<seq<Byte>>) returns (digest: seq<Byte>)
    requires forall i :: 0 <= i < |parts| ==> Takes(|Flatten(parts[..i])|, |parts[i]|)
    ensures digest == Digest(transform, Flatten(parts))
  {
    var context := new Context(transform);
    var i := 0;
    while i < |parts|
      invariant i <= |parts| && context.Valid() && context.transform == transform
      invariant context.data == Flatten(parts[..i])
      invariant fresh(context) && fresh(context.buffer)
    {
      assert parts[..i + 1][..i] == parts[..i];
      context.Update(parts[i]);
      i := i + 1;
    }
    assert parts[..i] == parts;
    digest := context.Final();
  }
}
