/** Numbers as byte strings, most significant byte first, and the conversions
    between them and digit arrays. */
module NNBytes {
  import opened Arith
  import opened Words
  import opened Value

  function BytesVal(s: seq<Byte>): (v: nat) {
    if |s| == 0 then 0 else BytesVal(s[..|s| - 1]) * 256 + s[|s| - 1]
  }

  /** The len low bytes of v. */
  function BytesOf(v: nat, len: nat): (s: seq<Byte>)
    ensures |s| == len
  {
    if len == 0 then [] else BytesOf(v / 256, len - 1) + [v % 256]
  }

  lemma BytesEmpty()
    ensures BytesVal([]) == 0
  {
  }

  lemma BytesSnoc(s: seq<Byte>, b: Byte)
    ensures BytesVal(s + [b]) == BytesVal(s) * 256 + b
  {
    assert (s + [b])[..|s|] == s;
  }

  lemma {:induction false} BytesConcat(s: seq<Byte>, t: seq<Byte>)
    ensures BytesVal(s + t) == BytesVal(s) * Pow(256, |t|) + BytesVal(t)
    decreases |t|
  {
    if t == [] {
      assert s + t == s;
    } else {
      var n := |t| - 1;
      var u, b := t[..n], t[n];
      assert t == u + [b];
      assert s + t == (s + u) + [b];
      BytesConcat(s, u);
      BytesSnoc(s + u, b);
      BytesSnoc(u, b);
      ByteStep(BytesVal(s), Pow(256, n));
    }
  }

  lemma ByteStep(v: int, w: int)
    ensures (v * w) * 256 == v * (256 * w)
  {
  }

  lemma {:induction false} BytesBound(s: seq<Byte>)
    ensures BytesVal(s) < Pow(256, |s|)
  {
    if s != [] {
      BytesBound(s[..|s| - 1]);
    }
  }

  /** A byte in front of a string. */
  lemma BytesCons(b: Byte, s: seq<Byte>)
    ensures BytesVal([b] + s) == b * Pow(256, |s|) + BytesVal(s)
  {
    hide Pow, BytesVal;
    BytesEmpty();
    BytesConcat([b], s);
    BytesSnoc([], b);
    assert [] + [b] == [b];
  }

  lemma {:induction false} BytesOfVal(v: nat, len: nat)
    ensures 0 < Pow(256, len) && BytesVal(BytesOf(v, len)) == v % Pow(256, len)
  {
    PowPositive(256, len);
    if len == 0 {
      ModMultipleIsZero(v, 1);
    } else {
      PowPositive(256, len - 1);
      BytesOfVal(v / 256, len - 1);
      BytesSnoc(BytesOf(v / 256, len - 1), v % 256);
      ModByBytes(v, Pow(256, len - 1));
    }
  }

  lemma ModByBytes(v: nat, m: int)
    requires 0 < m
    ensures v % (256 * m) == ((v / 256) % m) * 256 + v % 256
  {
    var x, y := v / 256, v % 256;
    var q, r := x / m, x % m;
    assert x == q * m + r;
    assert (q * m) * 256 == q * (256 * m);
    assert v == q * (256 * m) + (r * 256 + y);
    DivModUnique(v, q, r * 256 + y, 256 * m);
  }

  lemma {:induction false} BytesUnique(s: seq<Byte>, t: seq<Byte>)
    requires |s| == |t| && BytesVal(s) == BytesVal(t)
    ensures s == t
  {
    if s != [] {
      var n := |s| - 1;
      assert s[n] == t[n] && BytesVal(s[..n]) == BytesVal(t[..n]);
      BytesUnique(s[..n], t[..n]);
      assert s == s[..n] + [s[n]] && t == t[..n] + [t[n]];
    }
  }

  /** The byte string of a number that fits is the only one of its length. */
  lemma BytesOfUnique(s: seq<Byte>, v: nat)
    requires BytesVal(s) == v
    ensures s == BytesOf(v, |s|)
  {
    BytesBound(s);
    BytesOfVal(v, |s|);
    ModSmall(v, Pow(256, |s|));
    BytesUnique(s, BytesOf(v, |s|));
  }

  lemma WeightIsPow256(n: nat)
    ensures Weight(n) == Pow(256, 4 * n)
  {
    assert Pow(256, 4) == BASE;
    PowPow(256, 4, n);
  }

  // ---------- decoding ----------

  lemma Pow2Is256(n: nat)
    ensures Pow(2, 8 * n) == Pow(256, n)
  {
    assert Pow(2, 8) == 256;
    PowPow(2, 8, n);
  }

  /** One more byte above the n bytes already in t. */
  lemma OrByte(b: Byte, t: nat, n: nat)
    requires n < 4 && t < Pow(256, n)
    ensures 0 <= b * Pow(2, 8 * n) < BASE
    ensures Or(Wrap(b * Pow(2, 8 * n)), t) == b * Pow(256, n) + t < Pow(256, n + 1)
    ensures Pow(256, n + 1) <= BASE
  {
    Pow2Is256(n);
    var w := Pow(256, n);
    PowPositive(256, n);
    assert Pow(256, 4) == BASE;
    PowMono(256, n + 1, 4);
    MulMono(0, b, w);
    MulMono(b, 255, w);
    ModSmall(b * w, BASE);
    ModMultipleIsZero(b, w);
    OrDisjoint(b * w, t, 8 * n);
  }

  /** The digit in the up to four bytes below hi. */
  method DecodeDigit(b: seq<Byte>, hi: nat) returns (t: Digit, lo: nat)
    requires hi <= |b|
    ensures lo == if hi < 4 then 0 else hi - 4
    ensures t == BytesVal(b[lo..hi])
  {
    hide Pow, BytesVal, Or;
    t := 0;
    lo := hi;
    var u := 0;
    assert b[hi..hi] == [];
    BytesEmpty();
    while lo > 0 && u < DIGIT_BITS
      invariant lo <= hi && u == 8 * (hi - lo) && u <= DIGIT_BITS
      invariant t == BytesVal(b[lo..hi])
    {
      lo := lo - 1;
      BytesBound(b[lo + 1..hi]);
      OrByte(b[lo], t, hi - lo - 1);
      assert b[lo..hi] == [b[lo]] + b[lo + 1..hi];
      BytesCons(b[lo], b[lo + 1..hi]);
      t := Or(Wrap(b[lo] * Pow(2, u)), t);
      u := u + 8;
    }
  }

  /** a := the number in the byte string b, less its most significant bytes
      when it is too long. */
  method Decode(a: array<Digit>, digits: nat, b: seq<Byte>)
    requires digits <= a.Length
    modifies a
    ensures Val(a[..digits]) == BytesVal(b) % Weight(digits)
    ensures a[digits..] == old(a[digits..])
  {
    hide Val, Weight, BytesVal, Pow;
    var i, hi := 0, |b|;
    assert a[..0] == [] && b[hi..] == [];
    ValEmpty();
    BytesEmpty();
    while i < digits && hi > 0
      invariant 0 <= i <= digits && 0 <= hi <= |b|
      invariant hi > 0 ==> |b| - hi == 4 * i
      invariant |b| - hi <= 4 * i
      invariant Val(a[..i]) == BytesVal(b[hi..])
      invariant a[digits..] == old(a[digits..])
    {
      ghost var was, rest := a[..i], b[hi..];
      var t, lo := DecodeDigit(b, hi);
      a[i] := t;
      assert a[..i + 1] == was + [t];
      ValSnoc(was, t);
      assert b[lo..] == b[lo..hi] + rest;
      BytesConcat(b[lo..hi], rest);
      WeightIsPow256(i);
      i, hi := i + 1, lo;
    }
    ghost var k, low := i, a[..i];
    while i < digits
      invariant k <= i <= digits
      invariant a[..k] == low && forall j :: k <= j < i ==> a[j] == 0
      invariant a[digits..] == old(a[digits..])
    {
      a[i] := 0;
      i := i + 1;
    }
    ValZerosAbove(a[..digits], k);
    assert a[..digits][..k] == low;
    Decoded(b, hi, k, digits, Val(low));
  }

  lemma Decoded(b: seq<Byte>, hi: nat, i: nat, digits: nat, v: nat)
    requires hi <= |b| && i <= digits && |b| - hi <= 4 * i
    requires v == BytesVal(b[hi..])
    requires hi > 0 ==> |b| - hi == 4 * i && i == digits
    ensures v == BytesVal(b) % Weight(digits)
  {
    hide BytesVal, Weight;
    assert b == b[..hi] + b[hi..];
    BytesConcat(b[..hi], b[hi..]);
    BytesBound(b[hi..]);
    WeightIsPow256(digits);
    PowMono(256, |b| - hi, 4 * digits);
    if hi == 0 {
      assert b[..0] == [];
      BytesEmpty();
      ModSmall(v, Weight(digits));
    } else {
      DivModUnique(BytesVal(b), BytesVal(b[..hi]), v, Weight(digits));
    }
  }

  // ---------- encoding ----------

  /** The up to four bytes below hi receive the low bytes of t. */
  method EncodeDigit(a: array<Byte>, t: Digit, hi: nat) returns (lo: nat)
    requires hi <= a.Length
    modifies a
    ensures lo == if hi < 4 then 0 else hi - 4
    ensures lo <= hi && a[lo..hi] == BytesOf(t, hi - lo)
    ensures forall k :: 0 <= k < lo || hi <= k < a.Length ==> a[k] == old(a[k])
  {
    hide Pow;
    lo := hi;
    var u := 0;
    ghost var n := 0;
    assert Pow(2, 0) == 1 by { PowZero(); }
    while lo > 0 && u < DIGIT_BITS
      invariant n <= 4 && lo == hi - n && u == 8 * n
      invariant forall k :: 0 <= k < lo || hi <= k < a.Length ==> a[k] == old(a[k])
      invariant forall k :: lo <= k < hi ==> a[k] == ByteAt(t, hi - 1 - k)
    {
      lo := lo - 1;
      PositivePow256(n);
      Pow2Is256(n);
      a[lo] := (t / Pow(2, u)) % 256;
      u, n := u + 8, n + 1;
    }
    ByteString(a[lo..hi], t);
  }

  lemma PowZero()
    ensures Pow(2, 0) == 1
  {
  }

  lemma PositivePow256(n: nat)
    ensures 0 < Pow(256, n)
  {
    PowPositive(256, n);
  }

  /** The byte n of t, counted from the least significant one. */
  function ByteAt(t: nat, n: nat): Byte {
    PowPositive(256, n);
    (t / Pow(256, n)) % 256
  }

  lemma {:induction false} ByteString(s: seq<Byte>, t: nat)
    requires forall k :: 0 <= k < |s| ==> s[k] == ByteAt(t, |s| - 1 - k)
    ensures s == BytesOf(t, |s|)
  {
    if s != [] {
      var n := |s| - 1;
      forall k | 0 <= k < n
        ensures s[k] == ByteAt(t / 256, n - 1 - k)
      {
        NextByte(t, n - 1 - k);
      }
      ByteString(s[..n], t / 256);
      assert Pow(256, 0) == 1;
      assert s == s[..n] + [s[n]];
    }
  }

  lemma NextByte(t: nat, n: nat)
    ensures ByteAt(t, n + 1) == ByteAt(t / 256, n)
  {
    PowPositive(256, n);
    var m, x := Pow(256, n), t / 256;
    var q, r := x / m, x % m;
    assert Pow(256, n + 1) == 256 * m;
    assert x == q * m + r;
    assert (q * m) * 256 == q * (256 * m);
    DivModUnique(t, q, r * 256 + t % 256, 256 * m);
  }

  /** The low bytes of a number in two parts. */
  lemma {:induction false} BytesOfSplit(v: nat, m: nat, n: nat)
    ensures 0 < Pow(256, n) && 0 <= v / Pow(256, n)
    ensures BytesOf(v, m + n) == BytesOf(v / Pow(256, n), m) + BytesOf(v, n)
  {
    PowPositive(256, n);
    DivLower(v, 0, Pow(256, n));
    if n == 0 {
      assert BytesOf(v, 0) == [] && v / Pow(256, 0) == v;
    } else {
      BytesOfSplit(v / 256, m, n - 1);
      NestedQuotient(v, Pow(256, n - 1));
      assert BytesOf(v, m + n) == BytesOf(v / 256, m + n - 1) + [v % 256];
    }
  }

  lemma NestedQuotient(v: nat, m: int)
    requires 0 < m
    ensures (v / 256) / m == v / (256 * m)
  {
    var x := v / 256;
    var q, r := x / m, x % m;
    assert x == q * m + r;
    assert (q * m) * 256 == q * (256 * m);
    DivModUnique(v, q, r * 256 + v % 256, 256 * m);
  }

  /** Only the low bytes matter. */
  lemma BytesOfMod(v: nat, k: nat, n: nat)
    ensures 0 <= v + k * Pow(256, n)
    ensures BytesOf(v + k * Pow(256, n), n) == BytesOf(v, n)
  {
    PowPositive(256, n);
    MulMono(0, k, Pow(256, n));
    var u := v + k * Pow(256, n);
    BytesOfVal(v, n);
    BytesOfVal(u, n);
    ModAddMultiple(v, k, Pow(256, n));
    BytesUnique(BytesOf(u, n), BytesOf(v, n));
  }

  /** Another digit above the low bytes of v. */
  lemma BytesOfDigit(v: nat, d: Digit, m: nat, n: nat)
    requires v < Pow(256, n)
    ensures BytesOf(v + d * Pow(256, n), m + n) == BytesOf(d, m) + BytesOf(v, n)
  {
    hide Pow;
    PositivePow256(n);
    MulMono(0, d, Pow(256, n));
    DivModUnique(v + d * Pow(256, n), d, v, Pow(256, n));
    BytesOfSplit(v + d * Pow(256, n), m, n);
    BytesOfMod(v, d, n);
  }

  lemma {:induction false} BytesOfZero(len: nat)
    ensures forall k :: 0 <= k < len ==> BytesOf(0, len)[k] == 0
  {
    if len != 0 { BytesOfZero(len - 1); }
  }

  /** The bytes above a number that fits n bytes are zero. */
  lemma BytesOfPadded(v: nat, m: nat, n: nat)
    requires v < Pow(256, n)
    ensures BytesOf(v, m + n) == BytesOf(0, m) + BytesOf(v, n)
  {
    BytesOfSplit(v, m, n);
    ModSmall(v, Pow(256, n));
  }

  /** The digits above the string do not matter. */
  lemma BytesOfLow(s: seq<Digit>, i: nat, len: nat)
    requires i <= |s| && len <= 4 * i
    ensures BytesOf(Val(s), len) == BytesOf(Val(s[..i]), len)
  {
    hide Val, Weight, Pow;
    ValSplit(s, i);
    WeightIsPow256(i);
    PowAdd(256, 4 * i - len, len);
    PositivePow256(4 * i - len);
    var w, x := Pow(256, 4 * i - len), Val(s[i..]);
    MulMono(0, w, x);
    assert (w * Pow(256, len)) * x == (w * x) * Pow(256, len);
    BytesOfMod(Val(s[..i]), w * x, len);
  }

  /** s holds low bytes of the number in the first i digits. */
  ghost predicate Written(s: seq<Byte>, bs: seq<Digit>, i: nat)
    requires i <= |bs|
  {
    |s| <= 4 * i && s == BytesOf(Val(bs[..i]), |s|)
  }

  lemma NothingWritten(bs: seq<Digit>)
    ensures Written([], bs, 0)
  {
  }

  lemma WrittenNext(s: seq<Byte>, bs: seq<Digit>, i: nat, part: seq<Byte>)
    requires i < |bs| && Written(s, bs, i) && |s| == 4 * i
    requires |part| <= 4 && part == BytesOf(bs[i], |part|)
    ensures Written(part + s, bs, i + 1)
  {
    hide Val, Weight, BytesOf, Pow;
    ValPrefix(bs, i);
    ValBound(bs[..i]);
    WeightIsPow256(i);
    BytesOfDigit(Val(bs[..i]), bs[i], |part|, |s|);
  }

  /** The loop over the digits; i digits fill the bytes from hi on. */
  method EncodeDigits(a: array<Byte>, len: nat, b: array<Digit>, digits: nat) returns (i: nat, hi: nat)
    requires len <= a.Length && digits <= b.Length
    modifies a
    ensures i <= digits && hi <= len && (hi > 0 ==> len - hi == 4 * i && i == digits)
    ensures Written(a[hi..len], b[..digits], i)
    ensures b[..digits] == old(b[..digits])
    ensures a[len..] == old(a[len..])
  {
    hide Val, Weight, BytesOf, Pow, Written;
    ghost var bs := b[..digits];
    i, hi := 0, len;
    assert a[len..len] == [];
    NothingWritten(bs);
    while i < digits && hi > 0
      invariant 0 <= i <= digits && 0 <= hi <= len
      invariant hi > 0 ==> len - hi == 4 * i
      invariant Written(a[hi..len], bs, i)
      invariant b[..digits] == bs
      invariant a[len..] == old(a[len..])
    {
      ghost var low := a[hi..len];
      assert b[i] == bs[i];
      var lo := EncodeDigit(a, b[i], hi);
      assert a[lo..len] == a[lo..hi] + low;
      WrittenNext(low, bs, i, a[lo..hi]);
      i, hi := i + 1, lo;
    }
  }

  /** The bytes in front are filled with zeros. */
  method ZeroFront(a: array<Byte>, top: nat)
    requires top <= a.Length
    modifies a
    ensures a[top..] == old(a[top..])
    ensures forall k :: 0 <= k < top ==> a[k] == 0
  {
    var hi := top;
    while hi > 0
      invariant 0 <= hi <= top
      invariant a[top..] == old(a[top..]) && forall k :: hi <= k < top ==> a[k] == 0
    {
      hi := hi - 1;
      a[hi] := 0;
    }
  }

  /** a := the len low bytes of the number b. */
  method Encode(a: array<Byte>, len: nat, b: array<Digit>, digits: nat)
    requires len <= a.Length && digits <= b.Length
    modifies a
    ensures a[..len] == BytesOf(Val(b[..digits]), len)
    ensures a[len..] == old(a[len..])
  {
    hide Val, Weight, BytesOf, Pow, Written;
    ghost var bs := b[..digits];
    var i, top := EncodeDigits(a, len, b, digits);
    ghost var before := a[..];
    ZeroFront(a, top);
    KeptBehind(before, a[..], top, len);
    WrittenAll(bs, i, a[..len], top);
  }

  /** What is the same from top on is the same in the parts of it. */
  lemma KeptBehind(s: seq<Byte>, t: seq<Byte>, top: nat, len: nat)
    requires |s| == |t| && top <= len <= |s| && s[top..] == t[top..]
    ensures t[..len][top..] == s[top..len] && t[len..] == s[len..]
  {
    assert t[..len][top..] == t[top..][..len - top];
    assert s[top..len] == s[top..][..len - top];
    assert t[len..] == t[top..][len - top..] && s[len..] == s[top..][len - top..];
  }

  lemma WrittenAll(bs: seq<Digit>, i: nat, s: seq<Byte>, top: nat)
    requires i <= |bs| && top <= |s| && Written(s[top..], bs, i)
    requires top > 0 ==> |s| - top == 4 * i && i == |bs|
    requires forall k :: 0 <= k < top ==> s[k] == 0
    ensures s == BytesOf(Val(bs), |s|)
  {
    hide Val, BytesOf;
    Encoded(bs, i, s, top);
  }

  lemma Encoded(bs: seq<Digit>, i: nat, s: seq<Byte>, top: nat)
    requires i <= |bs| && top <= |s| && |s| - top <= 4 * i
    requires top > 0 ==> |s| - top == 4 * i && i == |bs|
    requires s[top..] == BytesOf(Val(bs[..i]), |s| - top)
    requires forall k :: 0 <= k < top ==> s[k] == 0
    ensures s == BytesOf(Val(bs), |s|)
  {
    hide Val, Weight, BytesOf, Pow;
    if top == 0 {
      BytesOfLow(bs, i, |s|);
    } else {
      assert bs[..i] == bs;
      ValBound(bs);
      WeightIsPow256(i);
      BytesOfPadded(Val(bs), top, |s| - top);
      BytesOfZero(top);
      assert s == s[..top] + s[top..] && s[..top] == BytesOf(0, top);
    }
  }
}
