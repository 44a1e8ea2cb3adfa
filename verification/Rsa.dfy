/** The raw RSA operations on byte strings. */
module Rsa {
  import opened Arith
  import opened Words
  import opened Value
  import opened NNBasic
  import opened NNMult
  import opened NNModular
  import opened NNEuclid
  import opened NNBytes
  import opened RsaTheory
  import opened Keys
  import opened Outcome

  // ---------- significant digits ----------

  ghost function SigDigits(v: nat): (n: nat) {
    if v == 0 then 0 else 1 + SigDigits(v / BASE)
  }

  lemma {:induction false} SigDigitsBounds(v: nat)
    ensures v < Weight(SigDigits(v))
    ensures v != 0 ==> SigDigits(v) != 0 && Weight(SigDigits(v) - 1) <= v
  {
    if v != 0 {
      SigDigitsBounds(v / BASE);
      WeightSucc(SigDigits(v / BASE));
      if v / BASE != 0 { WeightSucc(SigDigits(v / BASE) - 1); }
    }
  }

  lemma SigDigitsUnique(v: nat, n: nat)
    requires v < Weight(n) && (n != 0 ==> Weight(n - 1) <= v)
    ensures n == SigDigits(v)
  {
    SigDigitsBounds(v);
    var m := SigDigits(v);
    if n < m { WeightMono(n, m - 1); }
    if m < n { WeightMono(m, n - 1); }
  }

  lemma SigDigitsAtMost(v: nat, n: nat)
    requires v < Weight(n)
    ensures SigDigits(v) <= n
  {
    SigDigitsBounds(v);
    if n < SigDigits(v) { WeightMono(n, SigDigits(v) - 1); }
  }

  lemma SigDigitsMono(x: nat, y: nat)
    requires x <= y
    ensures SigDigits(x) <= SigDigits(y)
  {
    SigDigitsBounds(y);
    SigDigitsAtMost(x, SigDigits(y));
  }

  /** A byte string of len bytes fits the given digits. */
  lemma BytesFit(s: seq<Byte>, n: nat)
    requires |s| <= 4 * n
    ensures BytesVal(s) < Weight(n)
  {
    BytesBound(s);
    PowMono(256, |s|, 4 * n);
    WeightIsPow256(n);
  }

  // ---------- decoding a number and its length ----------

  /** The digits of a byte string that fits, and how many of them matter. */
  method DecodeNumber(b: seq<Byte>) returns (a: array<Digit>, n: nat)
    requires |b| <= 4 * MAX_NN_DIGITS
    ensures fresh(a) && a.Length == MAX_NN_DIGITS && n == SigDigits(BytesVal(b)) <= MAX_NN_DIGITS
    ensures Val(a[..n]) == Val(a[..MAX_NN_DIGITS]) == BytesVal(b)
    ensures forall k :: n <= k < MAX_NN_DIGITS ==> a[k] == 0
  {
    hide Val, Weight, BytesVal, SigDigits;
    a := new Digit[MAX_NN_DIGITS];
    Decode(a, MAX_NN_DIGITS, b);
    BytesFit(b, MAX_NN_DIGITS);
    ModSmall(BytesVal(b), Weight(MAX_NN_DIGITS));
    n := Digits(a, MAX_NN_DIGITS);
    SigDigitsUnique(BytesVal(b), n);
  }

  /** The digits of a byte string whose number fits the first n digits. */
  method DecodePart(b: seq<Byte>, n: nat) returns (a: array<Digit>)
    requires |b| <= 4 * MAX_NN_DIGITS && n <= MAX_NN_DIGITS && BytesVal(b) < Weight(n)
    ensures fresh(a) && a.Length == MAX_NN_DIGITS && Val(a[..n]) == BytesVal(b)
  {
    hide Val, Weight, BytesVal;
    a := new Digit[MAX_NN_DIGITS];
    Decode(a, MAX_NN_DIGITS, b);
    BytesFit(b, MAX_NN_DIGITS);
    ModSmall(BytesVal(b), Weight(MAX_NN_DIGITS));
    ValOther(a[..MAX_NN_DIGITS], n);
    assert a[..MAX_NN_DIGITS][..n] == a[..n];
  }

  /** More or fewer digits than the significant ones. */
  lemma ValOther(s: seq<Digit>, n: nat)
    requires n <= |s| && Val(s) < Weight(n)
    ensures Val(s[..n]) == Val(s)
  {
    ValHighZeros(s, n);
  }

  // ---------- the public operation ----------

  /** The number that the operation works on: the input without its digits
      above those of the modulus. */
  ghost function Reduced(input: seq<Byte>, n: nat): nat {
    BytesVal(input) % Weight(SigDigits(n))
  }

  /** What the public operation returns. */
  ghost function PublicSpec(input: seq<Byte>, key: PublicKey): Result<seq<Byte>> {
    var n := BytesVal(key.modulus);
    if n <= Reduced(input, n) then Err(RE_DATA)
    else Ok(BytesOf(PowMod(Reduced(input, n), BytesVal(key.exponent), n), key.ModulusLen()))
  }

  lemma ReducedDigits(s: seq<Digit>, input: seq<Byte>, n: nat)
    requires Val(s) == BytesVal(input) % Weight(|s|) && SigDigits(n) <= |s|
    ensures Val(s[..SigDigits(n)]) == Reduced(input, n)
  {
    hide Val, Weight;
    var m := SigDigits(n);
    ValLowHigh(s, m);
    WeightAdd(|s| - m, m);
    ModModMultiple(BytesVal(input), Weight(|s| - m), Weight(m));
  }

  lemma PowModRange(b: int, e: nat, d: nat)
    requires 0 < d
    ensures 0 <= PowMod(b, e, d) && (1 < d ==> PowMod(b, e, d) < d)
  {
  }

  /** output := input^exponent mod modulus, in as many bytes as the modulus. */
  method PublicFunc(input: seq<Byte>, key: PublicKey) returns (r: Result<seq<Byte>>)
    requires key.Sized()
    ensures r == PublicSpec(input, key)
  {
    hide Val, Weight, BytesVal, BytesOf, SigDigits, PowMod, Reduced;
    ghost var nv := BytesVal(key.modulus);
    var m, c := new Digit[MAX_NN_DIGITS], new Digit[MAX_NN_DIGITS];
    Decode(m, MAX_NN_DIGITS, input);
    var n, nDigits := DecodeNumber(key.modulus);
    var e, eDigits := DecodeNumber(key.exponent);
    assert m[..MAX_NN_DIGITS] == m[..];
    ReducedDigits(m[..], input, nv);
    assert m[..][..nDigits] == m[..nDigits];
    var sign := Cmp(m, n, nDigits);
    if sign >= 0 {
      return Err(RE_DATA);
    }
    var outputLen := key.ModulusLen();
    ModExp(c, m, e, eDigits, n, nDigits);
    var output := new Byte[outputLen];
    Encode(output, outputLen, c, nDigits);
    assert output[..] == output[..outputLen];
    r := Ok(output[..]);
  }

  // ---------- the private operation ----------

  /** The private operation assumes the sizes of a consistent key. */
  ghost predicate Usable(k: Numbers) {
    1 < k.q < k.p && k.n == k.p * k.q && k.dP < k.p && k.dQ < k.p && k.qInv < k.p
  }

  /** What the private operation returns. */
  ghost function PrivateSpec(input: seq<Byte>, key: PrivateKey): Result<seq<Byte>>
    requires Usable(key.KeyNumbers())
  {
    var k := key.KeyNumbers();
    if k.n <= Reduced(input, k.n) then Err(RE_DATA)
    else Ok(BytesOf(CrtValue(BytesVal(input) % Weight(MAX_NN_DIGITS), k), key.ModulusLen()))
  }

  ghost function CrtValue(c: nat, k: Numbers): (v: nat)
    requires 0 < k.p && 0 < k.q
  {
    RecombineSign(c, k);
    CrtPower(c, k)
  }

  lemma RecombineSign(c: nat, k: Numbers)
    requires 0 < k.p && 0 < k.q
    ensures 0 <= CrtPower(c, k)
  {
    var mP, mQ := PowMod(c % k.p, k.dP, k.p), PowMod(c % k.q, k.dQ, k.q);
    PowModRange(c % k.q, k.dQ, k.q);
    MulMono(0, (((mP - mQ) % k.p) * k.qInv) % k.p, k.q);
  }

  /** The difference modulo p, computed without negative numbers, and the
      recombination of the residues in t. */
  method Combine(t: array<Digit>, mP: array<Digit>, mQ: array<Digit>, p: array<Digit>, q: array<Digit>,
                 qInv: array<Digit>, pDigits: nat, nDigits: nat)
    requires t != mP && t != mQ && t != p && t != q && t != qInv
    requires pDigits <= mP.Length && pDigits <= p.Length && pDigits <= q.Length && pDigits <= qInv.Length
    requires pDigits <= nDigits <= 2 * pDigits <= t.Length && nDigits <= mQ.Length
    requires Val(mP[..pDigits]) < Val(p[..pDigits])
    requires Val(mQ[..nDigits]) == Val(mQ[..pDigits]) < Val(q[..pDigits]) < Val(p[..pDigits])
    requires Val(p[..pDigits]) * Val(q[..pDigits]) < Weight(nDigits)
    modifies t
    ensures Val(t[..nDigits])
            == Recombine(Val(p[..pDigits]), Val(q[..pDigits]), Val(qInv[..pDigits]), Val(mP[..pDigits]),
                         Val(mQ[..pDigits]))
  {
    hide Val, Weight, Recombine;
    ghost var pv, qv, iv := Val(p[..pDigits]), Val(q[..pDigits]), Val(qInv[..pDigits]);
    ghost var x, y := Val(mP[..pDigits]), Val(mQ[..pDigits]);
    Difference(t, mP, mQ, p, pDigits);
    ghost var dv := Val(t[..pDigits]);
    ModMult(t, t, qInv, p, pDigits);
    ghost var h := Val(t[..pDigits]);
    RecombineBounds(pv, qv, h, y, dv * iv);
    MultiplyAdd(t, q, mQ, pDigits, nDigits);
    RecombineIs(pv, qv, iv, x, y, dv, h);
  }

  /** t := t * q + mQ, when that fits nDigits digits. */
  method MultiplyAdd(t: array<Digit>, q: array<Digit>, mQ: array<Digit>, pDigits: nat, nDigits: nat)
    requires t != q && t != mQ
    requires pDigits <= q.Length && nDigits <= mQ.Length && nDigits <= 2 * pDigits <= t.Length
    requires Val(t[..pDigits]) * Val(q[..pDigits]) + Val(mQ[..nDigits]) < Weight(nDigits)
    modifies t
    ensures Val(t[..nDigits]) == old(Val(t[..pDigits])) * Val(q[..pDigits]) + Val(mQ[..nDigits])
  {
    hide Val, Weight;
    ghost var sum := Val(t[..pDigits]) * Val(q[..pDigits]) + Val(mQ[..nDigits]);
    Mult(t, t, q, pDigits);
    ValOther(t[..2 * pDigits], nDigits);
    assert t[..2 * pDigits][..nDigits] == t[..nDigits];
    var carry := Add(t, t, mQ, nDigits);
    NoCarry(carry, Val(t[..nDigits]), sum, Weight(nDigits));
  }

  lemma RecombineIs(p: nat, q: nat, qInv: nat, mP: int, mQ: int, d: int, h: int)
    requires 0 < p && d == (mP - mQ) % p && h == (d * qInv) % p
    ensures Recombine(p, q, qInv, mP, mQ) == h * q + mQ
  {
  }

  lemma RecombineBounds(p: int, q: int, h: int, y: int, x: int)
    requires 0 < p && 0 <= y < q && h == x % p
    ensures 0 <= h * q <= h * q + y < p * q
  {
    MulMono(0, h, q);
    MulMonoStrict(h, p, q);
  }

  /** t := mP - mQ mod p. */
  method Difference(t: array<Digit>, mP: array<Digit>, mQ: array<Digit>, p: array<Digit>, pDigits: nat)
    requires t != mP && t != mQ && t != p
    requires pDigits <= t.Length && pDigits <= mP.Length && pDigits <= mQ.Length && pDigits <= p.Length
    requires Val(mP[..pDigits]) < Val(p[..pDigits]) && Val(mQ[..pDigits]) < Val(p[..pDigits])
    modifies t
    ensures Val(t[..pDigits]) == (Val(mP[..pDigits]) as int - Val(mQ[..pDigits])) % Val(p[..pDigits])
  {
    hide Val, Weight;
    ghost var x: int, y: int := Val(mP[..pDigits]), Val(mQ[..pDigits]);
    ghost var pv: int, w: int := Val(p[..pDigits]), Weight(pDigits);
    var sign := Cmp(mP, mQ, pDigits);
    var borrow;
    if sign >= 0 {
      borrow := Sub(t, mP, mQ, pDigits);
      ValBound(t[..pDigits]);
      NoBorrow(borrow, Val(t[..pDigits]), y, x, w);
      ModSmall(x - y, pv);
    } else {
      borrow := Sub(t, mQ, mP, pDigits);
      ValBound(t[..pDigits]);
      NoBorrow(borrow, Val(t[..pDigits]), x, y, w);
      borrow := Sub(t, p, t, pDigits);
      ValBound(t[..pDigits]);
      NoBorrow(borrow, Val(t[..pDigits]), y - x, pv, w);
      ModAddMultiple(x - y, 1, pv);
      ModSmall(x - y + pv, pv);
    }
  }

  /** One residue: m := (c mod p)^d mod p, in nDigits digits. */
  method ResidueExp(c: array<Digit>, cDigits: nat, d: array<Digit>, p: array<Digit>, pDigits: nat, nDigits: nat)
    returns (m: array<Digit>)
    requires cDigits <= c.Length && pDigits <= d.Length && pDigits <= p.Length && pDigits <= nDigits
    requires 0 < Val(p[..pDigits])
    ensures fresh(m) && m.Length == nDigits
    ensures Val(m[..pDigits])
            == PowMod(Val(c[..cDigits]) % Val(p[..pDigits]), Val(d[..pDigits]), Val(p[..pDigits]))
    ensures Val(m[..nDigits]) == Val(m[..pDigits])
  {
    hide Val, PowMod;
    var cP := new Digit[pDigits];
    Mod(cP, c, cDigits, p, pDigits);
    m := new Digit[nDigits];
    AssignZero(m, nDigits);
    ghost var top := m[pDigits..];
    ModExp(m, cP, d, pDigits, p, pDigits);
    ghost var ms := m[..nDigits];
    assert forall k :: pDigits <= k < nDigits ==> ms[k] == top[k - pDigits];
    ValZerosAbove(ms, pDigits);
    assert ms[..pDigits] == m[..pDigits];
  }

  /** The sizes that the private operation relies on. */
  lemma PrivateSizes(k: Numbers)
    requires Usable(k) && k.p < Weight(16)
    ensures SigDigits(k.p) <= 16 && 0 < k.n
    ensures SigDigits(k.p) <= SigDigits(k.n) <= 2 * SigDigits(k.p)
    ensures k.n < Weight(SigDigits(k.n)) && k.p < Weight(SigDigits(k.p))
  {
    MulPositive(k.p, k.q);
    SigDigitsBounds(k.p);
    SigDigitsBounds(k.n);
    SigDigitsAtMost(k.p, 16);
    SigDigitsMono(k.p, k.n);
    var d := SigDigits(k.p);
    WeightAdd(d, d);
    MulMono(k.q, Weight(d), k.p);
    MulMono(k.p, Weight(d), Weight(d));
    MulMonoStrict(k.q, Weight(d), k.p);
    SigDigitsAtMost(k.n, d + d);
  }

  /** output := input^d mod n by the residues modulo the primes. */
  method PrivateFunc(input: seq<Byte>, key: PrivateKey) returns (r: Result<seq<Byte>>)
    requires key.Sized() && Usable(key.KeyNumbers())
    ensures r == PrivateSpec(input, key)
  {
    hide Val, Weight, BytesVal, BytesOf, SigDigits, PowMod, Reduced, Usable, CrtValue;
    ghost var k := key.KeyNumbers();
    var c := new Digit[MAX_NN_DIGITS];
    Decode(c, MAX_NN_DIGITS, input);
    var n, nDigits := DecodeNumber(key.modulus);
    assert c[..MAX_NN_DIGITS] == c[..];
    ReducedDigits(c[..], input, k.n);
    assert c[..][..nDigits] == c[..nDigits];
    var cDigits := Digits(c, MAX_NN_DIGITS);
    var sign := Cmp(c, n, nDigits);
    if sign >= 0 {
      return Err(RE_DATA);
    }
    var outputLen := key.ModulusLen();
    var t := PrivateCore(c, cDigits, nDigits, key);
    var output := new Byte[outputLen];
    Encode(output, outputLen, t, nDigits);
    assert output[..] == output[..outputLen];
    r := Ok(output[..]);
  }

  /** The decoded numbers of a key, with their digits read at the length of p. */
  lemma UsableDigits(k: Numbers, n: nat)
    requires Usable(k) && n == SigDigits(k.p)
    ensures k.p < Weight(n) && k.q < Weight(n) && k.dP < Weight(n) && k.dQ < Weight(n) && k.qInv < Weight(n)
    ensures 0 < k.q < k.p && k.n == k.p * k.q
  {
    SigDigitsBounds(k.p);
  }

  /** The number c of cDigits digits to the power d, by the residues. */
  method PrivateCore(c: array<Digit>, cDigits: nat, nDigits: nat, key: PrivateKey) returns (t: array<Digit>)
    requires key.Sized() && Usable(key.KeyNumbers()) && cDigits <= c.Length
    requires nDigits == SigDigits(key.KeyNumbers().n)
    ensures fresh(t) && nDigits <= t.Length
    ensures Val(t[..nDigits]) == CrtValue(Val(c[..cDigits]), key.KeyNumbers())
  {
    hide Val, Weight, BytesVal, SigDigits, PowMod, Recombine, Usable;
    ghost var k := key.KeyNumbers();
    var p, pDigits := DecodeNumber(key.prime0);
    BytesFit(key.prime0, 16);
    PrivateSizes(k);
    UsableDigits(k, pDigits);
    var q := DecodePart(key.prime1, pDigits);
    var dP := DecodePart(key.primeExponent0, pDigits);
    var dQ := DecodePart(key.primeExponent1, pDigits);
    var qInv := DecodePart(key.coefficient, pDigits);
    var mP := ResidueExp(c, cDigits, dP, p, pDigits, nDigits);
    var mQ := ResidueExp(c, cDigits, dQ, q, pDigits, nDigits);
    ResidueRange(Val(c[..cDigits]), k);
    t := new Digit[MAX_NN_DIGITS];
    Combine(t, mP, mQ, p, q, qInv, pDigits, nDigits);
  }

  /** Both residues are below their primes. */
  lemma ResidueRange(c: nat, k: Numbers)
    requires Usable(k)
    ensures 0 < k.q < k.p
    ensures 0 <= PowMod(c % k.p, k.dP, k.p) < k.p
    ensures 0 <= PowMod(c % k.q, k.dQ, k.q) < k.q
  {
  }
}
