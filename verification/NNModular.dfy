/** Modular arithmetic on digit arrays: remainders, products, powers by
    two-bit windows, inverses by Euclid without negative numbers, and greatest
    common divisors. */
module NNModular {
  import opened Arith
  import opened Words
  import opened Value
  import opened NNBasic
  import opened NNMult
  import opened NNDiv

  /** a := b mod c. */
  method Mod(a: array<Digit>, b: array<Digit>, bDigits: nat, c: array<Digit>, cDigits: nat)
    requires bDigits <= b.Length && cDigits <= a.Length && cDigits <= c.Length
    modifies a
    ensures old(Val(c[..cDigits])) != 0 ==>
              Val(a[..cDigits]) == old(Val(b[..bDigits])) % old(Val(c[..cDigits]))
    ensures old(Val(c[..cDigits])) == 0 ==> a[..] == old(a[..])
    ensures a[cDigits..] == old(a[cDigits..])
  {
    var t := new Digit[bDigits];
    Div(t, a, b, bDigits, c, cDigits);
  }

  /** a := b * c mod d. */
  method ModMult(a: array<Digit>, b: array<Digit>, c: array<Digit>, d: array<Digit>, digits: nat)
    requires digits <= a.Length && digits <= b.Length && digits <= c.Length && digits <= d.Length
    requires Val(d[..digits]) != 0
    modifies a
    ensures Val(a[..digits]) == (old(Val(b[..digits])) * old(Val(c[..digits]))) % old(Val(d[..digits]))
    ensures a[digits..] == old(a[digits..])
  {
    hide Val;
    var t := new Digit[2 * digits];
    Mult(t, b, c, digits);
    Mod(a, t, 2 * digits, d, digits);
  }

  // ---------- powers ----------

  /** t stands for b^e modulo d; it is reduced once a bit of e was consumed. */
  ghost predicate ExpState(t: int, b: int, e: nat, d: int) {
    0 < d && 0 <= t && t % d == Pow(b, e) % d && (0 < e ==> t < d)
  }

  /** v stands for b^s modulo d. */
  ghost predicate PowerOf(v: int, b: int, s: nat, d: int) {
    0 < d && v % d == Pow(b, s) % d
  }

  lemma ExpStart(b: int, d: int)
    requires 0 < d
    ensures ExpState(1, b, 0, d)
  {
  }

  lemma ExpModulus(t: int, b: int, e: nat, d: int)
    requires ExpState(t, b, e, d)
    ensures 0 < d
  {
  }

  lemma ExpResult(t: int, b: int, e: nat, d: int)
    requires ExpState(t, b, e, d)
    ensures 0 < d && (0 < e ==> t == Pow(b, e) % d)
  {
    if 0 < e { ModSmall(t, d); }
  }

  lemma PowerStart(b: int, d: int)
    requires 0 < d
    ensures PowerOf(b, b, 1, d)
  {
    assert Pow(b, 1) == b * Pow(b, 0) == b;
  }

  lemma PowerNext(v: int, b: int, s: nat, d: int)
    requires PowerOf(v, b, s, d)
    ensures PowerOf((v * b) % d, b, s + 1, d)
  {
    CongMul(v, Pow(b, s), b, b, d);
    ModMod(v * b, d);
    assert Pow(b, s + 1) == b * Pow(b, s) == Pow(b, s) * b;
  }

  /** Two squarings and a multiplication by b^s append the pair s to the
      exponent. */
  lemma ExpStep(t: int, b: int, e: nat, d: int, s: nat, v: int)
    requires ExpState(t, b, e, d) && (s != 0 ==> PowerOf(v, b, s, d))
    ensures var t4 := (((t * t) % d) * ((t * t) % d)) % d;
            ExpState(if s == 0 then t4 else (t4 * v) % d, b, 4 * e + s, d)
  {
    hide Pow;
    var p := Pow(b, e);
    var t2 := (t * t) % d;
    var t4 := (t2 * t2) % d;
    CongMul(t, p, t, p, d);
    ModMod(t * t, d);
    CongMul(t2, p * p, t2, p * p, d);
    ModMod(t2 * t2, d);
    PowAdd(b, e, e);
    PowAdd(b, e + e, e + e);
    assert Pow(b, 4 * e) == (p * p) * (p * p);
    if s != 0 {
      PowAdd(b, 4 * e, s);
      CongMul(t4, Pow(b, 4 * e), v, Pow(b, s), d);
      ModMod(t4 * v, d);
    }
  }

  /** The two most significant bits of a digit. */
  function TopPair(x: Digit): (s: nat)
    ensures s < 4
  {
    x / 0x4000_0000
  }

  function ShiftPair(x: int): Digit {
    Wrap(x * 4)
  }

  /** The next pair of bits: shifting the digit by pairs brings them to the
      top one after the other. */
  lemma PairStep(x: Digit, k: nat)
    requires k < 16
    ensures 0 < Pow(4, 15 - k) && 0 < Pow(4, 16 - k)
    ensures var ci := Wrap(x * Pow(4, k));
            x / Pow(4, 15 - k) == 4 * (x / Pow(4, 16 - k)) + TopPair(ci)
    ensures ShiftPair(Wrap(x * Pow(4, k))) == Wrap(x * Pow(4, k + 1))
  {
    hide TopPair, Pow;
    PairPowers(k);
    PairInts(x, Pow(4, k), Pow(4, 15 - k));
  }

  lemma PairInts(x: Digit, m: int, p: int)
    requires 0 < m && 0 < p && m * (4 * p) == BASE
    ensures x / p == 4 * (x / (4 * p)) + TopPair(Wrap(x * m))
    ensures ShiftPair(Wrap(x * m)) == Wrap(x * (4 * m))
  {
    hide TopPair;
    ShiftParts(x, m, 4 * p);
    PairParts(x, m, p);
    var y := x * m;
    WrapShift(y);
    assert x * (4 * m) == 4 * y;
  }

  lemma PairPowers(k: nat)
    requires k < 16
    ensures 0 < Pow(4, k) && 0 < Pow(4, 15 - k)
    ensures Pow(4, 16 - k) == 4 * Pow(4, 15 - k) && Pow(4, k + 1) == 4 * Pow(4, k)
    ensures Pow(4, k) * (4 * Pow(4, 15 - k)) == BASE
  {
    PowPositive(4, k);
    PowPositive(4, 15 - k);
    PowAdd(4, k, 16 - k);
    BaseIsPow4();
  }

  lemma WrapShift(y: int)
    ensures ShiftPair(Wrap(y)) == Wrap(4 * y)
  {
    assert 4 * y == 4 * (y % BASE) + (4 * (y / BASE)) * BASE;
    ModAddMultiple(4 * (y % BASE), 4 * (y / BASE), BASE);
  }

  lemma BaseIsPow4()
    ensures Pow(4, 16) == BASE
  {
    assert Pow(4, 4) == 0x100;
    PowAdd(4, 4, 4);
    PowAdd(4, 8, 8);
  }

  lemma PairParts(x: Digit, m: int, p: int)
    requires 0 < m && 0 < p && m * (4 * p) == BASE && Wrap(x * m) == (x % (4 * p)) * m
    ensures x / p == 4 * (x / (4 * p)) + TopPair(Wrap(x * m))
  {
    var q, r := x / (4 * p), x % (4 * p);
    var q2, r2 := r / p, r % p;
    PairQuotient(x, q, r, q2, r2, p);
    PairTop(r, q2, r2, m, p);
  }

  lemma PairQuotient(x: int, q: int, r: int, q2: int, r2: int, p: int)
    requires 0 < p && x == q * (4 * p) + r && r == q2 * p + r2 && 0 <= r2 < p
    ensures x / p == 4 * q + q2
  {
    assert q * (4 * p) == (4 * q) * p;
    assert (4 * q + q2) * p == (4 * q) * p + q2 * p;
    DivModUnique(x, 4 * q + q2, r2, p);
  }

  lemma PairTop(r: int, q2: int, r2: int, m: int, p: int)
    requires 0 < m && 0 < p && m * (4 * p) == BASE && r == q2 * p + r2 && 0 <= r2 < p
    ensures (r * m) / 0x4000_0000 == q2
  {
    assert m * (4 * p) == 4 * (p * m);
    assert r * m == q2 * (p * m) + r2 * m;
    MulMono(0, r2, m);
    MulMonoStrict(r2, p, m);
    DivModUnique(r * m, q2, r2 * m, 0x4000_0000);
  }

  /** The number that the first k pairs of a digit stand for. */
  function Leading(x: Digit, k: nat): (v: nat)
    requires k <= 16
  {
    PowPositive(4, 16 - k);
    DivLower(x, 0, Pow(4, 16 - k));
    x / Pow(4, 16 - k)
  }

  lemma LeadingNone(x: Digit)
    ensures Leading(x, 0) == 0 && Wrap(x * Pow(4, 0)) == x
  {
    BaseIsPow4();
    ModSmall(x, BASE);
  }

  lemma LeadingAll(x: Digit)
    ensures Leading(x, 16) == x
  {
    assert Pow(4, 0) == 1;
  }

  lemma LeadingStep(x: Digit, k: nat, ci: Digit)
    requires k < 16 && ci == Wrap(x * Pow(4, k))
    ensures Leading(x, k + 1) == 4 * Leading(x, k) + TopPair(ci)
    ensures ShiftPair(ci) == Wrap(x * Pow(4, k + 1))
  {
    PairStep(x, k);
  }

  /** The exponent e followed by the first k pairs of x. */
  ghost function Appended(e: nat, k: nat, x: Digit): (v: nat)
    requires k <= 16
  {
    PowPositive(4, k);
    MulMono(0, e, Pow(4, k));
    e * Pow(4, k) + Leading(x, k)
  }

  lemma AppendedStart(e: nat, k: nat, x: Digit)
    requires k <= 16 && Leading(x, k) == 0 && (k == 0 || e == 0)
    ensures Appended(e, k, x) == e
  {
    assert Pow(4, 0) == 1;
  }

  lemma AppendedStep(e: nat, k: nat, x: Digit, ci: Digit)
    requires k < 16 && Leading(x, k + 1) == 4 * Leading(x, k) + TopPair(ci)
    ensures Appended(e, k + 1, x) == 4 * Appended(e, k, x) + TopPair(ci)
  {
    hide Leading, TopPair;
    assert Pow(4, k + 1) == 4 * Pow(4, k);
    assert e * (4 * Pow(4, k)) == 4 * (e * Pow(4, k));
  }

  lemma AppendedAll(e: nat, x: Digit)
    ensures Appended(e, 16, x) == e * BASE + x as int
  {
    LeadingAll(x);
    BaseIsPow4();
  }

  /** One pair of exponent bits: t := t^4 * b^s mod d. */
  method ExpPair(t: array<Digit>, b1: array<Digit>, b2: array<Digit>, b3: array<Digit>, s: nat,
                 d: array<Digit>, digits: nat, ghost b: int, ghost e: nat)
    requires s < 4 && t != b1 && t != b2 && t != b3 && t != d
    requires digits <= t.Length && digits <= b1.Length && digits <= b2.Length && digits <= b3.Length
    requires digits <= d.Length
    requires PowerOf(Val(b1[..digits]), b, 1, Val(d[..digits]))
    requires PowerOf(Val(b2[..digits]), b, 2, Val(d[..digits]))
    requires PowerOf(Val(b3[..digits]), b, 3, Val(d[..digits]))
    requires ExpState(Val(t[..digits]), b, e, Val(d[..digits]))
    modifies t
    ensures ExpState(Val(t[..digits]), b, 4 * e + s, Val(d[..digits]))
  {
    hide Val, ExpState, PowerOf;
    ghost var dv, t0 := Val(d[..digits]), Val(t[..digits]);
    ExpModulus(t0, b, e, dv);
    var p := if s == 3 then b3 else if s == 2 then b2 else b1;
    ExpStep(t0, b, e, dv, s, Val(p[..digits]));
    ModMult(t, t, t, d, digits);
    ModMult(t, t, t, d, digits);
    if s != 0 {
      ModMult(t, t, p, d, digits);
    }
  }

  /** Scans past the leading zero pairs of a digit; k pairs are gone. */
  method SkipPairs(x: Digit) returns (ci: Digit, ciBits: nat, ghost k: nat)
    requires x != 0
    ensures k < 16 && ciBits == 32 - 2 * k
    ensures ci == Wrap(x * Pow(4, k)) && Leading(x, k) == 0 && TopPair(ci) != 0
  {
    hide Pow, Leading, TopPair, ShiftPair;
    ci, ciBits, k := x, DIGIT_BITS, 0;
    LeadingNone(x);
    LeadingAll(x);
    while TopPair(ci) == 0
      invariant k < 16 && ciBits == 32 - 2 * k
      invariant ci == Wrap(x * Pow(4, k)) && Leading(x, k) == 0
      decreases ciBits
    {
      LeadingStep(x, k, ci);
      ci, ciBits, k := ShiftPair(ci), ciBits - 2, k + 1;
    }
  }

  /** The pairs of one digit x of the exponent, from pair k on; e is the
      exponent of the digits above. */
  method ExpDigit(t: array<Digit>, b1: array<Digit>, b2: array<Digit>, b3: array<Digit>, x: Digit, skip: bool,
                  d: array<Digit>, digits: nat, ghost b: int, ghost e: nat)
    requires t != b1 && t != b2 && t != b3 && t != d
    requires digits <= t.Length && digits <= b1.Length && digits <= b2.Length && digits <= b3.Length
    requires digits <= d.Length
    requires PowerOf(Val(b1[..digits]), b, 1, Val(d[..digits]))
    requires PowerOf(Val(b2[..digits]), b, 2, Val(d[..digits]))
    requires PowerOf(Val(b3[..digits]), b, 3, Val(d[..digits]))
    requires ExpState(Val(t[..digits]), b, e, Val(d[..digits]))
    requires skip ==> x != 0 && e == 0
    modifies t
    ensures ExpState(Val(t[..digits]), b, e * BASE + x as int, Val(d[..digits]))
  {
    hide Val, ExpState, PowerOf, Pow, Leading, TopPair, Appended, ShiftPair;
    var ci, ciBits := x, DIGIT_BITS;
    ghost var k: nat := 0;
    LeadingNone(x);
    if skip {
      ci, ciBits, k := SkipPairs(x);
    }
    AppendedStart(e, k, x);
    var j := 0;
    while j < ciBits
      invariant k <= 16 && j <= ciBits && ciBits - j == 32 - 2 * k
      invariant ci == Wrap(x * Pow(4, k))
      invariant ExpState(Val(t[..digits]), b, Appended(e, k, x), Val(d[..digits]))
    {
      LeadingStep(x, k, ci);
      AppendedStep(e, k, x, ci);
      ExpPair(t, b1, b2, b3, TopPair(ci), d, digits, b, Appended(e, k, x));
      j, ci := j + 2, ShiftPair(ci);
      k := k + 1;
    }
    AppendedAll(e, x);
  }

  /** a := b^c mod d by windows of two bits; the exponent 0 gives 1, also for
      the modulus 1. */
  method ModExp(a: array<Digit>, b: array<Digit>, c: array<Digit>, cDigits: nat, d: array<Digit>, dDigits: nat)
    requires dDigits <= a.Length && dDigits <= b.Length && cDigits <= c.Length && dDigits <= d.Length
    requires Val(d[..dDigits]) != 0
    modifies a
    ensures Val(a[..dDigits])
            == PowMod(old(Val(b[..dDigits])), old(Val(c[..cDigits])), old(Val(d[..dDigits])))
    ensures old(Val(c[..cDigits])) != 0 ==>
              Val(a[..dDigits])
              == Pow(old(Val(b[..dDigits])), old(Val(c[..cDigits]))) % old(Val(d[..dDigits]))
    ensures old(Val(c[..cDigits])) == 0 ==> Val(a[..dDigits]) == 1
    ensures a[dDigits..] == old(a[dDigits..])
  {
    hide Val, ExpState, PowerOf, PowMod, Pow;
    ghost var bv, cv, dv := Val(b[..dDigits]), Val(c[..cDigits]), Val(d[..dDigits]);
    NonZeroLength(d[..dDigits]);
    var b1, b2, b3 := new Digit[dDigits], new Digit[dDigits], new Digit[dDigits];
    Assign(b1, b, dDigits);
    PowerStart(bv, dv);
    ModMult(b2, b1, b, d, dDigits);
    PowerNext(bv, bv, 1, dv);
    ModMult(b3, b2, b, d, dDigits);
    PowerNext(Val(b2[..dDigits]), bv, 2, dv);
    var t := new Digit[dDigits];
    AssignDigit(t, 1, dDigits);
    ExpStart(bv, dv);
    var n := Digits(c, cDigits);
    ExpDigits(t, b1, b2, b3, c, n, d, dDigits, bv);
    ExpPowMod(Val(t[..dDigits]), bv, cv, dv);
    PowModIs(bv, cv, dv);
    Assign(a, t, dDigits);
  }

  /** The digits of the exponent, most significant first. */
  method ExpDigits(t: array<Digit>, b1: array<Digit>, b2: array<Digit>, b3: array<Digit>, c: array<Digit>, n: nat,
                   d: array<Digit>, digits: nat, ghost b: int)
    requires t != b1 && t != b2 && t != b3 && t != d && t != c
    requires digits <= t.Length && digits <= b1.Length && digits <= b2.Length && digits <= b3.Length
    requires digits <= d.Length && n <= c.Length && (n != 0 ==> c[n - 1] != 0)
    requires PowerOf(Val(b1[..digits]), b, 1, Val(d[..digits]))
    requires PowerOf(Val(b2[..digits]), b, 2, Val(d[..digits]))
    requires PowerOf(Val(b3[..digits]), b, 3, Val(d[..digits]))
    requires ExpState(Val(t[..digits]), b, 0, Val(d[..digits]))
    modifies t
    ensures ExpState(Val(t[..digits]), b, Val(c[..n]), Val(d[..digits]))
    ensures Val(c[..n]) == 0 ==> Val(t[..digits]) == old(Val(t[..digits]))
  {
    hide Val, ExpState, PowerOf;
    ghost var cs := c[..n];
    assert cs[n..] == [];
    ValEmpty();
    if n != 0 { ValAtLeast(cs, n - 1); }
    var i := n;
    while i > 0
      invariant i <= n
      invariant i == n ==> Val(t[..digits]) == old(Val(t[..digits]))
      invariant ExpState(Val(t[..digits]), b, Val(cs[i..]), Val(d[..digits]))
    {
      i := i - 1;
      assert c[i] == cs[i] && cs[i..] == [cs[i]] + cs[i + 1..];
      ValCons(cs[i], cs[i + 1..]);
      assert i == n - 1 ==> cs[i + 1..] == [];
      ExpDigit(t, b1, b2, b3, c[i], i == n - 1, d, digits, b, Val(cs[i + 1..]));
    }
    assert cs[0..] == cs;
  }

  /** What the exponentiation computes for every exponent. */
  ghost function PowMod(b: int, e: nat, d: nat): int
    requires 0 < d
  {
    if e == 0 then 1 else Pow(b, e) % d
  }

  lemma PowModIs(b: int, e: nat, d: nat)
    requires 0 < d
    ensures PowMod(b, e, d) == if e == 0 then 1 else Pow(b, e) % d
  {
  }

  lemma ExpPowMod(t: int, b: int, e: nat, d: nat)
    requires ExpState(t, b, e, d) && (e == 0 ==> t == 1)
    ensures 0 < d && t == PowMod(b, e, d)
  {
    if e != 0 { ExpResult(t, b, e, d); }
  }

  lemma NonZeroLength(s: seq<Digit>)
    requires Val(s) != 0
    ensures |s| != 0
  {
  }
}
