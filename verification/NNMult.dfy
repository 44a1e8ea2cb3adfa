/** Exact products: of two digits from four half-digit products, and of two
    numbers by rows. */
module NNMult {
  import opened Arith
  import opened Words
  import opened Value
  import opened NNBasic

  lemma HalfProducts(ah: int, al: int, bh: int, bl: int)
    ensures (ah * HALF_BASE + al) * (bh * HALF_BASE + bl)
            == (ah * bh) * BASE + (al * bh + ah * bl) * HALF_BASE + al * bl
  {
    var x, y := ah * HALF_BASE, bh * HALF_BASE;
    assert x * y == (ah * bh) * BASE;
    assert x * bl == (ah * bl) * HALF_BASE;
    assert al * y == (al * bh) * HALF_BASE;
    assert (x + al) * (y + bl) == x * y + x * bl + al * y + al * bl;
  }

  lemma ProductBound(a: int, b: int, n: int)
    requires 0 <= a < n && 0 <= b < n
    ensures 0 <= a * b <= (n - 1) * (n - 1)
  {
    MulMono(0, a, b);
    MulMono(a, n - 1, b);
    MulMono(b, n - 1, n - 1);
  }

  /** The product of two digits, with the low and high half of the middle
      products added separately. */
  method DMult(a: Digit, b: Digit) returns (high: Digit, low: Digit)
    ensures low + high * BASE == a * b
  {
    var al: int, ah: int := LowHalf(a), HighHalf(a);
    var bl: int, bh: int := LowHalf(b), HighHalf(b);
    ghost var p, x, y := a * b, al * bl, ah * bh;
    hide LowHalf, HighHalf, ToHighHalf, Wrap;
    HalfProductBounds(a, b, al, ah, bl, bh);
    low := al * bl;
    high := ah * bh;
    var m1: Digit := al * bh;
    var m2: Digit := ah * bl;
    var m := Wrap(m1 + m2);
    var carry: Digit := if m < m1 then HALF_BASE else 0;
    var ml := ToHighHalf(m % HALF_BASE);
    var mh := m / HALF_BASE;
    low := Wrap(low + ml);
    if low < ml {
      carry := carry + 1;
    }
    MiddleProducts(p, x, y, m1, m2, m, ml, mh, low, carry);
    high := Wrap(high + carry + mh);
  }

  lemma HalfProductBounds(a: Digit, b: Digit, al: int, ah: int, bl: int, bh: int)
    requires al == LowHalf(a) && ah == HighHalf(a) && bl == LowHalf(b) && bh == HighHalf(b)
    ensures 0 <= al * bl < BASE && 0 <= ah * bh < BASE && 0 <= al * bh < BASE && 0 <= ah * bl < BASE
    ensures a * b == (ah * bh) * BASE + (al * bh + ah * bl) * HALF_BASE + al * bl
    ensures 0 <= a * b < BASE * BASE
  {
    ProductBound(al, bl, HALF_BASE);
    ProductBound(ah, bh, HALF_BASE);
    ProductBound(al, bh, HALF_BASE);
    ProductBound(ah, bl, HALF_BASE);
    HalfProducts(ah, al, bh, bl);
    ProductBound(a, b, BASE);
  }

  /** Both carries of DMult account for what the wrapped sums lose. */
  lemma MiddleProducts(p: int, x: int, y: int, m1: Digit, m2: Digit, m: Digit, ml: Digit, mh: int,
                       low: Digit, carry: int)
    requires p == y * BASE + (m1 + m2) * HALF_BASE + x && 0 <= p < BASE * BASE
    requires 0 <= x < BASE && 0 <= y
    requires m == Wrap(m1 + m2) && ml == ToHighHalf(m % HALF_BASE) && mh == m / HALF_BASE
    requires low == Wrap(x + ml)
    requires carry == (if m < m1 then HALF_BASE else 0) + (if low < ml then 1 else 0)
    ensures p == low + Wrap(y + carry + mh) * BASE
  {
    var c1 := if m < m1 then 1 else 0;
    var c2 := if low < ml then 1 else 0;
    assert m1 + m2 == m + c1 * BASE;
    assert ml == (m % HALF_BASE) * HALF_BASE;
    assert m * HALF_BASE == mh * BASE + ml;
    assert x + ml == low + c2 * BASE;
    var high := y + c1 * HALF_BASE + c2 + mh;
    assert p == low + high * BASE;
    assert 0 <= high < BASE;
  }

  /** One column of a row: the digit t and the incoming carry absorb the
      product of two digits, and the carry still fits one digit. */
  function MultColumn(t: Digit, carry: Digit, dhigh: Digit, dlow: Digit): (r: (Digit, Digit))
    requires dlow + dhigh * BASE <= (BASE - 1) * (BASE - 1)
    ensures r.0 + r.1 * BASE == t + carry + (dlow + dhigh * BASE)
  {
    var t1 := Wrap(t + carry);
    var c1 := if t1 < carry then 1 else 0;
    assert t1 + c1 * BASE == t + carry;
    var t2 := Wrap(t1 + dlow);
    var c2 := if t2 < dlow then c1 + 1 else c1;
    assert t2 + c2 * BASE == t + carry + dlow;
    (t2, Wrap(c2 + dhigh))
  }

  lemma ValUpdate(s: seq<Digit>, k: nat, d: Digit)
    requires k < |s|
    ensures Val(s[k := d]) == Val(s) + (d - s[k]) * Weight(k)
  {
    hide Val, Weight;
    var u := s[k := d];
    ValSplit(s, k + 1);
    ValSplit(u, k + 1);
    ValPrefix(s, k);
    ValPrefix(u, k);
    assert u[..k] == s[..k] && u[k + 1..] == s[k + 1..];
    assert (d - s[k]) * Weight(k) == d * Weight(k) - s[k] * Weight(k);
  }

  /** The array stands for vt; with the pending carry that is the old value
      plus b times the first columns of c. */
  ghost predicate Row(vt: int, vt0: int, carry: int, w: int, wi: int, b: int, vc: int) {
    vt + carry * w == vt0 + (b * vc) * wi
  }

  lemma RowStart(vt: int, w: int, wi: int, b: int)
    ensures Row(vt, vt, 0, w, wi, b, 0)
  {
    assert b * 0 == 0;
  }

  lemma RowStep(vt: int, vt0: int, carry: int, i: nat, j: nat, b: int, vc: int, c: int, t: int, t': int, carry': int)
    requires Row(vt, vt0, carry, Weight(i + j), Weight(i), b, vc)
    requires t' + carry' * BASE == t + carry + b * c
    ensures Row(vt + (t' - t) * Weight(i + j), vt0, carry', Weight(i + j + 1), Weight(i), b, vc + c * Weight(j))
  {
    WeightSucc(i + j);
    WeightAdd(i, j);
    RowSum(vt, vt0, carry, Weight(i + j), Weight(i), Weight(j), b, vc, c, t, t', carry');
  }

  lemma RowSum(vt: int, vt0: int, carry: int, w: int, wi: int, wj: int, b: int, vc: int, c: int, t: int,
               t': int, carry': int)
    requires vt + carry * w == vt0 + (b * vc) * wi && w == wi * wj
    requires t' + carry' * BASE == t + carry + b * c
    ensures (vt + (t' - t) * w) + carry' * (BASE * w) == vt0 + (b * (vc + c * wj)) * wi
  {
    assert (t' - t) * w + carry' * (BASE * w) == ((t' - t) + carry' * BASE) * w == (carry + b * c) * w;
    assert (carry + b * c) * w == carry * w + (b * c) * w;
    assert (b * c) * (wi * wj) == (b * (c * wj)) * wi;
    assert b * (vc + c * wj) == b * vc + b * (c * wj);
    assert (b * vc + b * (c * wj)) * wi == (b * vc) * wi + (b * (c * wj)) * wi;
  }

  lemma RowEnd(vt: int, vt0: int, carry: int, w: int, wi: int, b: int, vc: int, vb: int)
    requires Row(vt, vt0, carry, w, wi, b, vc) && vt0 == vb * vc
    ensures vt + carry * w == (vb + b * wi) * vc
  {
    assert (b * vc) * wi == (b * wi) * vc;
    assert (vb + b * wi) * vc == vb * vc + (b * wi) * vc;
  }

  /** One column of a row, in place. */
  method MultCell(t: array<Digit>, b: Digit, c: Digit, k: nat, carry: Digit) returns (next: Digit)
    requires k < t.Length
    modifies t
    ensures forall j :: 0 <= j < t.Length && j != k ==> t[j] == old(t[j])
    ensures t[k] + next * BASE == old(t[k]) + carry + b * c
  {
    var dhigh, dlow := DMult(b, c);
    ProductBound(b, c, BASE);
    var (digit, carry') := MultColumn(t[k], carry, dhigh, dlow);
    t[k], next := digit, carry';
  }

  /** The columns of one row; the last carry is still to be stored. */
  method MultColumns(t: array<Digit>, b: Digit, c: array<Digit>, cDigits: nat, i: nat) returns (carry: Digit)
    requires t != c && cDigits <= c.Length && i + cDigits < t.Length
    modifies t
    ensures Row(Val(t[..]), old(Val(t[..])), carry, Weight(i + cDigits), Weight(i), b, Val(c[..cDigits]))
    ensures forall k :: i + cDigits <= k < t.Length ==> t[k] == old(t[k])
  {
    hide Val, Weight, Row;
    ghost var ts, cs := t[..], c[..cDigits];
    assert cs[..0] == [];
    ValEmpty();
    RowStart(Val(ts), Weight(i), Weight(i), b);
    carry := 0;
    var j := 0;
    while j < cDigits
      invariant j <= cDigits
      invariant forall k :: i + cDigits <= k < t.Length ==> t[k] == ts[k]
      invariant Row(Val(t[..]), Val(ts), carry, Weight(i + j), Weight(i), b, Val(cs[..j]))
    {
      ghost var was, carry0 := t[..], carry;
      assert c[j] == cs[j];
      carry := MultCell(t, b, c[j], i + j, carry);
      assert t[..] == was[i + j := t[i + j]];
      ValUpdate(was, i + j, t[i + j]);
      ValPrefix(cs, j);
      RowStep(Val(was), Val(ts), carry0, i, j, b, Val(cs[..j]), cs[j], was[i + j], t[i + j], carry);
      j := j + 1;
    }
    assert cs[..cDigits] == cs;
  }

  /** One row: t := t + b * c[..cDigits] * BASE^i. */
  method MultRow(t: array<Digit>, b: Digit, c: array<Digit>, cDigits: nat, i: nat, ghost vb: int)
    requires t != c && cDigits <= c.Length && i + cDigits < t.Length
    requires t[i + cDigits] == 0
    requires Val(t[..]) == vb * Val(c[..cDigits])
    modifies t
    ensures Val(t[..]) == (vb + b * Weight(i)) * Val(c[..cDigits])
    ensures forall k :: i + cDigits < k < t.Length ==> t[k] == old(t[k])
  {
    hide Val, Weight, Row;
    ghost var ts, vc := t[..], Val(c[..cDigits]);
    var carry: Digit := 0;
    if b != 0 {
      carry := MultColumns(t, b, c, cDigits, i);
    } else {
      ZeroRow(Val(ts), Weight(i + cDigits), Weight(i), vc);
    }
    ghost var was := t[..];
    t[i + cDigits] := Wrap(t[i + cDigits] + carry);
    assert t[..] == was[i + cDigits := carry];
    ValUpdate(was, i + cDigits, carry);
    RowEnd(Val(was), Val(ts), carry, Weight(i + cDigits), Weight(i), b, vc, vb);
  }

  lemma ZeroRow(vt: int, w: int, wi: int, vc: int)
    ensures Row(vt, vt, 0, w, wi, 0, vc)
  {
    assert 0 * vc == 0;
  }

  /** The rows of a product, added into a cleared array. */
  method MultRows(t: array<Digit>, b: array<Digit>, bDigits: nat, c: array<Digit>, cDigits: nat)
    requires t != b && t != c && bDigits <= b.Length && cDigits <= c.Length
    requires bDigits + cDigits <= t.Length
    requires forall k :: 0 <= k < t.Length ==> t[k] == 0
    modifies t
    ensures Val(t[..]) == Val(b[..bDigits]) * Val(c[..cDigits])
  {
    ghost var bs, vc := b[..bDigits], Val(c[..cDigits]);
    ValZeros(t[..]);
    assert bs[..0] == [];
    ValEmpty();
    assert 0 * vc == 0;
    hide Val, Weight;
    var i := 0;
    while i < bDigits
      invariant i <= bDigits
      invariant forall k :: i + cDigits <= k < t.Length ==> t[k] == 0
      invariant Val(t[..]) == Val(bs[..i]) * vc
    {
      assert b[i] == bs[i];
      MultRow(t, b[i], c, cDigits, i, Val(bs[..i]));
      ValPrefix(bs, i);
      i := i + 1;
    }
    assert bs[..bDigits] == bs;
  }

  /** a := b * c, in 2*digits digits.  The product is built in a local array,
      so a may be b or c. */
  method Mult(a: array<Digit>, b: array<Digit>, c: array<Digit>, digits: nat)
    requires 2 * digits <= a.Length && digits <= b.Length && digits <= c.Length
    modifies a
    ensures Val(a[..2 * digits]) == old(Val(b[..digits])) * old(Val(c[..digits]))
    ensures a[2 * digits..] == old(a[2 * digits..])
  {
    hide Val, Weight;
    var t := new Digit[2 * digits];
    AssignZero(t, 2 * digits);
    var bDigits := Digits(b, digits);
    var cDigits := Digits(c, digits);
    MultRows(t, b, bDigits, c, cDigits);
    Assign(a, t, 2 * digits);
    assert t[..2 * digits] == t[..];
  }
}
