/** Schoolbook division.  The divisor is shifted so that its top digit is at
    least half the base; each quotient digit is estimated from two digits of
    the remainder in two 16-bit halves, and then corrected. */
module NNDiv {
  import opened Arith
  import opened Words
  import opened Value
  import opened NNBasic
  import opened NNMult

  // ---------- subtracting a multiple ----------

  /** One column of a - c*d: the digit less the next borrow is exact, and the
      borrow still fits one digit. */
  function SubMultColumn(b: Digit, borrow: Digit, thigh: Digit, tlow: Digit): (r: (Digit, Digit))
    requires tlow + thigh * BASE <= (BASE - 1) * (BASE - 1)
    ensures r.0 + borrow + (tlow + thigh * BASE) == b + r.1 * BASE
  {
    var a1 := Wrap(b - borrow);
    var b1 := if a1 > MAX_DIGIT - borrow then 1 else 0;
    assert a1 + borrow == b + b1 * BASE;
    var a2 := Wrap(a1 - tlow);
    var b2 := if a2 > MAX_DIGIT - tlow then b1 + 1 else b1;
    assert a2 + tlow + borrow == b + b2 * BASE;
    (a2, Wrap(b2 + thigh))
  }

  /** The digit a and the next borrow are b less the borrow and c*d. */
  ghost predicate SubMultCellOk(a: int, borrow: int, c: int, d: int, b: int, borrow': int) {
    a + borrow + c * d == b + borrow' * BASE
  }

  /** The window less c times the first digits of d, with a pending borrow. */
  ghost predicate SubMultiple(va: int, vb: int, borrow: int, w: int, c: int, vd: int) {
    va + c * vd == vb + borrow * w
  }

  lemma SubMultipleStart(w: int, c: int)
    ensures SubMultiple(0, 0, 0, w, c, 0)
  {
    assert c * 0 == 0;
  }

  lemma SubMultipleNone(va: int, w: int, vd: int)
    ensures SubMultiple(va, va, 0, w, 0, vd)
  {
    assert 0 * vd == 0;
  }

  lemma SubMultipleStep(va: int, vb: int, borrow: int, n: nat, c: int, vd: int, a: int, b: int, d: int, borrow': int)
    requires SubMultiple(va, vb, borrow, Weight(n), c, vd)
    requires SubMultCellOk(a, borrow, c, d, b, borrow')
    ensures SubMultiple(va + a * Weight(n), vb + b * Weight(n), borrow', Weight(n + 1), c, vd + d * Weight(n))
  {
    WeightSucc(n);
    SubMultipleSum(va, vb, borrow, Weight(n), c, vd, a, b, d, borrow');
  }

  lemma SubMultipleSum(va: int, vb: int, borrow: int, w: int, c: int, vd: int, a: int, b: int, d: int, borrow': int)
    requires va + c * vd == vb + borrow * w && a + borrow + c * d == b + borrow' * BASE
    ensures (va + a * w) + c * (vd + d * w) == (vb + b * w) + borrow' * (BASE * w)
  {
    assert (a + borrow + c * d) * w == (b + borrow' * BASE) * w;
    assert (a + borrow + c * d) * w == a * w + borrow * w + (c * d) * w;
    assert (b + borrow' * BASE) * w == b * w + borrow' * (BASE * w);
    assert c * (vd + d * w) == c * vd + (c * d) * w;
  }

  /** One column. */
  method SubMultCell(b: Digit, c: Digit, d: Digit, borrow: Digit) returns (a: Digit, next: Digit)
    ensures SubMultCellOk(a, borrow, c, d, b, next)
  {
    var thigh, tlow := DMult(c, d);
    ProductBound(c, d, BASE);
    var (digit, borrow') := SubMultColumn(b, borrow, thigh, tlow);
    a, next := digit, borrow';
  }

  /** The columns of b - c*d on the digits from off. */
  method SubMultColumns(a: array<Digit>, b: array<Digit>, c: Digit, d: array<Digit>, digits: nat, off: nat)
    returns (borrow: Digit)
    requires a != d && off + digits <= a.Length && off + digits <= b.Length && digits <= d.Length
    modifies a
    ensures SubMultiple(Val(a[off..off + digits]), old(Val(b[off..off + digits])), borrow, Weight(digits),
                        c, Val(d[..digits]))
    ensures forall k :: 0 <= k < off || off + digits <= k < a.Length ==> a[k] == old(a[k])
  {
    hide Val, Weight, SubMultiple, SubMultCellOk;
    ghost var bs, ds := b[off..off + digits], d[..digits];
    assert ds[..0] == [] && bs[..0] == [] && a[off..off + 0] == [];
    ValEmpty();
    SubMultipleStart(Weight(0), c);
    borrow := 0;
    var i := 0;
    while i < digits
      invariant i <= digits
      invariant forall k :: 0 <= k < off || off + i <= k < a.Length ==> a[k] == old(a[k])
      invariant forall k :: i <= k < digits ==> b[off + k] == bs[k]
      invariant SubMultiple(Val(a[off..off + i]), Val(bs[..i]), borrow, Weight(i), c, Val(ds[..i]))
    {
      ghost var was, borrow0 := a[off..off + i], borrow;
      assert b[off + i] == bs[i] && d[i] == ds[i];
      var digit, next := SubMultCell(b[off + i], c, d[i], borrow);
      a[off + i], borrow := digit, next;
      assert a[off..off + i + 1] == was + [digit];
      ValSnoc(was, digit);
      ValPrefix(bs, i);
      ValPrefix(ds, i);
      SubMultipleStep(Val(was), Val(bs[..i]), borrow0, i, c, Val(ds[..i]), digit, bs[i], ds[i], borrow);
      i := i + 1;
    }
    assert ds[..digits] == ds && bs[..digits] == bs;
  }

  /** a := b - c * d on the digits from off, returning the borrow; for c = 0
      nothing is written, not even b. */
  method SubDigitMult(a: array<Digit>, b: array<Digit>, c: Digit, d: array<Digit>, digits: nat, off: nat)
    returns (borrow: Digit)
    requires a != d && off + digits <= a.Length && off + digits <= b.Length && digits <= d.Length
    modifies a
    ensures c != 0 || a == b ==>
              SubMultiple(Val(a[off..off + digits]), old(Val(b[off..off + digits])), borrow, Weight(digits),
                          c, Val(d[..digits]))
    ensures c == 0 ==> borrow == 0 && a[..] == old(a[..])
    ensures forall k :: 0 <= k < off || off + digits <= k < a.Length ==> a[k] == old(a[k])
  {
    hide Val, Weight, SubMultiple;
    borrow := 0;
    if c != 0 {
      borrow := SubMultColumns(a, b, c, d, digits, off);
    } else {
      SubMultipleNone(Val(b[off..off + digits]), Weight(digits), Val(d[..digits]));
    }
  }

  // ---------- estimating a digit ----------

  /** Subtracting one digit from a pair of digits, as the library tests it. */
  function SubFromPair(t0: Digit, t1: Digit, x: Digit): (r: (Digit, Digit))
    ensures x <= t0 + t1 * BASE ==> r.0 + r.1 * BASE == t0 + t1 * BASE - x
  {
    var low := Wrap(t0 - x);
    (low, if low > MAX_DIGIT - x then Wrap(t1 - 1) else t1)
  }

  /** Subtracting a shifted amount from a pair: first the low digit with its
      borrow, then the high digit. */
  function SubShifted(t0: Digit, t1: Digit, lo: Digit, hi: Digit): (r: (Digit, Digit))
    ensures lo + hi * BASE <= t0 + t1 * BASE ==>
              r.0 + r.1 * BASE == t0 + t1 * BASE - (lo + hi * BASE)
  {
    var r := SubFromPair(t0, t1, lo);
    (r.0, Wrap(r.1 - hi))
  }

  function SubHigh(t1: Digit, x: Digit): (r: Digit)
    ensures x <= t1 ==> r == t1 - x
  {
    Wrap(t1 - x)
  }

  /** A digit shifted up by half a digit, in two pieces. */
  lemma HalvesUp(s: Digit)
    ensures HighHalf(s) * BASE + ToHighHalf(LowHalf(s)) == s * HALF_BASE
  {
  }

  lemma ShiftUp(v: Digit)
    ensures HighHalf(v) * BASE + ToHighHalf(v) == v * HALF_BASE
  {
  }

  /** A 32-bit product of two half digits. */
  function HalfMult(a: HalfDigit, b: HalfDigit): Digit {
    var x: int, y: int := a, b;
    Wrap(x * y)
  }

  lemma HalfMultExact(a: HalfDigit, b: HalfDigit)
    ensures HalfMult(a, b) == a * b
  {
    var x: int, y: int := a, b;
    ProductBound(x, y, HALF_BASE);
  }

  /** a times x has been taken from the pair, and rest is left. */
  ghost predicate Taken(a: int, x: int, rest: int, pair: int) {
    a * x + rest == pair && 0 <= rest
  }

  /** One more time x still leaves the factor below n. */
  lemma TakeOnce(a: int, x: int, rest: int, pair: int, n: int)
    requires Taken(a, x, rest, pair) && x <= rest && 0 < x && pair < n * x
    ensures a + 1 < n && Taken(a + 1, x, rest - x, pair)
  {
    assert (a + 1) * x == a * x + x;
    MulCancelOrder(a + 1, n, x);
  }

  /** The first guess at the high half of a quotient digit. */
  function GuessHigh(t1: Digit, cHigh: HalfDigit): HalfDigit {
    if cHigh == MAX_HALF_DIGIT then HighHalf(t1) else LowHalf(t1 / (cHigh + 1))
  }

  lemma GuessHighTaken(s: Digit, t0: Digit, t1: Digit)
    requires t1 < s
    ensures var a := GuessHigh(t1, HighHalf(s));
            var u, v := HalfMult(a, LowHalf(s)), HalfMult(a, HighHalf(s));
            var x := ToHighHalf(u) + HighHalf(u) * BASE + v * BASE;
            x <= t1 * BASE && Taken(a, s * HALF_BASE, t0 + t1 * BASE - x, t0 + t1 * BASE)
  {
    var cHigh, cLow := HighHalf(s), LowHalf(s);
    var m: int := cHigh + 1;
    assert s == cHigh * HALF_BASE + cLow;
    DivUpper(t1, HALF_BASE, m);
    var a := GuessHigh(t1, cHigh);
    assert a == t1 / m;
    hide LowHalf, HighHalf, GuessHigh, HalfMult, ToHighHalf;
    GuessTimes(a, m, s, t1);
    HalfMultExact(a, cLow);
    HalfMultExact(a, cHigh);
    ShiftUp(HalfMult(a, cLow));
    PieceSum(a, cHigh, cLow, HALF_BASE);
  }

  lemma GuessTimes(a: int, m: int, s: int, t1: int)
    requires 0 <= a && a * m <= t1 && s <= m * HALF_BASE
    ensures a * (s * HALF_BASE) <= t1 * BASE
  {
    MulMono(s, m * HALF_BASE, a);
    assert s * a == a * s && (m * HALF_BASE) * a == (a * m) * HALF_BASE;
    assert a * (s * HALF_BASE) == (a * s) * HALF_BASE;
  }

  lemma PieceSum(a: int, x: int, y: int, h: int)
    ensures a * ((x * h + y) * h) == ((a * x) * h) * h + (a * y) * h
  {
    assert (x * h + y) * h == (x * h) * h + y * h;
    assert a * ((x * h) * h) == ((a * x) * h) * h;
    assert a * (y * h) == (a * y) * h;
  }

  /** The high half of an estimate: aHigh times the shifted divisor is taken
      from the pair, and no further time fits. */
  method EstimateHigh(s: Digit, t0: Digit, t1: Digit) returns (aHigh: HalfDigit, r0: Digit, r1: Digit)
    requires HALF_BASE <= s && t1 < s
    ensures Taken(aHigh, s * HALF_BASE, r0 + r1 * BASE, t0 + t1 * BASE)
    ensures r0 + r1 * BASE < s * HALF_BASE
  {
    GuessHighTaken(s, t0, t1);
    HalvesUp(s);
    hide Taken, GuessHigh, HalfMult, HighHalf, LowHalf, ToHighHalf, SubShifted, SubHigh;
    var cHigh, cLow := HighHalf(s), LowHalf(s);
    ghost var pair := t0 + t1 * BASE;
    aHigh := GuessHigh(t1, cHigh);
    var u, v := HalfMult(aHigh, cLow), HalfMult(aHigh, cHigh);
    var r := SubShifted(t0, t1, ToHighHalf(u), HighHalf(u));
    r0, r1 := r.0, SubHigh(r.1, v);
    while r1 > cHigh || (r1 == cHigh && r0 >= ToHighHalf(cLow))
      invariant Taken(aHigh, s * HALF_BASE, r0 + r1 * BASE, pair)
      decreases r0 + r1 * BASE
    {
      TakeOnce(aHigh, s * HALF_BASE, r0 + r1 * BASE, pair, HALF_BASE);
      r := SubShifted(r0, r1, ToHighHalf(cLow), cHigh);
      r0, r1 := r.0, r.1;
      aHigh := aHigh + 1;
    }
  }

  /** The first guess at the low half of a quotient digit. */
  function GuessLow(t0: Digit, t1: Digit, cHigh: HalfDigit): HalfDigit {
    if cHigh == MAX_HALF_DIGIT then LowHalf(t1)
    else LowHalf(Wrap(ToHighHalf(t1) + HighHalf(t0)) / (cHigh + 1))
  }

  lemma GuessLowTop(s: Digit, t0: Digit, t1: Digit)
    requires t0 + t1 * BASE < s * HALF_BASE
    ensures var top := t1 * HALF_BASE + HighHalf(t0);
            top < HighHalf(s) * HALF_BASE + HALF_BASE && Wrap(ToHighHalf(t1) + HighHalf(t0)) == top
    ensures LowHalf(t1) == t1 == (t1 * HALF_BASE + HighHalf(t0)) / HALF_BASE
  {
    assert t1 < HALF_BASE;
  }

  lemma GuessLowIs(s: Digit, t0: Digit, t1: Digit)
    requires t0 + t1 * BASE < s * HALF_BASE
    ensures GuessLow(t0, t1, HighHalf(s)) == (t1 * HALF_BASE + HighHalf(t0)) / (1 + HighHalf(s))
  {
    var cHigh: int := HighHalf(s);
    var m := cHigh + 1;
    var top := t1 * HALF_BASE + HighHalf(t0);
    assert cHigh * HALF_BASE + HALF_BASE == HALF_BASE * m;
    GuessLowTop(s, t0, t1);
    hide HighHalf, LowHalf, ToHighHalf, Wrap;
    if m != HALF_BASE {
      DivUpper(top, HALF_BASE, m);
      DivLower(top, 0, m);
      LowHalfSmall(top / m);
    }
  }

  lemma LowHalfSmall(x: Digit)
    requires x < HALF_BASE
    ensures LowHalf(x) == x
  {
  }

  lemma GuessLowTaken(s: Digit, t0: Digit, t1: Digit)
    requires t0 + t1 * BASE < s * HALF_BASE
    ensures var a := GuessLow(t0, t1, HighHalf(s));
            var u, v := HalfMult(a, LowHalf(s)), HalfMult(a, HighHalf(s));
            var x := u + v * HALF_BASE;
            x <= t0 + t1 * BASE && Taken(a, s, t0 + t1 * BASE - x, t0 + t1 * BASE)
  {
    var cHigh, cLow := HighHalf(s), LowHalf(s);
    var top := t1 * HALF_BASE + HighHalf(t0);
    assert s == cHigh * HALF_BASE + cLow;
    assert top * HALF_BASE <= t0 + t1 * BASE;
    GuessLowIs(s, t0, t1);
    hide LowHalf, HighHalf, GuessLow, HalfMult;
    var a: int := GuessLow(t0, t1, cHigh);
    HalfMultExact(a, cLow);
    HalfMultExact(a, cHigh);
    GuessSum(a, s, cHigh, cLow, top, t0 + t1 * BASE);
  }

  lemma GuessSum(a: int, s: int, cHigh: int, cLow: int, top: int, pair: int)
    requires 0 <= top && 0 <= cHigh && 0 <= cLow < HALF_BASE && s == cHigh * HALF_BASE + cLow
    requires a == top / (1 + cHigh) && top * HALF_BASE <= pair
    ensures var x := a * cLow + (a * cHigh) * HALF_BASE;
            x <= pair && Taken(a, s, pair - x, pair)
  {
    DivLower(top, 0, 1 + cHigh);
    assert a * (1 + cHigh) <= top;
    GuessTimesLow(a, 1 + cHigh, s, top);
    LowPieces(a, cHigh, cLow);
  }

  lemma GuessTimesLow(a: int, m: int, s: int, top: int)
    requires 0 <= a && a * m <= top && s <= m * HALF_BASE
    ensures a * s <= top * HALF_BASE
  {
    MulMono(s, m * HALF_BASE, a);
    assert s * a == a * s && (m * HALF_BASE) * a == (a * m) * HALF_BASE;
  }

  lemma LowPieces(a: int, x: int, y: int)
    ensures a * (x * HALF_BASE + y) == a * y + (a * x) * HALF_BASE
  {
  }

  /** The low half of an estimate. */
  method EstimateLow(s: Digit, t0: Digit, t1: Digit) returns (aLow: HalfDigit, ghost rest: int)
    requires HALF_BASE <= s && t0 + t1 * BASE < s * HALF_BASE
    ensures aLow as int == (t0 + t1 * BASE) / s
    ensures Taken(aLow, s, rest, t0 + t1 * BASE) && rest < s
  {
    GuessLowTaken(s, t0, t1);
    hide Taken, GuessLow, HalfMult, HighHalf, LowHalf, ToHighHalf, SubFromPair, SubShifted;
    var cHigh, cLow := HighHalf(s), LowHalf(s);
    ghost var pair := t0 + t1 * BASE;
    aLow := GuessLow(t0, t1, cHigh);
    var u, v := HalfMult(aLow, cLow), HalfMult(aLow, cHigh);
    ShiftUp(v);
    var r := SubFromPair(t0, t1, u);
    r := SubShifted(r.0, r.1, ToHighHalf(v), HighHalf(v));
    var r0: Digit, r1: Digit := r.0, r.1;
    while r1 > 0 || (r1 == 0 && r0 >= s)
      invariant Taken(aLow, s, r0 + r1 * BASE, pair)
      decreases r0 + r1 * BASE
    {
      TakeOnce(aLow, s, r0 + r1 * BASE, pair, HALF_BASE);
      r := SubFromPair(r0, r1, s);
      r0, r1 := r.0, r.1;
      aLow := aLow + 1;
    }
    rest := r0;
    TakenAll(aLow, s, rest, pair);
  }

  lemma TakenAll(a: int, x: int, rest: int, pair: int)
    requires Taken(a, x, rest, pair) && rest < x
    ensures a == pair / x
  {
    DivModUnique(pair, a, rest, x);
  }

  /** The value of the two top digits of a remainder divided by s+1. */
  function Estimate(s: int, t0: int, t1: int): int
    requires 0 <= s
  {
    (t0 + t1 * BASE) / (s + 1)
  }

  /** The two halves together: the floor of the pair divided by s+1. */
  lemma HalvesEstimate(s: int, t0: int, t1: int, aHigh: HalfDigit, aLow: HalfDigit, mid: int, rest: int)
    requires 0 <= s && rest < s + 1
    requires Taken(aHigh, (s + 1) * HALF_BASE, mid, t0 + t1 * BASE) && Taken(aLow, s + 1, rest, mid)
    ensures Estimate(s, t0, t1) == Wrap(ToHighHalf(aHigh) + aLow)
  {
    hide Taken;
    var h: int, l: int := aHigh, aLow;
    HalvesTaken(h, l, s + 1, mid, rest, t0 + t1 * BASE);
    TakenAll(h * HALF_BASE + l, s + 1, rest, t0 + t1 * BASE);
    HalvesJoined(aHigh, aLow);
  }

  lemma HalvesTaken(h: int, l: int, x: int, mid: int, rest: int, pair: int)
    requires 0 < x && Taken(h, x * HALF_BASE, mid, pair) && Taken(l, x, rest, mid)
    ensures Taken(h * HALF_BASE + l, x, rest, pair)
  {
    assert h * (x * HALF_BASE) == (h * x) * HALF_BASE;
    assert (h * HALF_BASE + l) * x == (h * x) * HALF_BASE + l * x;
  }

  lemma HalvesJoined(aHigh: HalfDigit, aLow: HalfDigit)
    ensures Wrap(ToHighHalf(aHigh) + aLow) == aHigh as int * HALF_BASE + aLow as int
  {
  }

  lemma EstimateMax(t0: Digit, t1: Digit)
    ensures Estimate(MAX_DIGIT, t0, t1) == t1
  {
  }

  /** The estimate of a quotient digit from the top digit s of the divisor and
      the two top digits of the remainder: their value divided by s+1. */
  method EstimateDigit(s: Digit, t0: Digit, t1: Digit) returns (ai: Digit)
    requires BASE / 2 <= s && t1 <= s
    ensures ai == Estimate(s, t0, t1)
  {
    hide Taken, Estimate, ToHighHalf, Wrap;
    if s == MAX_DIGIT {
      EstimateMax(t0, t1);
      ai := t1;
    } else {
      var s1: Digit := s + 1;
      var aHigh, r0, r1 := EstimateHigh(s1, t0, t1);
      ghost var mid := r0 + r1 * BASE;
      var aLow, rest := EstimateLow(s1, r0, r1);
      HalvesEstimate(s, t0, t1, aHigh, aLow, mid, rest);
      ai := Wrap(ToHighHalf(aHigh) + aLow);
    }
  }

  // ---------- one quotient digit ----------

  /** The two top digits of a window of n+1 digits against its value. */
  lemma WindowTop(w: seq<Digit>, n: nat)
    requires 0 < n && |w| == n + 1
    ensures var pair := w[n - 1] + w[n] * BASE;
            pair * Weight(n - 1) <= Val(w) < (pair + 1) * Weight(n - 1)
  {
    hide Val;
    assert w[..n + 1] == w;
    ValPrefix(w, n);
    ValPrefix(w, n - 1);
    ValBound(w[..n - 1]);
    WeightSucc(n - 1);
    PairWeight(Val(w[..n - 1]), w[n - 1], w[n], Weight(n - 1));
  }

  lemma PairWeight(low: int, t0: int, t1: int, w: int)
    requires 0 <= low < w
    ensures (t0 + t1 * BASE) * w <= low + t0 * w + t1 * (BASE * w) < (t0 + t1 * BASE + 1) * w
  {
    assert (t0 + t1 * BASE) * w == t0 * w + t1 * (BASE * w);
    assert (t0 + t1 * BASE + 1) * w == (t0 + t1 * BASE) * w + w;
  }

  /** A number of n digits against its top digit. */
  lemma DivisorTop(d: seq<Digit>)
    requires 0 < |d|
    ensures var n := |d| - 1; d[n] * Weight(n) <= Val(d) < (d[n] + 1) * Weight(n)
  {
    var n := |d| - 1;
    ValBound(d[..n]);
    assert (d[n] + 1) * Weight(n) == d[n] * Weight(n) + Weight(n);
  }

  /** The estimate is never above the true digit. */
  lemma EstimateBelow(r: int, d: int, pair: int, s: int, w: int, est: int)
    requires 0 < w && 0 <= s && 0 <= est && est == pair / (s + 1)
    requires pair * w <= r && d < (s + 1) * w
    ensures est * d <= r
  {
    MulMono(d, (s + 1) * w, est);
    assert est * (s + 1) <= pair;
    MulMono(est * (s + 1), pair, w);
    assert ((s + 1) * w) * est == (est * (s + 1)) * w;
    assert d * est == est * d;
  }

  /** The estimate is at most two below the true digit: the divisor is
      normalised, so its top digit s is at least half the base. */
  lemma EstimateClose(r: int, d: int, pair: int, s: int, w: int, est: int)
    requires 0 < w && BASE / 2 <= s && 0 <= pair && est == pair / (s + 1) && est < BASE
    requires r < (pair + 1) * w && s * w <= d
    ensures r < (est + 3) * d
  {
    assert pair < est * (s + 1) + (s + 1);
    assert est * (s + 1) == est * s + est;
    assert (est + 3) * s == est * s + 3 * s;
    assert pair + 1 <= (est + 3) * s;
    MulMono(pair + 1, (est + 3) * s, w);
    DivLower(pair, 0, s + 1);
    MulMono(s * w, d, est + 3);
    assert ((est + 3) * s) * w == (s * w) * (est + 3);
  }

  /** The remainder is below BASE times the divisor, so its top digit is at
      most the top digit of the divisor. */
  lemma TopDigitBound(r: int, d: int, pair: int, t0: Digit, t1: Digit, s: int, w: int)
    requires 0 < w && pair == t0 + t1 * BASE
    requires pair * w <= r < d * BASE && d < (s + 1) * w
    ensures t1 <= s && pair < (s + 1) * BASE
  {
    MulMono(d + 1, (s + 1) * w, BASE);
    assert ((s + 1) * w) * BASE == ((s + 1) * BASE) * w;
    MulCancelOrder(pair, (s + 1) * BASE, w);
  }

  /** The window less ai times the divisor, split into its top digit. */
  ghost predicate Corrected(r: int, d: int, ai: int, low: int, top: int, w: int) {
    low + top * w + ai * d == r && 0 <= low < w
  }

  lemma AfterSubtract(r: int, d: int, ai: int, low0: int, top0: int, w: int, low: int, borrow: int)
    requires SubMultiple(low, low0, borrow, w, ai, d) && r == low0 + top0 * w
    requires 0 <= low < w && ai * d <= r
    ensures borrow <= top0 && Corrected(r, d, ai, low, top0 - borrow, w)
  {
    assert (top0 - borrow) * w == top0 * w - borrow * w;
    if top0 < borrow {
      MulMonoStrict(top0, borrow, w);
    }
  }

  lemma AfterCorrection(r: int, d: int, ai: int, low0: int, top0: int, w: int, low: int, borrow: int)
    requires Corrected(r, d, ai, low0, top0, w) && low + d == low0 + borrow * w
    requires 0 <= low < w && 0 <= borrow <= 1 && 0 < d < w && 0 <= top0 && (top0 != 0 || d <= low0)
    ensures borrow <= top0 && Corrected(r, d, ai + 1, low, top0 - borrow, w)
    ensures ai * d + d <= r
  {
    assert (top0 - borrow) * w == top0 * w - borrow * w;
    assert (ai + 1) * d == ai * d + d;
    if top0 != 0 { MulMono(1, top0, w); }
  }

  /** q and rem are the quotient and the remainder of r by d. */
  ghost predicate DividesInto(r: int, d: int, q: int, rem: int) {
    0 < d && q == r / d && rem == r % d
  }

  lemma FinishedDigit(r: int, d: int, ai: int, low: int, w: int)
    requires Corrected(r, d, ai, low, 0, w) && low < d
    ensures DividesInto(r, d, ai, low)
  {
    DivModUnique(r, ai, low, d);
  }

  /** The window of n+1 digits from i: its low digits and its top digit. */
  lemma WindowSplit(w: seq<Digit>, n: nat)
    requires |w| == n + 1
    ensures Val(w) == Val(w[..n]) + w[n] * Weight(n) && 0 <= Val(w[..n]) < Weight(n)
  {
    assert w[..n + 1] == w;
    ValPrefix(w, n);
    ValBound(w[..n]);
  }

  /** What EstimateDigit returns for a window: never above the quotient, and
      at most two below it. */
  lemma EstimateWithinTwo(w: seq<Digit>, d: seq<Digit>, est: int)
    requires 0 < |d| && |w| == |d| + 1 && BASE / 2 <= d[|d| - 1]
    requires Val(w) < Val(d) * BASE
    requires est == Estimate(d[|d| - 1], w[|d| - 1], w[|d|])
    ensures 0 <= est < BASE && w[|d|] <= d[|d| - 1]
    ensures est * Val(d) <= Val(w) < (est + 3) * Val(d)
  {
    hide Val, Weight;
    var n := |d|;
    var s: int, t0: int, t1: int := d[n - 1], w[n - 1], w[n];
    var pair := t0 + t1 * BASE;
    WindowTop(w, n);
    DivisorTop(d);
    TopDigitBound(Val(w), Val(d), pair, t0, t1, s, Weight(n - 1));
    DivUpper(pair, BASE, s + 1);
    DivLower(pair, 0, s + 1);
    EstimateBelow(Val(w), Val(d), pair, s, Weight(n - 1), est);
    EstimateClose(Val(w), Val(d), pair, s, Weight(n - 1), est);
  }

  /** The estimate for the window of n+1 digits from i. */
  method WindowEstimate(cc: array<Digit>, i: nat, dd: array<Digit>, n: nat) returns (ai: Digit)
    requires 0 < n <= dd.Length && i + n < cc.Length && BASE / 2 <= dd[n - 1]
    requires Val(cc[i..i + n + 1]) < Val(dd[..n]) * BASE
    ensures ai == Estimate(dd[n - 1], cc[i + n - 1], cc[i + n])
    ensures ai * Val(dd[..n]) <= Val(cc[i..i + n + 1]) < (ai + 3) * Val(dd[..n])
  {
    hide Val, Weight, Estimate;
    ghost var win, ds := cc[i..i + n + 1], dd[..n];
    assert win[n - 1] == cc[i + n - 1] && win[n] == cc[i + n] && ds[n - 1] == dd[n - 1];
    EstimateWithinTwo(win, ds, Estimate(ds[n - 1], win[n - 1], win[n]));
    ai := EstimateDigit(dd[n - 1], cc[i + n - 1], cc[i + n]);
  }

  /** The first half of a round: the estimate times the divisor is taken from
      the window of n+1 digits from i. */
  method TakeEstimate(cc: array<Digit>, i: nat, dd: array<Digit>, n: nat) returns (ai: Digit)
    requires cc != dd && 0 < n <= dd.Length && i + n < cc.Length
    requires BASE / 2 <= dd[n - 1]
    requires Val(cc[i..i + n + 1]) < Val(dd[..n]) * BASE
    modifies cc
    ensures Corrected(old(Val(cc[i..i + n + 1])), Val(dd[..n]), ai, Val(cc[i..i + n]), cc[i + n], Weight(n))
    ensures old(Val(cc[i..i + n + 1])) < (ai + 3) * Val(dd[..n])
    ensures ai == Estimate(dd[n - 1], old(cc[i + n - 1]), old(cc[i + n]))
    ensures forall k :: 0 <= k < i || i + n < k < cc.Length ==> cc[k] == old(cc[k])
  {
    hide Val, Weight, Corrected, SubMultiple, Estimate;
    ghost var win, d, top: int := cc[i..i + n + 1], Val(dd[..n]), cc[i + n];
    WindowSplit(win, n);
    assert win[..n] == cc[i..i + n];
    ai := WindowEstimate(cc, i, dd, n);
    var borrow := SubDigitMult(cc, cc, ai, dd, n, i);
    ghost var low := cc[i..i + n];
    ValBound(low);
    AfterSubtract(Val(win), d, ai, Val(win[..n]), top, Weight(n), Val(low), borrow);
    cc[i + n] := Wrap(cc[i + n] - borrow);
    assert cc[i..i + n] == low && cc[i + n] as int == top - borrow;
  }

  /** One round of the division: the window of n+1 digits from i is divided by
      the divisor; est is the estimate before its corrections. */
  method DivideDigit(cc: array<Digit>, i: nat, dd: array<Digit>, n: nat) returns (ai: Digit, ghost est: int)
    requires cc != dd && 0 < n <= dd.Length && i + n < cc.Length
    requires BASE / 2 <= dd[n - 1]
    requires Val(cc[i..i + n + 1]) < Val(dd[..n]) * BASE
    modifies cc
    ensures DividesInto(old(Val(cc[i..i + n + 1])), Val(dd[..n]), ai, Val(cc[i..i + n]))
    ensures cc[i + n] == 0
    ensures est == Estimate(dd[n - 1], old(cc[i + n - 1]), old(cc[i + n]))
    ensures est <= ai <= est + 2
    ensures forall k :: 0 <= k < i || i + n < k < cc.Length ==> cc[k] == old(cc[k])
  {
    hide Val, Weight, Corrected, DividesInto, Estimate;
    ghost var r, d := Val(cc[i..i + n + 1]), Val(dd[..n]);
    PositiveDivisor(r, d);
    var guess := TakeEstimate(cc, i, dd, n);
    est := guess;
    ai := CorrectDigit(cc, i, dd, n, guess, r, est);
    FinishedDigit(r, d, ai, Val(cc[i..i + n]), Weight(n));
  }

  lemma PositiveDivisor(r: int, d: int)
    requires 0 <= r < d * BASE
    ensures 0 < d
  {
  }

  /** One correction: the divisor is taken from the window once more. */
  method CorrectOnce(cc: array<Digit>, i: nat, dd: array<Digit>, n: nat, guess: Digit, ghost r: int, ghost est: int)
    returns (ai: Digit)
    requires cc != dd && 0 < n <= dd.Length && i + n < cc.Length
    requires 0 < Val(dd[..n]) && 0 <= r < Val(dd[..n]) * BASE && r < (est + 3) * Val(dd[..n])
    requires Corrected(r, Val(dd[..n]), guess, Val(cc[i..i + n]), cc[i + n], Weight(n))
    requires cc[i + n] != 0 || Val(dd[..n]) <= Val(cc[i..i + n])
    modifies cc
    ensures ai == guess + 1 && ai <= est + 2
    ensures Corrected(r, Val(dd[..n]), ai, Val(cc[i..i + n]), cc[i + n], Weight(n))
    ensures forall k :: 0 <= k < i || i + n < k < cc.Length ==> cc[k] == old(cc[k])
  {
    hide Val, Weight, Corrected;
    ghost var d, low, top: int := Val(dd[..n]), Val(cc[i..i + n]), cc[i + n];
    ValBound(dd[..n]);
    var borrow := Sub(cc, cc, dd, n, i);
    ValBound(cc[i..i + n]);
    assert cc[i + n] == cc[i + n..][0];
    ghost var window, next: int := cc[i..i + n], guess as int + 1;
    AfterCorrection(r, d, guess, low, top, Weight(n), Val(window), borrow);
    NextDigitFits(r, d, guess, est);
    ai := guess + 1;
    cc[i + n] := Wrap(cc[i + n] - borrow);
    assert cc[i..i + n] == window && cc[i + n] as int == top - borrow && ai as int == next;
    assert Corrected(r, d, next, Val(window), top - borrow, Weight(n));
  }

  /** The corrections of one quotient digit. */
  method CorrectDigit(cc: array<Digit>, i: nat, dd: array<Digit>, n: nat, guess: Digit, ghost r: int, ghost est: int)
    returns (ai: Digit)
    requires cc != dd && 0 < n <= dd.Length && i + n < cc.Length
    requires 0 < Val(dd[..n]) && 0 <= r < Val(dd[..n]) * BASE && r < (est + 3) * Val(dd[..n])
    requires Corrected(r, Val(dd[..n]), guess, Val(cc[i..i + n]), cc[i + n], Weight(n)) && est == guess
    modifies cc
    ensures Corrected(r, Val(dd[..n]), ai, Val(cc[i..i + n]), 0, Weight(n)) && cc[i + n] == 0
    ensures Val(cc[i..i + n]) < Val(dd[..n])
    ensures est <= ai <= est + 2
    ensures forall k :: 0 <= k < i || i + n < k < cc.Length ==> cc[k] == old(cc[k])
  {
    hide Val, Weight, Corrected;
    ghost var d := Val(dd[..n]);
    ai := guess;
    var sign := Cmp(cc, dd, n, i);
    while cc[i + n] != 0 || sign >= 0
      invariant Val(dd[..n]) == d
      invariant est <= ai <= est + 2
      invariant sign == Sign(Val(cc[i..i + n]) - d)
      invariant Corrected(r, d, ai, Val(cc[i..i + n]), cc[i + n], Weight(n))
      invariant forall k :: 0 <= k < i || i + n < k < cc.Length ==> cc[k] == old(cc[k])
      decreases est + 2 - ai
    {
      ai := CorrectOnce(cc, i, dd, n, ai, r, est);
      sign := Cmp(cc, dd, n, i);
    }
  }

  lemma NextDigitFits(r: int, d: int, ai: int, est: int)
    requires 0 < d && ai * d + d <= r < d * BASE && r < (est + 3) * d
    ensures ai + 1 < BASE && ai + 1 <= est + 2
  {
    assert (ai + 1) * d == ai * d + d;
    MulCancelOrder(ai + 1, BASE, d);
    MulCancelOrder(ai + 1, est + 3, d);
  }

  // ---------- the whole division ----------

  /** The quotient digits found so far and the remainder that is left. */
  ghost predicate Partial(q: int, d: int, rem: int, v: int) {
    q * d + rem == v && 0 <= rem < d
  }

  lemma PartialWindow(q: int, d: int, rem: int, v: int, c: Digit)
    requires Partial(q, d, rem, v)
    ensures 0 <= c + BASE * rem < d * BASE
  {
  }

  lemma PartialStep(q: int, d: int, rem: int, v: int, c: Digit, ai: int, rem': int)
    requires Partial(q, d, rem, v) && DividesInto(c + BASE * rem, d, ai, rem')
    ensures Partial(ai + BASE * q, d, rem', c + BASE * v)
  {
    assert (ai + BASE * q) * d == ai * d + BASE * (q * d);
    assert c + BASE * rem == ai * d + rem';
  }

  lemma PartialStart(d: int, v: int)
    requires 0 <= v < d
    ensures Partial(0, d, v, v)
  {
    assert 0 * d == 0;
  }

  /** One round: the digit i of the quotient, with v the value of the dividend
      above the digit i. */
  method DivideRound(a: array<Digit>, cc: array<Digit>, i: nat, dd: array<Digit>, n: nat, m: nat, ghost v: int)
    requires a != cc && a != dd && cc != dd
    requires 0 < n <= dd.Length && i + n < cc.Length && i < m <= a.Length
    requires BASE / 2 <= dd[n - 1]
    requires Partial(Val(a[i + 1..m]), Val(dd[..n]), Val(cc[i + 1..i + 1 + n]), v)
    modifies a, cc
    ensures Partial(Val(a[i..m]), Val(dd[..n]), Val(cc[i..i + n]), old(cc[i]) + BASE * v)
    ensures forall k :: 0 <= k < i ==> cc[k] == old(cc[k])
    ensures a[m..] == old(a[m..])
  {
    hide Val, Weight, Partial, DividesInto;
    ghost var q, rem, c, d := a[i + 1..m], cc[i + 1..i + 1 + n], cc[i], Val(dd[..n]);
    assert cc[i..i + n + 1] == [c] + rem;
    ValCons(c, rem);
    PartialWindow(Val(q), d, Val(rem), v, c);
    var ai, est := DivideDigit(cc, i, dd, n);
    PartialStep(Val(q), d, Val(rem), v, c, ai, Val(cc[i..i + n]));
    a[i] := ai;
    assert a[i..m] == [ai] + q;
    ValCons(ai, q);
  }

  lemma ValSuffix(s: seq<Digit>, j: nat)
    requires j < |s|
    ensures Val(s[j..]) == s[j] + BASE * Val(s[j + 1..])
  {
    hide Val;
    assert s[j..] == [s[j]] + s[j + 1..];
    ValCons(s[j], s[j + 1..]);
  }

  /** The loop over the quotient digits, from the most significant one. */
  method DivideDigits(a: array<Digit>, cc: array<Digit>, cDigits: nat, dd: array<Digit>, n: nat)
    requires a != cc && a != dd && cc != dd
    requires 0 < n <= cDigits && n <= dd.Length && cDigits < cc.Length && cDigits <= a.Length
    requires BASE / 2 <= dd[n - 1]
    requires Val(cc[cDigits - n + 1..cDigits + 1]) < Val(dd[..n])
    modifies a, cc
    ensures Partial(Val(a[..cDigits - n + 1]), Val(dd[..n]), Val(cc[..n]), old(Val(cc[..cDigits + 1])))
    ensures a[cDigits - n + 1..] == old(a[cDigits - n + 1..])
  {
    hide Val, Weight, Partial;
    ghost var cs, d := cc[..cDigits + 1], Val(dd[..n]);
    var m := cDigits - n + 1;
    assert a[m..m] == [] && cs[m..] == cc[m..m + n];
    ValEmpty();
    PartialStart(d, Val(cs[m..]));
    var j := m;
    ghost var v: int := Val(cs[m..]);
    while j > 0
      invariant j <= m && v == Val(cs[j..])
      invariant forall k :: 0 <= k < j ==> cc[k] == cs[k]
      invariant a[m..] == old(a[m..])
      invariant Partial(Val(a[j..m]), d, Val(cc[j..j + n]), v)
    {
      ValSuffix(cs, j - 1);
      DivideRound(a, cc, j - 1, dd, n, m, v);
      j, v := j - 1, cs[j - 1] + BASE * v;
    }
    assert a[0..m] == a[..m] && cc[0..n] == cc[..n] && cs[0..] == cs;
  }

  /** A top digit of b bits is brought to the full width by the shift. */
  lemma ShiftBits(top: Digit, b: nat)
    requires 0 < b <= DIGIT_BITS && Pow(2, b - 1) <= top < Pow(2, b)
    ensures 0 < Pow(2, 32 - b)
    ensures BASE / 2 <= top * Pow(2, 32 - b) && (top + 1) * Pow(2, 32 - b) <= BASE
    ensures Pow(2, 32 - b) <= BASE / 2
  {
    var sh := 32 - b;
    PowPositive(2, sh);
    PowAdd(2, b, sh);
    PowAdd(2, b - 1, sh);
    PowAdd(2, 31, 1);
    BaseIsPow2();
    PowMono(2, sh, 31);
    assert Pow(2, 1) == 2;
    MulMono(Pow(2, b - 1), top, Pow(2, sh));
    MulMono(top + 1, Pow(2, b), Pow(2, sh));
  }

  /** The shifted divisor fills its n digits exactly. */
  lemma NormalisedDivisor(d: seq<Digit>, b: nat, e: seq<Digit>, carry: int)
    requires 0 < |d| == |e| && 0 < b <= DIGIT_BITS && Pow(2, b - 1) <= d[|d| - 1] < Pow(2, b)
    requires Val(e) + carry * Weight(|d|) == Val(d) * Pow(2, 32 - b) && 0 <= carry
    ensures carry == 0 && BASE / 2 <= e[|d| - 1]
    ensures 0 < Val(d)
  {
    hide Val, Weight;
    var n, m := |d| - 1, Pow(2, 32 - b);
    ShiftBits(d[n], b);
    DivisorTop(d);
    DivisorTop(e);
    WeightSucc(n);
    NormaliseBounds(Val(d), d[n], m, Weight(n), Val(e), e[n], carry);
    PositiveBelow(Val(d), Weight(n), d[n]);
  }

  lemma PositiveBelow(v: int, w: int, top: int)
    requires 0 < w && top * w <= v && 0 < top
    ensures 0 < v
  {
    MulPositive(top, w);
  }

  lemma NormaliseBounds(v: int, top: int, m: int, w: int, ve: int, etop: int, carry: int)
    requires 0 < w && 0 < m && top * w <= v < (top + 1) * w
    requires BASE / 2 <= top * m && (top + 1) * m <= BASE
    requires 0 <= ve && etop * w <= ve < (etop + 1) * w && 0 <= carry
    requires ve + carry * (BASE * w) == v * m
    ensures carry == 0 && BASE / 2 <= etop
  {
    var h := BASE / 2;
    MulMonoStrict(v, (top + 1) * w, m);
    assert ((top + 1) * w) * m == ((top + 1) * m) * w;
    MulMono((top + 1) * m, BASE, w);
    if carry != 0 {
      MulMono(1, carry, BASE * w);
    }
    MulMono(top * w, v, m);
    assert (top * w) * m == (top * m) * w;
    MulMono(h, top * m, w);
    MulCancelOrder(h, etop + 1, w);
  }

  /** Dividing by 2^shift at the end undoes the shift of both numbers. */
  lemma UndoShift(q: int, d: int, m: int, rem: int, c: int)
    requires 0 < m && 0 < d && Partial(q, d * m, rem, c * m) && 0 <= q
    ensures q == c / d && rem / m == c % d
  {
    var k := c - q * d;
    assert q * (d * m) == (q * d) * m;
    assert k * m == c * m - (q * d) * m;
    DivModUnique(rem, k, 0, m);
    MulCancelOrder(k, d, m);
    MulCancelOrder(-1, k, m);
    DivModUnique(c, q, k, d);
  }

  /** The top digits of the shifted dividend are below the divisor. */
  lemma TopBelowDivisor(top: seq<Digit>, d: seq<Digit>)
    requires 0 < |top| == |d| && top[|d| - 1] < d[|d| - 1]
    ensures Val(top) < Val(d)
  {
    hide Val, Weight;
    var n := |d| - 1;
    DivisorTop(top);
    DivisorTop(d);
    MulMono(top[n] + 1, d[n], Weight(n));
  }

  /** The quotient digits above m are zero. */
  lemma ShortQuotient(a: seq<Digit>, m: nat)
    requires m <= |a| && forall k :: m <= k < |a| ==> a[k] == 0
    ensures Val(a) == Val(a[..m])
  {
    ValZerosAbove(a, m);
  }

  /** The division with at least as many digits as the divisor has. */
  method DivideLong(a: array<Digit>, cc: array<Digit>, cDigits: nat, dd: array<Digit>, n: nat)
    requires a != cc && a != dd && cc != dd
    requires 0 < n <= cDigits && n <= dd.Length && cDigits < cc.Length && cDigits <= a.Length
    requires BASE / 2 <= dd[n - 1] && cc[cDigits] < BASE / 2
    requires forall k :: 0 <= k < cDigits ==> a[k] == 0
    modifies a, cc
    ensures Partial(Val(a[..cDigits]), Val(dd[..n]), Val(cc[..n]), old(Val(cc[..cDigits + 1])))
    ensures a[cDigits..] == old(a[cDigits..])
  {
    hide Val, Weight, Partial;
    var m := cDigits - n + 1;
    ghost var above := a[m..];
    TopBelowDivisor(cc[m..cDigits + 1], dd[..n]);
    DivideDigits(a, cc, cDigits, dd, n);
    AboveKept(a[..], above, m, cDigits);
    ShortQuotient(a[..cDigits], m);
    assert a[..cDigits][..m] == a[..m];
  }

  /** What lies above the digits that were written is the same. */
  lemma AboveKept(a: seq<Digit>, above: seq<Digit>, m: nat, n: nat)
    requires m <= |a| && m <= n + 1 && n <= |a| && a[m..] == above && (forall k :: 0 <= k < n - m ==> above[k] == 0)
    ensures forall k :: m <= k < n ==> a[..n][k] == 0
    ensures m <= n ==> a[n..] == above[n - m..]
  {
    forall k | m <= k < n
      ensures a[..n][k] == 0
    {
      assert a[k] == a[m..][k - m];
    }
  }

  /** The division of a number that is shorter than the divisor. */
  lemma DividedShort(cc: seq<Digit>, cDigits: nat, d: seq<Digit>, n: nat)
    requires cDigits < n == |d| <= |cc| && BASE / 2 <= d[n - 1] && cc[cDigits] < BASE / 2
    requires forall k :: cDigits < k < n ==> cc[k] == 0
    ensures Partial(0, Val(d), Val(cc[..n]), Val(cc[..cDigits + 1]))
  {
    hide Val, Weight, Partial;
    ShortQuotient(cc[..n], cDigits + 1);
    assert cc[..n][..cDigits + 1] == cc[..cDigits + 1];
    TopBelowDivisor(cc[..n], d);
    PartialStart(Val(d), Val(cc[..n]));
  }

  /** The division on shifted copies: cc holds the dividend, dd the divisor. */
  method DivideShifted(a: array<Digit>, cc: array<Digit>, cDigits: nat, dd: array<Digit>, n: nat)
    requires a != cc && a != dd && cc != dd
    requires 0 < n <= dd.Length && cDigits < cc.Length && n <= cc.Length && cDigits <= a.Length
    requires BASE / 2 <= dd[n - 1] && cc[cDigits] < BASE / 2
    requires forall k :: cDigits < k < n ==> cc[k] == 0
    modifies a, cc
    ensures Partial(Val(a[..cDigits]), Val(dd[..n]), Val(cc[..n]), old(Val(cc[..cDigits + 1])))
    ensures a[cDigits..] == old(a[cDigits..])
  {
    hide Val, Weight, Partial;
    AssignZero(a, cDigits);
    if n <= cDigits {
      DivideLong(a, cc, cDigits, dd, n);
    } else {
      DividedShort(cc[..], cDigits, dd[..n], n);
      assert cc[..][..n] == cc[..n] && cc[..][..cDigits + 1] == cc[..cDigits + 1];
    }
  }

  /** Shifted copies of the dividend c and of the n significant digits of the
      divisor d, both times 2^shift. */
  method Normalise(c: array<Digit>, cDigits: nat, d: array<Digit>, n: nat)
    returns (cc: array<Digit>, dd: array<Digit>, shift: nat)
    requires cDigits <= c.Length && 0 < n <= d.Length && d[n - 1] != 0
    ensures fresh(cc) && fresh(dd) && cc != dd
    ensures cc.Length == cDigits + n + 1 && dd.Length == n && shift < DIGIT_BITS
    ensures Val(cc[..cDigits + 1]) == Val(c[..cDigits]) * Pow(2, shift)
    ensures Val(dd[..n]) == Val(d[..n]) * Pow(2, shift)
    ensures BASE / 2 <= dd[n - 1] && cc[cDigits] < BASE / 2
    ensures forall k :: cDigits < k < n ==> cc[k] == 0
  {
    hide Val, Weight, Pow;
    var bits := DigitBits(d[n - 1]);
    shift := DIGIT_BITS - bits;
    cc, dd := new Digit[cDigits + n + 1], new Digit[n];
    AssignZero(cc, n);
    var carry := LShift(cc, c, shift, cDigits);
    cc[cDigits] := carry;
    assert cc[..cDigits + 1] == cc[..cDigits] + [carry];
    ValSnoc(cc[..cDigits], carry);
    var ddCarry := LShift(dd, d, shift, n);
    NormalisedDivisor(d[..n], bits, dd[..n], ddCarry);
    ShiftBits(d[n - 1], bits);
  }

  /** a := c div d and b := c mod d.  Copies of c and d are shifted first, so
      the outputs may be any of the inputs; nothing happens for d = 0. */
  method Div(a: array<Digit>, b: array<Digit>, c: array<Digit>, cDigits: nat, d: array<Digit>, dDigits: nat)
    requires a != b && cDigits <= a.Length && cDigits <= c.Length && dDigits <= b.Length && dDigits <= d.Length
    modifies a, b
    ensures old(Val(d[..dDigits])) != 0 ==>
              Val(a[..cDigits]) == old(Val(c[..cDigits])) / old(Val(d[..dDigits]))
    ensures old(Val(d[..dDigits])) != 0 ==>
              Val(b[..dDigits]) == old(Val(c[..cDigits])) % old(Val(d[..dDigits]))
    ensures old(Val(d[..dDigits])) == 0 ==> a[..] == old(a[..]) && b[..] == old(b[..])
    ensures a[cDigits..] == old(a[cDigits..]) && b[dDigits..] == old(b[dDigits..])
  {
    hide Val, Weight, Pow, Partial;
    var n := Digits(d, dDigits);
    if n == 0 {
      return;
    }
    ghost var cv, dv := Val(c[..cDigits]), Val(d[..dDigits]);
    var cc, dd, shift := Normalise(c, cDigits, d, n);
    PositivePow2(shift);
    DivideShifted(a, cc, cDigits, dd, n);
    UndoShift(Val(a[..cDigits]), dv, Pow(2, shift), Val(cc[..n]), cv);
    ShiftBack(b, dDigits, cc, shift, n);
  }

  /** The remainder is shifted back into b. */
  method ShiftBack(b: array<Digit>, dDigits: nat, cc: array<Digit>, shift: nat, n: nat)
    requires b != cc && n <= dDigits <= b.Length && n <= cc.Length && shift < DIGIT_BITS
    modifies b
    ensures 0 < Pow(2, shift) && Val(b[..dDigits]) == Val(cc[..n]) / Pow(2, shift)
    ensures b[dDigits..] == old(b[dDigits..])
  {
    hide Val, Weight, Pow;
    AssignZero(b, dDigits);
    ghost var zeros := b[..];
    var rest := RShift(b, cc, shift, n);
    SameAbove(b[..], zeros, n, dDigits);
    ShortQuotient(b[..dDigits], n);
    assert b[..dDigits][..n] == b[..n];
  }

  /** What is the same from n on is the same from m on. */
  lemma SameAbove(s: seq<Digit>, t: seq<Digit>, n: nat, m: nat)
    requires |s| == |t| && n <= m <= |s| && s[n..] == t[n..]
    ensures s[m..] == t[m..] && forall k :: n <= k < |s| ==> s[k] == t[k]
  {
    assert s[m..] == s[n..][m - n..] && t[m..] == t[n..][m - n..];
    forall k | n <= k < |s|
      ensures s[k] == t[k]
    {
      assert s[k] == s[n..][k - n] && t[k] == t[n..][k - n];
    }
  }

  lemma PositivePow2(n: nat)
    ensures 0 < Pow(2, n)
  {
    PowPositive(2, n);
  }
}
