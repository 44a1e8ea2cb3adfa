/** The linear-time routines on natural numbers held in arrays of digits: copy,
    compare, add, subtract and shift.  An output array may be the same array as
    an input; `off` is the offset that the division passes as a pointer into
    the middle of an array. */
module NNBasic {
  import opened Arith
  import opened Words
  import opened Value

  method AssignZero(a: array<Digit>, digits: nat)
    requires digits <= a.Length
    modifies a
    ensures Val(a[..digits]) == 0
    ensures forall k :: 0 <= k < digits ==> a[k] == 0
    ensures a[digits..] == old(a[digits..])
  {
    var i := 0;
    while i < digits
      invariant i <= digits
      invariant forall k :: 0 <= k < i ==> a[k] == 0
      invariant a[digits..] == old(a[digits..])
    {
      a[i] := 0;
      i := i + 1;
    }
    ValZeros(a[..digits]);
  }

  method Assign(a: array<Digit>, b: array<Digit>, digits: nat)
    requires digits <= a.Length && digits <= b.Length
    modifies a
    ensures a[..digits] == old(b[..digits])
    ensures a[digits..] == old(a[digits..])
  {
    var i := 0;
    while i < digits
      invariant i <= digits
      invariant forall k :: 0 <= k < i ==> a[k] == old(b[k])
      invariant forall k :: i <= k < digits ==> b[k] == old(b[k])
      invariant a[digits..] == old(a[digits..])
    {
      a[i] := b[i];
      i := i + 1;
    }
  }

  /** The macro NN_ASSIGN_DIGIT. */
  method AssignDigit(a: array<Digit>, b: Digit, digits: nat)
    requires 0 < digits <= a.Length
    modifies a
    ensures Val(a[..digits]) == b
    ensures a[0] == b && forall k :: 0 < k < digits ==> a[k] == 0
    ensures a[digits..] == old(a[digits..])
  {
    AssignZero(a, digits);
    a[0] := b;
    ValZerosAbove(a[..digits], 1);
    assert a[..digits][..1] == [b];
    ValSingle(b);
  }

  /** a := 2^b, or 0 when 2^b does not fit. */
  method Assign2Exp(a: array<Digit>, b: nat, digits: nat)
    requires digits <= a.Length
    modifies a
    ensures Val(a[..digits]) == if b < digits * DIGIT_BITS then Pow(2, b) else 0
    ensures a[digits..] == old(a[digits..])
  {
    hide Val, Weight, Pow;
    AssignZero(a, digits);
    if b >= digits * DIGIT_BITS {
      return;
    }
    var i := b / DIGIT_BITS;
    BitInDigit(b % DIGIT_BITS);
    a[i] := Pow(2, b % DIGIT_BITS);
    OneDigitVal(a[..digits], i);
    WeightIsPow2(i);
    PowAdd(2, b % DIGIT_BITS, DIGIT_BITS * i);
  }

  /** The value of a string with a single digit that is not zero. */
  lemma OneDigitVal(s: seq<Digit>, i: nat)
    requires i < |s| && forall k :: 0 <= k < |s| && k != i ==> s[k] == 0
    ensures Val(s) == s[i] * Weight(i)
  {
    hide Val, Weight;
    ValZerosAbove(s, i + 1);
    ValPrefix(s, i);
    ValZeros(s[..i]);
  }

  lemma BitInDigit(c: nat)
    requires c < DIGIT_BITS
    ensures 0 < Pow(2, c) < BASE
  {
    PowPositive(2, c);
    PowMonoStrict(2, c, DIGIT_BITS);
    BaseIsPow2();
  }

  lemma BaseIsPow2()
    ensures Pow(2, 32) == BASE
  {
    assert Pow(2, 8) == 0x100;
    PowAdd(2, 8, 8);
    PowAdd(2, 16, 16);
  }

  lemma WeightIsPow2(n: nat)
    ensures Weight(n) == Pow(2, 32 * n)
  {
    BaseIsPow2();
    PowPow(2, 32, n);
  }

  method Zero(a: array<Digit>, digits: nat) returns (z: bool)
    requires digits <= a.Length
    ensures z <==> Val(a[..digits]) == 0
  {
    var i := 0;
    while i < digits
      invariant i <= digits
      invariant forall k :: 0 <= k < i ==> a[k] == 0
    {
      if a[i] != 0 {
        ValAtLeast(a[..digits], i);
        return false;
      }
      i := i + 1;
    }
    ValZeros(a[..digits]);
    return true;
  }

  function Sign(x: int): int {
    if x > 0 then 1 else if x < 0 then -1 else 0
  }

  /** Equal digits from the top down to a first difference decide the order. */
  lemma ValOrder(s: seq<Digit>, t: seq<Digit>, i: nat)
    requires i < |s| == |t| && s[i] < t[i] && s[i + 1..] == t[i + 1..]
    ensures Val(s) < Val(t)
  {
    ValSplit(s, i + 1);
    ValSplit(t, i + 1);
    ValPrefix(s, i);
    ValPrefix(t, i);
    ValBound(s[..i]);
    MulMonoStrict(s[i], t[i], Weight(i));
  }

  /** The sign of a - b; a starts at offset off. */
  method Cmp(a: array<Digit>, b: array<Digit>, digits: nat, off: nat := 0) returns (sign: int)
    requires off + digits <= a.Length && digits <= b.Length
    ensures sign == Sign(Val(a[off..off + digits]) - Val(b[..digits]))
  {
    ghost var s, t := a[off..off + digits], b[..digits];
    var i := digits;
    while i > 0
      invariant i <= digits
      invariant s[i..] == t[i..]
    {
      i := i - 1;
      if a[off + i] > b[i] {
        ValOrder(t, s, i);
        return 1;
      }
      if a[off + i] < b[i] {
        ValOrder(s, t, i);
        return -1;
      }
      assert s[i..] == [s[i]] + s[i + 1..] && t[i..] == [t[i]] + t[i + 1..];
    }
    assert s == t;
    return 0;
  }

  /** The number of digits up to the most significant nonzero one. */
  method Digits(a: array<Digit>, digits: nat) returns (n: nat)
    requires digits <= a.Length
    ensures n <= digits
    ensures Val(a[..n]) == Val(a[..digits]) < Weight(n)
    ensures n > 0 ==> a[n - 1] != 0 && Weight(n - 1) <= Val(a[..n])
    ensures n == 0 <==> Val(a[..digits]) == 0
    ensures forall k :: n <= k < digits ==> a[k] == 0
  {
    n := digits;
    while n > 0 && a[n - 1] == 0
      invariant n <= digits
      invariant forall k :: n <= k < digits ==> a[k] == 0
    {
      n := n - 1;
    }
    ValZerosAbove(a[..digits], n);
    assert a[..digits][..n] == a[..n];
    ValBound(a[..n]);
    if n > 0 {
      ValAtLeast(a[..n], n - 1);
    }
  }

  // ---------- addition and subtraction ----------

  lemma AddStep(va: int, vb: int, vc: int, w: int, carry: int, carry': int, d: int, b: int, c: int)
    requires va + carry * w == vb + vc && d + carry' * BASE == b + c + carry
    ensures (va + d * w) + carry' * (BASE * w) == (vb + b * w) + (vc + c * w)
  {
    assert (d + carry' * BASE) * w == (b + c + carry) * w;
    assert (b + c + carry) * w == b * w + c * w + carry * w;
    assert (d + carry' * BASE) * w == d * w + carry' * (BASE * w);
  }

  /** One column of an addition, with the test for a carry that the library
      uses: the digit and the next carry stand for the exact sum. */
  function AddDigit(b: Digit, c: Digit, carry: Digit): (r: (Digit, Digit))
    requires carry <= 1
    ensures r.0 + r.1 * BASE == b + c + carry && r.1 <= 1
  {
    var temp := Wrap(b + carry);
    if temp < carry then (c, carry)
    else
      var sum := Wrap(temp + c);
      (sum, if sum < c then 1 else 0)
  }

  /** One column of a subtraction: the exact difference is the digit less the
      next borrow. */
  function SubDigit(b: Digit, c: Digit, borrow: Digit): (r: (Digit, Digit))
    requires borrow <= 1
    ensures r.0 + c + borrow == b + r.1 * BASE && r.1 <= 1
  {
    var temp := Wrap(b - borrow);
    if temp == MAX_DIGIT then (MAX_DIGIT - c, borrow)
    else
      var diff := Wrap(temp - c);
      (diff, if diff > MAX_DIGIT - c then 1 else 0)
  }

  /** a := b + c, returning the carry. */
  method Add(a: array<Digit>, b: array<Digit>, c: array<Digit>, digits: nat) returns (carry: Digit)
    requires digits <= a.Length && digits <= b.Length && digits <= c.Length
    modifies a
    ensures carry <= 1
    ensures Val(a[..digits]) + carry * Weight(digits) == old(Val(b[..digits])) + old(Val(c[..digits]))
    ensures a[digits..] == old(a[digits..])
  {
    hide Val, Weight;
    ghost var bs, cs := b[..digits], c[..digits];
    assert bs[..0] == [] && cs[..0] == [] && a[..0] == [];
    ValEmpty();
    carry := 0;
    var i := 0;
    while i < digits
      invariant i <= digits && carry <= 1
      invariant forall k :: i <= k < digits ==> b[k] == bs[k] && c[k] == cs[k]
      invariant a[digits..] == old(a[digits..])
      invariant Val(a[..i]) + carry * Weight(i) == Val(bs[..i]) + Val(cs[..i])
    {
      ghost var was, carry0 := a[..i], carry;
      var (temp, next) := AddDigit(b[i], c[i], carry);
      a[i], carry := temp, next;
      assert a[..i + 1] == was + [temp];
      ValSnoc(was, temp);
      ValPrefix(bs, i);
      ValPrefix(cs, i);
      WeightSucc(i);
      AddStep(Val(was), Val(bs[..i]), Val(cs[..i]), Weight(i), carry0, carry, temp, bs[i], cs[i]);
      i := i + 1;
    }
    assert bs[..digits] == bs && cs[..digits] == cs;
  }

  /** a := b - c, returning the borrow; a and b start at offset off. */
  method Sub(a: array<Digit>, b: array<Digit>, c: array<Digit>, digits: nat, off: nat := 0)
    returns (borrow: Digit)
    requires off + digits <= a.Length && off + digits <= b.Length && digits <= c.Length
    requires c == a ==> off == 0
    modifies a
    ensures borrow <= 1
    ensures Val(a[off..off + digits]) + old(Val(c[..digits]))
            == old(Val(b[off..off + digits])) + borrow * Weight(digits)
    ensures a[..off] == old(a[..off]) && a[off + digits..] == old(a[off + digits..])
  {
    hide Val, Weight;
    ghost var bs, cs := b[off..off + digits], c[..digits];
    assert bs[..0] == [] && cs[..0] == [] && a[off..off] == [];
    ValEmpty();
    borrow := 0;
    var i := 0;
    while i < digits
      invariant i <= digits && borrow <= 1
      invariant forall k :: i <= k < digits ==> b[off + k] == bs[k] && c[k] == cs[k]
      invariant a[..off] == old(a[..off]) && a[off + digits..] == old(a[off + digits..])
      invariant Val(a[off..off + i]) + Val(cs[..i]) == Val(bs[..i]) + borrow * Weight(i)
    {
      ghost var was, borrow0 := a[off..off + i], borrow;
      var (temp, next) := SubDigit(b[off + i], c[i], borrow);
      a[off + i], borrow := temp, next;
      assert a[off..off + i + 1] == was + [temp];
      ValSnoc(was, temp);
      ValPrefix(bs, i);
      ValPrefix(cs, i);
      WeightSucc(i);
      AddStep(Val(bs[..i]), Val(was), Val(cs[..i]), Weight(i), borrow0, borrow, bs[i], temp, cs[i]);
      i := i + 1;
    }
    assert bs[..digits] == bs && cs[..digits] == cs;
  }

  // ---------- shifts ----------

  /** Shifting one digit: the bits that stay and the bits that leave. */
  lemma ShiftDigit(d: Digit, c: nat)
    requires c <= DIGIT_BITS
    ensures 0 < Pow(2, c) && 0 < Pow(2, 32 - c)
    ensures Pow(2, c) * Pow(2, 32 - c) == BASE
    ensures Wrap(d * Pow(2, c)) == (d % Pow(2, 32 - c)) * Pow(2, c)
    ensures d / Pow(2, 32 - c) < Pow(2, c)
    ensures Wrap(d * Pow(2, c)) + BASE * (d / Pow(2, 32 - c)) == d * Pow(2, c)
  {
    PowPositive(2, c);
    PowPositive(2, 32 - c);
    PowAdd(2, c, 32 - c);
    BaseIsPow2();
    ShiftParts(d, Pow(2, c), Pow(2, 32 - c));
  }

  lemma ShiftParts(d: Digit, m: int, h: int)
    requires 0 < m && 0 < h && m * h == BASE
    ensures Wrap(d * m) == (d % h) * m
    ensures d / h < m
    ensures Wrap(d * m) + BASE * (d / h) == d * m
  {
    var q, r := d / h, d % h;
    DivUpper(d, m, h);
    TopRoom(r, h, m, 0);
    ShiftSplit(d, q, r, m, h);
    DivModUnique(d * m, q, r * m, BASE);
  }

  lemma ShiftSplit(d: int, q: int, r: int, m: int, h: int)
    requires d == q * h + r && m * h == BASE
    ensures d * m == q * BASE + r * m
  {
    assert (q * h) * m == q * (m * h);
    assert d * m == (q * h) * m + r * m;
  }

  /** va and the carry above it are vb shifted left by c bits. */
  ghost predicate LShifted(va: int, vb: int, w: int, c: nat, carry: int) {
    va + carry * w == vb * Pow(2, c)
  }

  lemma LShiftStep(va: int, vb: int, n: nat, c: nat, carry: Digit, d: Digit)
    requires c < DIGIT_BITS && carry < Pow(2, c) && LShifted(va, vb, Weight(n), c, carry)
    ensures var r := LShiftDigit(d, c, carry);
            LShifted(va + r.0 * Weight(n), vb + d * Weight(n), Weight(n + 1), c, r.1)
  {
    var r := LShiftDigit(d, c, carry);
    WeightSucc(n);
    LShiftSum(va, vb, Weight(n), Pow(2, c), carry, r.1, r.0, d);
  }

  lemma LShiftSum(va: int, vb: int, w: int, m: int, carry: int, carry': int, d: int, b: int)
    requires va + carry * w == vb * m && d + BASE * carry' == b * m + carry
    ensures (va + d * w) + carry' * (BASE * w) == (vb + b * w) * m
  {
    assert (d + BASE * carry') * w == (b * m + carry) * w;
    assert (d + BASE * carry') * w == d * w + carry' * (BASE * w);
    assert (b * m + carry) * w == (b * w) * m + carry * w;
    assert (vb + b * w) * m == vb * m + (b * w) * m;
  }

  lemma LShiftedResult(va: int, vb: int, w: int, c: nat, carry: int)
    requires LShifted(va, vb, w, c, carry)
    ensures va + carry * w == vb * Pow(2, c)
  {
  }

  lemma DigitAboveBase(d: Digit)
    ensures 0 < Pow(2, 32) && d / Pow(2, 32) == 0
  {
    BaseIsPow2();
    ModSmall(d, BASE);
  }

  /** One column of a left shift: the new digit and the bits shifted out. */
  function LShiftDigit(d: Digit, c: nat, carry: Digit): (r: (Digit, Digit))
    requires c < DIGIT_BITS && carry < Pow(2, c)
    ensures r.0 + BASE * r.1 == d * Pow(2, c) + carry
    ensures r.1 < Pow(2, c)
  {
    DigitAboveBase(d);
    hide Pow;
    ShiftDigit(d, c);
    ModMultipleIsZero(d % Pow(2, 32 - c), Pow(2, c));
    OrDisjoint(Wrap(d * Pow(2, c)), carry, c);
    TopRoom(d % Pow(2, 32 - c), Pow(2, 32 - c), Pow(2, c), carry);
    (Or(Wrap(d * Pow(2, c)), carry), if c > 0 then d / Pow(2, 32 - c) else 0)
  }

  /** a := b * 2^c, returning the bits shifted out; nothing happens when c is
      a whole digit or more. */
  method LShift(a: array<Digit>, b: array<Digit>, c: nat, digits: nat) returns (carry: Digit)
    requires digits <= a.Length && digits <= b.Length
    modifies a
    ensures c < DIGIT_BITS ==> carry < Pow(2, c)
    ensures c < DIGIT_BITS ==>
              Val(a[..digits]) + carry * Weight(digits) == old(Val(b[..digits])) * Pow(2, c)
    ensures c >= DIGIT_BITS ==> carry == 0 && a[..] == old(a[..])
    ensures a[digits..] == old(a[digits..])
  {
    hide Val, Weight, Pow, LShifted;
    carry := 0;
    if c < DIGIT_BITS {
      ghost var vb := Val(b[..digits]);
      carry := LShiftDigits(a, b, c, digits);
      LShiftedResult(Val(a[..digits]), vb, Weight(digits), c, carry);
    }
  }

  lemma LShiftedStart(c: nat)
    requires c < DIGIT_BITS
    ensures 0 < Pow(2, c) && LShifted(Val([]), Val([]), Weight(0), c, 0)
  {
    BitInDigit(c);
    ValEmpty();
  }

  /** The loop over the digits, from the least significant one. */
  method LShiftDigits(a: array<Digit>, b: array<Digit>, c: nat, digits: nat) returns (carry: Digit)
    requires digits <= a.Length && digits <= b.Length && c < DIGIT_BITS
    modifies a
    ensures carry < Pow(2, c)
    ensures LShifted(Val(a[..digits]), old(Val(b[..digits])), Weight(digits), c, carry)
    ensures a[digits..] == old(a[digits..])
  {
    hide Val, Weight, Pow, LShifted, LShiftDigit;
    carry := 0;
    ghost var bs := b[..digits];
    LShiftedStart(c);
    assert bs[..0] == [] && a[..0] == [];
    var i := 0;
    while i < digits
      invariant i <= digits && carry < Pow(2, c)
      invariant forall k :: i <= k < digits ==> b[k] == bs[k]
      invariant a[digits..] == old(a[digits..])
      invariant LShifted(Val(a[..i]), Val(bs[..i]), Weight(i), c, carry)
    {
      ghost var was := a[..i];
      var temp := b[i];
      LShiftStep(Val(was), Val(bs[..i]), i, c, carry, temp);
      var (digit, next) := LShiftDigit(temp, c, carry);
      a[i], carry := digit, next;
      assert a[..i + 1] == was + [digit];
      ValSnoc(was, digit);
      ValPrefix(bs, i);
      i := i + 1;
    }
    assert bs[..digits] == bs;
  }

  /** A digit built from two parts that fit together is below the base. */
  lemma TopRoom(x: int, h: int, m: int, y: int)
    requires 0 <= x < h && 0 <= y < m && m * h == BASE
    ensures 0 <= x * m + y < BASE
  {
    MulMono(0, x, m);
    MulMonoStrict(x, h, m);
  }

  /** One digit in front of a number. */
  lemma ValCons(d: Digit, s: seq<Digit>)
    ensures Val([d] + s) == d + BASE * Val(s)
  {
    ValConcat([d], s);
    ValSingle(d);
    assert Weight(1) == BASE;
  }

  /** One column of a right shift; rem is what the column above left over. */
  function RShiftDigit(d: Digit, c: nat, carry: Digit, ghost rem: nat): (r: (Digit, Digit))
    requires c < DIGIT_BITS && rem < Pow(2, c) && carry == rem * Pow(2, 32 - c)
    ensures 0 < Pow(2, c) && r.0 == d / Pow(2, c) + carry
    ensures r.1 == (d % Pow(2, c)) * Pow(2, 32 - c)
  {
    hide Pow;
    ShiftDigit(d, c);
    ShiftDigit(d, 32 - c);
    ModMultipleIsZero(rem, Pow(2, 32 - c));
    OrDisjoint(carry, d / Pow(2, c), 32 - c);
    TopRoom(rem, Pow(2, c), Pow(2, 32 - c), d / Pow(2, c));
    ModZero(d, Pow(2, c), Pow(2, 32 - c), c);
    (Or(carry, d / Pow(2, c)), if c > 0 then Wrap(d * Pow(2, 32 - c)) else 0)
  }

  lemma ModZero(d: int, m: int, h: int, c: nat)
    requires m == Pow(2, c)
    ensures c == 0 ==> d % m * h == 0
  {
  }

  /** va is vb shifted right by c bits; rem is the rest and carry its digit. */
  ghost predicate RShifted(vb: int, va: int, rem: int, c: nat, carry: int)
    requires c < DIGIT_BITS
  {
    0 <= rem < Pow(2, c) && carry == rem * Pow(2, 32 - c) && vb == va * Pow(2, c) + rem
  }

  lemma RShiftStep(va: int, vb: int, rem: nat, c: nat, carry: Digit, d: Digit)
    requires c < DIGIT_BITS && RShifted(vb, va, rem, c, carry)
    ensures var r := RShiftDigit(d, c, carry, rem);
            0 < Pow(2, c) && RShifted(d + BASE * vb, r.0 + BASE * va, d % Pow(2, c), c, r.1)
  {
    hide Pow;
    var m, h := Pow(2, c), Pow(2, 32 - c);
    ShiftDigit(d, c);
    var r := RShiftDigit(d, c, carry, rem);
    RShiftSum(va, vb, m, h, rem, d);
    assert rem * h == carry;
  }

  lemma RShiftSum(va: int, vb: int, m: int, h: int, rem: int, d: int)
    requires vb == va * m + rem && m * h == BASE && 0 < m
    ensures d + BASE * vb == (d / m + rem * h + BASE * va) * m + d % m
  {
    assert d == (d / m) * m + d % m;
    assert (rem * h) * m == rem * (m * h) == BASE * rem;
    assert (d / m + rem * h + BASE * va) * m == (d / m) * m + (rem * h) * m + BASE * (va * m);
  }

  lemma RShiftedResult(vb: int, va: int, rem: int, c: nat, carry: int)
    requires c < DIGIT_BITS && RShifted(vb, va, rem, c, carry)
    ensures 0 < Pow(2, c) && va == vb / Pow(2, c)
    ensures carry == (vb % Pow(2, c)) * Pow(2, 32 - c)
  {
    PowPositive(2, c);
    DivModUnique(vb, va, rem, Pow(2, c));
  }

  /** a := b div 2^c, returning the bits shifted out at the top of a digit. */
  method RShift(a: array<Digit>, b: array<Digit>, c: nat, digits: nat) returns (carry: Digit)
    requires digits <= a.Length && digits <= b.Length
    modifies a
    ensures c < DIGIT_BITS ==>
              0 < Pow(2, c) && Val(a[..digits]) == old(Val(b[..digits])) / Pow(2, c)
    ensures c < DIGIT_BITS ==> carry == (old(Val(b[..digits])) % Pow(2, c)) * Pow(2, 32 - c)
    ensures c >= DIGIT_BITS ==> carry == 0 && a[..] == old(a[..])
    ensures a[digits..] == old(a[digits..])
  {
    hide Val, Weight, Pow, RShifted;
    carry := 0;
    if c < DIGIT_BITS {
      ghost var vb := Val(b[..digits]);
      ghost var rem;
      carry, rem := RShiftDigits(a, b, c, digits);
      RShiftedResult(vb, Val(a[..digits]), rem, c, carry);
    }
  }

  lemma RShiftedStart(c: nat)
    requires c < DIGIT_BITS
    ensures 0 < Pow(2, c) && RShifted(Val([]), Val([]), 0, c, 0)
  {
    BitInDigit(c);
    ValEmpty();
  }

  /** The loop over the digits, from the most significant one. */
  method RShiftDigits(a: array<Digit>, b: array<Digit>, c: nat, digits: nat) returns (carry: Digit, ghost rem: nat)
    requires digits <= a.Length && digits <= b.Length && c < DIGIT_BITS
    modifies a
    ensures RShifted(old(Val(b[..digits])), Val(a[..digits]), rem, c, carry)
    ensures a[digits..] == old(a[digits..])
  {
    hide Val, Weight, Pow, RShifted, RShiftDigit;
    carry, rem := 0, 0;
    ghost var bs := b[..digits];
    RShiftedStart(c);
    assert bs[digits..] == [] && a[digits..digits] == [];
    var i := digits;
    while i > 0
      invariant i <= digits
      invariant forall k :: 0 <= k < i ==> b[k] == bs[k]
      invariant a[digits..] == old(a[digits..])
      invariant RShifted(Val(bs[i..]), Val(a[i..digits]), rem, c, carry)
    {
      ghost var was := a[i..digits];
      i := i - 1;
      var temp := b[i];
      RShiftCarry(Val(bs[i + 1..]), Val(was), rem, c, carry);
      RShiftStep(Val(was), Val(bs[i + 1..]), rem, c, carry, temp);
      var (digit, next) := RShiftDigit(temp, c, carry, rem);
      a[i], carry := digit, next;
      rem := temp % Pow(2, c);
      assert a[i..digits] == [digit] + was;
      ValCons(digit, was);
      assert bs[i..] == [bs[i]] + bs[i + 1..];
      ValCons(bs[i], bs[i + 1..]);
    }
    assert bs[0..] == bs && a[0..digits] == a[..digits];
  }

  lemma RShiftCarry(vb: int, va: int, rem: nat, c: nat, carry: Digit)
    requires c < DIGIT_BITS && RShifted(vb, va, rem, c, carry)
    ensures rem < Pow(2, c) && carry == rem * Pow(2, 32 - c)
  {
  }

  /** The number of significant bits of a digit. */
  method DigitBits(a: Digit) returns (i: nat)
    ensures i <= DIGIT_BITS
    ensures a < Pow(2, i)
    ensures a > 0 ==> i > 0 && Pow(2, i - 1) <= a
    ensures a == 0 ==> i == 0
  {
    i := 0;
    var x := a;
    assert Pow(2, 0) == 1;
    while i < DIGIT_BITS && x != 0
      invariant i <= DIGIT_BITS
      invariant 0 < Pow(2, i) && x == a / Pow(2, i)
      invariant i > 0 ==> Pow(2, i - 1) <= a
      invariant a == 0 ==> i == 0
    {
      HalveQuotient(a, Pow(2, i));
      assert Pow(2, i + 1) == 2 * Pow(2, i);
      x := x / 2;
      i := i + 1;
    }
    if x != 0 {
      BaseIsPow2();
      ModSmall(a, BASE);
    }
    SmallQuotient(a, Pow(2, i));
  }

  lemma HalveQuotient(a: nat, m: int)
    requires 0 < m && a / m != 0
    ensures a / (2 * m) == (a / m) / 2
    ensures m <= a
  {
    var q, r := a / m, a % m;
    assert a == q * m + r;
    assert q == 2 * (q / 2) + q % 2;
    MulMono(q % 2, 1, m);
    MulMono(0, q % 2, m);
    assert a == (q / 2) * (2 * m) + ((q % 2) * m + r);
    DivModUnique(a, q / 2, (q % 2) * m + r, 2 * m);
    if a < m { ModSmall(a, m); }
  }

  lemma SmallQuotient(a: nat, m: int)
    requires 0 < m && a / m == 0
    ensures a < m
  {
  }
}
