/** Euclid's algorithm on digit arrays: greatest common divisors, and inverses
    computed without negative numbers. */
module NNEuclid {
  import opened Arith
  import opened NumberTheory
  import opened Words
  import opened Value
  import opened NNBasic
  import opened NNMult
  import opened NNDiv
  import opened NNModular

  /** The loop of the inversion.  The coefficients conserve the modulus, and
      with the sign they express the remainders as multiples of b modulo c. */
  ghost predicate EuclidState(u1: nat, u3: nat, v1: nat, v3: nat, sign: int, b: nat, c: nat) {
    && 0 < c && (sign == 1 || sign == -1)
    && u1 * v3 + v1 * u3 == c
    && u1 <= c && v1 <= c
    && Divides(c, u1 * b - sign * u3) && Divides(c, v1 * b + sign * v3)
    && Gcd(u3, v3) == Gcd(b, c)
  }

  lemma EuclidStart(b: nat, c: nat)
    requires 0 < c
    ensures EuclidState(1, b, 0, c, 1, b, c)
  {
    ModSmall(0, c);
    ModMultipleIsZero(1, c);
  }

  lemma EuclidStep(u1: nat, u3: nat, v1: nat, v3: nat, sign: int, b: nat, c: nat)
    requires EuclidState(u1, u3, v1, v3, sign, b, c) && v3 != 0
    ensures 0 <= (u3 / v3) * v1 <= u1 + (u3 / v3) * v1 <= c && u3 % v3 < v3
    ensures EuclidState(v1, v3, u1 + (u3 / v3) * v1, u3 % v3, -sign, b, c)
  {
    hide EuclidState;
    QuotientStep(u3, v3);
    EuclidNext(u1, u3, v1, v3, sign, b, c, u3 / v3, u3 % v3);
  }

  lemma QuotientStep(u3: nat, v3: nat)
    requires v3 != 0
    ensures 0 <= u3 / v3 && 0 <= u3 % v3 < v3 && u3 == (u3 / v3) * v3 + u3 % v3
    ensures Gcd(u3, v3) == Gcd(v3, u3 % v3)
  {
    DivLower(u3, 0, v3);
  }

  /** The round with the quotient and the remainder as numbers. */
  lemma EuclidNext(u1: nat, u3: nat, v1: nat, v3: nat, sign: int, b: nat, c: nat, q: nat, r: nat)
    requires EuclidState(u1, u3, v1, v3, sign, b, c) && u3 == q * v3 + r && r < v3 && Gcd(u3, v3) == Gcd(v3, r)
    ensures 0 <= q * v1 <= u1 + q * v1 <= c
    ensures EuclidState(v1, v3, u1 + q * v1, r, -sign, b, c)
  {
    hide Gcd, Divides;
    Conserved(u1, u3, v1, v3, q, r);
    StepBounds(u1, v1, v3, q, r, c);
    NextCongruence(u1, u3, v1, v3, sign, b, c, q, r);
    SameCongruence(v1, v3, sign, b, c);
  }

  lemma StepBounds(u1: int, v1: int, v3: int, q: int, r: int, c: int)
    requires 0 <= u1 && 0 <= v1 && 0 < v3 && 0 <= q && 0 <= r
    requires v1 * r + (u1 + q * v1) * v3 == c
    ensures 0 <= q * v1 && u1 + q * v1 <= c
  {
    MulMono(0, q, v1);
    MulMono(0, v1, r);
    var t := u1 + q * v1;
    MulMono(1, v3, t);
    assert v3 * t == t * v3;
  }

  lemma Conserved(u1: int, u3: int, v1: int, v3: int, q: int, r: int)
    requires u3 == q * v3 + r
    ensures v1 * r + (u1 + q * v1) * v3 == u1 * v3 + v1 * u3
  {
    assert v1 * u3 == v1 * (q * v3) + v1 * r;
    assert (u1 + q * v1) * v3 == u1 * v3 + (q * v1) * v3;
    assert (q * v1) * v3 == v1 * (q * v3);
  }

  lemma NextCongruence(u1: int, u3: int, v1: int, v3: int, sign: int, b: int, c: int, q: int, r: int)
    requires 0 < c && u3 == q * v3 + r
    requires Divides(c, u1 * b - sign * u3) && Divides(c, v1 * b + sign * v3)
    ensures Divides(c, (u1 + q * v1) * b + (-sign) * r)
  {
    hide Divides;
    var e, f := u1 * b + q * (v1 * b) - sign * r, (u1 + q * v1) * b + (-sign) * r;
    NextTerms(u1, u3, v1, v3, sign, b, q, r, e, f);
    NextMultiple(u1 * b, v1 * b, sign * u3, sign * v3, sign * r, q, c, f);
  }

  lemma SameCongruence(v1: int, v3: int, sign: int, b: int, c: int)
    requires 0 < c && Divides(c, v1 * b + sign * v3)
    ensures Divides(c, v1 * b - (-sign) * v3)
  {
    hide Divides;
    NegatedTimes(sign, v3);
  }

  lemma NextTerms(u1: int, u3: int, v1: int, v3: int, sign: int, b: int, q: int, r: int, e: int, f: int)
    requires u3 == q * v3 + r
    requires e == u1 * b + q * (v1 * b) - sign * r && f == (u1 + q * v1) * b + (-sign) * r
    ensures e == f && sign * u3 == q * (sign * v3) + sign * r
  {
    TimesSum(sign, q, v3, r);
    SumTimes(u1, q, v1, b);
    NegatedTimes(sign, r);
  }

  lemma TimesSum(x: int, q: int, y: int, r: int)
    ensures x * (q * y + r) == q * (x * y) + x * r
  {
    assert x * (q * y) == q * (x * y);
  }

  lemma SumTimes(x: int, q: int, y: int, b: int)
    ensures (x + q * y) * b == x * b + q * (y * b)
  {
    assert (q * y) * b == q * (y * b);
  }

  lemma NegatedTimes(x: int, y: int)
    ensures (-x) * y == -(x * y)
  {
  }

  lemma NextMultiple(a: int, b: int, x: int, y: int, z: int, q: int, c: int, f: int)
    requires 0 < c && x == q * y + z && f == a + q * b - z && Divides(c, a - x) && Divides(c, b + y)
    ensures Divides(c, f)
  {
    hide Divides;
    DividesProduct(c, b + y, q);
    DividesSum(c, a - x, q * (b + y));
    assert q * (b + y) == q * b + q * y;
  }

  /** At the end the coefficient, or the modulus less it, is the inverse. */
  lemma EuclidInverse(u1: nat, u3: nat, v1: nat, sign: int, b: nat, c: nat)
    requires EuclidState(u1, u3, v1, 0, sign, b, c)
    ensures u1 <= c
    ensures var x := if sign < 0 then c - u1 else u1;
            GcdFactor(x, b, c) && (IsInverse(x, b, c) <==> Gcd(b, c) == 1)
  {
    hide IsInverse, EuclidState, Gcd;
    LastState(u1, u3, v1, sign, b, c);
    if sign < 0 {
      NegatedCongruence(u1, u3, b, c);
      InverseIff(c - u1, b, c);
    } else {
      LastCongruence(u1, u3, b, c);
      InverseIff(u1, b, c);
    }
  }

  lemma LastState(u1: nat, u3: nat, v1: nat, sign: int, b: nat, c: nat)
    requires EuclidState(u1, u3, v1, 0, sign, b, c)
    ensures 0 < c && u1 <= c && u3 == Gcd(b, c)
    ensures if sign < 0 then (u1 * b + u3) % c == 0 else (u1 * b - u3) % c == 0
  {
  }

  lemma LastCongruence(u1: int, u3: int, b: int, c: int)
    requires 0 < c && (u1 * b - u3) % c == 0
    ensures (u1 * b) % c == u3 % c
  {
    var k := DividesQuotient(c, u1 * b - u3);
    ModAddMultiple(u3, k, c);
  }

  lemma NegatedCongruence(u1: int, u3: int, b: int, c: int)
    requires 0 < c && (u1 * b + u3) % c == 0
    ensures ((c - u1) * b) % c == u3 % c
  {
    var k := DividesQuotient(c, u1 * b + u3);
    assert (c - u1) * b == c * b - u1 * b;
    assert (b - k) * c == b * c - k * c;
    ModAddMultiple(u3, b - k, c);
  }

  /** x times b is the greatest common divisor modulo c. */
  ghost predicate GcdFactor(x: int, b: nat, c: nat) {
    0 < c && 0 <= x <= c && (x * b) % c == Gcd(b, c) % c
  }

  /** Such a factor is an inverse exactly for coprime numbers. */
  lemma InverseIff(x: int, b: nat, c: nat)
    requires GcdFactor(x, b, c)
    ensures IsInverse(x, b, c) <==> Gcd(b, c) == 1
  {
    if Gcd(b, c) == 1 && 1 < c {
      InverseBelow(x, b, c);
    }
    if IsInverse(x, b, c) {
      var k := CongWitness(x * b, 1, c);
      assert b * x + c * (-k) == 1;
      CoprimeFromBezout(b, c, x, -k);
    }
  }

  /** x is the inverse of b modulo c; modulo 1 there is nothing to say. */
  ghost predicate IsInverse(x: int, b: int, c: int) {
    0 < c && 0 <= x <= c && (x * b) % c == 1 % c && (1 < c ==> 0 < x < c)
  }

  lemma InverseBelow(x: int, b: int, c: int)
    requires 1 < c && 0 <= x <= c && (x * b) % c == 1 % c
    ensures 0 < x < c
  {
    ModSmall(1, c);
    ModMultipleIsZero(b, c);
    ModSmall(0, c);
  }

  /** One round of the inversion. */
  method EuclidRound(u1: array<Digit>, u3: array<Digit>, v1: array<Digit>, v3: array<Digit>, digits: nat,
                     ghost sign: int, ghost b: nat, ghost c: nat)
    requires u1 != u3 && u1 != v1 && u1 != v3 && u3 != v1 && u3 != v3 && v1 != v3
    requires u1.Length == u3.Length == v1.Length == v3.Length == digits
    requires Val(v3[..digits]) != 0 && c < Weight(digits)
    requires EuclidState(Val(u1[..digits]), Val(u3[..digits]), Val(v1[..digits]), Val(v3[..digits]), sign, b, c)
    modifies u1, u3, v1, v3
    ensures EuclidState(Val(u1[..digits]), Val(u3[..digits]), Val(v1[..digits]), Val(v3[..digits]), -sign, b, c)
    ensures Val(v3[..digits]) < old(Val(v3[..digits]))
  {
    hide Val, Weight, EuclidState;
    EuclidStep(Val(u1[..digits]), Val(u3[..digits]), Val(v1[..digits]), Val(v3[..digits]), sign, b, c);
    var t1, t3 := NextPair(u1, u3, v1, v3, digits);
    Assign(u1, v1, digits);
    Assign(v1, t1, digits);
    Assign(u3, v3, digits);
    Assign(v3, t3, digits);
  }

  /** The new coefficient and the new remainder of a round, when they fit. */
  method NextPair(u1: array<Digit>, u3: array<Digit>, v1: array<Digit>, v3: array<Digit>, digits: nat)
    returns (t1: array<Digit>, t3: array<Digit>)
    requires u1.Length == u3.Length == v1.Length == v3.Length == digits
    requires Val(v3[..digits]) != 0
    requires 0 <= (Val(u3[..digits]) / Val(v3[..digits])) * Val(v1[..digits])
    requires Val(u1[..digits]) + (Val(u3[..digits]) / Val(v3[..digits])) * Val(v1[..digits]) < Weight(digits)
    ensures fresh(t1) && fresh(t3) && t1.Length == t3.Length == digits
    ensures Val(t1[..digits]) == Val(u1[..digits]) + (Val(u3[..digits]) / Val(v3[..digits])) * Val(v1[..digits])
    ensures Val(t3[..digits]) == Val(u3[..digits]) % Val(v3[..digits])
  {
    hide Val, Weight;
    var q, w := new Digit[digits], new Digit[2 * digits];
    t1, t3 := new Digit[digits], new Digit[digits];
    Div(q, t3, u3, digits, v3, digits);
    Mult(w, q, v1, digits);
    ValHighZeros(w[..2 * digits], digits);
    assert w[..2 * digits][..digits] == w[..digits];
    var carry := Add(t1, u1, w, digits);
    NoCarry(carry, Val(t1[..digits]), Val(u1[..digits]) + Val(w[..digits]), Weight(digits));
  }

  lemma NoCarry(carry: int, low: int, sum: int, w: int)
    requires 0 <= carry && 0 <= low && 0 < w && low + carry * w == sum < w
    ensures carry == 0 && low == sum
  {
    if carry != 0 { MulMono(1, carry, w); }
  }

  /** a := 1/b mod c when b and c are coprime.  Every remainder is reached and
      no addition carries whether they are or not. */
  method ModInv(a: array<Digit>, b: array<Digit>, c: array<Digit>, digits: nat)
    requires digits <= a.Length && digits <= b.Length && digits <= c.Length
    requires 0 < Val(c[..digits])
    modifies a
    ensures GcdFactor(Val(a[..digits]), old(Val(b[..digits])), old(Val(c[..digits])))
    ensures IsInverse(Val(a[..digits]), old(Val(b[..digits])), old(Val(c[..digits])))
            <==> Gcd(old(Val(b[..digits])), old(Val(c[..digits]))) == 1
    ensures a[digits..] == old(a[digits..])
  {
    hide Val, Weight, EuclidState, IsInverse, GcdFactor, Gcd;
    ghost var bv, cv := Val(b[..digits]), Val(c[..digits]);
    var u1, u1Sign := EuclidRounds(b, c, digits);
    assert c[..digits] == old(c[..digits]);
    Signed(a, c, u1, digits, u1Sign);
  }

  /** The loop of the inversion: the coefficient it ends with, and its sign. */
  method EuclidRounds(b: array<Digit>, c: array<Digit>, digits: nat) returns (u1: array<Digit>, u1Sign: int)
    requires digits <= b.Length && digits <= c.Length && 0 < Val(c[..digits])
    ensures fresh(u1) && u1.Length == digits && Val(u1[..digits]) <= Val(c[..digits])
    ensures var x := if u1Sign < 0 then Val(c[..digits]) - Val(u1[..digits]) else Val(u1[..digits]);
            && GcdFactor(x, Val(b[..digits]), Val(c[..digits]))
            && (IsInverse(x, Val(b[..digits]), Val(c[..digits])) <==> Gcd(Val(b[..digits]), Val(c[..digits])) == 1)
  {
    hide Val, Weight, EuclidState, IsInverse, GcdFactor, Gcd;
    ghost var bv, cv := Val(b[..digits]), Val(c[..digits]);
    ValBound(c[..digits]);
    var u3, v1, v3;
    u1, u3, v1, v3 := EuclidArrays(b, c, digits);
    u1Sign := 1;
    var done := Zero(v3, digits);
    while !done
      invariant done <==> Val(v3[..digits]) == 0
      invariant EuclidState(Val(u1[..digits]), Val(u3[..digits]), Val(v1[..digits]), Val(v3[..digits]), u1Sign, bv, cv)
      decreases Val(v3[..digits])
      modifies u1, u3, v1, v3
    {
      EuclidRound(u1, u3, v1, v3, digits, u1Sign, bv, cv);
      u1Sign := -u1Sign;
      done := Zero(v3, digits);
    }
    EuclidInverse(Val(u1[..digits]), Val(u3[..digits]), Val(v1[..digits]), u1Sign, bv, cv);
  }

  /** The four arrays at the start. */
  method EuclidArrays(b: array<Digit>, c: array<Digit>, digits: nat)
    returns (u1: array<Digit>, u3: array<Digit>, v1: array<Digit>, v3: array<Digit>)
    requires digits <= b.Length && digits <= c.Length && 0 < Val(c[..digits])
    ensures fresh(u1) && fresh(u3) && fresh(v1) && fresh(v3)
    ensures u1 != u3 && u1 != v1 && u1 != v3 && u3 != v1 && u3 != v3 && v1 != v3
    ensures u1.Length == u3.Length == v1.Length == v3.Length == digits
    ensures EuclidState(Val(u1[..digits]), Val(u3[..digits]), Val(v1[..digits]), Val(v3[..digits]), 1,
                        Val(b[..digits]), Val(c[..digits]))
  {
    hide Val, Weight, EuclidState;
    NonZeroLength(c[..digits]);
    u1, u3, v1, v3 := new Digit[digits], new Digit[digits], new Digit[digits], new Digit[digits];
    AssignDigit(u1, 1, digits);
    AssignZero(v1, digits);
    Assign(u3, b, digits);
    Assign(v3, c, digits);
    EuclidStart(Val(b[..digits]), Val(c[..digits]));
  }

  /** a := u1, or c - u1 when the sign is negative. */
  method Signed(a: array<Digit>, c: array<Digit>, u1: array<Digit>, digits: nat, u1Sign: int)
    requires digits <= a.Length && digits <= c.Length && digits <= u1.Length
    requires Val(u1[..digits]) <= Val(c[..digits])
    modifies a
    ensures Val(a[..digits])
            == if u1Sign < 0 then old(Val(c[..digits])) - old(Val(u1[..digits])) else old(Val(u1[..digits]))
    ensures a[digits..] == old(a[digits..])
  {
    hide Val, Weight;
    if u1Sign < 0 {
      ghost var uv, cv := Val(u1[..digits]), Val(c[..digits]);
      var borrow := Sub(a, c, u1, digits);
      ValBound(a[..digits]);
      NoBorrow(borrow, Val(a[..digits]), uv, cv, Weight(digits));
    } else {
      Assign(a, u1, digits);
    }
  }

  lemma NoBorrow(borrow: int, diff: int, x: int, y: int, w: int)
    requires 0 <= borrow && 0 <= diff < w && 0 <= x && diff + x == y + borrow * w && x <= y
    ensures borrow == 0 && diff == y - x
  {
    if borrow != 0 { MulMono(1, borrow, w); }
  }

  /** a := gcd(b, c), rotating three arrays. */
  method GcdOf(a: array<Digit>, b: array<Digit>, c: array<Digit>, digits: nat)
    requires digits <= a.Length && digits <= b.Length && digits <= c.Length
    modifies a
    ensures Val(a[..digits]) == Gcd(old(Val(b[..digits])), old(Val(c[..digits])))
    ensures a[digits..] == old(a[digits..])
  {
    hide Val, Gcd;
    ghost var bv, cv := Val(b[..digits]), Val(c[..digits]);
    var g0, g1, g2 := new Digit[digits], new Digit[digits], new Digit[digits];
    var t := [g0, g1, g2];
    Assign(t[0], c, digits);
    Assign(t[1], b, digits);
    GcdSymmetric(bv, cv);
    var i := 1;
    var done := Zero(t[1], digits);
    while !done
      invariant 0 <= i < 3
      invariant done <==> Val(t[i][..digits]) == 0
      invariant Gcd(Val(t[Previous(i)][..digits]), Val(t[i][..digits])) == Gcd(bv, cv)
      decreases Val(t[i][..digits])
      modifies g0, g1, g2
    {
      GcdStep(Val(t[Previous(i)][..digits]), Val(t[i][..digits]));
      Mod(t[Next(i)], t[Previous(i)], digits, t[i], digits);
      i := Next(i);
      done := Zero(t[i], digits);
    }
    GcdEnd(Val(t[Previous(i)][..digits]));
    Assign(a, t[Previous(i)], digits);
  }

  function Next(i: nat): nat {
    if i == 2 then 0 else i + 1
  }

  function Previous(i: nat): nat {
    if i == 0 then 2 else i - 1
  }

  lemma GcdStep(a: nat, b: nat)
    requires b != 0
    ensures Gcd(a, b) == Gcd(b, a % b) && a % b < b
  {
  }

  lemma GcdEnd(a: nat)
    ensures Gcd(a, 0) == a
  {
  }
}
