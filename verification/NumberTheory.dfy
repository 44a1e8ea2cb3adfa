/** Divisibility, greatest common divisors, primes, Fermat's little theorem and
    the Chinese remainder theorem, on unbounded naturals. */
module NumberTheory {
  import opened Arith

  predicate Divides(d: int, n: int)
    requires d != 0
  {
    n % d == 0
  }

  lemma DividesMultiple(d: int, k: int)
    requires 0 < d
    ensures Divides(d, k * d) && Divides(d, d * k)
  {
    ModMultipleIsZero(k, d);
  }

  lemma DividesQuotient(d: int, n: int) returns (k: int)
    requires 0 < d && Divides(d, n)
    ensures n == k * d
  {
    k := n / d;
  }

  lemma DividesSum(d: int, a: int, b: int)
    requires 0 < d && Divides(d, a) && Divides(d, b)
    ensures Divides(d, a + b) && Divides(d, a - b)
  {
    var k := DividesQuotient(d, a);
    var l := DividesQuotient(d, b);
    assert a + b == (k + l) * d && a - b == (k - l) * d;
    DividesMultiple(d, k + l);
    DividesMultiple(d, k - l);
  }

  lemma DividesProduct(d: int, a: int, b: int)
    requires 0 < d && Divides(d, a)
    ensures Divides(d, a * b) && Divides(d, b * a)
  {
    var k := DividesQuotient(d, a);
    assert a * b == (k * b) * d;
    DividesMultiple(d, k * b);
  }

  lemma DividesCombination(d: int, a: int, k: int, b: int)
    requires 0 < d && Divides(d, a) && Divides(d, b)
    ensures Divides(d, a * k + b)
  {
    DividesProduct(d, a, k);
    DividesSum(d, a * k, b);
  }

  lemma DividesRemainder(d: int, a: int, b: int)
    requires 0 < d && 0 < b && Divides(d, a) && Divides(d, b)
    ensures Divides(d, a % b)
  {
    var q := a / b;
    DividesProduct(d, b, q);
    assert a % b == a - b * q;
    DividesSum(d, a, b * q);
  }

  lemma DividesBound(d: int, n: int)
    requires 0 < d && 0 < n && Divides(d, n)
    ensures d <= n
  {
    if n < d { ModSmall(n, d); }
  }

  lemma DividesOne(d: int)
    requires 0 < d && Divides(d, 1)
    ensures d == 1
  {
    DividesBound(d, 1);
  }

  // ---------- greatest common divisor ----------

  /** Euclid's recursion; the lemmas below show that it is the greatest common
      divisor in the order of divisibility. */
  ghost function Gcd(a: nat, b: nat): nat
    decreases b
  {
    if b == 0 then a else Gcd(b, a % b)
  }

  lemma {:induction false} GcdDivides(a: nat, b: nat)
    requires 0 < a || 0 < b
    ensures 0 < Gcd(a, b) && Divides(Gcd(a, b), a) && Divides(Gcd(a, b), b)
    decreases b
  {
    if b == 0 {
      DividesMultiple(a, 1);
      DividesMultiple(a, 0);
    } else {
      var r := a % b;
      GcdDivides(b, r);
      var g := Gcd(b, r);
      DividesCombination(g, b, a / b, r);
      assert a == b * (a / b) + r;
    }
  }

  lemma {:induction false} GcdGreatest(a: nat, b: nat, d: int)
    requires 0 < d && Divides(d, a) && Divides(d, b)
    ensures Divides(d, Gcd(a, b))
    decreases b
  {
    if b != 0 {
      DividesRemainder(d, a, b);
      GcdGreatest(b, a % b, d);
    }
  }

  lemma {:induction false} Bezout(a: nat, b: nat) returns (x: int, y: int)
    ensures a * x + b * y == Gcd(a, b)
    decreases b
  {
    if b == 0 {
      x, y := 1, 0;
    } else {
      var u, v := Bezout(b, a % b);
      x, y := v, u - (a / b) * v;
      BezoutStep(a, b, a / b, a % b, u, v);
    }
  }

  lemma BezoutStep(a: int, b: int, q: int, r: int, u: int, v: int)
    requires a == b * q + r
    ensures a * v + b * (u - q * v) == b * u + r * v
  {
    assert b * (u - q * v) == b * u - b * (q * v);
    assert b * (q * v) == (b * q) * v;
    assert a * v == (b * q) * v + r * v;
  }

  /** A representation of one makes two numbers coprime. */
  lemma CoprimeFromBezout(a: nat, b: nat, x: int, y: int)
    requires a * x + b * y == 1
    ensures Gcd(a, b) == 1
  {
    GcdDivides(a, b);
    var g := Gcd(a, b);
    DividesProduct(g, a, x);
    DividesProduct(g, b, y);
    DividesSum(g, a * x, b * y);
    DividesOne(g);
  }

  lemma GcdSymmetric(a: nat, b: nat)
    ensures Gcd(a, b) == Gcd(b, a)
  {
    if a == 0 && b == 0 {
    } else {
      var g, h := Gcd(a, b), Gcd(b, a);
      GcdDivides(a, b);
      GcdDivides(b, a);
      GcdGreatest(b, a, g);
      GcdGreatest(a, b, h);
      DividesBound(g, h);
      DividesBound(h, g);
    }
  }

  lemma CoprimeSymmetric(a: nat, b: nat)
    requires Gcd(a, b) == 1
    ensures Gcd(b, a) == 1
  {
    var x, y := Bezout(a, b);
    CoprimeFromBezout(b, a, y, x);
  }

  lemma BezoutProduct(a: int, b: int, c: int, x: int, y: int, u: int, v: int)
    requires a * x + c * y == 1 && b * u + c * v == 1
    ensures (a * b) * (x * u) + c * (y + (a * x) * v) == 1
  {
    var s, t := a * x, b * u;
    assert (a * b) * (x * u) == s * t;
    assert s * t == s * (1 - c * v) == s - s * (c * v);
    assert c * (s * v) == s * (c * v);
    assert c * (y + s * v) == c * y + c * (s * v);
  }

  lemma CoprimeProduct(a: nat, b: nat, c: nat)
    requires Gcd(a, c) == 1 && Gcd(b, c) == 1
    ensures 0 <= a * b
    ensures Gcd(a * b, c) == 1
  {
    MulMono(0, a, b);
    var x, y := Bezout(a, c);
    var u, v := Bezout(b, c);
    BezoutProduct(a, b, c, x, y, u, v);
    CoprimeFromBezout(a * b, c, x * u, y + (a * x) * v);
  }

  lemma BezoutTimes(a: int, c: int, b: int, x: int, y: int, k: int)
    requires a * x + c * y == 1 && a * b == k * c
    ensures b == (k * x + y * b) * c
  {
    assert b == (a * x + c * y) * b == (a * x) * b + (c * y) * b;
    assert (a * x) * b == (a * b) * x == (k * c) * x == (k * x) * c;
    assert (c * y) * b == (y * b) * c;
  }

  /** A divisor of a*b that is coprime to a divides b. */
  lemma CoprimeDivides(c: nat, a: nat, b: int)
    requires 0 < c && Gcd(a, c) == 1 && Divides(c, a * b)
    ensures Divides(c, b)
  {
    var x, y := Bezout(a, c);
    var k := DividesQuotient(c, a * b);
    BezoutTimes(a, c, b, x, y, k);
    DividesMultiple(c, k * x + y * b);
  }

  // ---------- primes ----------

  ghost predicate IsPrime(p: int) {
    2 <= p && forall d :: 1 < d < p ==> !Divides(d, p)
  }

  lemma PrimeCoprime(p: nat, a: nat)
    requires IsPrime(p) && !Divides(p, a)
    ensures Gcd(a, p) == 1
  {
    GcdDivides(a, p);
    var g := Gcd(a, p);
    DividesBound(g, p);
  }

  lemma DistinctPrimesCoprime(p: nat, q: nat)
    requires IsPrime(p) && IsPrime(q) && p != q
    ensures Gcd(p, q) == 1
  {
    if Divides(q, p) {
      DividesBound(q, p);
      assert false;
    }
    PrimeCoprime(q, p);
  }

  lemma EuclidLemma(p: nat, a: nat, b: nat)
    requires IsPrime(p) && Divides(p, a * b)
    ensures Divides(p, a) || Divides(p, b)
  {
    if !Divides(p, a) {
      PrimeCoprime(p, a);
      CoprimeDivides(p, a, b);
    }
  }

  // ---------- Fermat's little theorem ----------

  function Choose(n: nat, k: nat): nat {
    if k == 0 then 1
    else if n == 0 then 0
    else Choose(n - 1, k - 1) + Choose(n - 1, k)
  }

  lemma {:induction false} ChooseAbove(n: nat, k: nat)
    requires n < k
    ensures Choose(n, k) == 0
  {
    if n != 0 {
      ChooseAbove(n - 1, k - 1);
      ChooseAbove(n - 1, k);
    }
  }

  lemma {:induction false} ChooseAll(n: nat)
    ensures Choose(n, n) == 1
  {
    if n != 0 {
      ChooseAll(n - 1);
      ChooseAbove(n - 1, n);
    }
  }

  lemma {:induction false} ChooseAbsorb(n: nat, k: nat)
    requires 0 < n && 0 < k
    ensures k * Choose(n, k) == n * Choose(n - 1, k - 1)
  {
    if n == 1 {
      if k == 1 {
        ChooseAll(1);
      } else {
        ChooseAbove(1, k);
        ChooseAbove(0, k - 1);
      }
    } else if k == 1 {
      ChooseAbsorb(n - 1, 1);
      assert Choose(n, 1) == Choose(n - 1, 0) + Choose(n - 1, 1);
    } else {
      ChooseAbsorb(n - 1, k);
      ChooseAbsorb(n - 1, k - 1);
      AbsorbStep(n, k, Choose(n - 1, k - 1), Choose(n - 1, k), Choose(n - 2, k - 2), Choose(n - 2, k - 1));
    }
  }

  lemma AbsorbStep(n: int, k: int, c: int, above: int, d: int, e: int)
    requires k * above == (n - 1) * e && (k - 1) * c == (n - 1) * d && c == d + e
    ensures k * (c + above) == n * c
  {
    assert k * (c + above) == (k - 1) * c + c + k * above;
    assert (n - 1) * (d + e) == (n - 1) * d + (n - 1) * e;
  }

  /** The first m terms of the expansion of (a+1)^n. */
  function BinomialSum(a: nat, n: nat, m: nat): int {
    if m == 0 then 0
    else BinomialSum(a, n, m - 1) + Choose(n, m - 1) * Pow(a, m - 1)
  }

  lemma {:induction false} BinomialStep(a: nat, n: nat, m: nat)
    ensures BinomialSum(a, n + 1, m + 1) == a * BinomialSum(a, n, m) + BinomialSum(a, n, m + 1)
  {
    if m == 0 {
      assert BinomialSum(a, n + 1, 1) == BinomialSum(a, n + 1, 0) + Choose(n + 1, 0) * Pow(a, 0) == 1;
      assert BinomialSum(a, n, 1) == BinomialSum(a, n, 0) + Choose(n, 0) * Pow(a, 0) == 1;
      assert a * BinomialSum(a, n, 0) == 0;
    } else {
      BinomialStep(a, n, m - 1);
      var x, y := Choose(n, m - 1), Choose(n, m);
      var w := Pow(a, m - 1);
      var s, t := BinomialSum(a, n, m - 1), BinomialSum(a, n, m);
      assert BinomialSum(a, n + 1, m + 1) == BinomialSum(a, n + 1, m) + (x + y) * (a * w);
      assert BinomialSum(a, n + 1, m) == a * s + t;
      assert t == s + x * w;
      assert BinomialSum(a, n, m + 1) == t + y * (a * w);
      BinomialTerm(a, x, y, w, s);
    }
  }

  lemma BinomialTerm(a: int, x: int, y: int, w: int, s: int)
    ensures a * s + (x + y) * (a * w) == a * (s + x * w) + y * (a * w)
  {
    assert (x + y) * (a * w) == x * (a * w) + y * (a * w);
    assert a * (s + x * w) == a * s + a * (x * w);
    assert x * (a * w) == a * (x * w);
  }

  lemma {:induction false} BinomialTheorem(a: nat, n: nat)
    ensures Pow(a + 1, n) == BinomialSum(a, n, n + 1)
  {
    if n == 0 {
      assert BinomialSum(a, 0, 1) == BinomialSum(a, 0, 0) + Choose(0, 0) * Pow(a, 0);
    } else {
      BinomialTheorem(a, n - 1);
      BinomialStep(a, n - 1, n);
      ChooseAbove(n - 1, n);
      var s := BinomialSum(a, n - 1, n);
      assert BinomialSum(a, n - 1, n + 1) == s + Choose(n - 1, n) * Pow(a, n) == s;
      assert (a + 1) * s == a * s + s;
    }
  }

  lemma PrimeDividesChoose(p: nat, k: nat)
    requires IsPrime(p) && 0 < k < p
    ensures Divides(p, Choose(p, k))
  {
    ChooseAbsorb(p, k);
    DividesMultiple(p, Choose(p - 1, k - 1));
    ModSmall(k, p);
    EuclidLemma(p, k, Choose(p, k));
  }

  lemma {:induction false} BinomialSumModPrime(a: nat, p: nat, m: nat)
    requires IsPrime(p) && 1 <= m <= p
    ensures BinomialSum(a, p, m) % p == 1
  {
    if m == 1 {
      assert BinomialSum(a, p, 1) == BinomialSum(a, p, 0) + Choose(p, 0) * Pow(a, 0) == 1;
      ModSmall(1, p);
    } else {
      BinomialSumModPrime(a, p, m - 1);
      PrimeDividesChoose(p, m - 1);
      var term := Choose(p, m - 1) * Pow(a, m - 1);
      DividesProduct(p, Choose(p, m - 1), Pow(a, m - 1));
      var s := BinomialSum(a, p, m - 1);
      ModAdd(s, term, p);
      assert (s + term) % p == (1 + 0) % p;
      ModSmall(1, p);
    }
  }

  lemma {:induction false} FermatPower(a: nat, p: nat)
    requires IsPrime(p)
    ensures Pow(a, p) % p == a % p
  {
    if a == 0 {
      assert Pow(0, p) == 0 * Pow(0, p - 1) == 0;
    } else {
      FermatPower(a - 1, p);
      BinomialTheorem(a - 1, p);
      BinomialSumModPrime(a - 1, p, p);
      ChooseAll(p);
      var s, w := BinomialSum(a - 1, p, p), Pow(a - 1, p);
      assert Pow(a, p) == s + 1 * w;
      ModSmall(1, p);
      CongAdd(s, 1, w, a - 1, p);
    }
  }

  /** Fermat's little theorem. */
  lemma Fermat(a: nat, p: nat)
    requires IsPrime(p) && !Divides(p, a)
    ensures Pow(a, p - 1) % p == 1
  {
    FermatPower(a, p);
    var w := Pow(a, p - 1);
    PowNonNegative(a, p - 1);
    var k := CongWitness(a * w, a, p);
    assert a * (w - 1) == k * p;
    DividesMultiple(p, k);
    PrimeCoprime(p, a);
    CoprimeDivides(p, a, w - 1);
    var l := DividesQuotient(p, w - 1);
    assert w == 1 + l * p;
    ModAddMultiple(1, l, p);
    ModSmall(1, p);
  }

  /** Raising to an exponent that is 1 modulo p-1 changes nothing modulo p,
      also for multiples of p. */
  lemma PowOneModPhi(a: nat, p: nat, k: nat)
    requires IsPrime(p)
    ensures 0 <= k * (p - 1)
    ensures Pow(a, 1 + k * (p - 1)) % p == a % p
  {
    MulMono(0, k, p - 1);
    var e := k * (p - 1);
    assert Pow(a, 1 + e) == a * Pow(a, e);
    if Divides(p, a) {
      DividesProduct(p, a, Pow(a, e));
    } else {
      Fermat(a, p);
      assert e == (p - 1) * k;
      PowPow(a, p - 1, k);
      ModSmall(1, p);
      PowCong(Pow(a, p - 1), 1, k, p);
      PowOne(k);
      CongMul(a, a, Pow(a, e), 1, p);
    }
  }

  // ---------- Chinese remainder ----------

  lemma ChineseRemainder(p: nat, q: nat, x: int, y: int)
    requires 0 < p && 0 < q && Gcd(p, q) == 1
    requires x % p == y % p && x % q == y % q
    ensures 0 < p * q && x % (p * q) == y % (p * q)
  {
    hide Gcd, Divides;
    MulPositive(p, q);
    var k := CongWitness(x, y, p);
    var l := CongWitness(x, y, q);
    DividesMultiple(q, l);
    assert p * k == l * q;
    CoprimeDivides(q, p, k);
    var m := DividesQuotient(q, k);
    CongMultiple(x, y, m, q, p);
  }

  lemma CongMultiple(x: int, y: int, m: int, q: int, p: int)
    requires 0 < p * q && x == y + (m * q) * p
    ensures x % (p * q) == y % (p * q)
  {
    assert (m * q) * p == m * (p * q);
    ModAddMultiple(y, m, p * q);
  }
}
