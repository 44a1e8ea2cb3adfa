/** Integer facts that Z3 does not find by itself: products, division with
    remainder, congruences and powers.  Every lemma here takes plain integers,
    so that the proofs about digit arrays only have to name the instance. */
module Arith {

  // ---------- products ----------

  lemma MulMono(a: int, b: int, c: int)
    requires a <= b && 0 <= c
    ensures a * c <= b * c
  {
  }

  lemma MulMonoStrict(a: int, b: int, c: int)
    requires a < b && 0 < c
    ensures a * c < b * c
    ensures a * c + c <= b * c
  {
    assert (a + 1) * c <= b * c by { MulMono(a + 1, b, c); }
  }

  lemma MulPositive(a: int, b: int)
    requires 0 < a && 0 < b
    ensures 0 < a * b && a <= a * b && b <= a * b
  {
    MulMono(1, b, a);
    MulMono(1, a, b);
  }

  /** If a*c <= b*c then a <= b, and likewise for the strict order. */
  lemma MulCancelOrder(a: int, b: int, c: int)
    requires 0 < c
    ensures a * c < b * c ==> a < b
    ensures a * c <= b * c ==> a <= b
  {
    if b <= a { MulMono(b, a, c); }
    if b < a { MulMonoStrict(b, a, c); }
  }

  lemma MulPairs(a: int, b: int, x: int, y: int)
    ensures (a * b) * (x * y) == (a * x) * (b * y)
  {
    assert b * (x * y) == x * (b * y);
    assert (a * b) * (x * y) == a * (b * (x * y));
    assert (a * x) * (b * y) == a * (x * (b * y));
  }

  // ---------- division with remainder ----------

  lemma DivModUnique(x: int, q: int, r: int, m: int)
    requires 0 < m && 0 <= r < m && x == q * m + r
    ensures x / m == q && x % m == r
  {
    var q', r' := x / m, x % m;
    assert x == q' * m + r';
    assert (q - q') * m == r' - r;
    if q < q' {
      MulMonoStrict(q, q', m);
    } else if q' < q {
      MulMonoStrict(q', q, m);
    }
  }

  lemma ModAddMultiple(x: int, k: int, m: int)
    requires 0 < m
    ensures (x + k * m) % m == x % m
  {
    var q, r := x / m, x % m;
    assert x + k * m == (q + k) * m + r;
    DivModUnique(x + k * m, q + k, r, m);
  }

  lemma ModSmall(x: int, m: int)
    requires 0 <= x < m
    ensures x % m == x && x / m == 0
  {
    DivModUnique(x, 0, x, m);
  }

  lemma ModMultipleIsZero(k: int, m: int)
    requires 0 < m
    ensures (k * m) % m == 0 && (m * k) % m == 0
  {
    ModAddMultiple(0, k, m);
    assert 0 + k * m == k * m == m * k;
    ModSmall(0, m);
  }

  /** Equal remainders: the difference is a multiple. */
  lemma CongWitness(x: int, y: int, m: int) returns (k: int)
    requires 0 < m && x % m == y % m
    ensures x == y + k * m
  {
    k := x / m - y / m;
    assert x == (x / m) * m + x % m;
    assert y == (y / m) * m + y % m;
  }

  lemma ModAdd(x: int, y: int, m: int)
    requires 0 < m
    ensures (x + y) % m == ((x % m) + y) % m == ((x % m) + (y % m)) % m
  {
    var a, b := x / m, y / m;
    assert x + y == (x % m) + y + a * m;
    ModAddMultiple((x % m) + y, a, m);
    assert (x % m) + y == (x % m) + (y % m) + b * m;
    ModAddMultiple((x % m) + (y % m), b, m);
  }

  lemma ModMul(x: int, y: int, m: int)
    requires 0 < m
    ensures (x * y) % m == ((x % m) * y) % m == ((x % m) * (y % m)) % m
  {
    var a, b := x / m, y / m;
    assert x == a * m + x % m;
    assert y == b * m + y % m;
    calc {
      x * y;
      (a * m + x % m) * y;
      (x % m) * y + a * m * y;
      (x % m) * y + (a * y) * m;
    }
    ModAddMultiple((x % m) * y, a * y, m);
    calc {
      (x % m) * y;
      (x % m) * (b * m + y % m);
      (x % m) * (y % m) + ((x % m) * b) * m;
    }
    ModAddMultiple((x % m) * (y % m), (x % m) * b, m);
  }

  /** Congruence is kept by products. */
  lemma CongMul(x: int, x': int, y: int, y': int, m: int)
    requires 0 < m && x % m == x' % m && y % m == y' % m
    ensures (x * y) % m == (x' * y') % m
  {
    ModMul(x, y, m);
    ModMul(x', y', m);
  }

  /** Congruence is kept by sums. */
  lemma CongAdd(x: int, x': int, y: int, y': int, m: int)
    requires 0 < m && x % m == x' % m && y % m == y' % m
    ensures (x + y) % m == (x' + y') % m
  {
    ModAdd(x, y, m);
    ModAdd(x', y', m);
  }

  lemma ModMod(x: int, m: int)
    requires 0 < m
    ensures (x % m) % m == x % m
  {
    ModSmall(x % m, m);
  }

  /** Reducing modulo a multiple of m keeps the residue modulo m. */
  lemma ModModMultiple(x: int, k: int, m: int)
    requires 0 < m && 0 < k
    ensures 0 < k * m && (x % (k * m)) % m == x % m
  {
    MulPositive(k, m);
    var n := k * m;
    var q := x / n;
    assert x == q * n + x % n;
    assert q * n == (q * k) * m;
    assert x == x % n + (q * k) * m;
    ModAddMultiple(x % n, q * k, m);
  }

  lemma DivLower(x: int, q: int, m: int)
    requires 0 < m && q * m <= x
    ensures q <= x / m
  {
    if x / m < q {
      MulMonoStrict(x / m, q, m);
    }
  }

  lemma DivUpper(x: int, q: int, m: int)
    requires 0 < m && x < q * m
    ensures x / m < q
  {
    if q <= x / m {
      MulMono(q, x / m, m);
    }
  }

  // ---------- powers ----------

  function Pow(b: int, e: nat): int {
    if e == 0 then 1 else b * Pow(b, e - 1)
  }

  lemma {:induction false} PowPositive(b: int, e: nat)
    requires 0 < b
    ensures 0 < Pow(b, e)
  {
    if e != 0 {
      PowPositive(b, e - 1);
      MulPositive(b, Pow(b, e - 1));
    }
  }

  lemma {:induction false} PowNonNegative(b: int, e: nat)
    requires 0 <= b
    ensures 0 <= Pow(b, e)
  {
    if e != 0 {
      PowNonNegative(b, e - 1);
      MulMono(0, b, Pow(b, e - 1));
    }
  }

  lemma {:induction false} PowAdd(b: int, e: nat, f: nat)
    ensures Pow(b, e + f) == Pow(b, e) * Pow(b, f)
  {
    if e != 0 {
      PowAdd(b, e - 1, f);
      assert b * (Pow(b, e - 1) * Pow(b, f)) == (b * Pow(b, e - 1)) * Pow(b, f);
    }
  }

  lemma {:induction false} PowPow(b: int, e: nat, f: nat)
    ensures 0 <= e * f
    ensures Pow(Pow(b, e), f) == Pow(b, e * f)
    decreases f
  {
    MulMono(0, e, f);
    if f == 0 {
      assert e * f == 0;
    } else {
      PowPow(b, e, f - 1);
      assert e * f == e + e * (f - 1);
      PowAdd(b, e, e * (f - 1));
    }
  }

  lemma {:induction false} PowMono(b: int, e: nat, f: nat)
    requires 1 <= b && e <= f
    ensures Pow(b, e) <= Pow(b, f)
  {
    if e < f {
      PowMono(b, e, f - 1);
      PowPositive(b, f - 1);
      MulPositive(b, Pow(b, f - 1));
    }
  }

  lemma {:induction false} PowMonoStrict(b: int, e: nat, f: nat)
    requires 2 <= b && e < f
    ensures Pow(b, e) < Pow(b, f)
  {
    PowMono(b, e, f - 1);
    PowPositive(b, f - 1);
    MulMono(2, b, Pow(b, f - 1));
  }

  lemma {:induction false} PowOne(e: nat)
    ensures Pow(1, e) == 1
  {
    if e != 0 { PowOne(e - 1); }
  }

  lemma {:induction false} PowCong(b: int, c: int, e: nat, m: int)
    requires 0 < m && b % m == c % m
    ensures Pow(b, e) % m == Pow(c, e) % m
  {
    if e != 0 {
      PowCong(b, c, e - 1, m);
      CongMul(b, c, Pow(b, e - 1), Pow(c, e - 1), m);
    }
  }

  lemma {:induction false} PowProduct(a: int, b: int, e: nat)
    ensures Pow(a * b, e) == Pow(a, e) * Pow(b, e)
  {
    if e != 0 {
      PowProduct(a, b, e - 1);
      var x, y := Pow(a, e - 1), Pow(b, e - 1);
      MulPairs(a, b, x, y);
    }
  }
}
