/** The probable-prime test and the search for a probable prime in an interval
    and a residue class. */
module Prime {
  import opened Arith
  import opened NumberTheory
  import opened Words
  import opened Value
  import opened NNBasic
  import opened NNModular
  import opened NNEuclid
  import opened NNBytes
  import opened Outcome

  // ---------- the test ----------

  /** The trial divisors: nonzero, and no 1 or 2 among them. */
  predicate TrialDivisors(table: seq<Digit>) {
    0 < |table| && forall k :: 0 <= k < |table| ==> 3 <= table[k]
  }

  /** Every divisor of v in the table is found only after v itself; v is only
      recognised in the table when it is held in a single digit. */
  ghost predicate PassesSieve(v: nat, digits: nat, table: seq<Digit>)
    requires TrialDivisors(table)
  {
    forall j :: 0 <= j < |table| && Divides(table[j], v) ==> digits == 1 && v in table[..j + 1]
  }

  /** What the test decides: trial division and Fermat's test to the base 2. */
  ghost predicate Accepts(v: nat, digits: nat, table: seq<Digit>)
    requires TrialDivisors(table)
  {
    0 < v && PassesSieve(v, digits, table) && PowMod(2, v, v) == 2
  }

  /** The same in plain terms: v divides 2^v - 2, and no trial divisor divides
      it before v itself is met in the table, which takes a single digit. */
  ghost predicate Passes(v: nat, digits: nat, table: seq<Digit>)
    requires TrialDivisors(table)
  {
    && 2 < v && Divides(v, Pow(2, v) - 2)
    && forall k :: 0 <= k < |table| && Divides(table[k], v) ==>
         digits == 1 && exists j :: 0 <= j <= k && table[j] == v
  }

  /** Trial division by the table. */
  method Sieve(a: array<Digit>, aDigits: nat, table: seq<Digit>) returns (status: bool)
    requires 0 < aDigits <= a.Length && TrialDivisors(table)
    ensures status <==> PassesSieve(Val(a[..aDigits]), aDigits, table)
  {
    hide Val;
    ghost var v := Val(a[..aDigits]);
    var t := new Digit[aDigits];
    AssignZero(t, aDigits);
    var i := 0;
    while i < |table|
      invariant i <= |table|
      invariant v == Val(a[..aDigits])
      invariant forall k :: 0 < k < aDigits ==> t[k] == 0
      invariant forall j :: 0 <= j < i ==> !Divides(table[j], v)
      invariant v !in table[..i] || aDigits != 1
      modifies t
    {
      t[0] := table[i];
      ghost var ts := t[..];
      assert t[..1] == [table[i]];
      ValSingle(table[i]);
      if aDigits == 1 {
        var sign := Cmp(a, t, 1);
        if sign == 0 {
          assert table[i] in table[..i + 1];
          return true;
        }
      }
      Mod(t, a, aDigits, t, 1);
      assert forall k :: 0 < k < aDigits ==> t[k] == t[1..][k - 1] == ts[1..][k - 1];
      var zero := Zero(t, 1);
      if zero {
        SieveFails(v, aDigits, table, i);
        return false;
      }
      assert table[..i + 1] == table[..i] + [table[i]];
      i := i + 1;
    }
    return true;
  }

  lemma SieveFails(v: nat, digits: nat, table: seq<Digit>, i: nat)
    requires TrialDivisors(table) && i < |table| && Divides(table[i], v)
    requires digits != 1 || v !in table[..i + 1]
    ensures !PassesSieve(v, digits, table)
  {
  }

  /** Trial division, then Fermat's test. */
  method ProbablePrime(a: array<Digit>, aDigits: nat, table: seq<Digit>) returns (prime: bool)
    requires 0 < aDigits <= a.Length && TrialDivisors(table)
    ensures prime <==> Accepts(Val(a[..aDigits]), aDigits, table)
    ensures var v := Val(a[..aDigits]);
            prime <==>
              && 2 < v && Divides(v, Pow(2, v) - 2)
              && forall k :: 0 <= k < |table| && Divides(table[k], v) ==>
                   aDigits == 1 && exists j :: 0 <= j <= k && table[j] == v
  {
    hide Val, PassesSieve, PowMod, Pow, Accepts, Divides;
    ghost var v := Val(a[..aDigits]);
    AcceptsMeaning(v, aDigits, table);
    AcceptsParts(v, aDigits, table);
    var status := Sieve(a, aDigits, table);
    if status {
      SievePositive(v, aDigits, table);
      var t, u := new Digit[aDigits], new Digit[aDigits];
      AssignDigit(t, 2, aDigits);
      ModExp(u, t, a, aDigits, a, aDigits);
      var sign := Cmp(t, u, aDigits);
      return sign == 0;
    }
    return false;
  }

  lemma AcceptsParts(v: nat, digits: nat, table: seq<Digit>)
    requires TrialDivisors(table)
    ensures Accepts(v, digits, table) <==> 0 < v && PassesSieve(v, digits, table) && PowMod(2, v, v) == 2
  {
  }

  lemma AcceptsMeaning(v: nat, digits: nat, table: seq<Digit>)
    requires TrialDivisors(table)
    ensures Accepts(v, digits, table) <==> Passes(v, digits, table)
  {
    hide Pow, Accepts, PassesSieve;
    AcceptsParts(v, digits, table);
    SieveMeaning(v, digits, table);
    if 0 < v {
      WitnessMeaning(v);
    }
  }

  lemma SieveMeaning(v: nat, digits: nat, table: seq<Digit>)
    requires TrialDivisors(table)
    ensures PassesSieve(v, digits, table) <==>
              forall k :: 0 <= k < |table| && Divides(table[k], v) ==>
                digits == 1 && exists j :: 0 <= j <= k && table[j] == v
  {
    hide Divides;
    if PassesSieve(v, digits, table) {
      forall k | 0 <= k < |table| && Divides(table[k], v)
        ensures digits == 1 && exists j :: 0 <= j <= k && table[j] == v
      {
        MetBefore(v, table, k);
      }
    }
    if forall k :: 0 <= k < |table| && Divides(table[k], v) ==>
         digits == 1 && exists j :: 0 <= j <= k && table[j] == v {
      forall k | 0 <= k < |table| && Divides(table[k], v)
        ensures digits == 1 && v in table[..k + 1]
      {
        MetBefore(v, table, k);
      }
    }
  }

  lemma MetBefore(v: nat, table: seq<Digit>, k: nat)
    requires k < |table|
    ensures v in table[..k + 1] <==> exists j :: 0 <= j <= k && table[j] == v
  {
    if j :| 0 <= j <= k && table[j] == v {
      assert table[..k + 1][j] == v;
    }
  }

  /** The remainder of 2^v is 2 exactly when v is above 2 and divides 2^v - 2. */
  lemma WitnessMeaning(v: nat)
    requires 0 < v
    ensures PowMod(2, v, v) == 2 <==> 2 < v && Divides(v, Pow(2, v) - 2)
  {
    hide Pow;
    RemainderTwo(Pow(2, v), v);
  }

  lemma RemainderTwo(x: int, v: int)
    requires 0 < v
    ensures x % v == 2 <==> 2 < v && Divides(v, x - 2)
  {
    if 2 < v {
      ModSmall(2, v);
      if Divides(v, x - 2) {
        ModAdd(x - 2, 2, v);
      }
      if x % v == 2 {
        var k := CongWitness(x, 2, v);
        DividesMultiple(v, k);
      }
    }
  }

  lemma SievePositive(v: nat, digits: nat, table: seq<Digit>)
    requires TrialDivisors(table) && PassesSieve(v, digits, table)
    ensures 0 < v
  {
    ModSmall(0, table[0]);
    assert Divides(table[0], 0);
    assert table[..1] == [table[0]];
  }

  /** Exactly which primes pass: all but 2, and those in the table only when
      they are held in a single digit. */
  lemma PrimesAccepted(v: nat, digits: nat, table: seq<Digit>)
    requires IsPrime(v) && TrialDivisors(table)
    ensures Accepts(v, digits, table) <==> v != 2 && (digits == 1 || v !in table)
  {
    if v == 2 {
      assert Pow(2, 2) == 2 * Pow(2, 1);
      ModMultipleIsZero(Pow(2, 1), 2);
    } else {
      FermatPower(2, v);
      ModSmall(2, v);
      forall j | 0 <= j < |table| && Divides(table[j], v)
        ensures table[j] == v && v in table[..j + 1]
      {
        DividesBound(table[j], v);
        assert table[j] in table[..j + 1];
      }
      if v in table {
        var j :| 0 <= j < |table| && table[j] == v;
        DividesMultiple(v, 1);
        assert Divides(table[j], v);
      }
    }
  }

  /** No prime above the largest trial divisor is rejected. */
  lemma LargePrimeAccepted(v: nat, digits: nat, table: seq<Digit>, largest: nat)
    requires IsPrime(v) && TrialDivisors(table) && largest < v && 2 <= largest
    requires forall k :: 0 <= k < |table| ==> table[k] <= largest
    ensures Accepts(v, digits, table)
  {
    PrimesAccepted(v, digits, table);
  }

  // ---------- the search ----------

  /** The largest number up to c that is 1 modulo d still lies in the interval;
      so does every interval at least as wide as the step. */
  predicate HoldsCandidate(b: int, c: int, d: int)
    requires 0 < d
  {
    b <= c - (c - 1) % d
  }

  /** An interval that holds a number of the residue class 1 modulo d, and whose
      end leaves room for the adjustment. */
  predicate StartRange(b: nat, c: nat, d: nat, w: nat) {
    b <= c < w && 0 < d && HoldsCandidate(b, c, d) && (c + 1 < w || c % d != 0)
  }

  /** The step, moreover, can be taken from the end of the interval. */
  predicate SearchRange(b: nat, c: nat, d: nat, w: nat) {
    StartRange(b, c, d, w) && d <= c
  }

  /** a lies in the interval and in the residue class. */
  ghost predicate Candidate(a: nat, b: nat, c: nat, d: nat) {
    0 < d && b <= a <= c && a % d == 1 % d
  }

  /** The number 1 modulo d next to x, moved back into the interval. */
  ghost function Adjusted(x: nat, b: nat, c: nat, d: nat): int
    requires 0 < d
  {
    var a := x - x % d + 1;
    var a := if a < b then a + d else a;
    if a > c then a - d else a
  }

  /** The first candidate for a random number. */
  ghost function FirstCandidate(random: nat, b: nat, c: nat, d: nat): int
    requires b <= c && 0 < d
  {
    ModAtMost(random, c - b + 1);
    Adjusted(random % (c - b + 1) + b, b, c, d)
  }

  /** An interval as wide as the step holds a candidate. */
  lemma WideHoldsCandidate(b: int, c: int, d: int)
    requires 0 < d <= c - b + 1
    ensures HoldsCandidate(b, c, d)
  {
  }

  /** The last number of the class up to c. */
  lemma LastCandidate(c: nat, d: nat)
    requires 0 < d
    ensures var l := c - (c - 1) % d; l % d == 1 % d && l <= c < l + d
  {
    var l, k := c - (c - 1) % d, (c - 1) / d;
    assert l == 1 + k * d;
    ModAddMultiple(1, k, d);
  }

  lemma CongGap(x: int, y: int, d: int)
    requires 0 < d && x % d == y % d && x < y
    ensures x + d <= y
  {
    var k := CongWitness(y, x, d);
    if k <= 0 {
      MulMono(k, 0, d);
    } else {
      MulMono(1, k, d);
    }
  }

  /** There is a candidate in the interval exactly when the last one is. */
  lemma HoldsCandidateIff(b: nat, c: nat, d: nat)
    requires 1 < d
    ensures HoldsCandidate(b, c, d) <==> exists a: nat :: Candidate(a, b, c, d)
  {
    LastCandidate(c, d);
    var l := c - (c - 1) % d;
    if HoldsCandidate(b, c, d) {
      assert Candidate(l, b, c, d);
    }
    if a: nat :| Candidate(a, b, c, d) {
      if l < a {
        CongGap(l, a, d);
      }
    }
  }

  /** No step of the adjustment wraps, and it ends on a candidate. */
  lemma AdjustedFits(x: nat, b: nat, c: nat, d: nat, w: nat)
    requires StartRange(b, c, d, w) && b <= x <= c
    ensures var r := x - x % d + 1;
            0 <= x % d <= x && r < w && (r < b ==> r + d <= c) && (r > c ==> d <= r)
    ensures Candidate(Adjusted(x, b, c, d), b, c, d)
  {
    var r, l := x - x % d + 1, c - (c - 1) % d;
    ModAtMost(x, d);
    InClass(x, d);
    LastCandidate(c, d);
    TopRoomLeft(x, c, d, w);
    if r < b {
      CongGap(r, l, d);
      assert Candidate(r + d, b, c, d);
    } else if r > c {
      CongGap(l, r, d);
      assert Candidate(r - d, b, c, d);
    } else {
      assert Candidate(r, b, c, d);
    }
  }

  predicate OneModulo(y: int, d: int)
    requires 0 < d
  {
    y % d == 1 % d
  }

  /** a is the start of a search from x: the last number of the class in the
      interval that is not above x + 1, or the first of all if there is none. */
  ghost predicate Nearest(a: int, x: int, b: int, c: int, d: int)
    requires 0 < d
  {
    && b <= a <= c && a % d == 1 % d
    && (forall y :: b <= y <= x + 1 && y <= c && OneModulo(y, d) ==> y <= a)
    && (x + 1 < a ==> forall y :: b <= y <= c && OneModulo(y, d) ==> a <= y)
  }

  /** a is the start of a search with a random number: the nearest one to its
      remainder in the interval, at most a step away, and that number itself
      when it leaves the remainder 1. */
  ghost predicate StartsNear(a: int, random: nat, b: nat, c: nat, d: nat) {
    b <= c && 0 < d
    && var x := random % (c - b + 1) + b;
       Nearest(a, x, b, c, d) && x - d < a <= x + d && (x % d == 1 ==> a == x)
  }

  lemma FirstStartsNear(random: nat, b: nat, c: nat, d: nat, w: nat)
    requires StartRange(b, c, d, w)
    ensures StartsNear(FirstCandidate(random, b, c, d), random, b, c, d)
  {
    hide Nearest, Adjusted, StartRange;
    RangeNumbers(b, c, d, w);
    ModAtMost(random, c - b + 1);
    AdjustedNearest(random % (c - b + 1) + b, b, c, d, w);
  }

  lemma RangeNumbers(b: nat, c: nat, d: nat, w: nat)
    requires StartRange(b, c, d, w)
    ensures b <= c < w && 0 < d
  {
  }

  /** The adjusted number is the nearest one, less than a step away, and no
      other than x when x leaves the remainder 1. */
  lemma AdjustedNearest(x: nat, b: nat, c: nat, d: nat, w: nat)
    requires StartRange(b, c, d, w) && b <= x <= c
    ensures var a := Adjusted(x, b, c, d);
            Nearest(a, x, b, c, d) && x - d < a <= x + d && (x % d == 1 ==> a == x)
  {
    AdjustedFits(x, b, c, d, w);
    var r, a := x - x % d + 1, Adjusted(x, b, c, d);
    ModAtMost(x, d);
    InClass(x, d);
    assert r <= x + 1 < r + d;
    forall y: int | b <= y <= x + 1 && y <= c && OneModulo(y, d)
      ensures y <= a
    {
      if a < y {
        CongGap(a, y, d);
      }
    }
    if x + 1 < a {
      forall y: int | b <= y <= c && OneModulo(y, d)
        ensures a <= y
      {
        if y < a {
          CongGap(y, a, d);
        }
      }
    }
  }

  lemma TopRoomLeft(x: nat, c: nat, d: nat, w: nat)
    requires 0 < d && x <= c < w && (c + 1 < w || c % d != 0)
    ensures x - x % d + 1 < w
  {
    ModAtMost(x, d);
  }

  /** The adjustment as the digits compute it, wrapping around at w. */
  function WrappedStart(x: nat, b: nat, c: nat, d: nat, w: nat): int
    requires 0 < d && 0 < w
  {
    var a := (x - x % d + 1) % w;
    var a := if a < b then (a + d) % w else a;
    if a > c then (a - d) % w else a
  }

  /** The adjustment ends on a candidate from every number of the interval
      exactly in the ranges that are asked for. */
  lemma StartRightIff(b: nat, c: nat, d: nat, w: nat)
    requires b <= c < w && 1 < d < w
    ensures (forall x: nat | b <= x <= c :: 0 <= WrappedStart(x, b, c, d, w) &&
                                            Candidate(WrappedStart(x, b, c, d, w), b, c, d))
            <==> StartRange(b, c, d, w)
  {
    if StartRange(b, c, d, w) {
      forall x: nat | b <= x <= c
        ensures 0 <= WrappedStart(x, b, c, d, w) && Candidate(WrappedStart(x, b, c, d, w), b, c, d)
      {
        NothingWraps(x, b, c, d, w);
      }
    } else if !HoldsCandidate(b, c, d) {
      HoldsCandidateIff(b, c, d);
      assert 0 > WrappedStart(b, b, c, d, w) || !Candidate(WrappedStart(b, b, c, d, w), b, c, d);
    } else {
      EndWraps(b, c, d, w);
    }
  }

  lemma NothingWraps(x: nat, b: nat, c: nat, d: nat, w: nat)
    requires StartRange(b, c, d, w) && b <= x <= c
    ensures WrappedStart(x, b, c, d, w) == Adjusted(x, b, c, d)
    ensures Candidate(Adjusted(x, b, c, d), b, c, d)
  {
    AdjustedFits(x, b, c, d, w);
    var r := x - x % d + 1;
    ModSmall(r, w);
    if r < b {
      ModSmall(r + d, w);
    }
    if r > c {
      ModSmall(r - d, w);
    }
  }

  /** From the largest number of all the adjustment wraps around to a multiple
      of d. */
  lemma EndWraps(b: nat, c: nat, d: nat, w: nat)
    requires b <= c && c + 1 == w && 1 < d < w && c % d == 0
    ensures 0 <= WrappedStart(c, b, c, d, w) && !Candidate(WrappedStart(c, b, c, d, w), b, c, d)
  {
    ModMultipleIsZero(1, w);
    ModMultipleIsZero(1, d);
    ModSmall(d, w);
    ModSmall(0, d);
    ModSmall(1, d);
  }

  /** The search stops at the last candidate exactly when the step can be taken
      from the end of the interval; otherwise it runs on behind it. */
  lemma SearchStopsIff(a: nat, c: nat, d: nat, w: nat)
    requires a <= c < w && 0 < d < w && c < a + d
    ensures a > (c - d) % w <==> d <= c
  {
    if d <= c {
      ModSmall(c - d, w);
    } else {
      ModAddMultiple(c - d, 1, w);
      ModSmall(c - d + w, w);
    }
  }

  /** The adjusted number, and its neighbours, leave the remainder 1. */
  lemma InClass(a: nat, d: nat)
    requires 0 < d
    ensures var x := a - a % d + 1; x % d == 1 % d && (x + d) % d == 1 % d && (x - d) % d == 1 % d
  {
    var x, k := a - a % d + 1, a / d;
    assert x == 1 + k * d;
    ModAddMultiple(1, k, d);
    ModAddMultiple(x, 1, d);
    ModAddMultiple(x, -1, d);
  }

  lemma ModAtMost(a: nat, d: nat)
    requires 0 < d
    ensures 0 <= a % d <= a && a % d < d
  {
    DivLower(a, 0, d);
    MulMono(0, a / d, d);
  }

  /** Every candidate from a up to c was refused. */
  ghost predicate NoneFrom(a: int, c: int, d: nat, digits: nat, table: seq<Digit>)
    requires TrialDivisors(table) && 0 < d
  {
    forall x: nat :: a <= x <= c && Divides(d, x - a) ==> !Accepts(x, digits, table)
  }

  lemma SearchStart(a: nat, d: nat, digits: nat, table: seq<Digit>)
    requires TrialDivisors(table) && 0 < d
    ensures NoneFrom(a, a - 1, d, digits, table) && Divides(d, a - a)
  {
    ModSmall(0, d);
  }

  lemma NoneHere(a0: int, a: nat, d: nat, digits: nat, table: seq<Digit>)
    requires TrialDivisors(table) && 0 < d && NoneFrom(a0, a - 1, d, digits, table) && !Accepts(a, digits, table)
    ensures NoneFrom(a0, a, d, digits, table)
  {
  }

  /** One step of the search. */
  lemma NextCandidate(a0: nat, a: nat, b: nat, c: nat, d: nat, digits: nat, table: seq<Digit>)
    requires TrialDivisors(table) && Candidate(a, b, c, d) && 0 < d && a0 <= a && a + d <= c
    requires Divides(d, a - a0) && NoneFrom(a0, a, d, digits, table)
    ensures Candidate(a + d, b, c, d) && Divides(d, a + d - a0)
    ensures NoneFrom(a0, a + d - 1, d, digits, table)
  {
    DividesMultiple(d, 1);
    DividesSum(d, a - a0, d);
    ModAddMultiple(a, 1, d);
    forall x: nat | a0 <= x <= a + d - 1 && Divides(d, x - a0)
      ensures !Accepts(x, digits, table)
    {
      if a < x { BetweenMultiples(d, a - a0, x - a0); }
    }
  }

  lemma BetweenMultiples(d: int, m: int, x: int)
    requires 0 < d && Divides(d, m) && m < x < m + d
    ensures !Divides(d, x)
  {
    if Divides(d, x) {
      DividesSum(d, x, m);
      DividesBound(d, x - m);
    }
  }

  /** Nothing lies between the last candidate and the end of the interval. */
  lemma NoneToEnd(a0: nat, a: nat, b: nat, c: nat, d: nat, digits: nat, table: seq<Digit>)
    requires TrialDivisors(table) && 0 < d && a0 <= a && Candidate(a, b, c, d) && c < a + d && Divides(d, a - a0)
    requires NoneFrom(a0, a, d, digits, table)
    ensures NoneFrom(a0, c, d, digits, table)
  {
    forall x: nat | a0 <= x <= c && Divides(d, x - a0)
      ensures !Accepts(x, digits, table)
    {
      if a < x { BetweenMultiples(d, a - a0, x - a0); }
    }
  }

  /** The first candidate: a random number of the interval, moved into the
      residue class and back into the interval. */
  method StartSearch(a: array<Digit>, b: array<Digit>, c: array<Digit>, d: array<Digit>, digits: nat, block: seq<Byte>)
    requires a != b && a != c && a != d
    requires 0 < digits <= a.Length && digits <= b.Length && digits <= c.Length && digits <= d.Length
    requires SearchRange(Val(b[..digits]), Val(c[..digits]), Val(d[..digits]), Weight(digits))
    requires |block| == 4 * digits
    modifies a
    ensures Val(a[..digits]) == FirstCandidate(BytesVal(block), Val(b[..digits]), Val(c[..digits]), Val(d[..digits]))
    ensures Candidate(Val(a[..digits]), Val(b[..digits]), Val(c[..digits]), Val(d[..digits]))
    ensures StartsNear(Val(a[..digits]), BytesVal(block), Val(b[..digits]), Val(c[..digits]), Val(d[..digits]))
  {
    hide Val, Weight, BytesVal, SearchRange, StartRange, Candidate, Adjusted, StartsNear;
    ghost var bv, cv, dv, w := Val(b[..digits]), Val(c[..digits]), Val(d[..digits]), Weight(digits);
    SearchNumbers(bv, cv, dv, w);
    ModAtMost(BytesVal(block), cv - bv + 1);
    RandomInRange(a, b, c, digits, block);
    AdjustedFits(Val(a[..digits]), bv, cv, dv, w);
    FirstStartsNear(BytesVal(block), bv, cv, dv, w);
    Adjust(a, b, c, d, digits);
  }

  /** a := a - (a mod d) + 1, moved back into the interval. */
  method Adjust(a: array<Digit>, b: array<Digit>, c: array<Digit>, d: array<Digit>, digits: nat)
    requires a != b && a != c && a != d
    requires 0 < digits <= a.Length && digits <= b.Length && digits <= c.Length && digits <= d.Length
    requires SearchRange(Val(b[..digits]), Val(c[..digits]), Val(d[..digits]), Weight(digits))
    requires Val(b[..digits]) <= Val(a[..digits]) <= Val(c[..digits])
    modifies a
    ensures 0 < Val(d[..digits])
    ensures Val(a[..digits])
            == Adjusted(old(Val(a[..digits])), Val(b[..digits]), Val(c[..digits]), Val(d[..digits]))
  {
    hide Val, Weight, SearchRange, StartRange, Candidate;
    ghost var x: int, bv: int, cv: int := Val(a[..digits]), Val(b[..digits]), Val(c[..digits]);
    ghost var dv: int, w: int := Val(d[..digits]), Weight(digits);
    SearchNumbers(bv, cv, dv, w);
    AdjustedFits(x, bv, cv, dv, w);
    ResidueOne(a, d, digits);
    ghost var r := x - x % dv + 1;
    var sign := Cmp(a, b, digits);
    if sign < 0 {
      var carry := Add(a, a, d, digits);
      NoCarry(carry, Val(a[..digits]), r + dv, w);
    }
    sign := Cmp(a, c, digits);
    if sign > 0 {
      ghost var y := Val(a[..digits]);
      var borrow := Sub(a, a, d, digits);
      ValBound(a[..digits]);
      NoBorrow(borrow, Val(a[..digits]), dv, y, w);
    }
  }

  /** a := a - (a mod d) + 1, when that does not wrap. */
  method ResidueOne(a: array<Digit>, d: array<Digit>, digits: nat)
    requires a != d && 0 < digits <= a.Length && digits <= d.Length && 0 < Val(d[..digits])
    requires Val(a[..digits]) as int - Val(a[..digits]) % Val(d[..digits]) + 1 < Weight(digits)
    modifies a
    ensures Val(a[..digits]) == old(Val(a[..digits])) as int - old(Val(a[..digits])) % Val(d[..digits]) + 1
  {
    hide Val, Weight;
    ghost var x: int, dv: int, w: int := Val(a[..digits]), Val(d[..digits]), Weight(digits);
    ModAtMost(x, dv);
    var t, u := new Digit[digits], new Digit[digits];
    AssignDigit(u, 1, digits);
    Mod(t, a, digits, d, digits);
    var borrow := Sub(a, a, t, digits);
    ValBound(a[..digits]);
    NoBorrow(borrow, Val(a[..digits]), x % dv, x, w);
    var carry := Add(a, a, u, digits);
    NoCarry(carry, Val(a[..digits]), x - x % dv + 1, w);
  }

  lemma SearchNumbers(b: nat, c: nat, d: nat, w: nat)
    requires SearchRange(b, c, d, w)
    ensures b <= c < w && 0 < d <= c && StartRange(b, c, d, w)
  {
  }

  /** a := random mod (c - b + 1) + b. */
  method RandomInRange(a: array<Digit>, b: array<Digit>, c: array<Digit>, digits: nat, block: seq<Byte>)
    requires a != b && a != c
    requires 0 < digits <= a.Length && digits <= b.Length && digits <= c.Length
    requires Val(b[..digits]) <= Val(c[..digits]) && |block| == 4 * digits
    modifies a
    ensures Val(a[..digits])
            == BytesVal(block) % (Val(c[..digits]) as int - Val(b[..digits]) + 1) + Val(b[..digits])
  {
    hide Val, Weight, BytesVal;
    ghost var bv: int, cv: int, w: int := Val(b[..digits]), Val(c[..digits]), Weight(digits);
    ValBound(c[..digits]);
    Decode(a, digits, block);
    BlockFits(block, digits);
    ModSmall(BytesVal(block), w);
    var t, u := new Digit[digits], new Digit[digits];
    var borrow := Sub(t, c, b, digits);
    ValBound(t[..digits]);
    NoBorrow(borrow, Val(t[..digits]), bv, cv, w);
    AssignDigit(u, 1, digits);
    var carry := Add(t, t, u, digits);
    ValBound(t[..digits]);
    if carry == 0 {
      assert Val(t[..digits]) == cv - bv + 1;
    } else {
      WholeRange(Val(t[..digits]), cv, bv, w);
      ModSmall(BytesVal(block), w);
    }
    Mod(a, a, digits, t, digits);
    ghost var x := Val(a[..digits]);
    ModAtMost(BytesVal(block), cv - bv + 1);
    carry := Add(a, a, b, digits);
    NoCarry(carry, Val(a[..digits]), x + bv, w);
  }

  lemma BlockFits(s: seq<Byte>, n: nat)
    requires |s| == 4 * n
    ensures BytesVal(s) < Weight(n)
  {
    BytesBound(s);
    WeightIsPow256(n);
  }

  /** The length of the interval wraps to zero only for the interval of all
      numbers, which needs no reduction. */
  lemma WholeRange(t: int, c: int, b: int, w: int)
    requires t + w == c - b + 1 && 0 <= t && 0 <= b && c < w
    ensures t == 0 && b == 0 && c - b + 1 == w
  {
  }

  /** What a search returns: a candidate that passes the test, or the
      information that no candidate from the first one on does. */
  ghost predicate Searched(r: Result<()>, a: nat, first: int, b: nat, c: nat, d: nat, digits: nat, table: seq<Digit>)
    requires TrialDivisors(table)
  {
    && Candidate(a, b, c, d) && 0 < d
    && match r
       case Ok(_) => Accepts(a, digits, table) && NoneFrom(first, a - 1, d, digits, table)
       case Err(e) => e == RE_DATA && NoneFrom(first, c, d, digits, table)
  }

  /** A probable prime in the interval from b to c that is 1 modulo d. */
  method GeneratePrime(a: array<Digit>, b: array<Digit>, c: array<Digit>, d: array<Digit>, digits: nat,
                       seeded: bool, block: seq<Byte>, table: seq<Digit>) returns (r: Result<()>)
    requires a != b && a != c && a != d
    requires 0 < digits <= a.Length && digits <= b.Length && digits <= c.Length && digits <= d.Length
    requires SearchRange(Val(b[..digits]), Val(c[..digits]), Val(d[..digits]), Weight(digits))
    requires |block| == 4 * digits && TrialDivisors(table)
    modifies a
    ensures !seeded ==> r == Err(RE_NEED_RANDOM) && a[..] == old(a[..])
    ensures seeded ==>
              Searched(r, Val(a[..digits]),
                       FirstCandidate(BytesVal(block), Val(b[..digits]), Val(c[..digits]), Val(d[..digits])),
                       Val(b[..digits]), Val(c[..digits]), Val(d[..digits]), digits, table)
    ensures seeded ==>
              Found(r, Val(a[..digits]), BytesVal(block), Val(b[..digits]), Val(c[..digits]), Val(d[..digits]), digits,
                    table)
  {
    hide Val, Weight, BytesVal, SearchRange, StartRange, FirstCandidate, Searched, Candidate, Found;
    if !seeded {
      return Err(RE_NEED_RANDOM);
    }
    ghost var bv: nat, cv: nat, dv: nat, w: nat := Val(b[..digits]), Val(c[..digits]), Val(d[..digits]), Weight(digits);
    SearchNumbers(bv, cv, dv, w);
    StartSearch(a, b, c, d, digits, block);
    r := SearchOn(a, c, d, digits, bv, table);
    SearchedFound(r, Val(a[..digits]), BytesVal(block), bv, cv, dv, w, digits, table);
  }

  /** The search in steps of d from a up to c. */
  method SearchOn(a: array<Digit>, c: array<Digit>, d: array<Digit>, digits: nat, ghost bv: nat, table: seq<Digit>)
    returns (r: Result<()>)
    requires a != c && a != d
    requires 0 < digits <= a.Length && digits <= c.Length && digits <= d.Length && TrialDivisors(table)
    requires Val(d[..digits]) <= Val(c[..digits]) < Weight(digits)
    requires Candidate(Val(a[..digits]), bv, Val(c[..digits]), Val(d[..digits]))
    modifies a
    ensures Searched(r, Val(a[..digits]), old(Val(a[..digits])), bv, Val(c[..digits]), Val(d[..digits]), digits, table)
    ensures r.Ok? ==> old(Val(a[..digits])) <= Val(a[..digits])
  {
    hide Val, Weight, Accepts, NoneFrom, Candidate;
    ghost var cv: nat, dv: nat, w: nat := Val(c[..digits]), Val(d[..digits]), Weight(digits);
    ghost var first := Val(a[..digits]);
    CandidateNumbers(first, bv, cv, dv);
    var t := new Digit[digits];
    Assign(t, c, digits);
    var borrow := Sub(t, t, d, digits);
    ValBound(t[..digits]);
    NoBorrow(borrow, Val(t[..digits]), dv, cv, w);
    SearchStart(first, dv, digits, table);
    var prime := ProbablePrime(a, digits, table);
    while !prime
      invariant cv == Val(c[..digits]) && dv == Val(d[..digits])
      invariant Val(t[..digits]) == cv - dv
      invariant first <= Val(a[..digits]) && Divides(dv, Val(a[..digits]) - first)
      invariant Candidate(Val(a[..digits]), bv, cv, dv)
      invariant prime <==> Accepts(Val(a[..digits]), digits, table)
      invariant NoneFrom(first, Val(a[..digits]) - 1, dv, digits, table)
      decreases cv - Val(a[..digits])
      modifies a
    {
      ghost var x := Val(a[..digits]);
      NoneHere(first, x, dv, digits, table);
      var sign := Cmp(a, t, digits);
      if sign > 0 {
        NoneToEnd(first, x, bv, cv, dv, digits, table);
        return Err(RE_DATA);
      }
      NextCandidate(first, x, bv, cv, dv, digits, table);
      var carry := Add(a, a, d, digits);
      NoCarry(carry, Val(a[..digits]), x + dv, w);
      prime := ProbablePrime(a, digits, table);
    }
    return Ok(());
  }

  lemma CandidateNumbers(a: nat, b: nat, c: nat, d: nat)
    requires Candidate(a, b, c, d)
    ensures 0 < d && a <= c
  {
  }

  /** What a search with a random number finds, in plain terms: a number of the
      interval and the class that passes the test, with none that passes
      between the start near the random number and it. */
  ghost predicate Found(r: Result<()>, a: nat, random: nat, b: nat, c: nat, d: nat, digits: nat, table: seq<Digit>)
    requires TrialDivisors(table)
  {
    && 0 < d && b <= a <= c && a % d == 1 % d
    && exists start: nat ::
         && StartsNear(start, random, b, c, d)
         && match r
            case Ok(_) => start <= a && Passes(a, digits, table) && NoneBetween(start, a, d, digits, table)
            case Err(e) => e == RE_DATA && NoneBetween(start, c + 1, d, digits, table)
  }

  ghost predicate NoneBetween(start: nat, end: nat, d: nat, digits: nat, table: seq<Digit>)
    requires TrialDivisors(table) && 0 < d
  {
    forall y: nat :: start <= y < end && y % d == 1 % d ==> !Passes(y, digits, table)
  }

  lemma SearchedFound(r: Result<()>, a: nat, random: nat, b: nat, c: nat, d: nat, w: nat, digits: nat,
                      table: seq<Digit>)
    requires TrialDivisors(table) && SearchRange(b, c, d, w)
    requires Searched(r, a, FirstCandidate(random, b, c, d), b, c, d, digits, table)
    requires r.Ok? ==> FirstCandidate(random, b, c, d) <= a
    ensures Found(r, a, random, b, c, d, digits, table)
  {
    hide Accepts, StartsNear, FirstCandidate, NoneFrom, NoneBetween, Passes, SearchRange;
    SearchNumbers(b, c, d, w);
    FirstStartsNear(random, b, c, d, w);
    var start := FirstCandidate(random, b, c, d);
    StartClass(start, random, b, c, d);
    NoneFromBetween(start, if r.Ok? then a else c + 1, d, digits, table);
    if r.Ok? {
      AcceptsMeaning(a, digits, table);
    }
  }

  lemma StartClass(start: int, random: nat, b: nat, c: nat, d: nat)
    requires StartsNear(start, random, b, c, d)
    ensures 0 < d && 0 <= start && start % d == 1 % d
  {
  }

  lemma NoneFromBetween(start: nat, end: nat, d: nat, digits: nat, table: seq<Digit>)
    requires TrialDivisors(table) && 0 < d && start % d == 1 % d && NoneFrom(start, end - 1, d, digits, table)
    ensures NoneBetween(start, end, d, digits, table)
  {
    hide Accepts, Passes;
    forall y: nat | start <= y < end && y % d == 1 % d
      ensures !Passes(y, digits, table)
    {
      SameClass(y, start, d);
      AcceptsMeaning(y, digits, table);
    }
  }

  lemma SameClass(x: int, y: int, d: int)
    requires 0 < d && x % d == y % d
    ensures Divides(d, x - y)
  {
    var k := CongWitness(x, y, d);
    DividesMultiple(d, k);
  }
}
