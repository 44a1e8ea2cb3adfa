/** The natural number that a little-endian sequence of digits stands for. */
module Value {
  import opened Arith
  import opened Words

  function Weight(n: nat): (w: nat)
    ensures 0 < w
  {
    PowPositive(BASE, n);
    Pow(BASE, n)
  }

  function Val(s: seq<Digit>): (v: nat) {
    if |s| == 0 then 0
    else
      var n := |s| - 1;
      MulMono(0, s[n], Weight(n));
      Val(s[..n]) + s[n] * Weight(n)
  }

  lemma ValEmpty()
    ensures Val([]) == 0
  {
  }

  lemma WeightSucc(n: nat)
    ensures Weight(n + 1) == BASE * Weight(n)
  {
  }

  lemma WeightAdd(m: nat, n: nat)
    ensures Weight(m + n) == Weight(m) * Weight(n)
  {
    PowAdd(BASE, m, n);
  }

  lemma WeightMono(m: nat, n: nat)
    requires m <= n
    ensures Weight(m) <= Weight(n)
  {
    PowMono(BASE, m, n);
  }

  lemma ValSnoc(s: seq<Digit>, d: Digit)
    ensures Val(s + [d]) == Val(s) + d * Weight(|s|)
  {
    assert (s + [d])[..|s|] == s;
  }

  /** One more digit of a prefix. */
  lemma ValPrefix(s: seq<Digit>, i: nat)
    requires i < |s|
    ensures Val(s[..i + 1]) == Val(s[..i]) + s[i] * Weight(i)
  {
    assert s[..i + 1] == s[..i] + [s[i]];
    ValSnoc(s[..i], s[i]);
  }

  lemma ValSingle(d: Digit)
    ensures Val([d]) == d
  {
    ValSnoc([], d);
    assert [] + [d] == [d];
  }

  lemma {:induction false} ValConcat(s: seq<Digit>, t: seq<Digit>)
    ensures Val(s + t) == Val(s) + Weight(|s|) * Val(t)
    decreases |t|
  {
    if t == [] {
      assert s + t == s;
    } else {
      var n := |t| - 1;
      var u, d := t[..n], t[n];
      assert t == u + [d];
      assert s + t == (s + u) + [d];
      ValConcat(s, u);
      ValSnoc(s + u, d);
      ValSnoc(u, d);
      WeightAdd(|s|, n);
      ConcatStep(Val(u), Weight(|s|), d, Weight(n));
    }
  }

  lemma ConcatStep(u: int, w: int, d: int, x: int)
    ensures w * u + d * (w * x) == w * (u + d * x)
  {
  }

  /** A sequence splits at any index. */
  lemma ValSplit(s: seq<Digit>, i: nat)
    requires i <= |s|
    ensures Val(s) == Val(s[..i]) + Weight(i) * Val(s[i..])
  {
    assert s == s[..i] + s[i..];
    ValConcat(s[..i], s[i..]);
  }

  lemma {:induction false} ValBound(s: seq<Digit>)
    ensures Val(s) < Weight(|s|)
  {
    if s != [] {
      var n := |s| - 1;
      ValBound(s[..n]);
      MulMono(s[n], BASE - 1, Weight(n));
      WeightSucc(n);
    }
  }

  lemma {:induction false} ValZeros(s: seq<Digit>)
    requires forall k :: 0 <= k < |s| ==> s[k] == 0
    ensures Val(s) == 0
  {
    if s != [] {
      var n := |s| - 1;
      ValZeros(s[..n]);
      assert s[n] * Weight(n) == 0;
    }
  }

  /** Digits above i are zero: they do not matter. */
  lemma ValZerosAbove(s: seq<Digit>, i: nat)
    requires i <= |s| && forall k :: i <= k < |s| ==> s[k] == 0
    ensures Val(s) == Val(s[..i])
  {
    ValSplit(s, i);
    ValZeros(s[i..]);
  }

  /** A nonzero digit at i bounds the number from below. */
  lemma ValAtLeast(s: seq<Digit>, i: nat)
    requires i < |s| && s[i] != 0
    ensures Weight(i) <= Val(s)
  {
    ValSplit(s, i + 1);
    ValPrefix(s, i);
    MulMono(1, s[i], Weight(i));
    MulMono(0, Weight(i + 1), Val(s[i + 1..]));
  }

  /** A number below Weight(i) has only zeros from i on. */
  lemma ValHighZeros(s: seq<Digit>, i: nat)
    requires i <= |s| && Val(s) < Weight(i)
    ensures forall k :: i <= k < |s| ==> s[k] == 0
    ensures Val(s) == Val(s[..i])
  {
    forall k | i <= k < |s|
      ensures s[k] == 0
    {
      if s[k] != 0 {
        ValAtLeast(s, k);
        WeightMono(i, k);
      }
    }
    ValZerosAbove(s, i);
  }

  /** Digits of equal length that stand for the same number are equal. */
  lemma {:induction false} ValUnique(s: seq<Digit>, t: seq<Digit>)
    requires |s| == |t| && Val(s) == Val(t)
    ensures s == t
  {
    if s != [] {
      var n := |s| - 1;
      ValBound(s[..n]);
      ValBound(t[..n]);
      DivModUnique(Val(s), s[n], Val(s[..n]), Weight(n));
      DivModUnique(Val(t), t[n], Val(t[..n]), Weight(n));
      ValUnique(s[..n], t[..n]);
      assert s == s[..n] + [s[n]] && t == t[..n] + [t[n]];
    }
  }

  /** The low digits of a number are its remainder, the others its quotient. */
  lemma ValLowHigh(s: seq<Digit>, i: nat)
    requires i <= |s|
    ensures Val(s) % Weight(i) == Val(s[..i])
    ensures Val(s) / Weight(i) == Val(s[i..])
  {
    ValSplit(s, i);
    ValBound(s[..i]);
    assert Weight(i) * Val(s[i..]) == Val(s[i..]) * Weight(i);
    DivModUnique(Val(s), Val(s[i..]), Val(s[..i]), Weight(i));
  }
}
