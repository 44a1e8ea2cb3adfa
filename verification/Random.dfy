/** The random object: its output is one stream of bytes, however it is drawn. */
module Random {
  import opened Arith
  import opened Words
  import opened Outcome
  import opened Sequences
  import opened NNBytes
  import opened Md5

  const RANDOM_BYTES_RQ: nat := 256

  // ---------- the state between two outputs ----------

  /** The increment as it is written: it goes on to the byte in front when the
      old byte was zero. */
  function Increment(state: seq<Byte>): (s: seq<Byte>)
    ensures |s| == |state|
  {
    if |state| == 0 then []
    else
      var n := |state| - 1;
      if state[n] == 0 then Increment(state[..n]) + [1]
      else state[..n] + [ByteAfter(state[n])]
  }

  function ByteAfter(b: int): Byte {
    (b + 1) % 256
  }

  function ByteBefore(b: int): Byte {
    (b + 255) % 256
  }

  /** Every byte one less, around the clock. */
  function Lowered(state: seq<Byte>): (s: seq<Byte>)
    ensures |s| == |state|
  {
    seq(|state|, i requires 0 <= i < |state| => ByteBefore(state[i]))
  }

  /** The number that the increment counts up. */
  ghost function Counter(state: seq<Byte>): nat {
    BytesVal(Lowered(state))
  }

  lemma CounterSnoc(s: seq<Byte>, b: Byte)
    ensures Counter(s + [b]) == Counter(s) * 256 + ByteBefore(b)
  {
    hide BytesVal;
    assert Lowered(s + [b]) == Lowered(s) + [ByteBefore(b)];
    BytesSnoc(Lowered(s), ByteBefore(b));
  }

  /** The increment adds one, not to the number in the state, but to the
      number in the lowered bytes. */
  lemma {:induction false} IncrementCounts(state: seq<Byte>)
    ensures Follows(Counter(Increment(state)), Counter(state), Pow(256, |state|))
    decreases |state|
  {
    hide BytesVal, Pow, Increment, Counter, ByteAfter, ByteBefore;
    if |state| == 0 {
      assert state == [];
      EmptyCounts();
    } else {
      var n := |state| - 1;
      var front, b := state[..n], state[n];
      assert state == front + [b];
      if b == 0 {
        IncrementCounts(front);
        CounterCarried(front);
      } else {
        CounterNotCarried(front, b);
      }
    }
  }

  lemma EmptyCounts()
    ensures Pow(256, 0) == 1 && Counter([]) == 0 && Increment([]) == []
  {
  }

  /** y follows x, counting modulo p. */
  ghost predicate Follows(y: int, x: int, p: int) {
    0 < p && y == (x + 1) % p
  }

  lemma CounterCarried(front: seq<Byte>)
    requires Follows(Counter(Increment(front)), Counter(front), Pow(256, |front|))
    ensures Follows(Counter(Increment(front + [0])), Counter(front + [0]), Pow(256, |front| + 1))
  {
    hide BytesVal, Pow, Increment, Counter, ByteAfter, ByteBefore, Follows;
    Around(0);
    CounterSnoc(front, 0);
    CounterBound(front);
    PowNext(|front|);
    IncrementEnds(front, 0);
    CounterSnoc(Increment(front), 1);
    Carried(Counter(front), Pow(256, |front|), Counter(front + [0]), Counter(Increment(front + [0])),
            Counter(Increment(front)), Pow(256, |front| + 1));
  }

  lemma CounterNotCarried(front: seq<Byte>, b: Byte)
    requires b != 0
    ensures Follows(Counter(Increment(front + [b])), Counter(front + [b]), Pow(256, |front| + 1))
  {
    hide BytesVal, Pow, Increment, Counter, ByteAfter, ByteBefore, Follows;
    Around(b);
    CounterSnoc(front, b);
    CounterBound(front);
    PowNext(|front|);
    IncrementEnds(front, b);
    var next: Byte := ByteAfter(b);
    CounterSnoc(front, next);
    assert Counter(Increment(front + [b])) == Counter(front) * 256 + b;
    NotCarried(Counter(front), Pow(256, |front|), Counter(front + [b]), Counter(Increment(front + [b])),
               b - 1, Pow(256, |front| + 1));
  }

  lemma Carried(c: int, m: int, x: int, y: int, d: int, p: int)
    requires 0 <= c < m && p == m * 256 && x == c * 256 + 255 && Follows(d, c, m) && y == d * 256
    ensures Follows(y, x, p)
  {
    CarryOut(c, m);
  }

  lemma NotCarried(c: int, m: int, x: int, y: int, b: int, p: int)
    requires 0 <= c < m && 0 <= b < 255 && p == m * 256 && x == c * 256 + b && y == c * 256 + (b + 1)
    ensures Follows(y, x, p)
  {
    NoCarryOut(c, b, m);
  }

  lemma Around(b: int)
    requires 0 <= b < 256
    ensures ByteBefore(0) == 255 && ByteBefore(1) == 0
    ensures b != 0 ==> ByteBefore(b) as int == b - 1
    ensures ByteBefore(ByteAfter(b)) as int == b
  {
  }

  lemma PowNext(n: nat)
    ensures Pow(256, n + 1) == Pow(256, n) * 256
  {
  }

  lemma CounterBound(state: seq<Byte>)
    ensures Counter(state) < Pow(256, |state|)
  {
    BytesBound(Lowered(state));
  }

  lemma CarryOut(c: int, m: int)
    requires 0 <= c < m
    ensures 0 < m * 256 && (c * 256 + 255 + 1) % (m * 256) == (c + 1) % m * 256
  {
    if c + 1 < m {
      ModSmall(c + 1, m);
      ModSmall((c + 1) * 256, m * 256);
    } else {
      DivModUnique(c + 1, 1, 0, m);
      DivModUnique((c + 1) * 256, 1, 0, m * 256);
    }
  }

  lemma NoCarryOut(c: int, b: int, m: int)
    requires 0 <= c < m && 0 <= b < 255
    ensures 0 < m * 256 && (c * 256 + b + 1) % (m * 256) == c * 256 + (b + 1)
  {
    ModSmall(c * 256 + b + 1, m * 256);
  }

  function States(state: seq<Byte>, k: nat): (s: seq<Byte>)
    ensures |s| == |state|
  {
    if k == 0 then state else Increment(States(state, k - 1))
  }

  lemma {:induction false} StatesCount(state: seq<Byte>, k: nat)
    ensures 0 < Pow(256, |state|)
    ensures Counter(States(state, k)) == (Counter(state) + k) % Pow(256, |state|)
  {
    var m := Pow(256, |state|);
    PowPositive(256, |state|);
    if k == 0 {
      CounterBound(state);
      ModSmall(Counter(state), m);
    } else {
      StatesCount(state, k - 1);
      IncrementCounts(States(state, k - 1));
      ModAdd(Counter(state) + (k - 1), 1, m);
    }
  }

  lemma BeforeInjective(a: int, b: int)
    requires 0 <= a < 256 && 0 <= b < 256 && ByteBefore(a) == ByteBefore(b)
    ensures a == b
  {
  }

  lemma CounterInjective(s: seq<Byte>, t: seq<Byte>)
    requires |s| == |t| && Counter(s) == Counter(t)
    ensures s == t
  {
    hide BytesVal;
    BytesUnique(Lowered(s), Lowered(t));
    hide ByteBefore;
    forall i | 0 <= i < |s|
      ensures s[i] == t[i]
    {
      assert Lowered(s)[i] == Lowered(t)[i];
      assert ByteBefore(s[i]) == ByteBefore(t[i]);
      BeforeInjective(s[i], t[i]);
    }
  }

  /** Two states on the way are the same exactly when a multiple of 256^16
      increments, for 16 bytes, lies between them. */
  lemma StatesRepeatIff(state: seq<Byte>, j: nat, k: nat)
    requires j <= k
    ensures 0 < Pow(256, |state|)
    ensures States(state, j) == States(state, k) <==> (k - j) % Pow(256, |state|) == 0
  {
    hide Counter, Pow, States;
    StatesCount(state, j);
    StatesCount(state, k);
    SameRemainder(Counter(state), j, k, Pow(256, |state|));
    if (k - j) % Pow(256, |state|) == 0 {
      CounterInjective(States(state, j), States(state, k));
    }
  }

  lemma SameRemainder(c: int, j: int, k: int, m: int)
    requires 0 < m
    ensures (c + j) % m == (c + k) % m <==> (k - j) % m == 0
  {
    if (k - j) % m == 0 {
      SameAfter(c + j, k - j, m);
      assert c + k == (c + j) + (k - j);
    }
    if (c + j) % m == (c + k) % m {
      var q := CongWitness(c + k, c + j, m);
      MultipleIsZero(k - j, q, m);
    }
  }

  lemma SameAfter(x: int, d: int, m: int)
    requires 0 < m && d % m == 0
    ensures (x + d) % m == x % m
  {
    ModAdd(d, x, m);
  }

  lemma MultipleIsZero(d: int, q: int, m: int)
    requires 0 < m && d == q * m
    ensures d % m == 0
  {
    ModMultipleIsZero(q, m);
  }

  /** The number in the state itself is counted up exactly when the last byte
      is neither 0 nor 255. */
  lemma PlainCounterIff(state: seq<Byte>)
    requires 2 <= |state|
    ensures 0 < Pow(256, |state|)
    ensures BytesVal(Increment(state)) == (BytesVal(state) + 1) % Pow(256, |state|)
            <==> 0 < state[|state| - 1] < 255
  {
    hide BytesVal, Pow, Increment;
    var n := |state| - 1;
    var front, b := state[..n], state[n];
    var c, m := BytesVal(front), Pow(256, n);
    PowAtLeast(n);
    assert state == front + [b];
    BytesSnoc(front, b);
    BytesBound(front);
    IncrementEnds(front, b);
    if b == 0 {
      var next := Increment(front);
      IncrementChanges(front);
      if BytesVal(next) == c {
        BytesUnique(next, front);
      }
      BytesSnoc(next, 1);
      NoCarryOut(c, 0, m);
    } else {
      BytesSnoc(front, ByteAfter(b));
      if b == 255 {
        CarryOut(c, m);
        if c + 1 < m {
          ModSmall(c + 1, m);
        } else {
          DivModUnique(c + 1, 1, 0, m);
        }
      } else {
        NoCarryOut(c, b, m);
      }
    }
  }

  lemma PowAtLeast(n: nat)
    requires 0 < n
    ensures 256 <= Pow(256, n) && Pow(256, n + 1) == Pow(256, n) * 256
  {
    PowPositive(256, n - 1);
  }

  /** The increment of a string with its last byte apart. */
  lemma IncrementEnds(front: seq<Byte>, b: Byte)
    ensures Increment(front + [b]) == if b == 0 then Increment(front) + [1] else front + [ByteAfter(b)]
  {
    assert (front + [b])[..|front|] == front;
  }

  /** It always changes the last byte. */
  lemma IncrementChanges(s: seq<Byte>)
    requires s != []
    ensures Increment(s) != s
  {
    var n := |s| - 1;
    assert Increment(s)[n] != s[n];
  }

  // ---------- the stream of bytes ----------

  /** What lies between two calls. */
  datatype Rand = Rand(state: seq<Byte>, output: seq<Byte>, available: nat) {
    predicate Valid() {
      |state| == 16 && |output| == 16 && available <= 16
    }
  }

  function Refilled(t: Transform, r: Rand): (q: Rand)
    requires r.Valid()
    ensures q.Valid() && q.available == 16
  {
    Rand(Increment(r.state), Digest(t, r.state), 16)
  }

  /** The next byte of the stream. */
  function Next(t: Transform, r: Rand): (q: (Byte, Rand))
    requires r.Valid()
    ensures q.1.Valid()
  {
    var f := if r.available == 0 then Refilled(t, r) else r;
    (f.output[16 - f.available], f.(available := f.available - 1))
  }

  /** Byte by byte. */
  function Stream(t: Transform, r: Rand, n: nat): (q: (seq<Byte>, Rand))
    requires r.Valid()
    ensures q.1.Valid() && |q.0| == n
  {
    if n == 0 then ([], r)
    else
      var p := Stream(t, r, n - 1);
      var b := Next(t, p.1);
      (p.0 + [b.0], b.1)
  }

  /** Drawing n bytes and then m is drawing n + m. */
  lemma {:induction false} StreamSplit(t: Transform, r: Rand, n: nat, m: nat)
    requires r.Valid()
    ensures var a := Stream(t, r, n);
            var b := Stream(t, a.1, m);
            Stream(t, r, n + m) == (a.0 + b.0, b.1)
    decreases m
  {
    hide Next;
    var a := Stream(t, r, n);
    if m == 0 {
      assert a.0 + [] == a.0;
    } else {
      StreamSplit(t, r, n, m - 1);
      var b := Stream(t, a.1, m - 1);
      var x := Next(t, b.1);
      assert a.0 + (b.0 + [x.0]) == (a.0 + b.0) + [x.0];
    }
  }

  /** q are the next n bytes at hand, and the object without them. */
  ghost predicate Copied(r: Rand, n: nat, q: (seq<Byte>, Rand))
    requires r.Valid() && n <= r.available
  {
    q == (r.output[16 - r.available..16 - r.available + n], r.(available := r.available - n))
  }

  /** Bytes at hand are only copied. */
  lemma {:induction false} StreamBuffered(t: Transform, r: Rand, n: nat)
    requires r.Valid() && n <= r.available
    ensures Copied(r, n, Stream(t, r, n))
  {
    hide Stream, Next, Copied;
    if n == 0 {
      StreamNothing(t, r);
      CopiedNone(r);
    } else {
      StreamBuffered(t, r, n - 1);
      StreamStep(t, r, n);
      CopiedNext(t, r, n, Stream(t, r, n - 1));
    }
  }

  lemma StreamNothing(t: Transform, r: Rand)
    requires r.Valid()
    ensures Stream(t, r, 0) == ([], r)
  {
  }

  lemma CopiedNone(r: Rand)
    requires r.Valid()
    ensures Copied(r, 0, ([], r))
  {
    assert r.output[16 - r.available..16 - r.available] == [];
  }

  lemma CopiedNext(t: Transform, r: Rand, n: nat, p: (seq<Byte>, Rand))
    requires r.Valid() && 0 < n <= r.available && p.1.Valid() && Copied(r, n - 1, p)
    ensures var b := Next(t, p.1); Copied(r, n, (p.0 + [b.0], b.1))
  {
    hide Next;
    NextBuffered(t, p.1);
    OneMore(r.output, 16 - r.available, n);
  }

  lemma NextBuffered(t: Transform, r: Rand)
    requires r.Valid() && 0 < r.available
    ensures Next(t, r) == (r.output[16 - r.available], r.(available := r.available - 1))
  {
  }

  lemma StreamStep(t: Transform, r: Rand, n: nat)
    requires r.Valid() && 0 < n
    ensures var p := Stream(t, r, n - 1);
            var b := Next(t, p.1);
            Stream(t, r, n) == (p.0 + [b.0], b.1)
  {
  }

  lemma OneMore(s: seq<Byte>, k: nat, n: nat)
    requires 0 < n && k + n <= |s|
    ensures s[k..k + n] == s[k..k + (n - 1)] + [s[k + (n - 1)]]
  {
  }

  /** With nothing at hand, new output comes first. */
  lemma {:induction false} StreamRefilled(t: Transform, r: Rand, n: nat)
    requires r.Valid() && r.available == 0 && 0 < n
    ensures Stream(t, r, n) == Stream(t, Refilled(t, r), n)
  {
    if n == 1 {
      assert Stream(t, r, 0) == ([], r);
      assert Stream(t, Refilled(t, r), 0) == ([], Refilled(t, r));
    } else {
      hide Next, Refilled;
      StreamRefilled(t, r, n - 1);
    }
  }

  /** The whole buffer, a refill, and the rest. */
  lemma StreamRound(t: Transform, r: Rand, n: nat)
    requires r.Valid() && r.available < n
    ensures var q := Stream(t, Refilled(t, r), n - r.available);
            Stream(t, r, n) == (r.output[16 - r.available..] + q.0, q.1)
  {
    hide Next, Refilled, Stream;
    StreamSplit(t, r, r.available, n - r.available);
    StreamBuffered(t, r, r.available);
    var empty := r.(available := 0);
    StreamRefilled(t, empty, n - r.available);
    RefilledSame(t, r, empty);
    assert r.output[16 - r.available..16] == r.output[16 - r.available..];
  }

  lemma RefilledSame(t: Transform, r: Rand, s: Rand)
    requires r.Valid() && s.Valid() && r.state == s.state
    ensures Refilled(t, r) == Refilled(t, s)
  {
  }

  /** Of the len bytes from r on, block is drawn and left bytes follow. */
  ghost predicate DrawnUpTo(t: Transform, r: Rand, len: nat, block: seq<Byte>, now: Rand, left: nat)
    requires r.Valid() && now.Valid()
  {
    var rest := Stream(t, now, left);
    Stream(t, r, len) == (block + rest.0, rest.1)
  }

  lemma DrawStart(t: Transform, r: Rand, len: nat)
    requires r.Valid()
    ensures DrawnUpTo(t, r, len, [], r, len)
  {
    hide Stream;
    var all := Stream(t, r, len);
    assert [] + all.0 == all.0;
  }

  lemma DrawRound(t: Transform, r: Rand, len: nat, block: seq<Byte>, now: Rand, left: nat)
    requires r.Valid() && now.Valid() && now.available < left && DrawnUpTo(t, r, len, block, now, left)
    ensures DrawnUpTo(t, r, len, block + now.output[16 - now.available..], Refilled(t, now), left - now.available)
  {
    hide Stream, Refilled;
    StreamRound(t, now, left);
    var rest := Stream(t, Refilled(t, now), left - now.available);
    var part := now.output[16 - now.available..];
    assert block + (part + rest.0) == (block + part) + rest.0;
  }

  lemma DrawEnd(t: Transform, r: Rand, len: nat, block: seq<Byte>, now: Rand, left: nat)
    requires r.Valid() && now.Valid() && left <= now.available && DrawnUpTo(t, r, len, block, now, left)
    ensures Stream(t, r, len)
            == (block + now.output[16 - now.available..16 - now.available + left],
                now.(available := now.available - left))
  {
    hide Stream;
    StreamBuffered(t, now, left);
  }

  /** With nothing at hand, the next 16 bytes are the digest of the state, in
      order, and the state is incremented. */
  lemma NextSixteen(t: Transform, r: Rand)
    requires r.Valid() && r.available == 0
    ensures var q := Stream(t, r, 16);
            q.0 == Digest(t, r.state) && q.1 == Rand(Increment(r.state), Digest(t, r.state), 0)
  {
    hide Stream, Digest, Increment;
    StreamRefilled(t, r, 16);
    var f := Refilled(t, r);
    StreamBuffered(t, f, 16);
    assert f.output[16 - 16..16 - 16 + 16] == f.output;
  }

  /** The digests of the first k states. */
  function Digests(t: Transform, state: seq<Byte>, k: nat): (s: seq<Byte>)
    requires |state| == 16
  {
    if k == 0 then [] else Digests(t, state, k - 1) + Digest(t, States(state, k - 1))
  }

  /** The whole stream is the digests of the states one after the other, and
      these are all different for 256^16 blocks (see StatesRepeatIff). */
  lemma {:induction false} StreamIsDigests(t: Transform, r: Rand, k: nat)
    requires r.Valid() && r.available == 0
    ensures var q := Stream(t, r, 16 * k);
            q.0 == Digests(t, r.state, k) && q.1.state == States(r.state, k) && q.1.available == 0
  {
    hide Stream, Digest, Increment, States, Digests;
    if k == 0 {
      StreamNothing(t, r);
      NoDigests(t, r.state);
    } else {
      StreamIsDigests(t, r, k - 1);
      MoreDigests(t, r, k - 1, Stream(t, r, 16 * (k - 1)));
      StreamSplit(t, r, 16 * (k - 1), 16);
      assert 16 * (k - 1) + 16 == 16 * k;
    }
  }

  lemma NoDigests(t: Transform, state: seq<Byte>)
    requires |state| == 16
    ensures Digests(t, state, 0) == [] && States(state, 0) == state
  {
  }

  lemma MoreDigests(t: Transform, r: Rand, k: nat, p: (seq<Byte>, Rand))
    requires r.Valid() && p.1.Valid() && p.1.available == 0
    requires p.0 == Digests(t, r.state, k) && p.1.state == States(r.state, k)
    ensures var q := Stream(t, p.1, 16);
            && p.0 + q.0 == Digests(t, r.state, k + 1) && q.1.state == States(r.state, k + 1)
            && q.1.available == 0
  {
    hide Stream, Digest, Increment;
    NextSixteen(t, p.1);
  }

  // ---------- the object ----------

  class RandomStruct {
    const transform: Transform
    const state: array<Byte>
    const output: array<Byte>
    var outputAvailable: nat
    var bytesNeeded: nat

    predicate Valid()
      reads this
    {
      state.Length == 16 && output.Length == 16 && outputAvailable <= 16 && state != output
    }

    function Value(): (r: Rand)
      reads this, state, output
      requires Valid()
      ensures r.Valid()
    {
      Rand(state[..], output[..], outputAvailable)
    }

    constructor (transform: Transform)
      ensures Valid() && fresh(state) && fresh(output)
      ensures bytesNeeded == RANDOM_BYTES_RQ && outputAvailable == 0
      ensures BytesVal(state[..]) == 0 && this.transform == transform
    {
      this.transform := transform;
      state := new Byte[16](_ => 0);
      output := new Byte[16];
      outputAvailable, bytesNeeded := 0, RANDOM_BYTES_RQ;
      new;
      ZeroVal(state[..]);
    }

    /** The increment in place, from the last byte on. */
    method IncrementState()
      requires Valid()
      modifies state
      ensures state[..] == Increment(old(state[..]))
    {
      hide Increment;
      ghost var was := state[..];
      var i := 16;
      assert was[..i] == was && state[i..] == [];
      assert Increment(was) + [] == Increment(was);
      while i > 0
        invariant 0 <= i <= 16
        invariant state[..i] == was[..i]
        invariant Increment(was) == Increment(was[..i]) + state[i..]
      {
        ghost var tail := state[i..];
        var b := state[i - 1];
        assert was[..i] == was[..i - 1] + [b];
        IncrementEnds(was[..i - 1], b);
        state[i - 1] := ByteAfter(b);
        assert state[i - 1..] == [ByteAfter(b)] + tail;
        if b != 0 {
          assert state[..] == state[..i - 1] + state[i - 1..];
          return;
        }
        i := i - 1;
      }
    }

    method NewOutput()
      requires Valid()
      modifies output
      ensures output[..] == Digest(transform, state[..])
    {
      var digest := DigestBlock(transform, state[..]);
      CopyIn(output, 0, digest);
    }

    /** The next len bytes of the stream; nothing happens while more seed is
        needed. */
    method GenerateBytes(len: nat) returns (r: Result<seq<Byte>>)
      requires Valid()
      modifies this`outputAvailable, state, output
      ensures Valid()
      ensures bytesNeeded != 0 ==> r == Err(RE_NEED_RANDOM) && Value() == old(Value())
      ensures bytesNeeded == 0 ==> r.Ok? && (r.value, Value()) == Stream(transform, old(Value()), len)
    {
      hide Next, Refilled, Stream, Increment, Digest, DrawnUpTo, Copied;
      if bytesNeeded != 0 {
        return Err(RE_NEED_RANDOM);
      }
      ghost var start := Value();
      var avail, left, block := outputAvailable, len, [];
      DrawStart(transform, start, len);
      while avail < left
        invariant Valid() && avail <= 16
        invariant DrawnUpTo(transform, start, len, block, Rand(state[..], output[..], avail), left)
        decreases left, 16 - avail
      {
        ghost var now := Rand(state[..], output[..], avail);
        DrawRound(transform, start, len, block, now, left);
        block := block + output[16 - avail..];
        left := left - avail;
        NewOutput();
        avail := 16;
        IncrementState();
        RefilledIs(transform, now, Rand(state[..], output[..], avail));
      }
      DrawEnd(transform, start, len, block, Rand(state[..], output[..], avail), left);
      block := block + output[16 - avail..16 - avail + left];
      outputAvailable := avail - left;
      r := Ok(block);
    }

    /** Adds the digest of a block to the state, a number of 128 bits. */
    method RandomUpdate(block: seq<Byte>)
      requires Valid() && Takes(0, |block|)
      modifies this`bytesNeeded, state
      ensures Valid() && outputAvailable == old(outputAvailable) && output[..] == old(output[..])
      ensures 0 < Pow(256, 16)
      ensures BytesVal(state[..]) == (BytesVal(old(state[..])) + BytesVal(Digest(transform, block))) % Pow(256, 16)
      ensures bytesNeeded == if old(bytesNeeded) < |block| then 0 else old(bytesNeeded) - |block|
    {
      hide BytesVal, Pow, Digest;
      var digest := DigestBlock(transform, block);
      AddDigest(digest);
      if bytesNeeded < |block| {
        bytesNeeded := 0;
      } else {
        bytesNeeded := bytesNeeded - |block|;
      }
    }

    method AddDigest(digest: seq<Byte>)
      requires Valid() && |digest| == 16
      modifies state
      ensures 0 < Pow(256, 16)
      ensures BytesVal(state[..]) == (BytesVal(old(state[..])) + BytesVal(digest)) % Pow(256, 16)
    {
      hide BytesVal, Pow, Added;
      ghost var was := state[..];
      AddedNothing();
      assert state[16..] == [] && was[16..] == [] && digest[16..] == [];
      var j: int := 0;
      var i := 16;
      while i > 0
        invariant 0 <= i <= 16 && 0 <= j <= 1
        invariant state[..i] == was[..i]
        invariant Added(j, state[i..], was[i..], digest[i..])
      {
        ghost var tail, carry := state[i..], j;
        j := j + state[i - 1] as int + digest[i - 1] as int;
        ghost var sum := j;
        state[i - 1] := LowByte(j);
        j := j / 256;
        i := i - 1;
        assert state[i..] == [LowByte(sum)] + tail;
        assert was[i..] == [was[i]] + was[i + 1..] && digest[i..] == [digest[i]] + digest[i + 1..];
        AddedStep(carry, sum, tail, was[i], was[i + 1..], digest[i], digest[i + 1..]);
      }
      assert state[0..] == state[..] && was[0..] == was && digest[0..] == digest;
      AddedMod(j, state[..], was, digest);
    }
  }

  function LowByte(j: int): Byte {
    j % 256
  }

  lemma ZeroVal(s: seq<Byte>)
    requires forall i :: 0 <= i < |s| ==> s[i] == 0
    ensures BytesVal(s) == 0
  {
    if s != [] {
      ZeroVal(s[..|s| - 1]);
    }
  }

  lemma RefilledIs(t: Transform, r: Rand, q: Rand)
    requires r.Valid() && q == Rand(Increment(r.state), Digest(t, r.state), 16)
    ensures q == Refilled(t, r)
  {
  }

  /** The sum of two strings, with the carry in front. */
  ghost predicate Added(carry: int, sum: seq<Byte>, s: seq<Byte>, t: seq<Byte>) {
    && |sum| == |s| == |t|
    && carry * Pow(256, |sum|) + BytesVal(sum) == BytesVal(s) + BytesVal(t)
  }

  lemma AddedNothing()
    ensures Added(0, [], [], [])
  {
    BytesEmpty();
  }

  lemma AddedStep(carry: int, j: int, sum: seq<Byte>, a: Byte, s: seq<Byte>, b: Byte, t: seq<Byte>)
    requires Added(carry, sum, s, t) && j == carry + a as int + b as int
    ensures Added(j / 256, [LowByte(j)] + sum, [a] + s, [b] + t)
  {
    hide BytesVal;
    BytesCons(LowByte(j), sum);
    BytesCons(a, s);
    BytesCons(b, t);
    var p := Pow(256, |sum|);
    assert Pow(256, |sum| + 1) == 256 * p;
    AddedProducts(carry, j, a, b, p);
  }

  lemma AddedProducts(carry: int, j: int, a: int, b: int, p: int)
    requires j == carry + a + b
    ensures j / 256 * (256 * p) + j % 256 * p == carry * p + a * p + b * p
  {
    assert j == j / 256 * 256 + j % 256;
  }

  lemma AddedMod(carry: int, sum: seq<Byte>, s: seq<Byte>, t: seq<Byte>)
    requires Added(carry, sum, s, t)
    ensures 0 < Pow(256, |sum|) && BytesVal(sum) == (BytesVal(s) + BytesVal(t)) % Pow(256, |sum|)
  {
    PowPositive(256, |sum|);
    BytesBound(sum);
    DivModUnique(BytesVal(s) + BytesVal(t), carry, BytesVal(sum), Pow(256, |sum|));
  }
}
