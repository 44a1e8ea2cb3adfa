/** Sealing and opening an envelope: partial blocks are buffered, the last
    block is padded, and nothing depends on how the data is split. */
module Envelope {
  import opened Outcome
  import opened Sequences
  import opened Des
  import opened Cbc

  // ---------- the simple form ----------

  /** What lies between two calls: the chaining value and the bytes not yet
      processed. */
  datatype Flow = Flow(iv: Halves, pending: seq<Octet>)

  /** How many of the bytes at hand are processed: sealing takes every whole
      block, opening keeps the last one back. */
  function Ready(seal: bool, len: nat): (n: nat)
    ensures n <= len && n % 8 == 0
    ensures seal ==> len - n < 8
    ensures !seal ==> len - n <= 8 && (0 < len ==> n < len)
  {
    if seal then 8 * (len / 8) else if len == 0 then 0 else 8 * ((len - 1) / 8)
  }

  /** The output of one call, and what lies behind it. */
  function Advance(c: Cipher, seal: bool, f: Flow, part: seq<Octet>, sp: SBoxes): (r: (seq<Octet>, Flow))
    requires Scheduled(c) && Boxes(sp)
  {
    var total := f.pending + part;
    var n := Ready(seal, |total|);
    var r := Run(c, seal, f.iv, total[..n], sp);
    (r.0, Flow(r.1, total[n..]))
  }

  function AdvanceAll(c: Cipher, seal: bool, f: Flow, parts: seq<seq<Octet>>, sp: SBoxes): (r: (seq<Octet>, Flow))
    requires Scheduled(c) && Boxes(sp)
  {
    if |parts| == 0 then ([], f)
    else
      var before := AdvanceAll(c, seal, f, parts[..|parts| - 1], sp);
      var last := Advance(c, seal, before.1, parts[|parts| - 1], sp);
      (before.0 + last.0, last.1)
  }

  lemma ReadyTwice(seal: bool, a: nat, b: nat)
    ensures Ready(seal, a) + Ready(seal, a - Ready(seal, a) + b) == Ready(seal, a + b)
  {
    var q := Ready(seal, a) / 8;
    var r := a - 8 * q;
    assert a + b == 8 * q + (r + b);
    ReadyShift(seal, q, r + b);
  }

  lemma ReadyShift(seal: bool, q: nat, len: nat)
    requires seal || 0 < len || q == 0
    ensures Ready(seal, 8 * q + len) == 8 * q + Ready(seal, len)
  {
    if seal {
      assert (8 * q + len) / 8 == q + len / 8;
    } else if 0 < len {
      assert (8 * q + len - 1) / 8 == q + (len - 1) / 8;
    }
  }

  /** Two calls do what one call on both parts does. */
  lemma AdvanceTwice(c: Cipher, seal: bool, f: Flow, a: seq<Octet>, b: seq<Octet>, sp: SBoxes)
    requires Scheduled(c) && Boxes(sp)
    ensures var ra := Advance(c, seal, f, a, sp);
            var rb := Advance(c, seal, ra.1, b, sp);
            Advance(c, seal, f, a + b, sp) == (ra.0 + rb.0, rb.1)
  {
    hide Run, Ready;
    var total := f.pending + a;
    var n := Ready(seal, |total|);
    var more := total[n..] + b;
    var m := Ready(seal, |more|);
    ReadyTwice(seal, |total|, |b|);
    var all := f.pending + (a + b);
    assert all[..n + m] == total[..n] + more[..m];
    assert all[n + m..] == more[m..];
    RunSplit(c, seal, f.iv, total[..n], more[..m], sp);
  }

  lemma NoneReady(seal: bool, len: nat)
    requires if seal then len < 8 else len <= 8
    ensures Ready(seal, len) == 0
  {
  }

  lemma ReadyOf(len: nat)
    ensures Ready(true, len) == 8 * (len / 8)
    ensures 0 < len ==> Ready(false, len) == 8 * ((len - 1) / 8)
  {
  }

  /** The output once the buffer could be filled: that block, and the n bytes
      of whole blocks behind it. */
  lemma AdvanceFilled(c: Cipher, seal: bool, f: Flow, part: seq<Octet>, n: nat, sp: SBoxes)
    requires Scheduled(c) && Boxes(sp) && n % 8 == 0
    requires |f.pending| <= 8 <= |f.pending + part| && (seal || 8 < |f.pending + part|)
    requires n == Ready(seal, |f.pending + part| - 8)
    ensures var temp := 8 - |f.pending|;
            var rest := part[temp..];
            var first := Run(c, seal, f.iv, f.pending + part[..temp], sp);
            var more := Run(c, seal, first.1, rest[..n], sp);
            Advance(c, seal, f, part, sp) == (first.0 + more.0, Flow(more.1, rest[n..]))
  {
    hide Run, Ready;
    var temp := 8 - |f.pending|;
    var rest := part[temp..];
    var total := f.pending + part;
    ReadyShift(seal, 1, |total| - 8);
    assert total[..8 + n] == (f.pending + part[..temp]) + rest[..n];
    assert total[8 + n..] == rest[n..];
    RunSplit(c, seal, f.iv, f.pending + part[..temp], rest[..n], sp);
  }

  /** With less than that, the bytes are only kept. */
  lemma AdvanceKept(c: Cipher, seal: bool, f: Flow, part: seq<Octet>, sp: SBoxes)
    requires Scheduled(c) && Boxes(sp) && Ready(seal, |f.pending + part|) == 0
    ensures Advance(c, seal, f, part, sp) == ([], Flow(f.iv, f.pending + part))
  {
    var total := f.pending + part;
    assert total[..0] == [] && total[0..] == total;
  }

  /** Any split gives what one call on the whole gives. */
  lemma {:induction false} AnySplit(c: Cipher, seal: bool, f: Flow, parts: seq<seq<Octet>>, sp: SBoxes)
    requires Scheduled(c) && Boxes(sp) && Ready(seal, |f.pending|) == 0
    ensures AdvanceAll(c, seal, f, parts, sp) == Advance(c, seal, f, Flatten(parts), sp)
    decreases |parts|
  {
    if |parts| == 0 {
      assert f.pending + [] == f.pending;
      assert f.pending[..0] == [];
    } else {
      hide Advance;
      AnySplit(c, seal, f, parts[..|parts| - 1], sp);
      AdvanceTwice(c, seal, f, Flatten(parts[..|parts| - 1]), parts[|parts| - 1], sp);
    }
  }

  // ---------- padding ----------

  function Repeat(b: Octet, n: nat): (s: seq<Octet>)
    ensures |s| == n && forall i :: 0 <= i < n ==> s[i] == b
  {
    seq(n, i => b)
  }

  function PadLen(len: nat): (n: nat)
    ensures 1 <= n <= 8 && (len + n) % 8 == 0
  {
    8 - len % 8
  }

  /** The message with 1 to 8 bytes, each of them their number, behind it. */
  function Padded(x: seq<Octet>): (s: seq<Octet>)
    ensures |s| % 8 == 0 && |s| == |x| + PadLen(|x|)
  {
    x + Repeat(PadLen(|x|) as Octet, PadLen(|x|))
  }

  /** Behind the message there are between one and eight bytes, which complete
      the block, and each of them is their number. */
  lemma PaddedBytes(x: seq<Octet>)
    ensures var s := Padded(x);
            && |s| % 8 == 0 && |x| < |s| <= |x| + 8 && s[..|x|] == x
            && forall i :: |x| <= i < |s| ==> s[i] as int == |s| - |x|
  {
  }

  /** What the last decrypted block holds besides its padding. */
  function Unpadded(last: seq<Octet>): (r: Result<seq<Octet>>)
    requires |last| == 8
  {
    var padLen := last[7] as nat;
    if padLen == 0 || padLen > 8 then Err(RE_KEY)
    else if last[8 - padLen..] != Repeat(last[7], padLen) then Err(RE_KEY)
    else Ok(last[..8 - padLen])
  }

  /** A block is accepted exactly when it is a padded string. */
  lemma UnpaddedIff(last: seq<Octet>, x: seq<Octet>)
    requires |last| == 8
    ensures Unpadded(last) == Ok(x) <==> |x| < 8 && last == Padded(x)
  {
    if |x| < 8 && last == Padded(x) {
      hide Repeat;
      assert PadLen(|x|) == 8 - |x|;
      PaddedTail(last, x, 8 - |x|);
    }
    if Unpadded(last) == Ok(x) {
      hide Repeat;
      var n := last[7] as nat;
      assert |x| == 8 - n && PadLen(|x|) == n && n as Octet == last[7];
      assert last == last[..8 - n] + last[8 - n..];
    }
  }

  lemma PaddedTail(last: seq<Octet>, x: seq<Octet>, n: nat)
    requires |last| == 8 && 1 <= n <= 8 && |x| == 8 - n && last == x + Repeat(n as Octet, n)
    ensures last[7] == n as Octet && last[7] as nat == n
    ensures last[8 - n..] == Repeat(last[7], n) && last[..8 - n] == x
  {
    hide Repeat;
    assert last[7] == Repeat(n as Octet, n)[n - 1];
  }

  lemma PaddedWith(x: seq<Octet>, n: nat)
    requires |x| + n == 8 && 1 <= n
    ensures Padded(x) == x + Repeat(n as Octet, n)
  {
    assert PadLen(|x|) == n;
  }

  /** Padding fills up the last block only. */
  lemma PaddedSplit(x: seq<Octet>)
    ensures var n := Ready(true, |x|); Padded(x) == x[..n] + Padded(x[n..])
  {
    var n := Ready(true, |x|);
    assert PadLen(|x|) == PadLen(|x[n..]|);
    assert x == x[..n] + x[n..];
  }

  // ---------- whole envelopes ----------

  /** The ciphertext of a message handed over in parts, from the state f on:
      the outputs of the updates and of the final call. */
  function Sealed(c: Cipher, f: Flow, parts: seq<seq<Octet>>, sp: SBoxes): (s: seq<Octet>)
    requires Scheduled(c) && Boxes(sp)
  {
    var r := AdvanceAll(c, true, f, parts, sp);
    r.0 + SealEnd(c, r.1, sp)
  }

  /** The output of the final call. */
  function SealEnd(c: Cipher, f: Flow, sp: SBoxes): (s: seq<Octet>)
    requires Scheduled(c) && Boxes(sp)
  {
    Run(c, true, f.iv, Padded(f.pending), sp).0
  }

  /** The plaintext of a ciphertext handed over in parts, from the state f on. */
  function Opened(c: Cipher, f: Flow, parts: seq<seq<Octet>>, sp: SBoxes): (r: Result<seq<Octet>>)
    requires Scheduled(c) && Boxes(sp)
  {
    var a := AdvanceAll(c, false, f, parts, sp);
    match OpenEnd(c, a.1, sp)
    case Err(e) => Err(e)
    case Ok(rest) => Ok(a.0 + rest)
  }

  function OpenEnd(c: Cipher, f: Flow, sp: SBoxes): (r: Result<seq<Octet>>)
    requires Scheduled(c) && Boxes(sp)
  {
    if |f.pending| == 0 then Ok([])
    else if |f.pending| != 8 then Err(RE_KEY)
    else Unpadded(Run(c, false, f.iv, f.pending, sp).0)
  }

  /** Sealing under any split is chaining over the padded message at once. */
  lemma SealedOneShot(c: Cipher, f: Flow, parts: seq<seq<Octet>>, sp: SBoxes)
    requires Scheduled(c) && Boxes(sp) && |f.pending| < 8
    ensures Sealed(c, f, parts, sp) == Run(c, true, f.iv, Padded(f.pending + Flatten(parts)), sp).0
  {
    hide Run, Ready, Padded, Flatten, AdvanceAll;
    var x := f.pending + Flatten(parts);
    NoneReady(true, |f.pending|);
    AnySplit(c, true, f, parts, sp);
    PaddedSplit(x);
    var n := Ready(true, |x|);
    RunSplit(c, true, f.iv, x[..n], Padded(x[n..]), sp);
  }

  /** Opening under any split accepts exactly the ciphertexts that decrypt to
      a padded message; the empty ciphertext opens as the empty message. */
  lemma OpenedIff(c: Cipher, f: Flow, parts: seq<seq<Octet>>, x: seq<Octet>, sp: SBoxes)
    requires Scheduled(c) && Boxes(sp) && |f.pending| <= 8
    ensures var s := f.pending + Flatten(parts);
            Opened(c, f, parts, sp) == Ok(x) <==>
            if s == [] then x == [] else |s| % 8 == 0 && Run(c, false, f.iv, s, sp).0 == Padded(x)
  {
    hide Run, Unpadded, Padded, Ready, Flatten, AdvanceAll, Scheduled;
    var s := f.pending + Flatten(parts);
    NoneReady(false, |f.pending|);
    AnySplit(c, false, f, parts, sp);
    var n := Ready(false, |s|);
    if s != [] && |s| % 8 == 0 {
      var head := Run(c, false, f.iv, s[..n], sp);
      var last := Run(c, false, head.1, s[n..], sp).0;
      RunSplit(c, false, f.iv, s[..n], s[n..], sp);
      assert s == s[..n] + s[n..];
      OpenedBlocks(head.0, last, x);
    }
  }

  /** Whole blocks with an accepted last one are the padded message. */
  lemma OpenedBlocks(head: seq<Octet>, last: seq<Octet>, x: seq<Octet>)
    requires |head| % 8 == 0 && |last| == 8
    ensures (Unpadded(last).Ok? && head + Unpadded(last).value == x) <==> head + last == Padded(x)
  {
    hide Unpadded, Padded;
    if Unpadded(last).Ok? && head + Unpadded(last).value == x {
      var y := Unpadded(last).value;
      UnpaddedIff(last, y);
      assert Ready(true, |x|) == |head| && x[..|head|] == head && x[|head|..] == y;
      PaddedSplit(x);
    }
    if head + last == Padded(x) {
      var n := Ready(true, |x|);
      assert n == |head|;
      PaddedSplit(x);
      assert (head + last)[..n] == head && (head + last)[n..] == last;
      assert (x[..n] + Padded(x[n..]))[..n] == x[..n] && (x[..n] + Padded(x[n..]))[n..] == Padded(x[n..]);
      UnpaddedIff(last, x[n..]);
      assert head + x[n..] == x;
    }
  }

  /** Opening what was sealed returns the message, whatever the two splits;
      bytes that were pending before come first. */
  lemma RoundTrip(e: Cipher, d: Cipher, f: Flow, plain: seq<seq<Octet>>, parts: seq<seq<Octet>>, sp: SBoxes)
    requires Undoes(e, d) && Boxes(sp) && |f.pending| < 8
    ensures Scheduled(e) && Scheduled(d)
    ensures Flatten(parts) == Sealed(e, f, plain, sp) ==>
              Opened(d, Flow(f.iv, []), parts, sp) == Ok(f.pending + Flatten(plain))
  {
    hide Run, Sealed, Opened, Padded;
    UndoesScheduled(e, d);
    var x := f.pending + Flatten(plain);
    if Flatten(parts) == Sealed(e, f, plain, sp) {
      SealedOneShot(e, f, plain, sp);
      RunBack(e, d, f.iv, Padded(x), sp);
      OpenedIff(d, Flow(f.iv, []), parts, x, sp);
      assert [] + Flatten(parts) == Flatten(parts);
    }
  }

  /** The same from the key: two contexts set up for one key, one for each
      direction. */
  lemma KeyRoundTrip(e: Cipher, d: Cipher, alg: Algorithm, key: seq<Octet>, expand: Expansion, iv: Halves,
                     plain: seq<seq<Octet>>, parts: seq<seq<Octet>>, sp: SBoxes)
    requires |key| == KeyLen(alg) && Boxes(sp)
    requires Initialised(e, alg, key, true, expand) && Initialised(d, alg, key, false, expand)
    ensures Scheduled(e) && Scheduled(d)
    ensures Flatten(parts) == Sealed(e, Flow(iv, []), plain, sp) ==>
              Opened(d, Flow(iv, []), parts, sp) == Ok(Flatten(plain))
  {
    hide Initialised, Undoes, Sealed, Opened, Scheduled;
    InitialisedUndoes(e, d, alg, key, expand);
    RoundTrip(e, d, Flow(iv, []), plain, parts, sp);
    assert [] + Flatten(plain) == Flatten(plain);
  }

  /** One more part. */
  lemma AdvanceNext(c: Cipher, seal: bool, f: Flow, parts: seq<seq<Octet>>, part: seq<Octet>, sp: SBoxes)
    requires Scheduled(c) && Boxes(sp)
    ensures Flatten(parts + [part]) == Flatten(parts) + part
    ensures var before := AdvanceAll(c, seal, f, parts, sp);
            var last := Advance(c, seal, before.1, part, sp);
            AdvanceAll(c, seal, f, parts + [part], sp) == (before.0 + last.0, last.1)
  {
    hide Advance;
    assert (parts + [part])[..|parts|] == parts;
  }

  // ---------- the contexts ----------

  /** An envelope context: a buffer of one block in front of a cipher. */
  class EnvelopeCtx {
    const cipher: Context
    const buffer: array<Octet>
    var bufferLen: nat

    predicate Valid()
      reads this
    {
      buffer.Length == 8 && bufferLen <= 8 && Scheduled(cipher.cipher)
    }

    function State(): Flow
      reads this, buffer, cipher
      requires Valid()
    {
      Flow(cipher.iv, buffer[..bufferLen])
    }

    constructor (cipher: Context)
      requires Scheduled(cipher.cipher)
      ensures Valid() && this.cipher == cipher && fresh(buffer)
      ensures State() == Flow(cipher.iv, [])
    {
      this.cipher := cipher;
      buffer := new Octet[8];
      bufferLen := 0;
    }

    /** Fills the buffer up and runs the cipher on it. */
    method RunBuffer(part: seq<Octet>, sp: SBoxes) returns (out: seq<Octet>)
      requires Valid() && bufferLen + |part| == 8 && Boxes(sp)
      modifies buffer, cipher`iv
      ensures (out, cipher.iv) == Run(cipher.cipher, cipher.encrypt, old(cipher.iv), old(State()).pending + part, sp)
    {
      hide Run, EncryptChained, DecryptChained, Scheduled;
      CopyIn(buffer, bufferLen, part);
      assert buffer[..] == old(State()).pending + part;
      var o, _ := cipher.Update(buffer[..], sp);
      out := o;
    }

    /** Leaves what is not processed in the buffer. */
    method KeepRest(rest: seq<Octet>)
      requires Valid() && |rest| <= 8
      modifies this`bufferLen, buffer
      ensures Valid() && State() == Flow(cipher.iv, rest)
    {
      CopyIn(buffer, 0, rest);
      bufferLen := |rest|;
      assert buffer[..bufferLen] == rest;
    }

    /** Fills the buffer, encrypts it and the whole blocks behind it, and
        keeps the rest. */
    method SealUpdate(partIn: seq<Octet>, sp: SBoxes) returns (partOut: seq<Octet>)
      requires Valid() && bufferLen < 8 && cipher.encrypt && Boxes(sp)
      modifies this`bufferLen, buffer, cipher`iv
      ensures Valid() && bufferLen < 8
      ensures (partOut, State()) == Advance(cipher.cipher, true, old(State()), partIn, sp)
      ensures |partOut| <= |partIn| + 7
    {
      hide Run, EncryptChained, DecryptChained, Scheduled, Advance, Ready;
      ghost var f := State();
      var temp := 8 - bufferLen;
      if |partIn| < temp {
        CopyIn(buffer, bufferLen, partIn);
        bufferLen := bufferLen + |partIn|;
        assert buffer[..bufferLen] == f.pending + partIn;
        NoneReady(true, |f.pending + partIn|);
        AdvanceKept(cipher.cipher, true, f, partIn, sp);
        return [];
      }
      var first := RunBuffer(partIn[..temp], sp);
      var rest := partIn[temp..];
      var n := 8 * (|rest| / 8);
      var more, _ := cipher.Update(rest[..n], sp);
      ReadyOf(|rest|);
      AdvanceFilled(cipher.cipher, true, f, partIn, n, sp);
      KeepRest(rest[n..]);
      partOut := first + more;
    }

    /** Pads and encrypts the last block, and restarts. */
    method SealFinal(sp: SBoxes) returns (partOut: seq<Octet>)
      requires Valid() && bufferLen < 8 && cipher.encrypt && Boxes(sp)
      modifies this`bufferLen, buffer, cipher`iv
      ensures Valid() && State() == Flow(cipher.originalIV, [])
      ensures partOut == SealEnd(cipher.cipher, old(State()), sp) && |partOut| == 8
    {
      hide Run, EncryptChained, DecryptChained, Scheduled, Padded, Repeat;
      ghost var f := State();
      var padLen := 8 - bufferLen;
      CopyIn(buffer, bufferLen, Repeat(padLen as Octet, padLen));
      PaddedWith(f.pending, padLen);
      assert buffer[..] == Padded(f.pending);
      var last, _ := cipher.Update(buffer[..], sp);
      partOut := last;
      cipher.Restart();
      bufferLen := 0;
    }

    /** Fills the buffer and decrypts as long as at least one byte stays. */
    method OpenUpdate(partIn: seq<Octet>, sp: SBoxes) returns (partOut: seq<Octet>)
      requires Valid() && !cipher.encrypt && Boxes(sp)
      modifies this`bufferLen, buffer, cipher`iv
      ensures Valid()
      ensures (partOut, State()) == Advance(cipher.cipher, false, old(State()), partIn, sp)
      ensures bufferLen == 0 ==> State() == old(State())
      ensures |partOut| <= |partIn| + 7
    {
      hide Run, EncryptChained, DecryptChained, Scheduled, Advance, Ready;
      ghost var f := State();
      var tempLen := 8 - bufferLen;
      if |partIn| <= tempLen {
        CopyIn(buffer, bufferLen, partIn);
        bufferLen := bufferLen + |partIn|;
        assert buffer[..bufferLen] == f.pending + partIn;
        NoneReady(false, |f.pending + partIn|);
        AdvanceKept(cipher.cipher, false, f, partIn, sp);
        return [];
      }
      var first := RunBuffer(partIn[..tempLen], sp);
      var rest := partIn[tempLen..];
      var n := 8 * ((|rest| - 1) / 8);
      var more, _ := cipher.Update(rest[..n], sp);
      ReadyOf(|rest|);
      AdvanceFilled(cipher.cipher, false, f, partIn, n, sp);
      KeepRest(rest[n..]);
      partOut := first + more;
    }

    /** Decrypts the last block and strips its padding; restarts unless the
        block is refused. A context without input is left as it is, and a
        refused block stays in the buffer. */
    method OpenFinal(sp: SBoxes) returns (partOut: Result<seq<Octet>>)
      requires Valid() && !cipher.encrypt && Boxes(sp)
      modifies this`bufferLen, buffer, cipher`iv
      ensures Valid()
      ensures partOut == OpenEnd(cipher.cipher, old(State()), sp)
      ensures partOut.Ok? ==> |partOut.value| <= 7
      ensures old(bufferLen) == 0 ==> State() == old(State())
      ensures old(bufferLen) != 0 && partOut.Ok? ==> State() == Flow(cipher.originalIV, [])
      ensures partOut.Ok? && (old(bufferLen) == 0 ==> old(cipher.iv) == cipher.originalIV) ==>
                State() == Flow(cipher.originalIV, [])
      ensures partOut.Err? ==> bufferLen == old(bufferLen) != 0 && buffer[..] == old(buffer[..])
      ensures partOut.Err? && old(bufferLen) != 8 ==> State() == old(State())
    {
      hide Run, EncryptChained, DecryptChained, Scheduled;
      if bufferLen == 0 {
        return Ok([]);
      }
      if bufferLen != 8 {
        return Err(RE_KEY);
      }
      assert buffer[..] == buffer[..bufferLen];
      var lastPart, _ := cipher.Update(buffer[..], sp);
      var padLen := lastPart[7] as nat;
      if padLen == 0 || padLen > 8 {
        return Err(RE_KEY);
      }
      if lastPart[8 - padLen..] != Repeat(padLen as Octet, padLen) {
        return Err(RE_KEY);
      }
      partOut := Ok(lastPart[..8 - padLen]);
      cipher.Restart();
      bufferLen := 0;
    }
  }

  // ---------- both contexts ----------

  /** The updates and the final call of a sealing context. */
  method SealParts(context: EnvelopeCtx, parts: seq<seq<Octet>>, sp: SBoxes) returns (out: seq<Octet>)
    requires context.Valid() && context.bufferLen < 8 && context.cipher.encrypt && Boxes(sp)
    modifies context`bufferLen, context.buffer, context.cipher`iv
    ensures out == Sealed(context.cipher.cipher, old(context.State()), parts, sp)
    ensures context.Valid() && context.State() == Flow(context.cipher.originalIV, [])
  {
    hide Advance, AdvanceAll, SealEnd, Scheduled;
    ghost var c, start := context.cipher.cipher, context.State();
    NoParts(c, true, start, sp);
    out := [];
    var i := 0;
    assert parts[..i] == [];
    while i < |parts|
      invariant i <= |parts| && context.Valid() && context.bufferLen < 8
      invariant AdvanceAll(c, true, start, parts[..i], sp) == (out, context.State())
    {
      AdvanceNext(c, true, start, parts[..i], parts[i], sp);
      assert parts[..i + 1] == parts[..i] + [parts[i]];
      var part := context.SealUpdate(parts[i], sp);
      out := out + part;
      i := i + 1;
    }
    assert parts[..i] == parts;
    var last := context.SealFinal(sp);
    out := out + last;
  }

  lemma NoParts(c: Cipher, seal: bool, f: Flow, sp: SBoxes)
    requires Scheduled(c) && Boxes(sp)
    ensures AdvanceAll(c, seal, f, [], sp) == ([], f)
  {
  }

  /** The updates and the final call of an opening context. */
  method OpenParts(context: EnvelopeCtx, parts: seq<seq<Octet>>, sp: SBoxes) returns (r: Result<seq<Octet>>)
    requires context.Valid() && !context.cipher.encrypt && Boxes(sp)
    modifies context`bufferLen, context.buffer, context.cipher`iv
    ensures r == Opened(context.cipher.cipher, old(context.State()), parts, sp)
    ensures context.Valid()
    ensures r.Ok? && old(context.State()) == Flow(context.cipher.originalIV, []) ==>
              context.State() == Flow(context.cipher.originalIV, [])
  {
    hide Advance, AdvanceAll, OpenEnd, Scheduled;
    ghost var c, start := context.cipher.cipher, context.State();
    NoParts(c, false, start, sp);
    var out := [];
    var i := 0;
    assert parts[..i] == [];
    while i < |parts|
      invariant i <= |parts| && context.Valid()
      invariant AdvanceAll(c, false, start, parts[..i], sp) == (out, context.State())
      invariant context.bufferLen == 0 ==> context.State() == start
    {
      AdvanceNext(c, false, start, parts[..i], parts[i], sp);
      assert parts[..i + 1] == parts[..i] + [parts[i]];
      var part := context.OpenUpdate(parts[i], sp);
      out := out + part;
      i := i + 1;
    }
    assert parts[..i] == parts;
    var last := context.OpenFinal(sp);
    if last.Err? {
      return Err(last.error);
    }
    r := Ok(out + last.value);
  }

  /** Two contexts that do not share any state. */
  predicate Apart(a: EnvelopeCtx, b: EnvelopeCtx) {
    a != b && a.buffer != b.buffer && a.cipher != b.cipher
  }

  /** Sealing in the given parts, and opening what comes out in the parts that
      cut makes of it, returns the message and restarts both contexts. */
  method SealAndOpen(seal: EnvelopeCtx, open: EnvelopeCtx, plain: seq<seq<Octet>>,
                     cut: seq<Octet> -> seq<seq<Octet>>, sp: SBoxes) returns (r: Result<seq<Octet>>)
    requires Boxes(sp) && Apart(seal, open) && seal.Valid() && open.Valid()
    requires seal.cipher.encrypt && !open.cipher.encrypt && Undoes(seal.cipher.cipher, open.cipher.cipher)
    requires seal.State() == open.State() == Flow(open.cipher.originalIV, [])
    requires forall s :: Flatten(cut(s)) == s
    modifies seal`bufferLen, seal.buffer, seal.cipher`iv, open`bufferLen, open.buffer, open.cipher`iv
    ensures r == Ok(Flatten(plain))
    ensures seal.Valid() && seal.State() == Flow(seal.cipher.originalIV, [])
    ensures open.Valid() && open.State() == Flow(open.cipher.originalIV, [])
  {
    hide Sealed, Opened, Scheduled;
    ghost var f := seal.State();
    var sealed := SealParts(seal, plain, sp);
    RoundTrip(seal.cipher.cipher, open.cipher.cipher, f, plain, cut(sealed), sp);
    assert [] + Flatten(plain) == Flatten(plain);
    r := OpenParts(open, cut(sealed), sp);
  }
}
