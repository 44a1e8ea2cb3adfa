/** Messages handed over in pieces, and buffers. */
module Sequences {

  /** The pieces one after the other. */
  function Flatten<T>(ss: seq<seq<T>>): seq<T> {
    if |ss| == 0 then [] else Flatten(ss[..|ss| - 1]) + ss[|ss| - 1]
  }

  lemma {:induction false} FlattenCons<T>(s: seq<T>, ss: seq<seq<T>>)
    ensures Flatten([s] + ss) == s + Flatten(ss)
  {
    var all := [s] + ss;
    if ss == [] {
      assert all[..0] == [] && all[0] == s;
    } else {
      var n := |ss| - 1;
      FlattenCons(s, ss[..n]);
      assert all[..|all| - 1] == [s] + ss[..n];
    }
  }

  /** Copies a string into a buffer. */
  method CopyIn<T>(buffer: array<T>, start: nat, data: seq<T>)
    requires start + |data| <= buffer.Length
    modifies buffer
    ensures buffer[..] == old(buffer[..start]) + data + old(buffer[start + |data|..])
  {
    var i := 0;
    while i < |data|
      invariant i <= |data|
      invariant buffer[..] == old(buffer[..start]) + data[..i] + old(buffer[start + i..])
    {
      buffer[start + i] := data[i];
      i := i + 1;
    }
    assert data[..i] == data;
  }
}
