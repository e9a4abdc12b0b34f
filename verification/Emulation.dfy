/**
  Emulation prevention (section 7.4.1 of ITU-T H.264). Inside a NAL unit the pattern
  00 00 0x with x <= 3 is written as 00 00 03 0x, so that no start code can appear by chance.
  `GetRBSP` removes the inserted bytes; `Escape` is the writer the standard describes.
*/
module Emulation {
  import opened Bytes

  /** How many zero bytes (at most two) stand directly before offset i. */
  function ZerosBefore(s: seq<byte>, i: nat): (z: nat)
    requires i <= |s|
    ensures z <= 2
  {
    if i >= 1 && s[i - 1] == 0 then (if i >= 2 && s[i - 2] == 0 then 2 else 1) else 0
  }

  function Count(z: nat, b: byte): (z': nat)
    requires z <= 2
    ensures z' <= 2
  {
    if b != 0 then 0 else if z < 2 then z + 1 else 2
  }

  /** Removal of the inserted bytes, z zero bytes having come before s. */
  function Unescape(s: seq<byte>, z: nat): seq<byte>
    requires z <= 2
  {
    if s == [] then []
    else if z == 2 && s[0] == 3 && |s| > 1 && s[1] <= 3 then Unescape(s[1..], 0)
    else [s[0]] + Unescape(s[1..], Count(z, s[0]))
  }

  /** What is kept of the bytes from offset i on. */
  function KeptFrom(s: seq<byte>, i: nat): seq<byte>
    requires i <= |s|
  {
    Unescape(s[i..], ZerosBefore(s, i))
  }

  /** The byte at offset i was inserted. */
  predicate Inserted(s: seq<byte>, i: nat)
    requires i < |s|
  {
    s[i] == 3 && (i >= 2 && s[i - 2] == 0 && s[i - 1] == 0) && (i + 1 < |s| && s[i + 1] <= 3)
  }

  lemma KeptAtEnds(s: seq<byte>)
    ensures KeptFrom(s, 0) == Unescape(s, 0) && KeptFrom(s, |s|) == []
  {
    assert s[0..] == s && s[|s|..] == [];
  }

  lemma Peel(s: seq<byte>, i: nat, kept: seq<byte>)
    requires i < |s|
    ensures kept + KeptFrom(s, i) == (if Inserted(s, i) then kept else kept + [s[i]]) + KeptFrom(s, i + 1)
  {
    assert s[i..][1..] == s[i + 1..];
    if !Inserted(s, i) {
      AppendAssoc(kept, [s[i]], KeptFrom(s, i + 1));
    }
  }

  /** The copying loop; the bytes kept are packed at the front of `rbsp`. */
  method GetRBSP(buf: array<byte>) returns (rbsp: array<byte>, len: nat)
    ensures fresh(rbsp) && len <= rbsp.Length == buf.Length
    ensures rbsp[..len] == Unescape(buf[..], 0)
  {
    ghost var bytes := buf[..];
    KeptAtEnds(bytes);
    hide Unescape, KeptFrom;
    len := buf.Length;
    rbsp := new byte[len];
    var targetIndex := 0;
    for i := 0 to buf.Length
      invariant targetIndex <= i && len == buf.Length - i + targetIndex
      invariant buf[..] == bytes
      invariant rbsp[..targetIndex] + KeptFrom(bytes, i) == Unescape(bytes, 0)
    {
      Peel(bytes, i, rbsp[..targetIndex]);
      if buf[i] == 3 && (i >= 2 && buf[i - 2] == 0 && buf[i - 1] == 0) && (i + 1 < buf.Length && buf[i + 1] <= 3) {
        len := len - 1;
      } else {
        ghost var kept := rbsp[..targetIndex];
        rbsp[targetIndex] := buf[i];
        targetIndex := targetIndex + 1;
        assert rbsp[..targetIndex] == kept + [buf[i]];
      }
    }
  }

  // ----- the writer of the standard -----

  function EscapeFrom(r: seq<byte>, z: nat): seq<byte>
    requires z <= 2
  {
    if r == [] then []
    else if z == 2 && r[0] <= 3 then [3, r[0]] + EscapeFrom(r[1..], Count(0, r[0]))
    else [r[0]] + EscapeFrom(r[1..], Count(z, r[0]))
  }

  /** A byte string that ends in a zero byte is followed by a final 03. */
  function Tail(r: seq<byte>): seq<byte> {
    if r != [] && r[|r| - 1] == 0 then [3] else []
  }

  function Escape(r: seq<byte>): seq<byte> {
    EscapeFrom(r, 0) + Tail(r)
  }

  lemma UnescapeKeeps(b: byte, rest: seq<byte>, z: nat)
    requires z <= 2 && (z == 2 ==> b > 3)
    ensures Unescape([b] + rest, z) == [b] + Unescape(rest, Count(z, b))
  {
    assert ([b] + rest)[1..] == rest;
  }

  lemma UnescapeDrops(b: byte, rest: seq<byte>)
    requires b <= 3
    ensures Unescape([3, b] + rest, 2) == [b] + Unescape(rest, Count(0, b))
  {
    assert ([3, b] + rest)[1..] == [b] + rest;
    UnescapeKeeps(b, rest, 0);
  }

  lemma {:induction false} UnescapeEscapeFrom(r: seq<byte>, z: nat, tail: seq<byte>)
    requires z <= 2 && (tail == [] || tail == [3])
    ensures Unescape(EscapeFrom(r, z) + tail, z) == r + tail
  {
    if r == [] {
      assert EscapeFrom(r, z) + tail == tail;
      assert r + tail == tail;
    } else {
      hide Unescape, Count;
      var escaped := z == 2 && r[0] <= 3;
      var z' := if escaped then Count(0, r[0]) else Count(z, r[0]);
      var front := if escaped then [3, r[0]] else [r[0]];
      var rest := EscapeFrom(r[1..], z');
      assert EscapeFrom(r, z) == front + rest;
      hide EscapeFrom;
      UnescapeEscapeFrom(r[1..], z', tail);
      AppendAssoc(front, rest, tail);
      if escaped {
        UnescapeDrops(r[0], rest + tail);
      } else {
        UnescapeKeeps(r[0], rest + tail, z);
      }
      AppendAssoc([r[0]], r[1..], tail);
      assert [r[0]] + r[1..] == r;
    }
  }

  /** What is read back: the written bytes, plus the final 03 where the writer appended one. */
  lemma UnescapeEscape(r: seq<byte>)
    ensures Unescape(Escape(r), 0) == r + Tail(r)
  {
    UnescapeEscapeFrom(r, 0, Tail(r));
  }

  /** The reader inverts the writer exactly on the byte strings that do not end in a zero byte. */
  lemma RoundTripExactly(r: seq<byte>)
    ensures Unescape(Escape(r), 0) == r <==> (r == [] || r[|r| - 1] != 0)
  {
    UnescapeEscape(r);
    assert |r + Tail(r)| == |r| + |Tail(r)|;
    assert r + [] == r;
  }

  // ----- escaped bytes hold no start code -----

  predicate Clean(s: seq<byte>) {
    forall i :: 0 <= i < |s| - 2 ==> CleanAt(s, i)
  }

  predicate CleanAt(s: seq<byte>, i: nat)
    requires i + 2 < |s|
  {
    !(s[i] == 0 && s[i + 1] == 0 && s[i + 2] <= 2)
  }

  /** Putting a byte in front of clean bytes, when what follows allows it. */
  lemma CleanCons(b: byte, s: seq<byte>)
    requires Clean(s)
    requires |s| >= 2 ==> !(b == 0 && s[0] == 0 && s[1] <= 2)
    ensures Clean([b] + s)
  {
    var t := [b] + s;
    forall i | 0 <= i < |t| - 2 ensures CleanAt(t, i) {
      if i > 0 {
        assert CleanAt(s, i - 1);
      }
    }
  }

  lemma {:induction false} EscapeFromClean(r: seq<byte>, z: nat)
    requires z <= 2
    ensures Clean(Zeros(z) + EscapeFrom(r, z))
  {
    var e := EscapeFrom(r, z);
    if r == [] {
      assert Zeros(z) + e == Zeros(z);
    } else if z == 2 && r[0] <= 3 {
      EscapeFromClean(r[1..], Count(0, r[0]));
      StepClean(3, r[0], 0, EscapeFrom(r[1..], Count(0, r[0])));
      var s := [3, r[0]] + EscapeFrom(r[1..], Count(0, r[0]));
      CleanCons(0, s);
      CleanCons(0, [0] + s);
      assert Zeros(2) + e == [0] + ([0] + s);
    } else {
      EscapeFromClean(r[1..], Count(z, r[0]));
      PrependZeros(z, r[0], EscapeFrom(r[1..], Count(z, r[0])));
      assert Zeros(z) + e == Zeros(z) + ([r[0]] + EscapeFrom(r[1..], Count(z, r[0])));
    }
  }

  lemma StepClean(first: byte, b: byte, z: nat, rest: seq<byte>)
    requires first != 0 && z == 0
    requires Clean(Zeros(Count(z, b)) + rest)
    ensures Clean([first, b] + rest)
  {
    PrependZeros(0, b, rest);
    assert Zeros(0) + ([b] + rest) == [b] + rest;
    CleanCons(first, [b] + rest);
    assert [first] + ([b] + rest) == [first, b] + rest;
  }

  lemma PrependZeros(z: nat, b: byte, rest: seq<byte>)
    requires z <= 2 && (z == 2 ==> b > 3)
    requires Clean(Zeros(Count(z, b)) + rest)
    ensures Clean(Zeros(z) + ([b] + rest))
  {
    var s := [b] + rest;
    if b == 0 {
      assert Zeros(z) + s == Zeros(z + 1) + rest;
    } else {
      assert Zeros(0) + rest == rest;
      CleanCons(b, rest);
      if z == 0 {
        assert Zeros(0) + s == s;
      } else {
        CleanCons(0, s);
        if z == 1 {
          assert Zeros(1) + s == [0] + s;
        } else {
          CleanCons(0, [0] + s);
          assert Zeros(2) + s == [0] + ([0] + s);
        }
      }
    }
  }

  lemma {:induction false} EscapeFromLast(r: seq<byte>, z: nat)
    requires z <= 2 && r != []
    ensures EscapeFrom(r, z) != [] && EscapeFrom(r, z)[|EscapeFrom(r, z)| - 1] == r[|r| - 1]
  {
    if |r| > 1 {
      EscapeFromLast(r[1..], if z == 2 && r[0] <= 3 then Count(0, r[0]) else Count(z, r[0]));
    }
  }

  /** Escaped bytes hold no 00 00 00, 00 00 01 or 00 00 02 and do not end in a zero byte. */
  lemma EscapeIsClean(r: seq<byte>)
    ensures Clean(Escape(r))
    ensures r != [] ==> Escape(r) != [] && Escape(r)[|Escape(r)| - 1] != 0
  {
    EscapeFromClean(r, 0);
    var e := EscapeFrom(r, 0);
    assert Zeros(0) + e == e;
    var s := Escape(r);
    forall i | 0 <= i < |s| - 2 ensures CleanAt(s, i) {
      if i < |e| - 2 {
        assert CleanAt(e, i);
      }
    }
    if r != [] {
      EscapeFromLast(r, 0);
    }
  }
}
