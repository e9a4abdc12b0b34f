/** memcpy on byte arrays. */
module Memory {
  import opened Bytes

  function Overwrite(s: seq<byte>, at: nat, bytes: seq<byte>): (t: seq<byte>)
    requires at + |bytes| <= |s|
    ensures |t| == |s|
  {
    s[..at] + bytes + s[at + |bytes|..]
  }

  lemma OverwriteNothing(s: seq<byte>, at: nat, bytes: seq<byte>)
    requires at <= |s|
    ensures Overwrite(s, at, bytes[..0]) == s
  {
  }

  lemma OverwriteNext(s: seq<byte>, at: nat, bytes: seq<byte>, i: nat)
    requires at + |bytes| <= |s| && i < |bytes|
    ensures Overwrite(s, at, bytes[..i])[at + i := bytes[i]] == Overwrite(s, at, bytes[..i + 1])
  {
  }

  method Put(buf: array<byte>, at: nat, bytes: seq<byte>)
    requires at + |bytes| <= buf.Length
    modifies buf
    ensures buf[..] == Overwrite(old(buf[..]), at, bytes)
  {
    OverwriteNothing(buf[..], at, bytes);
    assert bytes[..|bytes|] == bytes;
    hide Overwrite;
    for i := 0 to |bytes|
      invariant buf[..] == Overwrite(old(buf[..]), at, bytes[..i])
    {
      OverwriteNext(old(buf[..]), at, bytes, i);
      ghost var now := buf[..];
      buf[at + i] := bytes[i];
      assert buf[..] == now[at + i := bytes[i]];
    }
  }

  /** Two adjacent copies are one, in either order. */
  lemma OverwriteAdjacent(s: seq<byte>, at: nat, x: seq<byte>, y: seq<byte>)
    requires at + |x| + |y| <= |s|
    ensures Overwrite(Overwrite(s, at, x), at + |x|, y) == Overwrite(s, at, x + y)
    ensures Overwrite(Overwrite(s, at + |x|, y), at, x) == Overwrite(s, at, x + y)
  {
    var t := Overwrite(s, at, x);
    assert t[..at + |x|] == s[..at] + x;
    assert t[at + |x| + |y|..] == s[at + |x| + |y|..];
    var u := Overwrite(s, at + |x|, y);
    assert u[..at] == s[..at];
    assert u[at + |x|..] == y + s[at + |x| + |y|..];
  }
}
