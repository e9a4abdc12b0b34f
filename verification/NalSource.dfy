/**
  The byte automaton that cuts NAL units out of an Annex B file without looking back:
  it only remembers how many zero bytes it is holding (`flag`).

  `Copy` is the automaton on a byte string. `RtspSource` runs it over a file, through a
  `Fread1` that delivers the byte after the one at the current position.
*/
module NalSource {
  import opened Bytes
  import opened AnnexB

  /** The buffer that callers provide for one unit. */
  const NAL_BUF_SIZE := 1500 * 250

  /** A unit and the number of bytes read up to the end of its start code, or the end of the file. */
  datatype Copied = Found(nal: seq<byte>, used: nat) | Ended(partial: seq<byte>) {
    /** How many bytes the caller's buffer must hold. */
    function Size(): nat {
      match this
      case Found(nal, _) => |nal|
      case Ended(partial) => |partial|
    }

    /** The same, with some bytes read and written before. */
    function After(written: seq<byte>, read: nat): Copied {
      match this
      case Found(nal, used) => Found(written + nal, read + used)
      case Ended(partial) => Ended(written + partial)
    }
  }

  /** Does c complete a start code? */
  predicate Completes(c: byte, flag: nat) {
    c == 1 && flag >= 2
  }

  /** The zero bytes held back after c. */
  function Held(c: byte, flag: nat): (next: nat)
    requires flag <= 3
    ensures next <= 3
  {
    if c == 0 && flag < 3 then flag + 1 else 0
  }

  /** The bytes written when c is read. */
  function Emitted(c: byte, flag: nat): (written: seq<byte>)
    requires flag <= 3
    ensures Zeros(flag) + [c] == written + Zeros(Held(c, flag))
  {
    if c == 0 && flag < 3 then
      assert Zeros(flag) + [c] == [] + Zeros(flag + 1);
      []
    else
      assert Zeros(0) == [];
      Zeros(flag) + [c]
  }

  /** The automaton, holding back `flag` zero bytes, in front of s. */
  function Copy(s: seq<byte>, flag: nat): (r: Copied)
    requires flag <= 3
    ensures r.Found? ==> 0 < r.used <= |s|
  {
    if s == [] then Ended([])
    else if Completes(s[0], flag) then Found([], 1)
    else Copy(s[1..], Held(s[0], flag)).After(Emitted(s[0], flag), 1)
  }

  // ----- the automaton keeps every byte -----

  /** What was read is what was written, then a start code, or held zero bytes at the end of the file. */
  ghost predicate Keeps(s: seq<byte>, flag: nat, r: Copied) {
    match r
    case Found(nal, used) =>
      used <= |s| && exists four :: Zeros(flag) + s[..used] == nal + Code(four)
    case Ended(partial) =>
      exists held :: 0 <= held <= 3 && Zeros(flag) + s == partial + Zeros(held)
  }

  lemma {:induction false} CopyConserves(s: seq<byte>, flag: nat)
    requires flag <= 3
    ensures Keeps(s, flag, Copy(s, flag))
  {
    if s == [] {
      assert Zeros(flag) + s == [] + Zeros(flag);
    } else if Completes(s[0], flag) {
      assert s[..1] == [s[0]];
      assert Zeros(flag) + s[..1] == [] + Code(flag == 3);
    } else {
      CopyConserves(s[1..], Held(s[0], flag));
      Conserved(s, flag, Copy(s[1..], Held(s[0], flag)));
    }
  }

  lemma Conserved(s: seq<byte>, flag: nat, r: Copied)
    requires flag <= 3 && s != [] && Keeps(s[1..], Held(s[0], flag), r)
    ensures Keeps(s, flag, r.After(Emitted(s[0], flag), 1))
  {
    var next, written := Held(s[0], flag), Emitted(s[0], flag);
    hide Held, Emitted;
    match r
    case Found(nal, used) =>
      var four :| Zeros(next) + s[1..][..used] == nal + Code(four);
      assert s[..1 + used] == [s[0]] + s[1..][..used];
      AppendAssoc(Zeros(flag), [s[0]], s[1..][..used]);
      AppendAssoc(written, Zeros(next), s[1..][..used]);
      AppendAssoc(written, nal, Code(four));
      assert Zeros(flag) + s[..1 + used] == written + nal + Code(four);
    case Ended(partial) =>
      var held :| 0 <= held <= 3 && Zeros(next) + s[1..] == partial + Zeros(held);
      assert s == [s[0]] + s[1..];
      AppendAssoc(Zeros(flag), [s[0]], s[1..]);
      AppendAssoc(written, Zeros(next), s[1..]);
      AppendAssoc(written, partial, Zeros(held));
  }

  lemma AfterAfter(r: Copied, w1: seq<byte>, n1: nat, w2: seq<byte>, n2: nat)
    ensures r.After(w2, n2).After(w1, n1) == r.After(w1 + w2, n1 + n2)
  {
    AppendAssoc(w1, w2, if r.Found? then r.nal else r.partial);
  }

  lemma WrittenFits(whole: Copied, rest: Copied, written: seq<byte>, read: nat)
    requires whole == rest.After(written, read)
    ensures |written| <= whole.Size()
  {
  }

  // ----- the file reader -----

  /** The bytes `Fread1` delivers for a file: it is one byte ahead, so the last is what lies behind the file. */
  function Delivered(file: seq<byte>, beyond: byte): (s: seq<byte>)
    ensures |s| == |file|
    ensures forall i :: 0 <= i < |file| ==> s[i] == if i + 1 < |file| then file[i + 1] else beyond
  {
    if file == [] then [] else file[1..] + [beyond]
  }

  class RtspSource {
    const buffer: seq<byte>
    /** The byte in memory behind the file. */
    const beyond: byte
    var bufferPos: nat

    ghost predicate Valid()
      reads this
    {
      bufferPos <= |buffer|
    }

    /** The bytes still to be delivered. */
    ghost function Remaining(): seq<byte>
      requires Valid()
      reads this
    {
      Delivered(buffer, beyond)[bufferPos..]
    }

    constructor (file: seq<byte>, beyond: byte)
      ensures Valid() && bufferPos == 0 && buffer == file && this.beyond == beyond
    {
      buffer, this.beyond, bufferPos := file, beyond, 0;
    }

    method Reset()
      modifies this
      ensures Valid() && Remaining() == Delivered(buffer, beyond)
    {
      bufferPos := 0;
    }

    method Fread1() returns (ret: int, c: byte)
      requires Valid()
      modifies this
      ensures Valid()
      ensures old(Remaining()) == [] ==> ret == -1 && Remaining() == []
      ensures old(Remaining()) != [] ==> ret == 1 && c == old(Remaining())[0] && Remaining() == old(Remaining())[1..]
    {
      if bufferPos + 1 > |buffer| {
        return -1, 0;
      }
      c := if bufferPos + 1 < |buffer| then buffer[bufferPos + 1] else beyond;
      bufferPos := bufferPos + 1;
      ret := 1;
    }

    /** Writes the held zero bytes and c. */
    method Emit(buf: array<byte>, len: nat, flag: nat, c: byte)
      requires flag <= 3 && len + flag < buf.Length
      modifies buf
      ensures buf[..len + flag + 1] == old(buf[..len]) + Zeros(flag) + [c]
    {
      if flag > 0 {
        buf[len] := 0;
      }
      if flag > 1 {
        buf[len + 1] := 0;
      }
      if flag > 2 {
        buf[len + 2] := 0;
      }
      buf[len + flag] := c;
    }

    /** Copies the bytes up to the next start code into buf; -1 if the file ends first. */
    method CopyNalFromFile(buf: array<byte>) returns (ret: int, len: nat)
      requires Valid() && Copy(Remaining(), 0).Size() <= buf.Length
      modifies this, buf
      ensures Valid() && len <= buf.Length
      ensures match Copy(old(Remaining()), 0)
        case Found(nal, used) =>
          && ret == |nal| == len && buf[..len] == nal
          && used <= |old(Remaining())| && Remaining() == old(Remaining())[used..]
        case Ended(partial) => ret == -1 && buf[..len] == partial && Remaining() == []
    {
      hide Copy, Copied.After, Copied.Size;
      ghost var all := Remaining();
      ghost var used := 0;
      var flag := 0;
      len := 0;
      CopyStart(all, buf[..0]);
      while true
        invariant Valid() && flag <= 3
        invariant used <= |all| && Remaining() == all[used..]
        invariant len + flag == used && len <= buf.Length
        invariant Copy(all, 0) == Copy(all[used..], flag).After(buf[..len], used)
        decreases |all| - used
      {
        var r, c := Fread1();
        CopyStep(all[used..], flag, buf[..len], used);
        if r <= 0 {
          return -1, len;
        }
        assert all[used..][1..] == all[used + 1..];
        used := used + 1;
        if flag >= 2 && c == 1 {
          return len, len;
        } else if c == 0 && flag < 3 {
          flag := flag + 1;
        } else {
          WrittenFits(Copy(all, 0), Copy(all[used..], 0), buf[..len] + Zeros(flag) + [c], used);
          Emit(buf, len, flag, c);
          len := len + flag + 1;
          flag := 0;
        }
      }
    }
  }

  lemma CopyStart(s: seq<byte>, empty: seq<byte>)
    requires empty == []
    ensures Copy(s, 0) == Copy(s[0..], 0).After(empty, 0)
  {
    assert s[0..] == s;
  }

  /** One step of the automaton after `written` has been written and `read` bytes have been read. */
  lemma CopyStep(s: seq<byte>, flag: nat, written: seq<byte>, read: nat)
    requires flag <= 3
    ensures Copy(s, flag).After(written, read)
         == if s == [] then Ended(written)
            else if s[0] == 1 && flag >= 2 then Found(written, read + 1)
            else if s[0] == 0 && flag < 3 then Copy(s[1..], flag + 1).After(written, read + 1)
            else Copy(s[1..], 0).After(written + Zeros(flag) + [s[0]], read + 1)
  {
    if s == [] {
      assert written + [] == written;
    } else if Completes(s[0], flag) {
      assert written + [] == written;
    } else {
      var next := Copy(s[1..], Held(s[0], flag));
      assert Copy(s, flag) == next.After(Emitted(s[0], flag), 1);
      hide Copy;
      AfterAfter(next, written, read, Emitted(s[0], flag), 1);
      if s[0] == 0 && flag < 3 {
        assert written + [] == written;
      } else {
        AppendAssoc(written, Zeros(flag), [s[0]]);
      }
    }
  }
}
