/**
  The receiver of RTP payloads (H.264: sections 5.6 and 5.8 of RFC 6184, H.265: sections 4.4.1 and
  4.4.3 of RFC 7798): a payload is one whole unit, or a fragment of a unit.
*/
module Receiver {
  import opened Bytes

  const FU_A := 28
  const FU_265 := 49

  /** Bytes of the NAL unit header. */
  function HeaderSize(is265: bool): (n: nat)
    ensures 1 <= n <= 2
  {
    if is265 then 2 else 1
  }

  /** The unit or packet type in the first byte. */
  function UnitType(b: byte, is265: bool): int {
    if is265 then b / 2 % 64 else b % 32
  }

  /** A payload that is one whole unit. */
  predicate Single(p: seq<byte>, is265: bool) {
    p != [] && if is265 then UnitType(p[0], is265) <= 47 else 1 <= UnitType(p[0], is265) <= 23
  }

  // ----- fragments -----

  predicate Prefixed(p: seq<byte>, is265: bool) {
    |p| > HeaderSize(is265)
  }

  predicate IsFu(p: seq<byte>, is265: bool) {
    Prefixed(p, is265) && UnitType(p[0], is265) == if is265 then FU_265 else FU_A
  }

  function Payload(p: seq<byte>, is265: bool): seq<byte>
    requires Prefixed(p, is265)
  {
    p[HeaderSize(is265) + 1..]
  }

  /** The unit header that the FU bytes of a fragment stand for. */
  function HeaderOf(p: seq<byte>, is265: bool): seq<byte>
    requires Prefixed(p, is265)
  {
    if is265 then [p[0] / 128 * 128 + p[2] % 64 * 2 + p[0] % 2, p[1]]
    else [p[0] / 32 * 32 + p[1] % 32]
  }

  predicate Starts(p: seq<byte>, is265: bool)
    requires Prefixed(p, is265)
  {
    p[HeaderSize(is265)] / 128 == 1
  }

  predicate Ends(p: seq<byte>, is265: bool)
    requires Prefixed(p, is265)
  {
    p[HeaderSize(is265)] / 64 % 2 == 1
  }

  // ----- reassembly -----

  /** A unit whose fragments have begun to arrive. */
  type Pending = Option<seq<byte>>

  /** A unit complete after this payload, and the fragments kept for later. */
  function Receive(pending: Pending, p: seq<byte>, is265: bool): (seq<seq<byte>>, Pending) {
    if Single(p, is265) then ([p], None)
    else if IsFu(p, is265) then
      var unit := if Starts(p, is265) then Some(HeaderOf(p, is265) + Payload(p, is265))
                  else if pending.Some? then Some(pending.value + Payload(p, is265))
                  else None;
      if Ends(p, is265) && unit.Some? then ([unit.value], None) else ([], unit)
    else ([], pending)
  }

  /** All units completed by a list of payloads. */
  function Reassemble(ps: seq<seq<byte>>, pending: Pending, is265: bool): seq<seq<byte>> {
    if ps == [] then []
    else
      var (units, rest) := Receive(pending, ps[0], is265);
      units + Reassemble(ps[1..], rest, is265)
  }

  lemma ReassembleNext(ps: seq<seq<byte>>, k: nat, more: seq<seq<byte>>, pending: Pending, is265: bool)
    requires k < |ps|
    ensures var (units, next) := Receive(pending, ps[k], is265);
            Reassemble(ps[k..] + more, pending, is265) == units + Reassemble(ps[k + 1..] + more, next, is265)
  {
    var all := ps[k..] + more;
    assert all[0] == ps[k] && all[1..] == ps[k + 1..] + more;
  }

  /** What is kept after a list of payloads. */
  function Left(ps: seq<seq<byte>>, pending: Pending, is265: bool): Pending {
    if ps == [] then pending else Left(ps[1..], Receive(pending, ps[0], is265).1, is265)
  }

  lemma {:induction false} ReassembleAppend(a: seq<seq<byte>>, b: seq<seq<byte>>, pending: Pending, is265: bool)
    ensures Reassemble(a + b, pending, is265)
         == Reassemble(a, pending, is265) + Reassemble(b, Left(a, pending, is265), is265)
    decreases |a|
  {
    if a == [] {
      assert a + b == b;
    } else {
      var (units, next) := Receive(pending, a[0], is265);
      assert (a + b)[0] == a[0] && (a + b)[1..] == a[1..] + b;
      ReassembleAppend(a[1..], b, next, is265);
      hide Receive;
      AppendAssoc(units, Reassemble(a[1..], next, is265), Reassemble(b, Left(a[1..], next, is265), is265));
    }
  }

  /** Fragments without an end bit complete nothing. */
  lemma {:induction false} NothingComplete(ps: seq<seq<byte>>, pending: Pending, is265: bool)
    requires forall i :: 0 <= i < |ps| ==> IsFu(ps[i], is265) && !Single(ps[i], is265) && !Ends(ps[i], is265)
    ensures Reassemble(ps, pending, is265) == []
    decreases |ps|
  {
    if ps != [] {
      hide IsFu, Single, Ends, Starts;
      NothingComplete(ps[1..], Receive(pending, ps[0], is265).1, is265);
    }
  }

  // ----- units that come back -----

  /** The units that do not have one of the lost lengths. */
  function Restored(nals: seq<seq<byte>>, lost: set<nat>): seq<seq<byte>> {
    if nals == [] then []
    else (if |nals[0]| in lost then [] else [nals[0]]) + Restored(nals[1..], lost)
  }

  lemma {:induction false} RestoredAll(nals: seq<seq<byte>>, lost: set<nat>)
    ensures |Restored(nals, lost)| <= |nals|
    ensures Restored(nals, lost) == nals <==> forall i :: 0 <= i < |nals| ==> |nals[i]| !in lost
  {
    if nals != [] {
      RestoredAll(nals[1..], lost);
      assert nals == [nals[0]] + nals[1..];
      if |nals[0]| !in lost {
        assert Restored(nals, lost)[1..] == Restored(nals[1..], lost);
      }
    }
  }
}
