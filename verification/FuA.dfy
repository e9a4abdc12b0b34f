/**
  RTP payloads for H.264 (RFC 6184): a small NAL unit is one packet (section 5.6), a large one
  is cut into FU-A fragments (section 5.8). `Payloads` is what the sender produces for a unit.
*/
module FuA {
  import opened Bytes
  import opened Receiver

  const RTP_PAYLOAD_MAX_SIZE := 1400
  /** The lengths of the units that are lost: nothing is sent, or one fragment without an end bit. */
  const LOST: set<nat> := {0, RTP_PAYLOAD_MAX_SIZE + 1}

  /** First FU byte: the F and NRI bits of the unit's header, and the type FU-A. */
  function Indicator(naluHeader: byte): (b: byte)
    ensures b / 32 == naluHeader / 32 && UnitType(b, false) == FU_A
  {
    naluHeader / 128 * 128 + naluHeader / 32 % 4 * 32 + FU_A
  }

  /** Second FU byte: start and end bits and the unit's type. fragType is 1 for start, 2 for end. */
  function FuHeader(naluHeader: byte, fragType: int): (b: byte)
    ensures UnitType(b, false) == UnitType(naluHeader, false)
    ensures (b / 128 == 1 <==> fragType == 1) && (b / 64 % 2 == 1 <==> fragType == 2)
  {
    (if fragType == 1 then 128 else 0) + (if fragType == 2 then 64 else 0) + naluHeader % 32
  }

  function FragmentCount(len: nat): (n: nat)
    ensures RTP_PAYLOAD_MAX_SIZE * n >= len
    ensures len > 0 ==> n > 0 && RTP_PAYLOAD_MAX_SIZE * (n - 1) < len
  {
    if len % RTP_PAYLOAD_MAX_SIZE != 0 then len / RTP_PAYLOAD_MAX_SIZE + 1 else len / RTP_PAYLOAD_MAX_SIZE
  }

  function LastFragmentSize(len: nat): (n: nat)
    ensures len > 0 ==> n == len - RTP_PAYLOAD_MAX_SIZE * (FragmentCount(len) - 1)
  {
    if len % RTP_PAYLOAD_MAX_SIZE != 0 then len % RTP_PAYLOAD_MAX_SIZE else RTP_PAYLOAD_MAX_SIZE
  }

  function FragType(k: nat, count: nat): int {
    if k == 0 then 1 else if k == count - 1 then 2 else 0
  }

  /** The fragments k, k + 1, ... of a unit whose bytes after the header are `body`. */
  function Fragments(header: byte, body: seq<byte>, k: nat): (ps: seq<seq<byte>>)
    requires body != [] && k <= FragmentCount(|body|)
    ensures |ps| == FragmentCount(|body|) - k
    decreases FragmentCount(|body|) - k
  {
    var count := FragmentCount(|body|);
    if k == count then []
    else [[Indicator(header), FuHeader(header, FragType(k, count))] + Piece(body, k)] + Fragments(header, body, k + 1)
  }

  /** The k-th stretch of RTP_PAYLOAD_MAX_SIZE bytes, or what is left of it. */
  function Piece(body: seq<byte>, k: nat): (piece: seq<byte>)
    requires k < FragmentCount(|body|)
    ensures 0 < |piece| <= RTP_PAYLOAD_MAX_SIZE
  {
    var from := RTP_PAYLOAD_MAX_SIZE * k;
    var size := if k == FragmentCount(|body|) - 1 then LastFragmentSize(|body|) else RTP_PAYLOAD_MAX_SIZE;
    body[from..from + size]
  }

  /** The RTP payloads of one NAL unit. */
  function Payloads(nal: seq<byte>): (ps: seq<seq<byte>>)
  {
    if nal == [] then []
    else if |nal| <= RTP_PAYLOAD_MAX_SIZE then [nal]
    else Fragments(nal[0], nal[1..], 0)
  }

  lemma {:induction false} FragmentsAt(header: byte, body: seq<byte>, k: nat, i: nat)
    requires body != [] && k <= FragmentCount(|body|) && i < FragmentCount(|body|) - k
    ensures Fragments(header, body, k)[i]
         == [Indicator(header), FuHeader(header, FragType(k + i, FragmentCount(|body|)))] + Piece(body, k + i)
    decreases i
  {
    if i > 0 {
      FragmentsAt(header, body, k + 1, i - 1);
    }
  }

  /**
    The start bit is on the first fragment and on no other, the end bit on the last of several
    and on no other, and no fragment carries more than RTP_PAYLOAD_MAX_SIZE bytes of the unit.
  */
  lemma FragmentMarks(nal: seq<byte>, k: nat)
    requires |nal| > RTP_PAYLOAD_MAX_SIZE && k < |Payloads(nal)|
    ensures var ps := Payloads(nal);
            && 2 < |ps[k]| <= 2 + RTP_PAYLOAD_MAX_SIZE
            && (ps[k][1] / 128 == 1 <==> k == 0)
            && (ps[k][1] / 64 % 2 == 1 <==> k == |ps| - 1 && |nal| != RTP_PAYLOAD_MAX_SIZE + 1)
  {
    FragmentsAt(nal[0], nal[1..], 0, k);
  }

  // ----- one unit -----

  /** A unit that goes out as one packet must have a type that says so. */
  predicate Sendable(nal: seq<byte>) {
    0 < |nal| <= RTP_PAYLOAD_MAX_SIZE ==> Single(nal, false)
  }

  lemma PiecesCover(body: seq<byte>, k: nat)
    requires k < FragmentCount(|body|)
    ensures var from := RTP_PAYLOAD_MAX_SIZE * k;
            from + |Piece(body, k)| <= |body|
            && body[..from] + Piece(body, k) == body[..from + |Piece(body, k)|]
            && (from + |Piece(body, k)|
                == if k == FragmentCount(|body|) - 1 then |body| else from + RTP_PAYLOAD_MAX_SIZE)
  {
  }

  /** What the receiver sees in a fragment. */
  lemma FuPayload(header: byte, fragType: int, piece: seq<byte>)
    ensures var p := [Indicator(header), FuHeader(header, fragType)] + piece;
            && IsFu(p, false) && !Single(p, false)
            && (Starts(p, false) <==> fragType == 1) && (Ends(p, false) <==> fragType == 2)
            && Payload(p, false) == piece && HeaderOf(p, false) == [header]
  {
    hide Indicator, FuHeader;
  }

  lemma ReassembleStep(p: seq<byte>, rest: seq<seq<byte>>, more: seq<seq<byte>>, pending: Pending)
    ensures var (units, next) := Receive(pending, p, false);
            Reassemble(([p] + rest) + more, pending, false) == units + Reassemble(rest + more, next, false)
  {
    hide Receive;
    assert ([p] + rest) + more == [p] + (rest + more);
    assert ([p] + (rest + more))[1..] == rest + more;
  }

  /** Later fragments are appended until the end bit completes the unit. */
  lemma {:induction false} ReceiveMore(header: byte, body: seq<byte>, k: nat, more: seq<seq<byte>>)
    requires body != [] && 0 < k < FragmentCount(|body|)
    ensures Reassemble(Fragments(header, body, k) + more, Some([header] + body[..RTP_PAYLOAD_MAX_SIZE * k]), false)
         == [[header] + body] + Reassemble(more, None, false)
    decreases FragmentCount(|body|) - k
  {
    var count := FragmentCount(|body|);
    var fragType := FragType(k, count);
    var p := [Indicator(header), FuHeader(header, fragType)] + Piece(body, k);
    var rest := Fragments(header, body, k + 1);
    var sofar := [header] + body[..RTP_PAYLOAD_MAX_SIZE * k];
    PiecesCover(body, k);
    FuPayload(header, fragType, Piece(body, k));
    assert Fragments(header, body, k) == [p] + rest;
    hide Fragments, Piece, FragmentCount, Indicator, FuHeader, IsFu, Single, Starts, Ends;
    hide Payload, HeaderOf, Reassemble;
    ReassembleStep(p, rest, more, Some(sofar));
    AppendAssoc([header], body[..RTP_PAYLOAD_MAX_SIZE * k], Piece(body, k));
    if k == count - 1 {
      assert rest + more == more;
      assert body[..|body|] == body;
    } else {
      ReceiveMore(header, body, k + 1, more);
    }
  }

  lemma ReceiveFragments(nal: seq<byte>, more: seq<seq<byte>>, pending: Pending)
    requires |nal| > RTP_PAYLOAD_MAX_SIZE
    ensures Reassemble(Payloads(nal) + more, pending, false)
         == if |nal| in LOST then Reassemble(more, Some(nal), false) else [nal] + Reassemble(more, None, false)
  {
    var header, body := nal[0], nal[1..];
    var count := FragmentCount(|body|);
    var p := [Indicator(header), FuHeader(header, 1)] + Piece(body, 0);
    var rest := Fragments(header, body, 1);
    assert Payloads(nal) == [p] + rest;
    assert count == 1 <==> |nal| in LOST;
    PiecesCover(body, 0);
    FuPayload(header, 1, Piece(body, 0));
    assert [header] + body == nal;
    hide Fragments, Piece, FragmentCount, Indicator, FuHeader, IsFu, Single, Starts, Ends;
    hide Payload, HeaderOf, Reassemble, Payloads;
    assert body[..0] == [];
    ReassembleStep(p, rest, more, pending);
    if count > 1 {
      ReceiveMore(header, body, 1, more);
    } else {
      assert rest + more == more;
      assert body[..|body|] == body;
    }
  }

  function AllPayloads(nals: seq<seq<byte>>): seq<seq<byte>> {
    if nals == [] then [] else Payloads(nals[0]) + AllPayloads(nals[1..])
  }

  /** Fragmentation followed by reassembly gives back every unit, except those of the lost lengths. */
  lemma {:induction false} ReassembleInvertsPayloads(nals: seq<seq<byte>>, pending: Pending)
    requires forall i :: 0 <= i < |nals| ==> Sendable(nals[i])
    ensures Reassemble(AllPayloads(nals), pending, false) == Restored(nals, LOST)
  {
    if nals != [] {
      var nal, rest := nals[0], nals[1..];
      if nal == [] {
        assert Payloads(nal) + AllPayloads(rest) == AllPayloads(rest);
        ReassembleInvertsPayloads(rest, pending);
      } else if |nal| <= RTP_PAYLOAD_MAX_SIZE {
        ReassembleInvertsPayloads(rest, None);
        assert ([nal] + AllPayloads(rest))[1..] == AllPayloads(rest);
      } else {
        ReceiveFragments(nal, AllPayloads(rest), pending);
        hide Reassemble, Payloads;
        ReassembleInvertsPayloads(rest, if |nal| in LOST then Some(nal) else None);
      }
    }
  }
}
