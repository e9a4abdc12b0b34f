/**
  From the packetizer to the other end of the connection: the frames are concatenated by TCP,
  cut anywhere, located by `RtspReader`, and their payloads reassembled into NAL units.
*/
module Delivery {
  import opened Bytes
  import opened FuA
  import opened Receiver
  import opened RtspFraming

  /** The RTP payload of the frame at `start`: what its length field covers, without the RTP header. */
  function PayloadAt(s: seq<byte>, start: int): seq<byte> {
    if 0 <= start && start + INTERLEAVE_SIZE + RTP_HEADER_SIZE <= |s|
       && RTP_HEADER_SIZE <= LengthField(s, start) <= |s| - start - INTERLEAVE_SIZE
    then s[start + INTERLEAVE_SIZE + RTP_HEADER_SIZE..start + INTERLEAVE_SIZE + LengthField(s, start)]
    else []
  }

  function PayloadsAt(s: seq<byte>, starts: seq<int>): (ps: seq<seq<byte>>)
    ensures |ps| == |starts|
  {
    seq(|starts|, i requires 0 <= i < |starts| => PayloadAt(s, starts[i]))
  }

  ghost predicate CarriesPayload(frame: seq<byte>, payload: seq<byte>) {
    exists header: seq<byte> :: |header| == RTP_HEADER_SIZE && frame == Framed(header, payload)
  }

  ghost predicate Carry(frames: seq<seq<byte>>, payloads: seq<seq<byte>>) {
    |frames| == |payloads| && forall i :: 0 <= i < |frames| ==> CarriesPayload(frames[i], payloads[i])
  }

  /** Not empty, and small enough for a signed length field. */
  predicate Transportable(payload: seq<byte>) {
    0 < |payload| < 0x8000 - RTP_HEADER_SIZE
  }

  predicate AllTransportable(payloads: seq<seq<byte>>) {
    forall i :: 0 <= i < |payloads| ==> Transportable(payloads[i])
  }

  lemma TransportableRest(payloads: seq<seq<byte>>)
    requires AllTransportable(payloads) && payloads != []
    ensures Transportable(payloads[0]) && AllTransportable(payloads[1..])
  {
  }

  lemma FrameIsWhole(frame: seq<byte>, payload: seq<byte>)
    requires CarriesPayload(frame, payload) && Transportable(payload)
    ensures WholeFrame(frame)
    ensures |frame| == INTERLEAVE_SIZE + RTP_HEADER_SIZE + |payload|
    ensures PayloadAt(frame, 0) == payload
  {
    var header: seq<byte> :| |header| == RTP_HEADER_SIZE && frame == Framed(header, payload);
    var length := RTP_HEADER_SIZE + |payload|;
    var head := [DOLLAR, 0] + Be16(length);
    assert frame == head + header + payload;
    assert LengthField(frame, 0) == Word16(Be16(length)[0], Be16(length)[1]);
  }

  lemma PayloadInStream(s: seq<byte>, p: nat, frame: seq<byte>, after: seq<byte>)
    requires WholeFrame(frame) && p <= |s| && s[p..] == frame + after
    ensures PayloadAt(s, p) == PayloadAt(frame, 0)
    ensures p + |frame| <= |s| && s[p + |frame|..] == after
  {
    var t := s[p..];
    assert t[2] == frame[2] && t[3] == frame[3];
    assert LengthField(s, p) == LengthField(frame, 0);
    assert t[|frame|..] == after;
    var from, to := INTERLEAVE_SIZE + RTP_HEADER_SIZE, |frame|;
    assert t[from..to] == frame[from..to];
  }

  lemma CarryRest(frames: seq<seq<byte>>, payloads: seq<seq<byte>>)
    requires Carry(frames, payloads) && frames != []
    ensures |frames| == |payloads| && CarriesPayload(frames[0], payloads[0]) && Carry(frames[1..], payloads[1..])
  {
    hide CarriesPayload;
  }

  lemma FlattenFirst(parts: seq<seq<byte>>)
    requires parts != []
    ensures Flatten(parts) == parts[0] + Flatten(parts[1..])
  {
  }

  lemma OffsetAt(frames: seq<seq<byte>>, p: int, k: nat)
    requires k < |frames|
    ensures Offsets(frames, p)[k] == if k == 0 then p else Offsets(frames[1..], p + |frames[0]|)[k - 1]
  {
  }

  lemma {:induction false} PayloadOfFrame(s: seq<byte>, p: nat, frames: seq<seq<byte>>,
                                          payloads: seq<seq<byte>>, k: nat)
    requires p <= |s| && s[p..] == Flatten(frames)
    requires Carry(frames, payloads) && AllTransportable(payloads)
    requires k < |frames| == |payloads|
    ensures PayloadAt(s, Offsets(frames, p)[k]) == payloads[k]
    decreases k
  {
    hide *;
    var f, rest := frames[0], frames[1..];
    CarryRest(frames, payloads);
    TransportableRest(payloads);
    FlattenFirst(frames);
    FrameIsWhole(f, payloads[0]);
    PayloadInStream(s, p, f, Flatten(rest));
    OffsetAt(frames, p, k);
    if k > 0 {
      PayloadOfFrame(s, p + |f|, rest, payloads[1..], k - 1);
    }
  }

  /** The payloads found at the first n frame offsets are the first n payloads. */
  lemma ExtractPayloads(s: seq<byte>, frames: seq<seq<byte>>, payloads: seq<seq<byte>>, n: nat)
    requires s == Flatten(frames)
    requires Carry(frames, payloads) && AllTransportable(payloads)
    requires n <= |frames|
    ensures n <= |payloads| && PayloadsAt(s, Offsets(frames, 0)[..n]) == payloads[..n]
  {
    assert s[0..] == s;
    hide CarriesPayload, AllTransportable, PayloadAt, Offsets, Flatten;
    forall k | 0 <= k < n ensures PayloadAt(s, Offsets(frames, 0)[k]) == payloads[k] {
      PayloadOfFrame(s, 0, frames, payloads, k);
    }
  }

  /** On a stream of whole frames the payloads found are those sent, up to the look-ahead. */
  lemma LocatedPayloads(frames: seq<seq<byte>>, payloads: seq<seq<byte>>)
    requires Carry(frames, payloads) && AllTransportable(payloads)
    ensures !Scan(Flatten(frames), 0).broken
    ensures PayloadsAt(Flatten(frames), Scan(Flatten(frames), 0).starts) == payloads[..Locatable(frames)]
  {
    forall i | 0 <= i < |frames| ensures WholeFrame(frames[i]) {
      FrameIsWhole(frames[i], payloads[i]);
    }
    hide WholeFrame, Carry, AllTransportable, PayloadsAt, Scan;
    ScanWholeFrames([], frames);
    assert [] + Flatten(frames) == Flatten(frames);
    ExtractPayloads(Flatten(frames), frames, payloads, Locatable(frames));
  }

  // ----- the payloads of a list of units -----

  lemma {:induction false} PayloadsTransportable(nals: seq<seq<byte>>)
    ensures AllTransportable(AllPayloads(nals))
  {
    if nals != [] {
      PayloadsTransportable(nals[1..]);
      forall i | 0 <= i < |Payloads(nals[0])| ensures Transportable(Payloads(nals[0])[i]) {
        if |nals[0]| > RTP_PAYLOAD_MAX_SIZE {
          FragmentMarks(nals[0], i);
        }
      }
    }
  }

  /** The units whose last frame is long enough to be located: all, unless the last one has 1 or 2 bytes. */
  function Seen(nals: seq<seq<byte>>): (seen: seq<seq<byte>>)
    ensures |seen| <= |nals| && seen == nals[..|seen|]
  {
    if nals == [] then []
    else
      var last := |nals| - 1;
      if nals[last] == [] then Seen(nals[..last])
      else if |nals[last]| <= 2 then nals[..last]
      else nals
  }

  lemma AllPayloadsFirst(nals: seq<seq<byte>>)
    ensures AllPayloads(nals) == if nals == [] then [] else Payloads(nals[0]) + AllPayloads(nals[1..])
  {
  }

  lemma {:induction false} AllPayloadsAppend(a: seq<seq<byte>>, b: seq<seq<byte>>)
    ensures AllPayloads(a + b) == AllPayloads(a) + AllPayloads(b)
  {
    hide *;
    AllPayloadsFirst(a);
    if a == [] {
      assert a + b == b;
    } else {
      AllPayloadsFirst(a + b);
      assert (a + b)[1..] == a[1..] + b;
      AllPayloadsAppend(a[1..], b);
      AppendAssoc(Payloads(a[0]), AllPayloads(a[1..]), AllPayloads(b));
    }
  }

  lemma LastPayload(nals: seq<seq<byte>>)
    requires nals != []
    ensures var last := nals[|nals| - 1];
            && AllPayloads(nals) == AllPayloads(nals[..|nals| - 1]) + Payloads(last)
            && (last != [] ==> Payloads(last) != [] && (|Payloads(last)[|Payloads(last)| - 1]| <= 2 <==> |last| <= 2))
            && (0 < |last| <= 2 ==> Payloads(last) == [last])
  {
    var init, last := nals[..|nals| - 1], nals[|nals| - 1];
    assert nals == init + [last];
    var single: seq<seq<byte>> := [last];
    AllPayloadsAppend(init, single);
    assert AllPayloads(single) == Payloads(last) by {
      assert single[1..] == [];
      assert Payloads(last) + [] == Payloads(last);
    }
    if |last| > RTP_PAYLOAD_MAX_SIZE {
      FragmentMarks(last, |Payloads(last)| - 1);
    }
  }

  /** Cutting off the frame that is too short for the look-ahead cuts off the last unit. */
  lemma {:induction false} LocatablePayloads(nals: seq<seq<byte>>, frames: seq<seq<byte>>)
    requires Carry(frames, AllPayloads(nals))
    ensures AllPayloads(nals)[..Locatable(frames)] == AllPayloads(Seen(nals))
    decreases |nals|
  {
    if nals != [] {
      var init, last := nals[..|nals| - 1], nals[|nals| - 1];
      LastPayload(nals);
      if last == [] {
        assert AllPayloads(init) + [] == AllPayloads(init);
        LocatablePayloads(init, frames);
      } else {
        var ps := AllPayloads(nals);
        PayloadsTransportable(nals);
        FrameIsWhole(frames[|frames| - 1], ps[|ps| - 1]);
        assert ps[|ps| - 1] == Payloads(last)[|Payloads(last)| - 1];
        if |last| <= 2 {
          assert ps[..|ps| - 1] == AllPayloads(init);
        } else {
          assert ps[..|ps|] == ps;
        }
      }
    }
  }

  /**
    Packetizing, framing, locating and reassembling is the identity on the units, except that
    units of 0 and 1401 bytes are lost, and so is a last unit of 1 or 2 bytes, which is too
    short for the reader's look-ahead.
  */
  lemma DeliveryRestores(nals: seq<seq<byte>>, frames: seq<seq<byte>>)
    requires forall i :: 0 <= i < |nals| ==> Sendable(nals[i])
    requires Carry(frames, AllPayloads(nals))
    ensures !Scan(Flatten(frames), 0).broken
    ensures Reassemble(PayloadsAt(Flatten(frames), Scan(Flatten(frames), 0).starts), None, false)
         == Restored(Seen(nals), LOST)
  {
    PayloadsTransportable(nals);
    LocatedPayloads(frames, AllPayloads(nals));
    LocatablePayloads(nals, frames);
    ReassembleInvertsPayloads(Seen(nals), None);
  }

  /** Every unit comes back exactly when none has 0 or 1401 bytes and the last one has more than 2. */
  lemma DeliveryIsIdentity(nals: seq<seq<byte>>)
    ensures Restored(Seen(nals), LOST) == nals
            <==> (forall i :: 0 <= i < |nals| ==> |nals[i]| !in LOST) && (nals != [] ==> |nals[|nals| - 1]| > 2)
  {
    RestoredAll(Seen(nals), LOST);
    hide Restored;
    if nals != [] && |nals[|nals| - 1]| > 2 {
      assert Seen(nals) == nals;
    } else if nals != [] {
      assert |Seen(nals)| < |nals|;
    }
  }

  /** The receiving end: locate the frames chunk by chunk, take their payloads, reassemble the units. */
  method ReceiveNals(chunks: seq<seq<byte>>) returns (nals: seq<seq<byte>>)
    requires NonEmpty(chunks)
    ensures forall sent: seq<seq<byte>>, frames: seq<seq<byte>> ::
              && (forall i :: 0 <= i < |sent| ==> Sendable(sent[i]))
              && Carry(frames, AllPayloads(sent))
              && Flatten(frames) == Flatten(chunks)
              ==> nals == Restored(Seen(sent), LOST)
  {
    var starts := ReceiveAll(chunks);
    var stream := Flatten(Synchronised(chunks));
    nals := Reassemble(PayloadsAt(stream, starts), None, false);
    forall sent: seq<seq<byte>>, frames: seq<seq<byte>>
      | && (forall i :: 0 <= i < |sent| ==> Sendable(sent[i]))
        && Carry(frames, AllPayloads(sent))
        && Flatten(frames) == Flatten(chunks)
      ensures nals == Restored(Seen(sent), LOST)
    {
      FramesStartSynchronised(sent, frames, chunks);
      DeliveryRestores(sent, frames);
      ReportsAreScan(chunks);
    }
  }

  lemma FramesStartSynchronised(sent: seq<seq<byte>>, frames: seq<seq<byte>>, chunks: seq<seq<byte>>)
    requires NonEmpty(chunks) && Carry(frames, AllPayloads(sent)) && Flatten(frames) == Flatten(chunks)
    ensures Synchronised(chunks) == chunks
  {
    if chunks != [] {
      assert Flatten(chunks)[0] == chunks[0][0];
      assert frames != [];
      PayloadsTransportable(sent);
      FrameIsWhole(frames[0], AllPayloads(sent)[0]);
      assert Flatten(frames)[0] == frames[0][0];
    }
  }
}
