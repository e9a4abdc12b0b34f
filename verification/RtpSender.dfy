/**
  The RTSP server's packetizer: NAL units go out as RTP packets inside interleaved frames
  (section 10.12 of RFC 2326) on one TCP connection.
*/
module RtpSender {
  import opened Bytes
  import opened Memory
  import opened FuA
  import opened RtspFraming

  const SEND_BUF_SIZE := 1500
  const SSRC_NUM := 0xffef24e7
  const H264 := 96
  const UINT16_MAX := 65535

  /** Version 2, payload type H264, no marker (section 5.1 of RFC 3550). */
  function RtpHeader(seqNo: nat, timestamp: nat): (h: seq<byte>)
    ensures |h| == RTP_HEADER_SIZE
  {
    [128, H264] + Be16(seqNo) + Be32(timestamp) + Be32(SSRC_NUM)
  }

  function Frame(seqNo: nat, timestamp: nat, payload: seq<byte>): (f: seq<byte>)
    ensures |f| == INTERLEAVE_SIZE + RTP_HEADER_SIZE + |payload|
  {
    Framed(RtpHeader(seqNo, timestamp), payload)
  }

  /** Every byte of a frame: length, version and type, number, time, source and payload. */
  lemma FrameBytes(seqNo: nat, timestamp: nat, payload: seq<byte>)
    requires seqNo < 0x1_0000 && timestamp < 0x1_0000_0000 && |payload| < 0x8000 - 12
    ensures var f := Frame(seqNo, timestamp, payload);
            && Complete(f) && |f| >= 16 && f[1] == 0 && f[4..6] == [128, 96]
            && Number(f[6..8]) == seqNo && Number(f[8..12]) == timestamp
            && f[12..16] == [0xff, 0xef, 0x24, 0xe7] && f[16..] == payload
  {
    var h, f := RtpHeader(seqNo, timestamp), Frame(seqNo, timestamp, payload);
    HeaderBytes(seqNo, timestamp);
    FramedBytes(h, payload);
    hide RtpHeader, Number, Complete, Framed;
    Slices(f, h);
  }

  lemma SourceBytes()
    ensures Be32(SSRC_NUM) == [0xff, 0xef, 0x24, 0xe7]
  {
  }

  lemma HeaderBytes(seqNo: nat, timestamp: nat)
    requires seqNo < 0x1_0000 && timestamp < 0x1_0000_0000
    ensures var h := RtpHeader(seqNo, timestamp);
            && h[..2] == [128, 96] && Number(h[2..4]) == seqNo && Number(h[4..8]) == timestamp
            && h[8..12] == [0xff, 0xef, 0x24, 0xe7]
  {
    var h := RtpHeader(seqNo, timestamp);
    NumberOfBe16(seqNo);
    NumberOfBe32(timestamp);
    SourceBytes();
    hide Be16, Be32, Number;
    assert h[2..4] == Be16(seqNo) && h[4..8] == Be32(timestamp) && h[8..12] == Be32(SSRC_NUM);
  }

  lemma Slices(f: seq<byte>, h: seq<byte>)
    requires |f| >= 16 && |h| == 12 && f[4..16] == h
    ensures f[4..6] == h[..2] && f[6..8] == h[2..4] && f[8..12] == h[4..8] && f[12..16] == h[8..12]
  {
    assert forall k :: 0 <= k < 12 ==> f[4 + k] == h[k];
  }

  /** The sequence number written into the n-th packet after `seqNum`. */
  function SeqField(seqNum: nat, n: nat): nat {
    SeqAfter(seqNum, n) % UINT16_MAX
  }

  /** The frames that carry the payloads, with consecutive sequence numbers and one timestamp. */
  function Frames(payloads: seq<seq<byte>>, seqNum: nat, timestamp: nat): (fs: seq<seq<byte>>)
    ensures |fs| == |payloads|
  {
    seq(|payloads|, i requires 0 <= i < |payloads| => Frame(SeqField(seqNum, i + 1), timestamp, payloads[i]))
  }

  /** The connection: sends succeed as long as there is room. */
  class Socket {
    var sent: seq<seq<byte>>
    var room: nat

    constructor (room: nat)
      ensures sent == [] && this.room == room
    {
      sent, this.room := [], room;
    }

    method Send(bytes: seq<byte>) returns (n: int)
      modifies this
      ensures old(room) == 0 ==> n == -1 && room == 0 && sent == old(sent)
      ensures old(room) > 0 ==> n == |bytes| && room == old(room) - 1 && sent == old(sent) + [bytes]
    {
      if room == 0 {
        return -1;
      }
      room := room - 1;
      sent := sent + [bytes];
      n := |bytes|;
    }
  }

  /** The order in which the parts of a packet are written does not show in the packet. */
  lemma PacketBuilt(empty: seq<byte>, header: seq<byte>, payload: seq<byte>, length: seq<byte>)
    requires |empty| == INTERLEAVE_SIZE + SEND_BUF_SIZE && empty[..2] == [DOLLAR, 0]
    requires |header| == RTP_HEADER_SIZE && |length| == 2 && |payload| <= SEND_BUF_SIZE - RTP_HEADER_SIZE
    ensures var q := Overwrite(Overwrite(Overwrite(empty, 4, header), 16, payload), 2, length);
            q[..16 + |payload|] == [DOLLAR, 0] + length + header + payload
  {
    OverwriteAdjacent(empty, 4, header, payload);
    var q := Overwrite(empty, 4, header + payload);
    assert q[4..16 + |payload|] == header + payload;
    assert q[..2] == [DOLLAR, 0];
    var r := Overwrite(q, 2, length);
    assert r[..16 + |payload|] == q[..2] + length + q[4..16 + |payload|];
  }

  /** The sequence counter after n more packets. */
  function SeqAfter(seqNum: nat, n: nat): nat {
    (seqNum + n) % 0x1_0000
  }

  lemma SeqNext(seq0: nat, n: nat)
    ensures (SeqAfter(seq0, n) + 1) % 0x1_0000 == SeqAfter(seq0, n + 1)
  {
    var a := seq0 + n;
    assert a == a / 0x1_0000 * 0x1_0000 + a % 0x1_0000;
  }

  lemma FrameAt(ps: seq<seq<byte>>, seq0: nat, timestamp: nat, k: nat)
    requires k < |ps|
    ensures Frames(ps, seq0, timestamp)[k] == Frame(SeqAfter(seq0, k + 1) % UINT16_MAX, timestamp, ps[k])
  {
    hide Frame, SeqAfter;
  }

  /** A connection and the sender's counter: what has gone out, how much still can, the last number. */
  datatype Link = Link(sent: seq<seq<byte>>, room: nat, seqNum: nat)

  /** One send: the frame has gone out, or the connection is closed; the number is used up. */
  predicate Outcome(before: Link, after: Link, ok: bool, frame: seq<byte>) {
    && ok == (before.room > 0)
    && after.sent == before.sent + (if ok then [frame] else [])
    && after.room == (if ok then before.room - 1 else 0)
    && after.seqNum == (before.seqNum + 1) % 0x1_0000
  }

  /** What has been sent and counted after the first n of the frames, or the first n and a refusal. */
  predicate Sent(frames: seq<seq<byte>>, n: nat, refused: bool, before: Link, after: Link) {
    && n <= |frames| && n <= before.room
    && (refused ==> n == before.room && n < |frames|)
    && after.sent == before.sent + frames[..n]
    && after.room == before.room - n
    && after.seqNum == SeqAfter(before.seqNum, if refused then n + 1 else n)
  }

  lemma SentNothing(frames: seq<seq<byte>>, before: Link)
    requires before.seqNum < 0x1_0000
    ensures Sent(frames, 0, false, before, before)
  {
  }

  lemma SentMore(ps: seq<seq<byte>>, timestamp: nat, k: nat, before: Link, now: Link, after: Link, ok: bool)
    requires k < |ps|
    requires Sent(Frames(ps, before.seqNum, timestamp), k, false, before, now)
    requires Outcome(now, after, ok, Frame(after.seqNum % UINT16_MAX, timestamp, ps[k]))
    ensures Sent(Frames(ps, before.seqNum, timestamp), if ok then k + 1 else before.room, !ok, before, after)
  {
    hide Frames, Frame, SeqAfter;
    SeqNext(before.seqNum, k);
    FrameAt(ps, before.seqNum, timestamp, k);
    TakeOneMore(before.sent, Frames(ps, before.seqNum, timestamp), k);
    assert now.sent + [] == now.sent;
  }

  /** The 90 kHz clock, one frame later. */
  function NextClock(ts: nat, framerate: nat): (next: nat)
    requires framerate > 0
    ensures next < 0x1_0000_0000
  {
    (ts + 90000 / framerate) % 0x1_0000_0000
  }

  /** A second is a whole number of frames of the clock, up to what the division drops. */
  lemma ClockRate(ts: nat, framerate: nat)
    requires framerate > 0 && ts + 90000 < 0x1_0000_0000
    ensures var step := NextClock(ts, framerate) - ts; step >= 0 && framerate * step <= 90000 < framerate * (step + 1)
  {
    var step := 90000 / framerate;
    assert step <= 90000;
    hide NextClock;
    assert NextClock(ts, framerate) == ts + step by {
      ClockStep(ts, framerate);
    }
  }

  lemma ClockStep(ts: nat, framerate: nat)
    requires framerate > 0 && ts + 90000 < 0x1_0000_0000
    ensures NextClock(ts, framerate) == ts + 90000 / framerate
  {
    assert 90000 / framerate <= 90000;
  }

  /** A packet buffer of which only the interleaved header is left. */
  function Cleared(packet: seq<byte>): (empty: seq<byte>)
    requires |packet| == INTERLEAVE_SIZE + SEND_BUF_SIZE
    ensures |empty| == |packet| && empty[..INTERLEAVE_SIZE] == packet[..INTERLEAVE_SIZE]
  {
    Overwrite(packet, INTERLEAVE_SIZE, Zeros(SEND_BUF_SIZE))
  }

  lemma ClearedKeepsPrefix(packet: seq<byte>)
    requires |packet| == INTERLEAVE_SIZE + SEND_BUF_SIZE && packet[..2] == [DOLLAR, 0]
    ensures Cleared(packet)[..2] == [DOLLAR, 0]
  {
    assert Cleared(packet)[..2] == Cleared(packet)[..INTERLEAVE_SIZE][..2];
  }

  lemma SmallPayloads(nal: seq<byte>)
    ensures |nal| == 0 ==> Payloads(nal) == []
    ensures 0 < |nal| <= RTP_PAYLOAD_MAX_SIZE ==> Payloads(nal) == [nal]
  {
  }

  lemma FragmentPayload(nal: seq<byte>, k: nat)
    requires |nal| > RTP_PAYLOAD_MAX_SIZE && k < |Payloads(nal)|
    ensures k < FragmentCount(|nal| - 1)
    ensures Payloads(nal)[k]
         == [Indicator(nal[0]), FuHeader(nal[0], FragType(k, FragmentCount(|nal| - 1)))] + Piece(nal[1..], k)
  {
    FragmentsAt(nal[0], nal[1..], 0, k);
  }

  class Packetizer {
    var tsCurrent: nat
    var seqNum: nat

    constructor ()
      ensures Valid() && tsCurrent == 0 && seqNum == 0
    {
      tsCurrent, seqNum := 0, 0;
    }

    /** Unsigned 32- and 16-bit counters. */
    ghost predicate Valid()
      reads this
    {
      tsCurrent < 0x1_0000_0000 && seqNum < 0x1_0000
    }

    ghost function Now(socket: Socket): Link
      reads this, socket
    {
      Link(socket.sent, socket.room, seqNum)
    }

    /** Clears the buffer and writes the RTP header, with the next sequence number. */
    method StartPacket(packet: array<byte>)
      requires Valid() && packet.Length == INTERLEAVE_SIZE + SEND_BUF_SIZE && packet[..2] == [DOLLAR, 0]
      modifies this`seqNum, packet
      ensures Valid() && seqNum == (old(seqNum) + 1) % 0x1_0000
      ensures packet[..]
           == Overwrite(Cleared(old(packet[..])), INTERLEAVE_SIZE, RtpHeader(seqNum % UINT16_MAX, tsCurrent))
    {
      hide Overwrite, RtpHeader, Zeros;
      Put(packet, INTERLEAVE_SIZE, Zeros(SEND_BUF_SIZE));
      seqNum := (seqNum + 1) % 0x1_0000;
      Put(packet, INTERLEAVE_SIZE, RtpHeader(seqNum % UINT16_MAX, tsCurrent));
    }

    /** Writes the length field and hands the packet to the socket. */
    method FinishPacket(packet: array<byte>, rtpSize: nat, socket: Socket) returns (ok: bool)
      requires packet.Length == INTERLEAVE_SIZE + SEND_BUF_SIZE && rtpSize <= SEND_BUF_SIZE
      modifies packet, socket
      ensures packet[..2] == old(packet[..2])
      ensures ok == (old(socket.room) > 0)
      ensures socket.room == if ok then old(socket.room) - 1 else 0
      ensures socket.sent == old(socket.sent)
              + if ok then [Overwrite(old(packet[..]), 2, Be16(rtpSize))[..INTERLEAVE_SIZE + rtpSize]] else []
    {
      Put(packet, 2, Be16(rtpSize));
      var n := socket.Send(packet[..INTERLEAVE_SIZE + rtpSize]);
      ok := n > 0;
    }

    method SendSingle(packet: array<byte>, nal: seq<byte>, socket: Socket) returns (ok: bool)
      requires Valid() && packet.Length == INTERLEAVE_SIZE + SEND_BUF_SIZE && packet[..2] == [DOLLAR, 0]
      requires 0 < |nal| <= RTP_PAYLOAD_MAX_SIZE
      modifies this`seqNum, packet, socket
      ensures Valid()
      ensures Outcome(old(Now(socket)), Now(socket), ok, Frame(seqNum % UINT16_MAX, tsCurrent, nal))
    {
      ghost var empty := Cleared(packet[..]);
      ClearedKeepsPrefix(packet[..]);
      StartPacket(packet);
      Put(packet, INTERLEAVE_SIZE + RTP_HEADER_SIZE, nal);
      PacketBuilt(empty, RtpHeader(seqNum % UINT16_MAX, tsCurrent), nal, Be16(RTP_HEADER_SIZE + |nal|));
      ok := FinishPacket(packet, RTP_HEADER_SIZE + |nal|, socket);
    }

    /** Fragment k of the unit; only the last one can be shorter than the maximum. */
    method SendFragment(packet: array<byte>, nal: seq<byte>, k: nat, socket: Socket) returns (ok: bool)
      requires Valid() && packet.Length == INTERLEAVE_SIZE + SEND_BUF_SIZE && packet[..2] == [DOLLAR, 0]
      requires |nal| > RTP_PAYLOAD_MAX_SIZE && k < |Payloads(nal)|
      modifies this`seqNum, packet, socket
      ensures Valid() && packet[..2] == [DOLLAR, 0]
      ensures Outcome(old(Now(socket)), Now(socket), ok, Frame(seqNum % UINT16_MAX, tsCurrent, Payloads(nal)[k]))
    {
      FragmentPayload(nal, k);
      hide Payloads, Fragments, Indicator, FuHeader, FragType, Piece, FragmentCount;
      hide RtpHeader, Be16, Overwrite, Cleared;
      var count := FragmentCount(|nal| - 1);
      var fu := [Indicator(nal[0]), FuHeader(nal[0], FragType(k, count))];
      var data := Piece(nal[1..], k);
      ghost var empty := Cleared(packet[..]);
      ClearedKeepsPrefix(packet[..]);
      StartPacket(packet);
      ghost var headed := packet[..];
      Put(packet, INTERLEAVE_SIZE + RTP_HEADER_SIZE, fu);
      Put(packet, INTERLEAVE_SIZE + RTP_HEADER_SIZE + 2, data);
      OverwriteAdjacent(headed, INTERLEAVE_SIZE + RTP_HEADER_SIZE, fu, data);
      PacketBuilt(empty, RtpHeader(seqNum % UINT16_MAX, tsCurrent), fu + data, Be16(RTP_HEADER_SIZE + |fu + data|));
      ok := FinishPacket(packet, RTP_HEADER_SIZE + 2 + |data|, socket);
    }

    method SendFragments(packet: array<byte>, nal: seq<byte>, socket: Socket) returns (ok: bool)
      requires Valid() && packet.Length == INTERLEAVE_SIZE + SEND_BUF_SIZE && packet[..2] == [DOLLAR, 0]
      requires |nal| > RTP_PAYLOAD_MAX_SIZE
      modifies this`seqNum, packet, socket
      ensures Valid()
      ensures var fs := Frames(Payloads(nal), old(seqNum), tsCurrent);
              Sent(fs, if ok then |fs| else old(socket.room), !ok, old(Now(socket)), Now(socket))
    {
      var count := FragmentCount(|nal| - 1);
      ghost var ps := Payloads(nal);
      ghost var before, ts := Now(socket), tsCurrent;
      assert |ps| == count;
      hide Payloads, Frames, Frame, FragmentCount, Sent, Outcome;
      SentNothing(Frames(ps, seqNum, ts), before);
      var k := 0;
      while k < count
        invariant Valid() && k <= count && tsCurrent == ts && packet[..2] == [DOLLAR, 0]
        invariant Sent(Frames(ps, before.seqNum, ts), k, false, before, Now(socket))
      {
        ghost var now := Now(socket);
        ok := SendFragment(packet, nal, k, socket);
        SentMore(ps, ts, k, before, now, Now(socket), ok);
        if !ok {
          return false;
        }
        k := k + 1;
      }
      ok := true;
    }

    /**
      Sends one NAL unit: the frames of its payloads go out in order, until the connection
      refuses one.
    */
    method SendNal(framerate: nat, nal: seq<byte>, socket: Socket, init: int) returns (result: int)
      requires Valid() && framerate > 0
      modifies this, socket
      ensures Valid() && (result == 0 || result == -1)
      ensures tsCurrent == if init == 1 then 0 else NextClock(old(tsCurrent), framerate)
      ensures var before := old(Now(socket)).(seqNum := if init == 1 then 0 else old(seqNum));
              var fs := Frames(Payloads(nal), before.seqNum, tsCurrent);
              Sent(fs, if result == 0 then |fs| else before.room, result == -1, before, Now(socket))
    {
      tsCurrent := NextClock(tsCurrent, framerate);
      if init == 1 {
        seqNum, tsCurrent := 0, 0;
      }
      var ok := SendPayloads(nal, socket);
      result := if ok then 0 else -1;
    }

    /** Sends the payloads of a unit, none for an empty one. */
    method SendPayloads(nal: seq<byte>, socket: Socket) returns (ok: bool)
      requires Valid()
      modifies this`seqNum, socket
      ensures Valid()
      ensures var fs := Frames(Payloads(nal), old(seqNum), tsCurrent);
              Sent(fs, if ok then |fs| else old(socket.room), !ok, old(Now(socket)), Now(socket))
    {
      SmallPayloads(nal);
      SentNothing(Frames(Payloads(nal), seqNum, tsCurrent), Now(socket));
      hide Payloads, Frames, Frame, Sent, Outcome;
      if |nal| < 1 {
        return true;
      }
      var packet := new byte[INTERLEAVE_SIZE + SEND_BUF_SIZE];
      packet[0], packet[1] := DOLLAR, 0;
      assert packet[..2] == [DOLLAR, 0];
      ghost var before := Now(socket);
      if |nal| <= RTP_PAYLOAD_MAX_SIZE {
        ok := SendSingle(packet, nal, socket);
        SentMore([nal], tsCurrent, 0, before, before, Now(socket), ok);
      } else {
        ok := SendFragments(packet, nal, socket);
      }
    }
  }
}
