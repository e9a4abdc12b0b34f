/**
  The proxy's interceptor: while interception is on, every RTP packet located in the incoming
  stream is replaced by one packet with the next fragment of a local file, under the header of
  the first replaced packet with its sequence number and timestamp counted on.
*/
module Interception {
  import opened Bytes
  import opened RtspFraming
  import opened Receiver
  import opened UnitFragments
  import opened NalSource

  const TIMESTAMP_STEP := 90000 / 30

  /** The fixed RTP header (section 5.1 of RFC 3550), numbers in host order. */
  datatype RtpHeader = RtpHeader(flags: byte, marker: int, payloadType: int,
                                 seqNo: int, timestamp: int, ssrc: seq<byte>)
  {
    predicate Valid() {
      && 0 <= marker < 2 && 0 <= payloadType < 128
      && 0 <= seqNo < 0x1_0000 && 0 <= timestamp < 0x1_0000_0000 && |ssrc| == 4
    }

    function Bytes(): (b: seq<byte>)
      requires Valid()
      ensures |b| == RTP_HEADER_SIZE
    {
      [flags, 128 * marker + payloadType] + Be16(seqNo) + Be32(timestamp) + ssrc
    }
  }

  function ParseHeader(b: seq<byte>): (h: RtpHeader)
    requires |b| == RTP_HEADER_SIZE
    ensures h.Valid()
  {
    RtpHeader(b[0], b[1] / 128, b[1] % 128, Word16(b[2], b[3]), Word32(b[4], b[5], b[6], b[7]), b[8..12])
  }

  /** A header that is read and written back unchanged is the same bytes. */
  lemma HeaderRoundTrip(b: seq<byte>)
    requires |b| == RTP_HEADER_SIZE
    ensures ParseHeader(b).Bytes() == b
  {
    hide Be16, Be32, Word16, Word32;
    Be16OfWord16(b[2], b[3]);
    Be32OfWord32(b[4], b[5], b[6], b[7]);
    assert b == [b[0], b[1]] + [b[2], b[3]] + [b[4], b[5], b[6], b[7]] + b[8..12];
  }

  /** The header of the n-th replaced packet: everything but marker, number and time is the first packet's. */
  function Renumbered(first: RtpHeader, n: nat, marker: int): (h: RtpHeader)
    requires first.Valid() && 0 <= marker < 2
    ensures h.Valid()
  {
    first.(marker := marker,
           seqNo := (first.seqNo + n) % 0x1_0000,
           timestamp := (first.timestamp + TIMESTAMP_STEP * (n + 1)) % 0x1_0000_0000)
  }

  /** The interleaved frame that carries a fragment. */
  function Packet(header: RtpHeader, f: Fragment): seq<byte>
    requires header.Valid()
  {
    Framed(header.Bytes(), f.data)
  }

  /** The packets sent for the fragments, in order. */
  function Packets(first: RtpHeader, fragments: seq<Fragment>): (ps: seq<seq<byte>>)
    requires first.Valid() && forall i :: 0 <= i < |fragments| ==> Sound(fragments[i])
    ensures |ps| == |fragments|
  {
    seq(|fragments|, i requires 0 <= i < |fragments| =>
      assert Sound(fragments[i]); Packet(Renumbered(first, i, fragments[i].marker), fragments[i]))
  }

  /** A fragment whose claimed size is its real one. */
  predicate Sound(f: Fragment) {
    (f.marker == 0 || f.marker == 1) && f.size == |f.data|
  }

  predicate AllSound(fragments: seq<Fragment>) {
    forall i :: 0 <= i < |fragments| ==> Sound(fragments[i])
  }

  /** The lengths for which the fragment sizes are true. */
  predicate WellSized(units: seq<seq<byte>>, is265: bool) {
    forall i :: 0 <= i < |units| ==>
      !(RTP_PAYLOAD_MAX_SIZE <= |units[i]| < RTP_PAYLOAD_MAX_SIZE + HeaderSize(is265))
  }

  lemma {:induction false} StreamIsSound(units: seq<seq<byte>>, is265: bool, n: nat)
    requires units != [] && (forall i :: 0 <= i < |units| ==> units[i] != []) && WellSized(units, is265)
    ensures AllSound(FragmentStream(units, is265, n))
  {
    if n > 0 {
      StreamIsSound(units, is265, n - 1);
      SizesAreTrue(units[Wrap(n - 1, |units|)], is265);
    }
  }

  lemma PacketsMore(first: RtpHeader, fragments: seq<Fragment>, f: Fragment)
    requires first.Valid() && AllSound(fragments) && Sound(f)
    ensures AllSound(fragments + [f])
    ensures Packets(first, fragments + [f])
         == Packets(first, fragments) + [Packet(Renumbered(first, |fragments|, f.marker), f)]
  {
    hide Packet, Renumbered, Sound;
  }

  /** The fields of a header, where they stand in its bytes. */
  lemma HeaderNumbers(b: seq<byte>)
    requires |b| == 12
    ensures var h := ParseHeader(b);
            && h.flags == b[0] && h.marker == b[1] / 128 && h.payloadType == b[1] % 128
            && h.seqNo == Number(b[2..4]) && h.timestamp == Number(b[4..8]) && h.ssrc == b[8..12]
  {
    NumberOfTwo(b[2..4]);
    NumberOfFour(b[4..8]);
    hide Number;
  }

  /** Every byte of the i-th packet sent when the first packet replaced has the header `b`. */
  lemma PacketBytes(b: seq<byte>, fs: seq<Fragment>, i: nat)
    requires |b| == 12 && AllSound(fs) && i < |fs| && |fs[i].data| < 0x8000 - 12
    ensures var p := Packets(ParseHeader(b), fs)[i];
            && Complete(p) && |p| >= 16 && p[1] == 0
            && p[4] == b[0] && p[5] / 128 == fs[i].marker && p[5] % 128 == b[1] % 128
            && Number(p[6..8]) == Plus16(Number(b[2..4]), i)
            && Number(p[8..12]) == Plus32(Number(b[4..8]), 3000 * (i + 1))
            && p[12..16] == b[8..12] && p[16..] == fs[i].data
  {
    var h := ParseHeader(b);
    PacketOfFragment(h, fs, i);
    HeaderNumbers(b);
    hide Framed, ParseHeader, RtpHeader.Bytes, Renumbered, Packets, Number, Sound, Complete;
    hide Plus16, Plus32;
    FieldsOfPacket(Packets(h, fs)[i], Renumbered(h, i, fs[i].marker), fs[i].data);
  }

  /** Where the fields of a header stand in a packet. */
  lemma FieldsOfPacket(p: seq<byte>, h: RtpHeader, data: seq<byte>)
    requires h.Valid() && p == Framed(h.Bytes(), data) && |data| < 0x8000 - 12
    ensures Complete(p) && |p| >= 16 && p[1] == 0
    ensures p[4] == h.flags && p[5] / 128 == h.marker && p[5] % 128 == h.payloadType
    ensures Number(p[6..8]) == h.seqNo && Number(p[8..12]) == h.timestamp
    ensures p[12..16] == h.ssrc && p[16..] == data
  {
    FramedBytes(h.Bytes(), data);
    hide Framed, ParseHeader, RtpHeader.Bytes, Number, Complete;
    HeaderNumbers(h.Bytes());
    BytesRoundTrip(h);
    HeaderSlices(p, h.Bytes());
  }

  lemma PacketOfFragment(h: RtpHeader, fs: seq<Fragment>, i: nat)
    requires h.Valid() && AllSound(fs) && i < |fs|
    ensures 0 <= fs[i].marker < 2
    ensures var r := Renumbered(h, i, fs[i].marker);
            && r.Valid() && Packets(h, fs)[i] == Framed(r.Bytes(), fs[i].data)
            && r.flags == h.flags && r.marker == fs[i].marker && r.payloadType == h.payloadType && r.ssrc == h.ssrc
            && r.seqNo == Plus16(h.seqNo, i) && r.timestamp == Plus32(h.timestamp, 3000 * (i + 1))
  {
    assert Sound(fs[i]);
    hide Framed, RtpHeader.Bytes, Plus16, Plus32;
    RenumberedFields(h, i, fs[i].marker);
  }

  lemma HeaderSlices(p: seq<byte>, b: seq<byte>)
    requires |p| >= 16 && |b| == 12 && p[4..16] == b
    ensures p[4] == b[0] && p[5] == b[1] && p[6..8] == b[2..4] && p[8..12] == b[4..8] && p[12..16] == b[8..12]
  {
    assert forall k :: 0 <= k < 12 ==> p[4 + k] == b[k];
  }

  /** A header that is written and read back is the same. */
  lemma BytesRoundTrip(h: RtpHeader)
    requires h.Valid()
    ensures ParseHeader(h.Bytes()) == h
  {
    hide Be16, Be32, Word16, Word32;
    var head, b := [h.flags, 128 * h.marker + h.payloadType], h.Bytes();
    MarkerAndType(h.marker, h.payloadType);
    assert b == head + (Be16(h.seqNo) + (Be32(h.timestamp) + h.ssrc));
    assert b[2..4] == Be16(h.seqNo) && b[4..8] == Be32(h.timestamp) && b[8..12] == h.ssrc;
    NumberOfBe16(h.seqNo);
    NumberOfBe32(h.timestamp);
    HeaderNumbers(b);
  }

  /** The other end of the connection; sends are taken to be complete. */
  class Peer {
    var sent: seq<seq<byte>>

    constructor ()
      ensures sent == []
    {
      sent := [];
    }

    method Send(bytes: seq<byte>)
      modifies this
      ensures sent == old(sent) + [bytes]
    {
      sent := sent + [bytes];
    }
  }

  /** The header kept between packets after n replacements: it is counted on before each packet. */
  function Counter(first: RtpHeader, n: nat, marker: int): RtpHeader {
    first.(marker := marker,
           seqNo := (first.seqNo + n - 1) % 0x1_0000,
           timestamp := (first.timestamp + TIMESTAMP_STEP * n) % 0x1_0000_0000)
  }

  /** The header to count on from, so that the first packet gets the header found. */
  function CountedBack(h: RtpHeader): RtpHeader {
    h.(seqNo := (h.seqNo - 1) % 0x1_0000)
  }

  /** What is counted before every packet. */
  function Next(h: RtpHeader): RtpHeader {
    h.(seqNo := (h.seqNo + 1) % 0x1_0000, timestamp := (h.timestamp + TIMESTAMP_STEP) % 0x1_0000_0000)
  }

  lemma CountOn(first: RtpHeader, n: nat, marker: int)
    requires first.Valid() && 0 <= marker < 2
    ensures Next(Counter(first, n, first.marker)) == Counter(first, n + 1, first.marker)
    ensures Counter(first, n + 1, first.marker).(marker := marker) == Renumbered(first, n, marker)
    ensures Counter(first, n, first.marker).Valid()
  {
    NextModulo(first.seqNo + n - 1, 1, 0x1_0000);
    NextModulo(first.timestamp + TIMESTAMP_STEP * n, TIMESTAMP_STEP, 0x1_0000_0000);
  }

  lemma NextModulo(a: int, step: int, m: int)
    requires m == 0x1_0000 || m == 0x1_0000_0000
    ensures (a % m + step) % m == (a + step) % m
  {
  }

  /** How far before the chunk a packet header can begin. */
  const REACH := MAGIC_SIZE - INTERLEAVE_SIZE

  /**
    The bytes taken for the packet header at `pos`. One that began in an earlier chunk has a negative
    position: its first bytes are taken from the memory before the chunk.
  */
  function HeaderAt(buf: seq<byte>, pos: int, before: seq<byte>): (b: seq<byte>)
    requires |before| == REACH && -REACH <= pos <= |buf| - RTP_HEADER_SIZE
    ensures |b| == RTP_HEADER_SIZE
  {
    (before + buf)[REACH + pos..REACH + pos + RTP_HEADER_SIZE]
  }

  /** The packet header of the frame at `start`. */
  function HeaderOfFrame(stream: seq<byte>, start: nat): (b: seq<byte>)
    requires start + MAGIC_SIZE < |stream|
    ensures |b| == RTP_HEADER_SIZE
  {
    stream[start + INTERLEAVE_SIZE..start + INTERLEAVE_SIZE + RTP_HEADER_SIZE]
  }

  /** Bytes of the header that are in the chunk are the frame's, the others are what lies before the chunk. */
  lemma HeaderByte(stream: seq<byte>, buf: seq<byte>, start: nat, before: seq<byte>, i: nat)
    requires |stream| <= start + MAGIC_SIZE < |stream + buf| && |before| == REACH && i < RTP_HEADER_SIZE
    ensures var pos := start + INTERLEAVE_SIZE - |stream|;
            HeaderAt(buf, pos, before)[i]
            == if pos + i >= 0 then HeaderOfFrame(stream + buf, start)[i] else before[REACH + pos + i]
  {
  }

  /** The header found is the frame's, whatever lies before the chunk, exactly when it begins in the chunk. */
  lemma HeaderIsTheFrames(stream: seq<byte>, buf: seq<byte>, start: nat)
    requires |stream| <= start + MAGIC_SIZE < |stream + buf|
    ensures var pos, header := start + INTERLEAVE_SIZE - |stream|, HeaderOfFrame(stream + buf, start);
            (forall before: seq<byte> :: |before| == REACH ==> HeaderAt(buf, pos, before) == header)
            <==> start + INTERLEAVE_SIZE >= |stream|
  {
    var pos, header := start + INTERLEAVE_SIZE - |stream|, HeaderOfFrame(stream + buf, start);
    hide HeaderAt, HeaderOfFrame;
    if pos >= 0 {
      forall before: seq<byte> | |before| == REACH ensures HeaderAt(buf, pos, before) == header {
        forall i: nat | i < RTP_HEADER_SIZE ensures HeaderAt(buf, pos, before)[i] == header[i] {
          HeaderByte(stream, buf, start, before, i);
        }
      }
    } else {
      var other := OtherThan(header[0]);
      HeaderByte(stream, buf, start, other, 0);
      assert HeaderAt(buf, pos, other) != header;
    }
  }

  /** The sequence number found is the frame's, whatever lies before the chunk, exactly when it is in the chunk. */
  lemma NumberIsTheFrames(stream: seq<byte>, buf: seq<byte>, start: nat)
    requires |stream| <= start + MAGIC_SIZE < |stream + buf|
    ensures var pos, header := start + INTERLEAVE_SIZE - |stream|, HeaderOfFrame(stream + buf, start);
            (forall before: seq<byte> :: |before| == REACH ==>
               ParseHeader(HeaderAt(buf, pos, before)).seqNo == ParseHeader(header).seqNo)
            <==> start + INTERLEAVE_SIZE + 2 >= |stream|
  {
    var pos, header := start + INTERLEAVE_SIZE - |stream|, HeaderOfFrame(stream + buf, start);
    hide HeaderAt, HeaderOfFrame;
    if pos + 2 >= 0 {
      forall before: seq<byte> | |before| == REACH
        ensures ParseHeader(HeaderAt(buf, pos, before)).seqNo == ParseHeader(header).seqNo
      {
        HeaderByte(stream, buf, start, before, 2);
        HeaderByte(stream, buf, start, before, 3);
      }
    } else {
      var other := OtherThan(header[2]);
      HeaderByte(stream, buf, start, other, 2);
      assert ParseHeader(HeaderAt(buf, pos, other)).seqNo != ParseHeader(header).seqNo;
    }
  }

  function OtherThan(b: byte): (before: seq<byte>)
    ensures |before| == REACH && forall i :: 0 <= i < REACH ==> before[i] != b
  {
    seq(REACH, _ => if b == 0 then 1 else 0)
  }

  /**
    A frame cut behind its tenth byte: it is located in the second chunk, but its sequence number,
    0x0102, is read as 0 when the memory before that chunk holds zero bytes.
  */
  lemma NumberLost(stream: seq<byte>, buf: seq<byte>)
    requires stream == [DOLLAR, 0, 0, 15, 128, 96, 1, 2, 0, 0]
    requires buf == [0, 0, 0, 0, 0, 0, 65, 66, 67]
    ensures Scan(stream + buf, 0).starts == [0] && Scan(stream, 0).starts == []
    ensures ParseHeader(HeaderOfFrame(stream + buf, 0)).seqNo == 0x0102
    ensures ParseHeader(HeaderAt(buf, INTERLEAVE_SIZE - |stream|, Zeros(REACH))).seqNo == 0
  {
    var t := stream + buf;
    assert t[0] == DOLLAR && t[2] == 0 && t[3] == 15 && t[6] == 1 && t[7] == 2;
    assert NextDollar(t, 0) == 0;
    assert Scan(t, 19) == Located([], false);
    HeaderByte(stream, buf, 0, Zeros(REACH), 2);
    HeaderByte(stream, buf, 0, Zeros(REACH), 3);
  }

  /** The position reported first belongs to the first frame that had not been reported, and the header is in reach. */
  lemma FirstPosition(stream: seq<byte>, buf: seq<byte>, reported: seq<int>, positions: seq<int>, tail: nat)
    requires positions != [] && tail <= MAGIC_SIZE
    requires var starts := Scan(stream + buf, 0).starts;
             && starts == reported + FrameStarts(positions, |stream|)
             && forall k :: |reported| <= k < |starts| ==> |stream| - tail <= starts[k] < |stream + buf| - MAGIC_SIZE
    ensures var starts := Scan(stream + buf, 0).starts;
            && |reported| < |starts|
            && positions[0] == starts[|reported|] + INTERLEAVE_SIZE - |stream|
            && |stream| - tail <= starts[|reported|] < |stream + buf| - MAGIC_SIZE
  {
    hide Scan;
    var starts := Scan(stream + buf, 0).starts;
    assert starts[|reported|] == FrameStarts(positions, |stream|)[0];
  }

  lemma MarkerAndType(marker: int, payloadType: int)
    requires 0 <= marker < 2 && 0 <= payloadType < 128
    ensures (128 * marker + payloadType) / 128 == marker && (128 * marker + payloadType) % 128 == payloadType
  {
  }

  lemma RenumberedFields(h: RtpHeader, n: nat, marker: int)
    requires h.Valid() && 0 <= marker < 2
    ensures var r := Renumbered(h, n, marker);
            && r.flags == h.flags && r.marker == marker && r.payloadType == h.payloadType && r.ssrc == h.ssrc
            && r.seqNo == Plus16(h.seqNo, n) && r.timestamp == Plus32(h.timestamp, 3000 * (n + 1))
            && (n == 0 ==> r.seqNo == h.seqNo)
  {
    assert TIMESTAMP_STEP == 3000;
  }

  lemma HeaderFields(h: RtpHeader)
    requires h.Valid()
    ensures var b := h.Bytes();
            && b[0] == h.flags && b[1] / 128 == h.marker && b[1] % 128 == h.payloadType
            && b[2..4] == Be16(h.seqNo) && b[8..] == h.ssrc
  {
    hide Be16, Be32;
    var head := [h.flags, 128 * h.marker + h.payloadType];
    MarkerAndType(h.marker, h.payloadType);
    assert h.Bytes() == head + (Be16(h.seqNo) + (Be32(h.timestamp) + h.ssrc));
  }

  /**
    A replaced packet keeps flags, payload type and source of the first one; the first replacement
    also keeps its sequence number, and every one has a marker and a time of its own.
  */
  lemma ReplacedHeader(b: seq<byte>, n: nat, marker: int)
    requires |b| == RTP_HEADER_SIZE && 0 <= marker < 2
    ensures var r := Renumbered(ParseHeader(b), n, marker).Bytes();
            && r[0] == b[0] && r[1] % 128 == b[1] % 128 && r[1] / 128 == marker && r[8..] == b[8..]
            && (n == 0 ==> r[2..4] == b[2..4])
  {
    hide *;
    HeaderRoundTrip(b);
    var h := ParseHeader(b);
    var r := Renumbered(h, n, marker);
    RenumberedFields(h, n, marker);
    HeaderFields(h);
    HeaderFields(r);
  }

  /**
    The header to count on from is the one at the first frame of the stream that had not been
    reported, with what lies before the chunk in place of the bytes that were in an earlier one.
  */
  ghost predicate FirstOfStream(first: RtpHeader, stream: seq<byte>, buf: seq<byte>, reported: nat, before: seq<byte>)
    requires |before| == REACH
  {
    var t := stream + buf;
    reported < |Scan(t, 0).starts| &&
    var start := Scan(t, 0).starts[reported];
    && 0 <= start && |stream| <= start + MAGIC_SIZE < |t|
    && first == ParseHeader(HeaderAt(buf, start + INTERLEAVE_SIZE - |stream|, before))
    && (start + INTERLEAVE_SIZE >= |stream| ==> first == ParseHeader(HeaderOfFrame(t, start)))
    && (start + INTERLEAVE_SIZE + 2 >= |stream| ==> first.seqNo == ParseHeader(HeaderOfFrame(t, start)).seqNo)
  }

  class Inceptor {
    var previousStatus: bool
    var rtpHeader: RtpHeader
    const fragments: FragmentCache
    const reader: RtspReader
    const peer: Peer
    /** The header of the first replaced packet, and how much had been sent before it. */
    ghost var first: RtpHeader
    ghost var mark: nat

    ghost predicate Valid()
      reads this, fragments, fragments.source, reader, reader.prependBuf, peer
    {
      && reader.Valid()
      && fragments.Valid() && fragments.Consistent()
      && WellSized(UnitsOf(fragments.File()), fragments.is265)
      && (previousStatus ==> Replacing())
    }

    /** Since `mark` exactly the packets for the fragments handed out have been sent. */
    ghost predicate Replacing()
      reads this, fragments, peer
    {
      && first.Valid()
      && rtpHeader == Counter(first, |fragments.emitted|, first.marker)
      && mark <= |peer.sent|
      && AllSound(fragments.emitted)
      && peer.sent[mark..] == Packets(first, fragments.emitted)
    }

    constructor (fragments: FragmentCache, reader: RtspReader, peer: Peer)
      requires fragments.Valid() && fragments.Consistent() && reader.Valid()
      requires WellSized(UnitsOf(fragments.File()), fragments.is265)
      ensures Valid() && !previousStatus
      ensures this.fragments == fragments && this.reader == reader && this.peer == peer
    {
      this.fragments, this.reader, this.peer := fragments, reader, peer;
      previousStatus := false;
      rtpHeader := RtpHeader(0, 0, 0, 0, 0, [0, 0, 0, 0]);
      first, mark := rtpHeader, 0;
    }

    /** The fragments handed out are sound because the whole stream of fragments is. */
    lemma EmittedAreSound()
      requires fragments.Valid() && fragments.Consistent()
      requires WellSized(UnitsOf(fragments.File()), fragments.is265)
      ensures AllSound(fragments.emitted)
    {
      var all := FragmentStream(UnitsOf(fragments.File()), fragments.is265, fragments.Taken());
      StreamIsSound(UnitsOf(fragments.File()), fragments.is265, fragments.Taken());
      assert all == fragments.emitted + fragments.Cached();
      forall i | 0 <= i < |fragments.emitted| ensures Sound(fragments.emitted[i]) {
        assert fragments.emitted[i] == all[i];
      }
    }

    /** Sends the next fragment under the given header. */
    method WriteRtpPacket(header: RtpHeader) returns (ghost f: Fragment)
      requires fragments.Valid() && fragments.Consistent() && header.Valid()
      requires WellSized(UnitsOf(fragments.File()), fragments.is265)
      modifies fragments, fragments.source, peer
      ensures fragments.Valid() && fragments.Consistent()
      ensures fragments.emitted == old(fragments.emitted) + [f] && Sound(f)
      ensures peer.sent == old(peer.sent) + [Packet(header.(marker := f.marker), f)]
    {
      var fragment := fragments.GetFragment();
      EmittedAreSound();
      assert fragments.emitted[|fragments.emitted| - 1] == fragment;
      f := fragment;
      var rtpSize := RTP_HEADER_SIZE + fragment.size;
      var h := header.(marker := fragment.marker);
      peer.Send([DOLLAR, 0] + Be16(rtpSize) + h.Bytes() + fragment.data[..fragment.size]);
      assert fragment.data[..fragment.size] == fragment.data;
    }

    lemma Unpack()
      requires Valid()
      ensures reader.Valid() && fragments.Valid() && fragments.Consistent()
      ensures WellSized(UnitsOf(fragments.File()), fragments.is265)
      ensures previousStatus ==> Replacing()
    {
    }

    lemma Pack()
      requires reader.Valid() && fragments.Valid() && fragments.Consistent()
      requires WellSized(UnitsOf(fragments.File()), fragments.is265)
      requires previousStatus ==> Replacing()
      ensures Valid()
    {
    }

    lemma Replaceable()
      requires Replacing()
      ensures first.Valid() && AllSound(fragments.emitted)
      ensures rtpHeader == Counter(first, |fragments.emitted|, first.marker)
      ensures mark <= |peer.sent| && peer.sent[mark..] == Packets(first, fragments.emitted)
    {
    }

    lemma Replaced(emitted: seq<Fragment>, sent: seq<seq<byte>>, f: Fragment)
      requires first.Valid() && AllSound(emitted) && Sound(f) && fragments.emitted == emitted + [f]
      requires rtpHeader == Counter(first, |emitted| + 1, first.marker)
      requires mark <= |sent| && sent[mark..] == Packets(first, emitted)
      requires peer.sent == sent + [Packet(Renumbered(first, |emitted|, f.marker), f)]
      ensures Replacing()
    {
      PacketsMore(first, emitted, f);
      assert peer.sent[mark..] == sent[mark..] + [peer.sent[|sent|]];
    }

    /** One located packet: count the header on, then send. */
    method ReplaceOne()
      requires Valid() && previousStatus
      modifies this`rtpHeader, fragments, fragments.source, peer
      ensures Valid() && previousStatus
      ensures |fragments.emitted| == |old(fragments.emitted)| + 1
      ensures old(fragments.emitted) <= fragments.emitted && old(peer.sent) <= peer.sent
    {
      hide *;
      Unpack();
      Replaceable();
      ghost var emitted, sent := fragments.emitted, peer.sent;
      CountOn(first, |emitted|, 0);
      CountOn(first, |emitted| + 1, 0);
      rtpHeader := Next(rtpHeader);
      ghost var f := WriteRtpPacket(rtpHeader);
      MarkerOf(f);
      CountOn(first, |emitted|, f.marker);
      Replaced(emitted, sent, f);
      Pack();
    }

    /** Begins to replace packets after the header found in the stream. */
    method Start(header: RtpHeader)
      requires Valid() && header.Valid()
      modifies this, fragments, fragments.source
      ensures Valid() && previousStatus
      ensures first == header && mark == |peer.sent| && fragments.emitted == []
    {
      hide *;
      Unpack();
      previousStatus := true;
      rtpHeader := CountedBack(header);
      fragments.Reset();
      first, mark := header, |peer.sent|;
      Started();
      Pack();
    }

    lemma Started()
      requires first.Valid() && mark == |peer.sent| && fragments.emitted == []
      requires rtpHeader == CountedBack(first)
      ensures Replacing()
    {
      hide FragmentCache.Valid, FragmentCache.Consistent, Counter, CountedBack, Packets, AllSound;
      NothingReplaced(first, peer.sent);
    }

    /** Replaces the packets at all positions. */
    method ReplaceAll(positions: seq<int>)
      requires Valid() && previousStatus
      modifies this`rtpHeader, fragments, fragments.source, peer
      ensures Valid() && previousStatus
      ensures |fragments.emitted| == |old(fragments.emitted)| + |positions|
      ensures old(fragments.emitted) <= fragments.emitted && old(peer.sent) <= peer.sent
    {
      hide *;
      for i := 0 to |positions|
        invariant Valid() && previousStatus
        invariant |fragments.emitted| == |old(fragments.emitted)| + i
        invariant old(fragments.emitted) <= fragments.emitted && old(peer.sent) <= peer.sent
      {
        ReplaceOne();
      }
    }

    /**
      Handles one chunk from the server. `inception` is the operator's switch and `mayStart` the
      check of the payload; `before` is the memory before the chunk, where part of the first header
      is looked for if that began earlier.
    */
    method Handle(buf: seq<byte>, inception: bool, mayStart: bool, before: seq<byte>) returns (positions: seq<int>)
      requires Valid() && buf != [] && |before| == REACH
      modifies this, fragments, fragments.source, reader, reader.prependBuf, peer
      ensures Valid()
      ensures old(reader.position) >= 0 || buf[0] == DOLLAR ==>
        Scan(old(reader.stream) + buf, 0).starts
        == old(reader.reported) + FrameStarts(positions, |old(reader.stream)|)
      ensures var starting := inception && !old(previousStatus) && positions != [] && mayStart;
              && previousStatus == (inception && (old(previousStatus) || starting))
              && (!previousStatus ==> peer.sent == old(peer.sent) + [buf])
              && old(peer.sent) <= peer.sent
              && (starting ==>
                    && FirstOfStream(first, old(reader.stream), buf, |old(reader.reported)|, before)
                    && (old(reader.prepend) <= INTERLEAVE_SIZE ==>
                          Scan(old(reader.stream) + buf, 0).starts[|old(reader.reported)|] + INTERLEAVE_SIZE
                          >= |old(reader.stream)|)
                    && mark == |old(peer.sent)| && |fragments.emitted| == |positions|)
              && (inception && old(previousStatus) ==>
                    && first == old(first) && mark == old(mark) && old(fragments.emitted) <= fragments.emitted
                    && |fragments.emitted| == |old(fragments.emitted)| + |positions|)
    {
      hide RtspReader.Valid, FragmentCache.Valid, FragmentCache.Consistent, UnitsOf, WellSized, Scan, FrameStarts,
        ParseHeader, HeaderAt, HeaderOfFrame, Inceptor.Replacing;
      ghost var stream, reported, tail := reader.stream, reader.reported, reader.prepend;
      reader.StartsAhead(buf);
      var result;
      result, positions := reader.Read(buf);
      if !inception {
        previousStatus := false;
      } else {
        if positions != [] && !previousStatus && mayStart {
          FirstPosition(stream, buf, reported, positions, tail);
          HeaderIsTheFrames(stream, buf, Scan(stream + buf, 0).starts[|reported|]);
          NumberIsTheFrames(stream, buf, Scan(stream + buf, 0).starts[|reported|]);
          Start(ParseHeader(HeaderAt(buf, positions[0], before)));
        }
        if previousStatus {
          ReplaceAll(positions);
          return;
        }
      }
      peer.Send(buf);
    }
  }

  lemma MarkerOf(f: Fragment)
    requires Sound(f)
    ensures 0 <= f.marker < 2
  {
  }

  lemma NothingReplaced(first: RtpHeader, sent: seq<seq<byte>>)
    requires first.Valid()
    ensures Counter(first, 0, first.marker) == CountedBack(first)
    ensures AllSound([])
    ensures sent[|sent|..] == Packets(first, [])
  {
  }
}
