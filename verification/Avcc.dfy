/**
  MP4 video packets (NAL units with 4-byte lengths) rewritten as an Annex B stream, with the
  parameter sets of the file in front of every IDR unit.
*/
module Avcc {
  import opened Bytes
  import opened AnnexB
  import opened Memory
  import Extradata

  const IDR := 5
  const INPUT_BUFFER_PADDING_SIZE := 64

  /** The length field at offset p. */
  function SizeAt(x: seq<byte>, p: nat): nat
    requires p + 4 <= |x|
  {
    Word32(x[p], x[p + 1], x[p + 2], x[p + 3])
  }

  /** A unit of the packet; `idr` is what its first byte says. */
  datatype Piece = Piece(nal: seq<byte>, idr: bool)

  /** The unit at offset p, if its length is there, not negative, and inside the packet. */
  function PieceAt(x: seq<byte>, p: nat): (piece: Option<Piece>)
    ensures piece.Some? ==> p + 4 + |piece.value.nal| <= |x|
  {
    if p + 4 > |x| || SizeAt(x, p) >= 0x8000_0000 || SizeAt(x, p) > |x| - (p + 4) then None
    else Some(Piece(x[p + 4..p + 4 + SizeAt(x, p)], Extradata.At(x, p + 4) % 32 == IDR))
  }

  /** The units from offset p on; None if one of them is not whole. */
  function Pieces(x: seq<byte>, p: nat): Option<seq<Piece>>
    decreases |x| - p
  {
    match PieceAt(x, p)
    case None => None
    case Some(piece) =>
      var p' := p + 4 + |piece.nal|;
      if p' >= |x| then Some([piece]) else Ahead([piece], Pieces(x, p'))
  }

  function Ahead(done: seq<Piece>, r: Option<seq<Piece>>): Option<seq<Piece>> {
    match r
    case None => None
    case Some(pieces) => Some(done + pieces)
  }

  /** What is written for one unit; `spsPps` are the parameter sets with their start codes. */
  function Emitted(piece: Piece, spsPps: seq<byte>): seq<byte> {
    if piece.idr then spsPps + (Code(spsPps != []) + piece.nal) else Code(false) + piece.nal
  }

  function AllEmitted(pieces: seq<Piece>, spsPps: seq<byte>): seq<byte> {
    if pieces == [] then [] else Emitted(pieces[0], spsPps) + AllEmitted(pieces[1..], spsPps)
  }

  lemma {:induction false} AllEmittedMore(pieces: seq<Piece>, piece: Piece, spsPps: seq<byte>)
    ensures AllEmitted(pieces + [piece], spsPps) == AllEmitted(pieces, spsPps) + Emitted(piece, spsPps)
  {
    if pieces == [] {
      var single: seq<Piece> := [piece];
      assert pieces + single == single && single[1..] == [];
      assert Emitted(piece, spsPps) + [] == [] + Emitted(piece, spsPps);
    } else {
      assert (pieces + [piece])[1..] == pieces[1..] + [piece];
      AllEmittedMore(pieces[1..], piece, spsPps);
      AppendAssoc(Emitted(pieces[0], spsPps), AllEmitted(pieces[1..], spsPps), Emitted(piece, spsPps));
    }
  }

  /** Appends parameter sets, a start code and a unit to the output. */
  method AllocAndCopy(out: seq<byte>, spsPps: seq<byte>, nal: seq<byte>) returns (grown: seq<byte>)
    ensures grown == out + (spsPps + (Code(spsPps != []) + nal))
  {
    var startcode := Code(|spsPps| > 0);
    hide Code, Overwrite;
    var data := new byte[|out| + |spsPps| + |startcode| + |nal|];
    ghost var empty := data[..];
    var at := |out| + |spsPps|;
    Put(data, 0, out);
    Put(data, |out|, spsPps);
    Put(data, at + |startcode|, nal);
    Put(data, at, startcode);
    grown := data[..];
    Grown(empty, out, spsPps, startcode, nal);
  }

  lemma Grown(empty: seq<byte>, out: seq<byte>, spsPps: seq<byte>, startcode: seq<byte>, nal: seq<byte>)
    requires |empty| == |out| + |spsPps| + |startcode| + |nal|
    ensures var at := |out| + |spsPps|;
            var two := Overwrite(Overwrite(empty, 0, out), |out|, spsPps);
            Overwrite(Overwrite(two, at + |startcode|, nal), at, startcode) == out + (spsPps + (startcode + nal))
  {
    var two := Overwrite(Overwrite(empty, 0, out), |out|, spsPps);
    OverwriteAdjacent(empty, 0, out, spsPps);
    OverwriteAdjacent(two, |out + spsPps|, startcode, nal);
    OverwriteAdjacent(empty, 0, out + spsPps, startcode + nal);
    AppendAssoc(out, spsPps, startcode + nal);
  }

  const EINVAL := -22

  /** What is put in front of IDR units; `stale` is what the packet variable holds when the record is refused. */
  function SpsPps(extradata: seq<byte>, stale: seq<byte>): seq<byte> {
    match Extradata.Conversion(extradata, INPUT_BUFFER_PADDING_SIZE)
    case Ok(_, data) => data
    case Invalid => stale
  }

  lemma NextPiece(x: seq<byte>, p: nat, piece: Piece, done: seq<Piece>)
    requires PieceAt(x, p) == Some(piece)
    ensures var p' := p + 4 + |piece.nal|;
            Ahead(done, Pieces(x, p))
            == if p' < |x| then Ahead(done + [piece], Pieces(x, p')) else Some(done + [piece])
  {
    var p' := p + 4 + |piece.nal|;
    if p' < |x| && Pieces(x, p').Some? {
      AppendAssoc(done, [piece], Pieces(x, p').value);
    }
  }

  lemma RefusedPiece(x: seq<byte>, p: nat, done: seq<Piece>)
    requires PieceAt(x, p) == None
    ensures Ahead(done, Pieces(x, p)) == None
  {
  }

  /** Converts one packet; nothing is written when a unit does not fit. */
  method H264Mp4ToAnnexB(packet: seq<byte>, extradata: seq<byte>, stale: seq<byte>)
    returns (ret: int, written: seq<byte>)
    ensures Pieces(packet, 0).None? ==> ret == EINVAL && written == []
    ensures Pieces(packet, 0).Some? ==>
              ret == 0 && written == AllEmitted(Pieces(packet, 0).value, SpsPps(extradata, stale))
  {
    var out: seq<byte> := [];
    var pos := 0;
    var more := true;
    ghost var done: seq<Piece> := [];
    hide *;
    NothingDone(Pieces(packet, 0), SpsPps(extradata, stale));
    while more
      invariant pos <= |packet|
      invariant Pieces(packet, 0) == if more then Ahead(done, Pieces(packet, pos)) else Some(done)
      invariant out == AllEmitted(done, SpsPps(extradata, stale))
      decreases more, |packet| - pos
    {
      var piece := ReadPiece(packet, pos);
      if piece.None? {
        RefusedPiece(packet, pos, done);
        return EINVAL, [];
      }
      NextPiece(packet, pos, piece.value, done);
      AllEmittedMore(done, piece.value, SpsPps(extradata, stale));
      out := ConvertUnit(out, piece.value, extradata, stale);
      done := done + [piece.value];
      pos := pos + 4 + |piece.value.nal|;
      more := pos < |packet|;
    }
    return 0, out;
  }

  method ReadPiece(packet: seq<byte>, pos: nat) returns (piece: Option<Piece>)
    requires pos <= |packet|
    ensures piece == PieceAt(packet, pos)
  {
    if pos + 4 > |packet| {
      return None;
    }
    var nalSize := SizeAt(packet, pos);
    var unitType := Extradata.At(packet, pos + 4) % 32;
    if nalSize > |packet| - (pos + 4) || nalSize >= 0x8000_0000 {
      return None;
    }
    return Some(Piece(packet[pos + 4..pos + 4 + nalSize], unitType == IDR));
  }

  /** Appends one unit, with the parameter sets in front of it if it is an IDR unit. */
  method ConvertUnit(out: seq<byte>, piece: Piece, extradata: seq<byte>, stale: seq<byte>) returns (grown: seq<byte>)
    ensures grown == out + Emitted(piece, SpsPps(extradata, stale))
  {
    if piece.idr {
      var spsPps := ReadSpsPps(extradata, stale);
      grown := AllocAndCopy(out, spsPps, piece.nal);
    } else {
      grown := AllocAndCopy(out, [], piece.nal);
      assert [] + (Code(false) + piece.nal) == Code(false) + piece.nal;
    }
  }

  method ReadSpsPps(extradata: seq<byte>, stale: seq<byte>) returns (spsPps: seq<byte>)
    ensures spsPps == SpsPps(extradata, stale)
  {
    var converted := Extradata.ExtradataToAnnexB(extradata, INPUT_BUFFER_PADDING_SIZE);
    spsPps := match converted case Ok(_, data) => data case Invalid => stale;
  }

  lemma NothingDone(r: Option<seq<Piece>>, spsPps: seq<byte>)
    ensures Ahead([], r) == r
    ensures AllEmitted([], spsPps) == []
  {
    if r.Some? {
      assert [] + r.value == r.value;
    }
  }

  // ----- what the conversion means -----

  /** A length in the last bytes of its 32-bit form, as many as the file's record announces. */
  function Length(v: nat, size: nat): (b: seq<byte>)
    requires 1 <= size <= 4
    ensures |b| == size
  {
    Be32(v)[4 - size..]
  }

  /** NAL units as the MP4 file holds them, with lengths of the given size. */
  function PacketOf(nals: seq<seq<byte>>, size: nat): seq<byte>
    requires 1 <= size <= 4
  {
    if nals == [] then [] else Length(|nals[0]|, size) + nals[0] + PacketOf(nals[1..], size)
  }

  predicate IsIdr(nal: seq<byte>) {
    nal != [] && nal[0] % 32 == IDR
  }

  function PiecesOf(nals: seq<seq<byte>>): (pieces: seq<Piece>)
    ensures |pieces| == |nals|
  {
    seq(|nals|, i requires 0 <= i < |nals| => Piece(nals[i], IsIdr(nals[i])))
  }

  /** Lengths that fit the given number of bytes and the signed variable they are read into. */
  function Limit(size: nat): nat
    requires 1 <= size <= 4
  {
    match size
    case 1 => 0x100
    case 2 => 0x1_0000
    case 3 => 0x100_0000
    case 4 => 0x8000_0000
  }

  /** Not empty, and with a length that fits. */
  predicate Packable(nals: seq<seq<byte>>, size: nat)
    requires 1 <= size <= 4
  {
    forall i :: 0 <= i < |nals| ==> 0 < |nals[i]| < Limit(size)
  }

  lemma FirstPiece(x: seq<byte>, p: nat, nal: seq<byte>, after: seq<byte>)
    requires p <= |x| && x[p..] == Be32(|nal|) + nal + after && 0 < |nal| < 0x8000_0000
    ensures PieceAt(x, p) == Some(Piece(nal, nal[0] % 32 == IDR))
    ensures p + 4 + |nal| <= |x| && x[p + 4 + |nal|..] == after
  {
    hide Be32, Word32;
    var t, len := x[p..], Be32(|nal|);
    Word32OfBe32(|nal|);
    assert t[0] == len[0] && t[1] == len[1] && t[2] == len[2] && t[3] == len[3];
    assert x[p] == t[0] && x[p + 1] == t[1] && x[p + 2] == t[2] && x[p + 3] == t[3];
    assert t[4..4 + |nal|] == nal && t[4 + |nal|..] == after;
    assert x[p + 4..p + 4 + |nal|] == t[4..4 + |nal|];
    assert x[p + 4 + |nal|..] == t[4 + |nal|..];
    assert x[p + 4] == nal[0];
  }

  lemma PiecesStep(x: seq<byte>, p: nat, piece: Piece)
    requires PieceAt(x, p) == Some(piece)
    ensures var p' := p + 4 + |piece.nal|;
            Pieces(x, p) == if p' >= |x| then Some([piece]) else Ahead([piece], Pieces(x, p'))
  {
  }

  lemma PiecesOfCons(nals: seq<seq<byte>>)
    requires nals != [] && nals[0] != []
    ensures PiecesOf(nals) == [Piece(nals[0], nals[0][0] % 32 == IDR)] + PiecesOf(nals[1..])
  {
  }

  /** A written packet is read as its units. */
  lemma {:induction false} PiecesOfPacket(x: seq<byte>, p: nat, nals: seq<seq<byte>>)
    requires nals != [] && Packable(nals, 4) && p <= |x| && x[p..] == PacketOf(nals, 4)
    ensures Pieces(x, p) == Some(PiecesOf(nals))
    decreases |nals|
  {
    hide PieceAt, Be32, Pieces, PiecesOf, PacketOf, Packable;
    var nal, rest := nals[0], nals[1..];
    var p' := p + 4 + |nal|;
    PacketOfCons(nals);
    FirstPiece(x, p, nal, PacketOf(rest, 4));
    PiecesOfCons(nals);
    PiecesStep(x, p, Piece(nal, nal[0] % 32 == IDR));
    if rest == [] {
      assert |x[p'..]| == 0;
      assert PiecesOf(nals) == [Piece(nal, nal[0] % 32 == IDR)];
    } else {
      PacketOfCons(rest);
      assert |x[p'..]| >= 4;
      PiecesOfPacket(x, p', rest);
    }
  }

  lemma PacketOfCons(nals: seq<seq<byte>>)
    requires nals != [] && Packable(nals, 4)
    ensures 0 < |nals[0]| < 0x8000_0000 && Packable(nals[1..], 4)
    ensures PacketOf(nals, 4) == Be32(|nals[0]|) + nals[0] + PacketOf(nals[1..], 4)
    ensures |PacketOf(nals, 4)| >= 4 && (nals[1..] == [] ==> PacketOf(nals[1..], 4) == [])
  {
  }

  // ----- lengths of other sizes -----

  /** The bytes of units with lengths of the given size. */
  function Total(pieces: seq<Piece>, size: nat): nat {
    if pieces == [] then 0 else size + |pieces[0].nal| + Total(pieces[1..], size)
  }

  lemma {:induction false} TotalGrows(pieces: seq<Piece>, size: nat)
    requires size < 4 && pieces != []
    ensures Total(pieces, 4) > Total(pieces, size)
  {
    if pieces[1..] != [] {
      TotalGrows(pieces[1..], size);
    }
  }

  /** The units read fill the packet, each with its four-byte length. */
  lemma {:induction false} PiecesFill(x: seq<byte>, p: nat)
    requires p <= |x|
    ensures Pieces(x, p).Some? ==> Total(Pieces(x, p).value, 4) == |x| - p
    decreases |x| - p
  {
    var piece := PieceAt(x, p);
    if piece.Some? {
      var p' := p + 4 + |piece.value.nal|;
      hide PieceAt;
      if p' >= |x| {
        assert [piece.value][1..] == [];
      } else if Pieces(x, p').Some? {
        PiecesFill(x, p');
        assert ([piece.value] + Pieces(x, p').value)[1..] == Pieces(x, p').value;
      }
    }
  }

  lemma {:induction false} PacketSize(nals: seq<seq<byte>>, size: nat)
    requires 1 <= size <= 4
    ensures |PacketOf(nals, size)| == Total(PiecesOf(nals), size)
  {
    if nals != [] {
      PacketSize(nals[1..], size);
      assert PiecesOf(nals)[1..] == PiecesOf(nals[1..]);
    }
  }

  /** The code ignores the announced size: a packet is read as its units exactly when its lengths have four bytes. */
  lemma ReadOnlyWithFour(nals: seq<seq<byte>>, size: nat)
    requires nals != [] && 1 <= size <= 4 && Packable(nals, size)
    ensures Pieces(PacketOf(nals, size), 0) == Some(PiecesOf(nals)) <==> size == 4
  {
    var x := PacketOf(nals, size);
    hide *;
    if size == 4 {
      assert x[0..] == x;
      PiecesOfPacket(x, 0, nals);
    } else {
      PiecesFill(x, 0);
      assert |PiecesOf(nals)| == |nals|;
      PacketSize(nals, size);
      TotalGrows(PiecesOf(nals), size);
    }
  }

  /** The packet is not much larger than its first unit, as one that holds a single unit. */
  predicate FirstUnitLarge(nals: seq<seq<byte>>, size: nat)
    requires 1 <= size <= 4
  {
    nals != [] && |PacketOf(nals, size)| < 256 * |nals[0]| + 4
  }

  lemma SingleIsLarge(nal: seq<byte>, size: nat)
    requires 1 <= size <= 4 && nal != []
    ensures FirstUnitLarge([nal], size)
  {
    assert [nal][1..] == [];
    assert PacketOf([nal], size) == Length(|nal|, size) + nal + [];
  }

  /** Shorter lengths are read together with bytes behind them: as a length beyond the end, or a negative one. */
  lemma ShortLengthRefused(nals: seq<seq<byte>>, size: nat)
    requires 1 <= size < 4 && Packable(nals, size) && FirstUnitLarge(nals, size)
    ensures Pieces(PacketOf(nals, size), 0) == None
  {
    var x, v := PacketOf(nals, size), |nals[0]|;
    var len := Length(v, size);
    assert forall i :: 0 <= i < size ==> x[i] == len[i];
    hide PacketOf;
    if |x| >= 4 {
      BytesOfLength(v, size);
      assert SizeAt(x, 0) >= 256 * v;
    }
  }

  lemma BytesOfLength(v: nat, size: nat)
    requires 1 <= size < 4 && v < Limit(size)
    ensures size == 1 ==> Length(v, size) == [v]
    ensures size == 2 ==> Length(v, size) == [v / 256, v % 256]
    ensures size == 3 ==> Length(v, size) == [v / 0x1_0000, v / 256 % 256, v % 256]
    ensures v == 0x1_0000 * (v / 0x1_0000) + 256 * (v / 256 % 256) + v % 256
  {
    var a := v / 256;
    assert v / 0x1_0000 == a / 256;
  }

  /** What one unit becomes: itself, or the parameter sets and itself. */
  function Converted(nal: seq<byte>, sets: seq<seq<byte>>): seq<Coded> {
    if IsIdr(nal) && sets != [] then Extradata.FourCoded(sets) + [Coded(true, nal)]
    else [Coded(false, nal)]
  }

  function AllConverted(nals: seq<seq<byte>>, sets: seq<seq<byte>>): seq<Coded> {
    if nals == [] then [] else Converted(nals[0], sets) + AllConverted(nals[1..], sets)
  }

  lemma WrittenAppend(a: seq<Coded>, b: seq<Coded>)
    ensures Flatten(Written(a + b)) == Flatten(Written(a)) + Flatten(Written(b))
  {
    assert Written(a + b) == Written(a) + Written(b);
    FlattenAppend(Written(a), Written(b));
  }

  lemma WrittenOne(u: Coded)
    ensures Flatten(Written([u])) == u.Bytes()
  {
    assert Written([u]) == [u.Bytes()] + [];
    FlattenCons(u.Bytes(), []);
    assert u.Bytes() + [] == u.Bytes();
  }

  lemma EmittedIsWritten(nal: seq<byte>, sets: seq<seq<byte>>)
    ensures Emitted(Piece(nal, IsIdr(nal)), Extradata.WithCodes(sets))
         == Flatten(Written(Converted(nal, sets)))
  {
    var spsPps := Extradata.WithCodes(sets);
    if sets == [] {
      assert Extradata.FourCoded(sets) == [];
      assert Written(Extradata.FourCoded(sets)) == [];
      assert spsPps == [];
      WrittenOne(Coded(false, nal));
      assert spsPps + (Code(false) + nal) == Code(false) + nal;
    } else {
      WrittenStartsWithCode(Extradata.FourCoded(sets));
      assert spsPps != [];
      WrittenAppend(Extradata.FourCoded(sets), [Coded(true, nal)]);
      WrittenOne(Coded(true, nal));
      WrittenOne(Coded(false, nal));
    }
  }

  lemma {:induction false} AllEmittedIsWritten(nals: seq<seq<byte>>, sets: seq<seq<byte>>)
    ensures AllEmitted(PiecesOf(nals), Extradata.WithCodes(sets)) == Flatten(Written(AllConverted(nals, sets)))
  {
    if nals == [] {
      assert Written([]) == [];
    } else {
      EmittedIsWritten(nals[0], sets);
      AllEmittedIsWritten(nals[1..], sets);
      WrittenAppend(Converted(nals[0], sets), AllConverted(nals[1..], sets));
      assert PiecesOf(nals)[1..] == PiecesOf(nals[1..]);
    }
  }

  /** No unit can be confused with start codes. */
  predicate AllSeparable(nals: seq<seq<byte>>) {
    forall i :: 0 <= i < |nals| ==> Separable(nals[i])
  }

  lemma {:induction false} ConvertedSeparable(nals: seq<seq<byte>>, sets: seq<seq<byte>>)
    requires AllSeparable(nals) && AllSeparable(sets)
    ensures forall i :: 0 <= i < |AllConverted(nals, sets)| ==> Separable(AllConverted(nals, sets)[i].nal)
    ensures |AllConverted(nals, sets)| >= |nals|
  {
    if nals != [] {
      ConvertedSeparable(nals[1..], sets);
    }
  }

  /** What a packet adds to the output file; one that is not whole adds nothing. */
  function Added(packet: seq<byte>, spsPps: seq<byte>): seq<byte> {
    match Pieces(packet, 0)
    case None => []
    case Some(pieces) => AllEmitted(pieces, spsPps)
  }

  /**
    What a run of packets adds; `stales` is what the packet variable of each call holds before it
    is assigned.
  */
  function FileOf(packets: seq<seq<byte>>, extradata: seq<byte>, stales: seq<seq<byte>>): seq<byte>
    requires |stales| == |packets|
  {
    if packets == [] then []
    else Added(packets[0], SpsPps(extradata, stales[0])) + FileOf(packets[1..], extradata, stales[1..])
  }

  lemma FileOfMore(packets: seq<seq<byte>>, i: nat, extradata: seq<byte>, stales: seq<seq<byte>>)
    requires i < |packets| == |stales|
    ensures FileOf(packets[i..], extradata, stales[i..])
         == Added(packets[i], SpsPps(extradata, stales[i])) + FileOf(packets[i + 1..], extradata, stales[i + 1..])
  {
    assert packets[i..][1..] == packets[i + 1..] && stales[i..][1..] == stales[i + 1..];
  }

  /** The extraction loop: every video packet is converted and its bytes are appended to the file. */
  method ExtractVideo(packets: seq<seq<byte>>, extradata: seq<byte>, stales: seq<seq<byte>>) returns (file: seq<byte>)
    requires |stales| == |packets|
    ensures file == FileOf(packets, extradata, stales)
  {
    file := [];
    assert packets[0..] == packets && stales[0..] == stales;
    assert [] + FileOf(packets, extradata, stales) == FileOf(packets, extradata, stales);
    hide FileOf;
    for i := 0 to |packets|
      invariant file + FileOf(packets[i..], extradata, stales[i..]) == FileOf(packets, extradata, stales)
    {
      FileOfMore(packets, i, extradata, stales);
      var _, written := H264Mp4ToAnnexB(packets[i], extradata, stales[i]);
      AppendAssoc(file, written, FileOf(packets[i + 1..], extradata, stales[i + 1..]));
      file := file + written;
    }
    FileOfNothing(packets[|packets|..], extradata, stales[|packets|..]);
    assert file + [] == file;
  }

  lemma FileOfNothing(packets: seq<seq<byte>>, extradata: seq<byte>, stales: seq<seq<byte>>)
    requires |packets| == |stales| == 0
    ensures FileOf(packets, extradata, stales) == []
  {
  }

  lemma {:induction false} AllConvertedAppend(a: seq<seq<byte>>, b: seq<seq<byte>>, sets: seq<seq<byte>>)
    ensures AllConverted(a + b, sets) == AllConverted(a, sets) + AllConverted(b, sets)
  {
    if a == [] {
      assert a + b == b;
    } else {
      assert (a + b)[1..] == a[1..] + b;
      AllConvertedAppend(a[1..], b, sets);
      AppendAssoc(Converted(a[0], sets), AllConverted(a[1..], sets), AllConverted(b, sets));
    }
  }

  function PacketsOf(groups: seq<seq<seq<byte>>>, size: nat): (packets: seq<seq<byte>>)
    requires 1 <= size <= 4
    ensures |packets| == |groups|
  {
    seq(|groups|, i requires 0 <= i < |groups| => PacketOf(groups[i], size))
  }

  predicate Groups(groups: seq<seq<seq<byte>>>, size: nat)
    requires 1 <= size <= 4
  {
    forall i :: 0 <= i < |groups| ==> groups[i] != [] && Packable(groups[i], size)
  }

  lemma AddedByPacket(nals: seq<seq<byte>>, sets: seq<seq<byte>>)
    requires nals != [] && Packable(nals, 4)
    ensures Added(PacketOf(nals, 4), Extradata.WithCodes(sets)) == Flatten(Written(AllConverted(nals, sets)))
  {
    hide PacketOf, Pieces, PiecesOf, AllEmitted, Written, AllConverted, Flatten, Packable, Extradata.WithCodes;
    var x := PacketOf(nals, 4);
    assert x[0..] == x;
    PiecesOfPacket(x, 0, nals);
    AllEmittedIsWritten(nals, sets);
  }

  lemma {:induction false} FileOfPackets(groups: seq<seq<seq<byte>>>, extradata: seq<byte>, stales: seq<seq<byte>>,
                                         sets: seq<seq<byte>>)
    requires Groups(groups, 4) && |stales| == |groups|
    requires forall i :: 0 <= i < |stales| ==> SpsPps(extradata, stales[i]) == Extradata.WithCodes(sets)
    ensures FileOf(PacketsOf(groups, 4), extradata, stales)
         == Flatten(Written(AllConverted(Flatten(groups), sets)))
  {
    if groups == [] {
      assert Written([]) == [];
    } else {
      assert PacketsOf(groups, 4)[1..] == PacketsOf(groups[1..], 4);
      AddedByPacket(groups[0], sets);
      FileOfPackets(groups[1..], extradata, stales[1..], sets);
      hide SpsPps, PacketOf, PiecesOf, Extradata.WithCodes, AllConverted, Written, Added;
      assert Flatten(groups) == groups[0] + Flatten(groups[1..]);
      hide Flatten;
      AllConvertedAppend(groups[0], Flatten(groups[1..]), sets);
      WrittenAppend(AllConverted(groups[0], sets), AllConverted(Flatten(groups[1..]), sets));
    }
  }

  lemma RecordIsRead(extradata: seq<byte>, stale: seq<byte>,
                     profile: seq<byte>, lengthSize: nat, sps: seq<seq<byte>>, pps: seq<seq<byte>>, ext: seq<byte>)
    requires |profile| == 4 && 1 <= lengthSize <= 4 && |sps| < 32 && |pps| < 256
    requires Extradata.Short(sps) && Extradata.Short(pps)
    requires extradata == Extradata.Record(profile, lengthSize, sps, pps, ext)
    ensures SpsPps(extradata, stale) == Extradata.WithCodes(sps + pps)
  {
    hide Extradata.Record, Extradata.Conversion, Extradata.WithCodes, Extradata.Short;
    Extradata.RecordConverts(profile, lengthSize, sps, pps, ext, INPUT_BUFFER_PADDING_SIZE);
    Extradata.ShortAppend(sps, pps);
    Extradata.WithCodesSize(sps + pps);
  }

  lemma {:induction false} NothingWritten(groups: seq<seq<seq<byte>>>, extradata: seq<byte>, stales: seq<seq<byte>>,
                                          size: nat)
    requires 1 <= size < 4 && Groups(groups, size) && |stales| == |groups|
    requires forall i :: 0 <= i < |groups| ==> FirstUnitLarge(groups[i], size)
    ensures FileOf(PacketsOf(groups, size), extradata, stales) == []
  {
    if groups != [] {
      assert PacketsOf(groups, size)[1..] == PacketsOf(groups[1..], size);
      ShortLengthRefused(groups[0], size);
      NothingWritten(groups[1..], extradata, stales[1..], size);
    }
  }

  /** A record with any announced length size and any extension, whose parameter sets are `sets`. */
  ghost predicate RecordWith(extradata: seq<byte>, sets: seq<seq<byte>>) {
    exists profile: seq<byte>, lengthSize: nat, sps: seq<seq<byte>>, pps: seq<seq<byte>>, ext: seq<byte> ::
      && |profile| == 4 && 1 <= lengthSize <= 4 && |sps| < 32 && |pps| < 256
      && Extradata.Short(sps) && Extradata.Short(pps)
      && extradata == Extradata.Record(profile, lengthSize, sps, pps, ext) && sets == sps + pps
  }

  lemma FileOfGroups(groups: seq<seq<seq<byte>>>, extradata: seq<byte>, stales: seq<seq<byte>>, sets: seq<seq<byte>>)
    requires |stales| == |groups| && Groups(groups, 4) && RecordWith(extradata, sets)
    ensures FileOf(PacketsOf(groups, 4), extradata, stales) == Flatten(Written(AllConverted(Flatten(groups), sets)))
  {
    forall i | 0 <= i < |stales| ensures SpsPps(extradata, stales[i]) == Extradata.WithCodes(sets) {
      var profile: seq<byte>, lengthSize: nat, sps: seq<seq<byte>>, pps: seq<seq<byte>>, ext: seq<byte> :|
        && |profile| == 4 && 1 <= lengthSize <= 4 && |sps| < 32 && |pps| < 256
        && Extradata.Short(sps) && Extradata.Short(pps)
        && extradata == Extradata.Record(profile, lengthSize, sps, pps, ext) && sets == sps + pps;
      RecordIsRead(extradata, stales[i], profile, lengthSize, sps, pps, ext);
    }
    FileOfPackets(groups, extradata, stales, sets);
  }

  /**
    Conversion keeps the meaning: splitting the file converted from packets with four-byte lengths
    gives the units of all packets in order, each IDR unit preceded by the sequence and then the
    picture parameter sets, whatever length size the record announces.
  */
  lemma ConversionKeepsUnits(groups: seq<seq<seq<byte>>>, extradata: seq<byte>, stales: seq<seq<byte>>,
                             sets: seq<seq<byte>>, size: nat)
    requires groups != [] && |stales| == |groups| && 1 <= size <= 4 && Groups(groups, size)
    requires AllSeparable(Flatten(groups)) && AllSeparable(sets) && RecordWith(extradata, sets)
    ensures size == 4 ==>
              Split(FileOf(PacketsOf(groups, size), extradata, stales)) == Written(AllConverted(Flatten(groups), sets))
    ensures size < 4 && (forall i :: 0 <= i < |groups| ==> FirstUnitLarge(groups[i], size))
            ==> FileOf(PacketsOf(groups, size), extradata, stales) == []
  {
    if size == 4 {
      var nals := Flatten(groups);
      FileOfGroups(groups, extradata, stales, sets);
      ConvertedSeparable(nals, sets);
      assert groups[0] != [];
      SplitWritten(AllConverted(nals, sets));
    } else if forall i :: 0 <= i < |groups| ==> FirstUnitLarge(groups[i], size) {
      NothingWritten(groups, extradata, stales, size);
    }
  }

  // ----- what the comment says -----

  /** After a unit of this kind the picture has its parameter sets. */
  predicate BringsSets(nal: seq<byte>) {
    IsIdr(nal) || (nal != [] && nal[0] % 32 in {7, 8})
  }

  /** The sets in front of the first IDR unit of a picture only, and only if none are there already. */
  function AsCommented(nals: seq<seq<byte>>, sets: seq<seq<byte>>, present: bool): seq<Coded> {
    if nals == [] then []
    else
      (if present then [Coded(false, nals[0])] else Converted(nals[0], sets))
      + AsCommented(nals[1..], sets, present || BringsSets(nals[0]))
  }

  /** What the comment promises of a file, each packet being a picture. */
  function AllCommented(groups: seq<seq<seq<byte>>>, sets: seq<seq<byte>>): seq<Coded> {
    if groups == [] then [] else AsCommented(groups[0], sets, false) + AllCommented(groups[1..], sets)
  }

  /** No IDR unit stands behind another one or behind a parameter set. */
  predicate IdrFirst(nals: seq<seq<byte>>, present: bool) {
    forall j :: 0 <= j < |nals| && IsIdr(nals[j]) ==> !present && forall i :: 0 <= i < j ==> !BringsSets(nals[i])
  }

  lemma IdrFirstStep(nals: seq<seq<byte>>, present: bool)
    requires nals != []
    ensures IdrFirst(nals, present)
            <==> (IsIdr(nals[0]) ==> !present) && IdrFirst(nals[1..], present || BringsSets(nals[0]))
  {
    hide IsIdr, BringsSets;
    var rest, present' := nals[1..], present || BringsSets(nals[0]);
    if IdrFirst(nals, present) {
      forall j | 0 <= j < |rest| && IsIdr(rest[j])
        ensures !present' && forall i :: 0 <= i < j ==> !BringsSets(rest[i])
      {
        assert IsIdr(nals[j + 1]);
      }
    }
    if (IsIdr(nals[0]) ==> !present) && IdrFirst(rest, present') {
      forall j | 0 <= j < |nals| && IsIdr(nals[j])
        ensures !present && forall i :: 0 <= i < j ==> !BringsSets(nals[i])
      {
        if j > 0 {
          assert IsIdr(rest[j - 1]);
          forall i | 0 <= i < j ensures !BringsSets(nals[i]) {
            assert i > 0 ==> !BringsSets(rest[i - 1]);
          }
        }
      }
    }
  }

  lemma Cancel<T>(a: seq<T>, u: seq<T>, v: seq<T>)
    ensures a + u == a + v <==> u == v
  {
    assert (a + u)[|a|..] == u && (a + v)[|a|..] == v;
  }

  lemma OtherHead(a: seq<Coded>, b: seq<Coded>, u: seq<Coded>, v: seq<Coded>)
    requires a != [] && b != [] && a[0] != b[0]
    ensures a + u != b + v
  {
    assert (a + u)[0] == a[0] && (b + v)[0] == b[0];
  }

  lemma ConvertedHead(nal: seq<byte>, sets: seq<seq<byte>>)
    ensures Converted(nal, sets) != []
    ensures Converted(nal, sets)[0].four <==> IsIdr(nal) && sets != []
    ensures !(IsIdr(nal) && sets != []) ==> Converted(nal, sets) == [Coded(false, nal)]
  {
  }

  lemma {:induction false} PictureAsCommented(nals: seq<seq<byte>>, sets: seq<seq<byte>>, present: bool,
                                              u: seq<Coded>, v: seq<Coded>)
    ensures AllConverted(nals, sets) + u == AsCommented(nals, sets, present) + v
            <==> (sets == [] || IdrFirst(nals, present)) && u == v
    decreases |nals|
  {
    if nals == [] {
      Cancel([], u, v);
    } else {
      var nal, rest, present' := nals[0], nals[1..], present || BringsSets(nals[0]);
      var a, b := Converted(nal, sets), if present then [Coded(false, nal)] else Converted(nal, sets);
      var as', bs := AllConverted(rest, sets), AsCommented(rest, sets, present');
      PictureAsCommented(rest, sets, present', u, v);
      IdrFirstStep(nals, present);
      ConvertedHead(nal, sets);
      hide Converted, IdrFirst, IsIdr, BringsSets;
      AppendAssoc(a, as', u);
      AppendAssoc(b, bs, v);
      if a == b {
        Cancel(a, as' + u, bs + v);
      } else {
        OtherHead(a, b, as' + u, bs + v);
      }
    }
  }

  lemma {:induction false} PicturesAsCommented(groups: seq<seq<seq<byte>>>, sets: seq<seq<byte>>)
    ensures AllConverted(Flatten(groups), sets) == AllCommented(groups, sets)
            <==> sets == [] || forall i :: 0 <= i < |groups| ==> IdrFirst(groups[i], false)
  {
    if groups != [] {
      var rest := groups[1..];
      PicturesAsCommented(rest, sets);
      AllConvertedAppend(groups[0], Flatten(rest), sets);
      PictureAsCommented(groups[0], sets, false, AllConverted(Flatten(rest), sets), AllCommented(rest, sets));
      hide IdrFirst, AllConverted, AsCommented;
    }
  }

  lemma {:induction false} CommentedSeparable(nals: seq<seq<byte>>, sets: seq<seq<byte>>, present: bool)
    requires AllSeparable(nals) && AllSeparable(sets)
    ensures var units := AsCommented(nals, sets, present);
            |units| >= |nals| && forall i :: 0 <= i < |units| ==> Separable(units[i].nal)
  {
    if nals != [] {
      CommentedSeparable(nals[1..], sets, present || BringsSets(nals[0]));
    }
  }

  lemma {:induction false} AllCommentedSeparable(groups: seq<seq<seq<byte>>>, sets: seq<seq<byte>>)
    requires AllSeparable(Flatten(groups)) && AllSeparable(sets)
    ensures var units := AllCommented(groups, sets);
            |units| >= |Flatten(groups)| && forall i :: 0 <= i < |units| ==> Separable(units[i].nal)
  {
    if groups != [] {
      var all, rest := Flatten(groups), Flatten(groups[1..]);
      assert all == groups[0] + rest;
      hide Flatten, Separable, AsCommented;
      assert AllSeparable(rest) by {
        assert forall i :: 0 <= i < |rest| ==> rest[i] == all[|groups[0]| + i];
      }
      assert AllSeparable(groups[0]) by {
        assert forall i :: 0 <= i < |groups[0]| ==> groups[0][i] == all[i];
      }
      AllCommentedSeparable(groups[1..], sets);
      CommentedSeparable(groups[0], sets, false);
    }
  }

  lemma SameUnit(u: Coded, v: Coded)
    requires u.Bytes() == v.Bytes()
    ensures u == v
  {
    var a, b := u.Bytes(), v.Bytes();
    assert a[2] == (if u.four then 0 else 1) && b[2] == if v.four then 0 else 1;
    assert a[|Code(u.four)|..] == u.nal && b[|Code(v.four)|..] == v.nal;
  }

  lemma SameUnits(a: seq<Coded>, b: seq<Coded>)
    requires Written(a) == Written(b)
    ensures a == b
  {
    forall i | 0 <= i < |a| ensures a[i] == b[i] {
      assert Written(a)[i] == Written(b)[i];
      SameUnit(a[i], b[i]);
    }
  }

  /**
    The converted file is what the comment promises if and only if the record has no parameter sets
    or in no packet an IDR unit stands behind another one or behind a parameter set.
  */
  lemma ConvertedAsCommented(groups: seq<seq<seq<byte>>>, extradata: seq<byte>, stales: seq<seq<byte>>,
                             sets: seq<seq<byte>>)
    requires groups != [] && |stales| == |groups| && Groups(groups, 4)
    requires AllSeparable(Flatten(groups)) && AllSeparable(sets) && RecordWith(extradata, sets)
    ensures FileOf(PacketsOf(groups, 4), extradata, stales) == Flatten(Written(AllCommented(groups, sets)))
            <==> sets == [] || forall i :: 0 <= i < |groups| ==> IdrFirst(groups[i], false)
  {
    assert groups[0] != [] && Flatten(groups) != [];
    hide *;
    var a, b := AllConverted(Flatten(groups), sets), AllCommented(groups, sets);
    FileOfGroups(groups, extradata, stales, sets);
    ConvertedSeparable(Flatten(groups), sets);
    AllCommentedSeparable(groups, sets);
    SplitWritten(a);
    SplitWritten(b);
    if Written(a) == Written(b) {
      SameUnits(a, b);
    }
    PicturesAsCommented(groups, sets);
  }

  /** A picture of two IDR slices: the second one gets parameter sets as well. */
  lemma TwoIdrSlices(sets: seq<seq<byte>>)
    requires sets != []
    ensures var nals := [[0x65, 1], [0x65, 2]];
            && AllConverted(nals, sets) != AsCommented(nals, sets, false)
            && |AllConverted(nals, sets)| == |AsCommented(nals, sets, false)| + |sets|
  {
    var first: seq<byte>, second: seq<byte> := [0x65, 1], [0x65, 2];
    var nals: seq<seq<byte>> := [first, second];
    assert nals[1..] == [second];
    assert BringsSets(first) && IsIdr(second);
    OnePiece(second, sets);
    assert AllConverted(nals, sets) == Converted(first, sets) + Converted(second, sets);
    assert AsCommented(nals, sets, false) == Converted(first, sets) + [Coded(false, second)];
  }

  /**
    One unit of a packet: a unit of type 5 comes behind the parameter sets, all with four-byte start
    codes; any other one gets a three-byte start code.
  */
  lemma OneUnit(nal: seq<byte>, sets: seq<seq<byte>>)
    requires nal != []
    ensures nal[0] % 32 == 5 && sets != [] ==>
              && |AllConverted([nal], sets)| == |sets| + 1 && AllConverted([nal], sets)[|sets|] == Coded(true, nal)
              && forall i :: 0 <= i < |sets| ==> AllConverted([nal], sets)[i] == Coded(true, sets[i])
    ensures nal[0] % 32 != 5 || sets == [] ==> AllConverted([nal], sets) == [Coded(false, nal)]
  {
    OnePiece(nal, sets);
  }

  lemma OnePiece(nal: seq<byte>, sets: seq<seq<byte>>)
    ensures AllConverted([nal], sets) == Converted(nal, sets)
    ensures AsCommented([nal], sets, true) == [Coded(false, nal)]
  {
    assert [nal][1..] == [];
  }
}
