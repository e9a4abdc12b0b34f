/**
  Picture parameter sets (section 7.3.2.2 of ITU-T H.264), up to redundant_pic_cnt_present_flag.
*/
module Pps {
  import opened Bytes
  import opened BitReading
  import opened Syntax

  /** The smallest number of bits that can tell n values apart. */
  function CeilLog2(n: nat): (c: nat)
    ensures n >= 1 ==> Pow2(c) >= n && (c > 0 ==> Pow2(c - 1) < n)
    ensures n == 0 ==> c == 0
  {
    if n <= 1 then 0 else CeilLog2((n + 1) / 2) + 1
  }

  lemma {:induction false} CeilLog2Unique(n: nat, c: nat)
    requires n >= 1 && Pow2(c) >= n && (c > 0 ==> Pow2(c - 1) < n)
    ensures CeilLog2(n) == c
  {
    var d := CeilLog2(n);
    if d < c {
      Pow2Monotone(d, c - 1);
    } else if c < d {
      Pow2Monotone(c, d - 1);
    }
  }

  /** The width of a slice group id: Ceil(Log2(x)) for x >= 1, 0 otherwise. */
  method IntLog2(x: int) returns (log: nat)
    ensures x >= 1 ==> log == CeilLog2(x)
    ensures x < 1 ==> log == 0
  {
    var y: nat := if x < 0 then 0 else x;
    log := 0;
    ShiftedOut(y, 0);
    while ShiftRight(y, log) > 0
      invariant log > 0 ==> Pow2(log - 1) <= y
      decreases y + 1 - log
    {
      ShiftedOut(y, log);
      LogSmall(log);
      log := log + 1;
    }
    ShiftedOut(y, log);
    if log > 0 && y == Pow2(log - 1) {
      log := log - 1;
      if log > 0 {
        assert Pow2(log) == 2 * Pow2(log - 1);
      }
    }
    if x >= 1 {
      CeilLog2Unique(x, log);
    }
  }

  lemma LogSmall(n: nat)
    ensures n < Pow2(n)
  {
  }

  datatype GroupMap =
    | Interleaved(runLengthsMinus1: seq<nat>)
    | Foreground(corners: seq<Corner>)
    | Changing(mapType: nat, direction: nat, rateMinus1: nat)
    | Explicit(ids: seq<nat>)
    | NoParameters(mapType: nat)

  datatype Corner = Corner(topLeft: nat, bottomRight: nat)

  datatype SliceGroups = SliceGroups(countMinus1: nat, groupMap: GroupMap)

  datatype Pps = Pps(id: nat, spsId: nat, entropyCodingMode: nat, picOrderPresent: nat,
                     sliceGroups: Option<SliceGroups>, quantization: Quantization)

  datatype Quantization = Quantization(numRefIdxL0ActiveMinus1: nat, numRefIdxL1ActiveMinus1: nat,
                                       weightedPred: nat, weightedBipredIdc: nat,
                                       picInitQpMinus26: int, picInitQsMinus26: int, chromaQpIndexOffset: int,
                                       deblockingControlPresent: nat, constrainedIntraPred: nat,
                                       redundantPicCntPresent: nat)

  predicate MapInRange(m: GroupMap, countMinus1: nat) {
    match m
    case Interleaved(runs) => |runs| == countMinus1 + 1 && forall i :: 0 <= i < |runs| ==> IsUe(runs[i])
    case Foreground(corners) =>
      && |corners| == countMinus1
      && forall i :: 0 <= i < |corners| ==> IsUe(corners[i].topLeft) && IsUe(corners[i].bottomRight)
    case Changing(t, direction, rate) => 3 <= t <= 5 && U(1, direction).InRange() && IsUe(rate)
    case Explicit(ids) => 0 < |ids| <= 256 && forall i :: 0 <= i < |ids| ==> ids[i] <= countMinus1
    case NoParameters(t) => (t == 1 || t > 6) && IsUe(t)
  }

  predicate GroupsInRange(g: SliceGroups) {
    1 <= g.countMinus1 <= 7 && MapInRange(g.groupMap, g.countMinus1)
  }

  predicate QuantizationInRange(q: Quantization) {
    && IsUe(q.numRefIdxL0ActiveMinus1) && IsUe(q.numRefIdxL1ActiveMinus1)
    && U(1, q.weightedPred).InRange() && U(2, q.weightedBipredIdc).InRange()
    && IsSe(q.picInitQpMinus26) && IsSe(q.picInitQsMinus26) && IsSe(q.chromaQpIndexOffset)
    && U(1, q.deblockingControlPresent).InRange() && U(1, q.constrainedIntraPred).InRange()
    && U(1, q.redundantPicCntPresent).InRange()
  }

  predicate InRange(v: Pps) {
    && IsUe(v.id) && IsUe(v.spsId) && U(1, v.entropyCodingMode).InRange() && U(1, v.picOrderPresent).InRange()
    && (v.sliceGroups.Some? ==> GroupsInRange(v.sliceGroups.value))
    && QuantizationInRange(v.quantization)
  }

  function MapType(m: GroupMap): nat {
    match m
    case Interleaved(_) => 0
    case Foreground(_) => 2
    case Changing(t, _, _) => t
    case Explicit(_) => 6
    case NoParameters(t) => t
  }

  function RunsTable(runs: seq<nat>, i: nat, k: Table): (t: Table)
    requires i <= |runs|
    ensures EndOf(t) == EndOf(k)
    decreases |runs| - i
  {
    if i == |runs| then k else Line(UE(runs[i]), RunsTable(runs, i + 1, k))
  }

  function CornersTable(corners: seq<Corner>, i: nat, k: Table): (t: Table)
    requires i <= |corners|
    ensures EndOf(t) == EndOf(k)
    decreases |corners| - i
  {
    if i == |corners| then k
    else Line(UE(corners[i].topLeft), Line(UE(corners[i].bottomRight), CornersTable(corners, i + 1, k)))
  }

  function IdsTable(ids: seq<nat>, width: nat, i: nat, k: Table): (t: Table)
    requires i <= |ids|
    ensures EndOf(t) == EndOf(k)
    decreases |ids| - i
  {
    if i == |ids| then k else Line(U(width, ids[i]), IdsTable(ids, width, i + 1, k))
  }

  function MapTable(m: GroupMap, countMinus1: nat, k: Table): (t: Table)
    requires MapInRange(m, countMinus1)
    ensures EndOf(t) == EndOf(k)
  {
    Line(UE(MapType(m)), MapRows(m, countMinus1, k))
  }

  function MapRows(m: GroupMap, countMinus1: nat, k: Table): (t: Table)
    requires MapInRange(m, countMinus1)
    ensures EndOf(t) == EndOf(k)
  {
    match m
    case Interleaved(runs) => RunsTable(runs, 0, k)
    case Foreground(corners) => CornersTable(corners, 0, k)
    case Changing(_, direction, rate) => Line(U(1, direction), Line(UE(rate), k))
    case Explicit(ids) => Line(UE(|ids| - 1), IdsTable(ids, CeilLog2(countMinus1 + 1), 0, k))
    case NoParameters(_) => k
  }

  function GroupsTable(g: Option<SliceGroups>, k: Table): (t: Table)
    requires g.Some? ==> GroupsInRange(g.value)
    ensures EndOf(t) == EndOf(k)
  {
    if g.None? then Line(UE(0), k)
    else Line(UE(g.value.countMinus1), MapTable(g.value.groupMap, g.value.countMinus1, k))
  }

  function QuantizationTable(q: Quantization, k: Table): (t: Table)
    ensures EndOf(t) == EndOf(k)
  {
    Line(UE(q.numRefIdxL0ActiveMinus1), Line(UE(q.numRefIdxL1ActiveMinus1), Line(U(1, q.weightedPred),
    Line(U(2, q.weightedBipredIdc), Line(SE(q.picInitQpMinus26), Line(SE(q.picInitQsMinus26), ControlTable(q, k)))))))
  }

  function ControlTable(q: Quantization, k: Table): (t: Table)
    ensures EndOf(t) == EndOf(k)
  {
    Line(SE(q.chromaQpIndexOffset), Line(U(1, q.deblockingControlPresent),
    Line(U(1, q.constrainedIntraPred), Line(U(1, q.redundantPicCntPresent), k))))
  }

  function PpsTable(v: Pps, k: Table): (t: Table)
    requires InRange(v)
    ensures EndOf(t) == EndOf(k)
  {
    Line(UE(v.id), Line(UE(v.spsId), Line(U(1, v.entropyCodingMode), Line(U(1, v.picOrderPresent),
    GroupsTable(v.sliceGroups, QuantizationTable(v.quantization, k))))))
  }

  method ReadRuns(bs: BitStream, count: nat, ghost runs: seq<nat>, ghost k: Table) returns (r: seq<nat>)
    requires bs.Valid() && |runs| == count <= 8 && (forall i :: 0 <= i < |runs| ==> IsUe(runs[i]))
    requires bs.Remaining() == RunsTable(runs, 0, k).Bits()
    modifies bs
    ensures bs.Valid() && r == runs && bs.Remaining() == k.Bits()
  {
    hide Table.Bits, BitStream.Remaining, BitStream.Valid;
    var runLengthMinus1 := new nat[8];
    for i := 0 to count
      invariant bs.Valid() && bs.Remaining() == RunsTable(runs, i, k).Bits()
      invariant runLengthMinus1[..i] == runs[..i]
    {
      var run := TakeUE(bs, RunsTable(runs, i, k));
      runLengthMinus1[i] := run;
    }
    r := runLengthMinus1[..count];
  }

  method ReadCorners(bs: BitStream, count: nat, ghost corners: seq<Corner>, ghost k: Table) returns (r: seq<Corner>)
    requires bs.Valid() && |corners| == count <= 8
    requires forall i :: 0 <= i < |corners| ==> IsUe(corners[i].topLeft) && IsUe(corners[i].bottomRight)
    requires bs.Remaining() == CornersTable(corners, 0, k).Bits()
    modifies bs
    ensures bs.Valid() && r == corners && bs.Remaining() == k.Bits()
  {
    hide Table.Bits, BitStream.Remaining, BitStream.Valid;
    r := [];
    for i := 0 to count
      invariant bs.Valid() && bs.Remaining() == CornersTable(corners, i, k).Bits()
      invariant |r| == i && r == corners[..i]
    {
      ghost var t := CornersTable(corners, i, k);
      var topLeft := TakeUE(bs, t);
      var bottomRight := TakeUE(bs, t.next);
      r := r + [Corner(topLeft, bottomRight)];
    }
  }

  method ReadIds(bs: BitStream, count: nat, numSliceGroupsMinus1: nat, ghost ids: seq<nat>, ghost k: Table)
    returns (r: seq<nat>)
    requires bs.Valid() && |ids| == count <= 256 && numSliceGroupsMinus1 <= 7
    requires forall i :: 0 <= i < |ids| ==> ids[i] <= numSliceGroupsMinus1
    requires bs.Remaining() == IdsTable(ids, CeilLog2(numSliceGroupsMinus1 + 1), 0, k).Bits()
    modifies bs
    ensures bs.Valid() && r == ids && bs.Remaining() == k.Bits()
  {
    hide Table.Bits, BitStream.Remaining, BitStream.Valid, CeilLog2, Pow2, Int32;
    IdWidth(numSliceGroupsMinus1);
    ghost var width := CeilLog2(numSliceGroupsMinus1 + 1);
    r := [];
    for i := 0 to count
      invariant bs.Valid() && bs.Remaining() == IdsTable(ids, width, i, k).Bits()
      invariant |r| == i && r == ids[..i]
    {
      var v := IntLog2(numSliceGroupsMinus1 + 1);
      var id := TakeU(bs, v, IdsTable(ids, width, i, k));
      r := r + [id];
    }
  }

  lemma IdWidth(countMinus1: nat)
    requires countMinus1 <= 7
    ensures CeilLog2(countMinus1 + 1) < 32 && countMinus1 < Pow2(CeilLog2(countMinus1 + 1))
  {
  }

  method ReadMap(bs: BitStream, numSliceGroupsMinus1: nat, ghost m: GroupMap, ghost k: Table) returns (r: GroupMap)
    requires bs.Valid() && 1 <= numSliceGroupsMinus1 <= 7 && MapInRange(m, numSliceGroupsMinus1)
    requires bs.Remaining() == MapTable(m, numSliceGroupsMinus1, k).Bits()
    modifies bs
    ensures bs.Valid() && r == m && bs.Remaining() == k.Bits()
  {
    hide Table.Bits, BitStream.Remaining, BitStream.Valid, RunsTable, CornersTable, IdsTable, CeilLog2, Pow2;
    ghost var t := MapTable(m, numSliceGroupsMinus1, k);
    var mapType := TakeUE(bs, t);
    t := t.next;
    if mapType == 0 {
      var runs := ReadRuns(bs, numSliceGroupsMinus1 + 1, m.runLengthsMinus1, k);
      r := Interleaved(runs);
    } else if mapType == 2 {
      var corners := ReadCorners(bs, numSliceGroupsMinus1, m.corners, k);
      r := Foreground(corners);
    } else if mapType == 3 || mapType == 4 || mapType == 5 {
      var direction := TakeFlag(bs, t);
      var rate := TakeUE(bs, t.next);
      r := Changing(mapType, direction, rate);
    } else if mapType == 6 {
      var sizeMinus1 := TakeUE(bs, t);
      var ids := ReadIds(bs, sizeMinus1 + 1, numSliceGroupsMinus1, m.ids, k);
      r := Explicit(ids);
    } else {
      r := NoParameters(mapType);
    }
  }

  method ReadQuantization(bs: BitStream, ghost q: Quantization, ghost k: Table) returns (r: Quantization)
    requires bs.Valid() && QuantizationInRange(q) && bs.Remaining() == QuantizationTable(q, k).Bits()
    modifies bs
    ensures bs.Valid() && r == q && bs.Remaining() == k.Bits()
  {
    hide Table.Bits, BitStream.Remaining, BitStream.Valid, Pow2, Int32;
    ghost var t := QuantizationTable(q, k);
    var l0 := TakeUE(bs, t);
    var l1 := TakeUE(bs, t.next);
    var weighted := TakeFlag(bs, t.next.next);
    t := t.next.next.next;
    var bipred := TakeU(bs, 2, t);
    var qp := TakeSE(bs, t.next);
    var qs := TakeSE(bs, t.next.next);
    t := ControlTable(q, k);
    var chroma := TakeSE(bs, t);
    var deblocking := TakeFlag(bs, t.next);
    var intra := TakeFlag(bs, t.next.next);
    var redundant := TakeFlag(bs, t.next.next.next);
    r := Quantization(l0, l1, weighted, bipred, qp, qs, chroma, deblocking, intra, redundant);
  }

  /** Reads a parameter set of any slice group map type and stops behind its last bit. */
  method Parse(bs: BitStream, ghost v: Pps, ghost k: Table) returns (r: Pps)
    requires bs.Valid() && InRange(v) && bs.Remaining() == PpsTable(v, k).Bits()
    modifies bs
    ensures bs.Valid() && r == v && bs.Remaining() == k.Bits()
  {
    hide Table.Bits, BitStream.Remaining, BitStream.Valid, Pow2, Int32, QuantizationInRange, QuantizationTable,
      MapInRange, MapTable;
    ghost var t := PpsTable(v, k);
    var id := TakeUE(bs, t);
    var spsId := TakeUE(bs, t.next);
    var entropy := TakeFlag(bs, t.next.next);
    t := t.next.next.next;
    var order := TakeFlag(bs, t);
    var countMinus1 := TakeUE(bs, t.next);
    var groups := None;
    if countMinus1 > 0 {
      var m := ReadMap(bs, countMinus1, v.sliceGroups.value.groupMap, QuantizationTable(v.quantization, k));
      groups := Some(SliceGroups(countMinus1, m));
    }
    var q := ReadQuantization(bs, v.quantization, k);
    r := Pps(id, spsId, entropy, order, groups, q);
  }

  /** Every parameter set in range, whatever follows it, is recovered from the bytes of its RBSP. */
  method ParseRbsp(rbsp: seq<byte>, ghost v: Pps, ghost trailing: seq<bit>) returns (r: Pps)
    requires InRange(v) && |PpsTable(v, End(trailing)).Bits()| % 8 == 0
    requires rbsp == Pack(PpsTable(v, End(trailing)).Bits())
    ensures r == v
  {
    BitsOfPack(PpsTable(v, End(trailing)).Bits());
    hide *;
    var bs := new BitStream(rbsp);
    r := Parse(bs, v, End(trailing));
  }
}

