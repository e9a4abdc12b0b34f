/**
  Sequence parameter sets. The tables below write a value down as sections 7.3.2.1.1 (data and
  scaling lists), E.1.1 (VUI) and E.1.2 (HRD) of ITU-T H.264 do; `Parse` reads it back.
  Every table takes the rows that follow it, so that reading never looks past its own rows.
*/
module Sps {
  import opened Bytes
  import opened BitReading
  import opened Syntax

  // ----- hypothetical reference decoder parameters -----

  /** The two numbers take up to 32 bits and are kept in signed variables; the largest one has no code. */
  datatype Cpb = Cpb(bitRateValueMinus1: int, cpbSizeValueMinus1: int, cbrFlag: nat) {
    predicate InRange() {
      && -0x8000_0000 <= bitRateValueMinus1 < 0x8000_0000 && bitRateValueMinus1 != -1
      && -0x8000_0000 <= cpbSizeValueMinus1 < 0x8000_0000 && cpbSizeValueMinus1 != -1
      && U(1, cbrFlag).InRange()
    }
  }

  /** The unsigned number a signed 32-bit variable stands for. */
  function Uint32(v: int): (u: nat)
    requires -0x8000_0000 <= v < 0x8000_0000
    ensures u < 0x1_0000_0000 && Int32(u) == v && (u == 0xffff_ffff <==> v == -1)
  {
    if v >= 0 then v else v + 0x1_0000_0000
  }

  datatype Hrd = Hrd(bitRateScale: nat, cpbSizeScale: nat, entries: seq<Cpb>,
                     initialCpbRemovalDelayLengthMinus1: nat, cpbRemovalDelayLengthMinus1: nat,
                     dpbOutputDelayLengthMinus1: nat, timeOffsetLength: nat) {
    predicate InRange() {
      && U(4, bitRateScale).InRange() && U(4, cpbSizeScale).InRange()
      && 0 < |entries| <= 32 && (forall i :: 0 <= i < |entries| ==> entries[i].InRange())
      && U(5, initialCpbRemovalDelayLengthMinus1).InRange() && U(5, cpbRemovalDelayLengthMinus1).InRange()
      && U(5, dpbOutputDelayLengthMinus1).InRange() && U(5, timeOffsetLength).InRange()
    }
  }

  function CpbTable(entries: seq<Cpb>, i: nat, k: Table): (t: Table)
    requires i <= |entries| && forall j :: 0 <= j < |entries| ==> entries[j].InRange()
    ensures EndOf(t) == EndOf(k)
    decreases |entries| - i
  {
    if i == |entries| then k
    else
      assert entries[i].InRange();
      Line(UE(Uint32(entries[i].bitRateValueMinus1)),
      Line(UE(Uint32(entries[i].cpbSizeValueMinus1)),
      Line(U(1, entries[i].cbrFlag), CpbTable(entries, i + 1, k))))
  }

  function HrdTable(h: Hrd, k: Table): (t: Table)
    requires h.InRange()
    ensures EndOf(t) == EndOf(k)
  {
    Line(UE(|h.entries| - 1), Line(U(4, h.bitRateScale), Line(U(4, h.cpbSizeScale),
    CpbTable(h.entries, 0, HrdLengths(h, k)))))
  }

  function HrdLengths(h: Hrd, k: Table): (t: Table)
    ensures EndOf(t) == EndOf(k)
  {
    Line(U(5, h.initialCpbRemovalDelayLengthMinus1), Line(U(5, h.cpbRemovalDelayLengthMinus1),
    Line(U(5, h.dpbOutputDelayLengthMinus1), Line(U(5, h.timeOffsetLength), k))))
  }

  method ReadHrdParameters(bs: BitStream, ghost h: Hrd, ghost k: Table) returns (r: Hrd)
    requires bs.Valid() && h.InRange() && bs.Remaining() == HrdTable(h, k).Bits()
    modifies bs
    ensures bs.Valid() && r == h && bs.Remaining() == k.Bits()
  {
    hide Table.Bits, BitStream.Remaining, BitStream.Valid, Pow2, Int32;
    ghost var t := HrdTable(h, k);
    var cpbCntMinus1 := TakeUE(bs, t);
    var bitRateScale := TakeU(bs, 4, t.next);
    var cpbSizeScale := TakeU(bs, 4, t.next.next);
    var entries: seq<Cpb> := [];
    for schedSelIdx := 0 to cpbCntMinus1 + 1
      invariant bs.Valid() && |entries| == schedSelIdx && entries == h.entries[..schedSelIdx]
      invariant bs.Remaining() == CpbTable(h.entries, schedSelIdx, HrdLengths(h, k)).Bits()
    {
      ghost var row := CpbTable(h.entries, schedSelIdx, HrdLengths(h, k));
      assert h.entries[schedSelIdx].InRange();
      var bitRate := TakeWideUE(bs, row);
      var cpbSize := TakeWideUE(bs, row.next);
      var cbr := TakeFlag(bs, row.next.next);
      entries := entries + [Cpb(bitRate, cpbSize, cbr)];
    }
    t := HrdLengths(h, k);
    var initial := TakeU(bs, 5, t);
    var removal := TakeU(bs, 5, t.next);
    var output := TakeU(bs, 5, t.next.next);
    var offset := TakeU(bs, 5, t.next.next.next);
    r := Hrd(bitRateScale, cpbSizeScale, entries, initial, removal, output, offset);
  }

  // ----- video usability information -----

  const SAR_EXTENDED := 255

  datatype Aspect = Aspect(idc: nat, sarWidth: nat, sarHeight: nat)
  datatype Colour = Colour(primaries: nat, transfer: nat, matrix: nat)
  datatype VideoSignal = VideoSignal(format: nat, fullRange: nat, colour: Option<Colour>)
  datatype ChromaLoc = ChromaLoc(top: nat, bottom: nat)
  datatype Timing = Timing(numUnitsInTick: int, timeScale: int, fixedFrameRate: nat)
  datatype Restriction = Restriction(motionVectors: nat, maxBytesPerPic: nat, maxBitsPerMb: nat,
                                     log2MaxMvHorizontal: nat, log2MaxMvVertical: nat,
                                     numReorderFrames: nat, maxDecFrameBuffering: nat)

  datatype Vui = Vui(aspect: Option<Aspect>, overscan: Option<nat>, signal: Option<VideoSignal>,
                     chromaLoc: Option<ChromaLoc>, timing: Option<Timing>, nalHrd: Option<Hrd>, vclHrd: Option<Hrd>,
                     lowDelayHrd: nat, picStructPresent: nat, restriction: Option<Restriction>) {
    predicate InRange() {
      && (aspect.Some? ==> AspectInRange(aspect.value))
      && (overscan.Some? ==> U(1, overscan.value).InRange())
      && (signal.Some? ==> SignalInRange(signal.value))
      && (chromaLoc.Some? ==> IsUe(chromaLoc.value.top) && IsUe(chromaLoc.value.bottom))
      && (timing.Some? ==> TimingInRange(timing.value))
      && (nalHrd.Some? ==> nalHrd.value.InRange())
      && (vclHrd.Some? ==> vclHrd.value.InRange())
      && U(1, lowDelayHrd).InRange() && (nalHrd.None? && vclHrd.None? ==> lowDelayHrd == 0)
      && U(1, picStructPresent).InRange()
      && (restriction.Some? ==> RestrictionInRange(restriction.value))
    }
  }

  predicate AspectInRange(a: Aspect) {
    && U(8, a.idc).InRange() && U(16, a.sarWidth).InRange() && U(16, a.sarHeight).InRange()
    && (a.idc != SAR_EXTENDED ==> a.sarWidth == a.sarHeight == 0)
  }

  predicate SignalInRange(s: VideoSignal) {
    && U(3, s.format).InRange() && U(1, s.fullRange).InRange()
    && (s.colour.Some? ==>
          var c := s.colour.value;
          U(8, c.primaries).InRange() && U(8, c.transfer).InRange() && U(8, c.matrix).InRange())
  }

  /** The two 32-bit fields are kept in signed variables. */
  predicate TimingInRange(t: Timing) {
    && -0x8000_0000 <= t.numUnitsInTick < 0x8000_0000 && -0x8000_0000 <= t.timeScale < 0x8000_0000
    && U(1, t.fixedFrameRate).InRange()
  }

  predicate RestrictionInRange(r: Restriction) {
    && U(1, r.motionVectors).InRange() && IsUe(r.maxBytesPerPic) && IsUe(r.maxBitsPerMb)
    && IsUe(r.log2MaxMvHorizontal) && IsUe(r.log2MaxMvVertical)
    && IsUe(r.numReorderFrames) && IsUe(r.maxDecFrameBuffering)
  }

  function Flag(present: bool): Element {
    U(1, if present then 1 else 0)
  }

  function AspectTable(a: Option<Aspect>, k: Table): (t: Table)
    ensures EndOf(t) == EndOf(k)
  {
    if a.None? then Line(Flag(false), k)
    else
      Line(Flag(true), Line(U(8, a.value.idc),
      if a.value.idc == SAR_EXTENDED then Line(U(16, a.value.sarWidth), Line(U(16, a.value.sarHeight), k)) else k))
  }

  function OverscanTable(o: Option<nat>, k: Table): (t: Table)
    ensures EndOf(t) == EndOf(k)
  {
    if o.None? then Line(Flag(false), k) else Line(Flag(true), Line(U(1, o.value), k))
  }

  function SignalTable(s: Option<VideoSignal>, k: Table): (t: Table)
    ensures EndOf(t) == EndOf(k)
  {
    if s.None? then Line(Flag(false), k)
    else Line(Flag(true), Line(U(3, s.value.format), Line(U(1, s.value.fullRange), ColourTable(s.value.colour, k))))
  }

  function ColourTable(c: Option<Colour>, k: Table): (t: Table)
    ensures EndOf(t) == EndOf(k)
  {
    if c.None? then Line(Flag(false), k)
    else Line(Flag(true), Line(U(8, c.value.primaries), Line(U(8, c.value.transfer), Line(U(8, c.value.matrix), k))))
  }

  function ChromaLocTable(c: Option<ChromaLoc>, k: Table): (t: Table)
    ensures EndOf(t) == EndOf(k)
  {
    if c.None? then Line(Flag(false), k) else Line(Flag(true), Line(UE(c.value.top), Line(UE(c.value.bottom), k)))
  }

  function TimingTable(t: Option<Timing>, k: Table): (table: Table)
    requires t.Some? ==> TimingInRange(t.value)
    ensures EndOf(table) == EndOf(k)
  {
    if t.None? then Line(Flag(false), k)
    else
      Line(Flag(true), Line(U(32, Uint32(t.value.numUnitsInTick)), Line(U(32, Uint32(t.value.timeScale)),
      Line(U(1, t.value.fixedFrameRate), k))))
  }

  function MaybeHrdTable(h: Option<Hrd>, k: Table): (t: Table)
    requires h.Some? ==> h.value.InRange()
    ensures EndOf(t) == EndOf(k)
  {
    if h.None? then Line(Flag(false), k) else Line(Flag(true), HrdTable(h.value, k))
  }

  function RestrictionTable(r: Option<Restriction>, k: Table): (t: Table)
    ensures EndOf(t) == EndOf(k)
  {
    if r.None? then Line(Flag(false), k)
    else
      Line(Flag(true), Line(U(1, r.value.motionVectors), Line(UE(r.value.maxBytesPerPic), Line(UE(r.value.maxBitsPerMb),
      Line(UE(r.value.log2MaxMvHorizontal), Line(UE(r.value.log2MaxMvVertical),
      Line(UE(r.value.numReorderFrames), Line(UE(r.value.maxDecFrameBuffering), k))))))))
  }

  function VuiTable(v: Vui, k: Table): (t: Table)
    requires v.InRange()
    ensures EndOf(t) == EndOf(k)
  {
    AspectTable(v.aspect, OverscanTable(v.overscan, SignalTable(v.signal, ChromaLocTable(v.chromaLoc,
    TimingTable(v.timing, VuiTail(v, k))))))
  }

  function VuiTail(v: Vui, k: Table): (t: Table)
    requires v.InRange()
    ensures EndOf(t) == EndOf(k)
  {
    MaybeHrdTable(v.nalHrd, MaybeHrdTable(v.vclHrd, LowDelayTable(v,
    Line(U(1, v.picStructPresent), RestrictionTable(v.restriction, k)))))
  }

  function LowDelayTable(v: Vui, k: Table): (t: Table)
    ensures EndOf(t) == EndOf(k)
  {
    if v.nalHrd.Some? || v.vclHrd.Some? then Line(U(1, v.lowDelayHrd), k) else k
  }

  lemma FlagInRange(present: bool)
    ensures Flag(present).InRange()
  {
    assert Pow2(1) == 2;
  }

  /** A presence flag. */
  method TakePresence(bs: BitStream, ghost t: Table, ghost present: bool) returns (r: bool)
    requires bs.Valid() && t.Row? && t.e == Flag(present) && bs.Remaining() == t.Bits()
    modifies bs
    ensures bs.Valid() && bs.Remaining() == t.next.Bits() && r == present
  {
    FlagInRange(present);
    var flag := TakeFlag(bs, t);
    r := flag != 0;
  }

  method ReadAspect(bs: BitStream, ghost a: Option<Aspect>, ghost k: Table) returns (r: Option<Aspect>)
    requires bs.Valid() && (a.Some? ==> AspectInRange(a.value)) && bs.Remaining() == AspectTable(a, k).Bits()
    modifies bs
    ensures bs.Valid() && r == a && bs.Remaining() == k.Bits()
  {
    hide Table.Bits, BitStream.Remaining, BitStream.Valid, Pow2, Int32;
    ghost var t := AspectTable(a, k);
    var present := TakePresence(bs, t, a.Some?);
    if !present {
      return None;
    }
    var idc := TakeU(bs, 8, t.next);
    var width, height := 0, 0;
    if idc == SAR_EXTENDED {
      width := TakeU(bs, 16, t.next.next);
      height := TakeU(bs, 16, t.next.next.next);
    }
    r := Some(Aspect(idc, width, height));
  }

  method ReadSignal(bs: BitStream, ghost s: Option<VideoSignal>, ghost k: Table) returns (r: Option<VideoSignal>)
    requires bs.Valid() && (s.Some? ==> SignalInRange(s.value)) && bs.Remaining() == SignalTable(s, k).Bits()
    modifies bs
    ensures bs.Valid() && r == s && bs.Remaining() == k.Bits()
  {
    hide Table.Bits, BitStream.Remaining, BitStream.Valid, Pow2, Int32;
    ghost var t := SignalTable(s, k);
    var present := TakePresence(bs, t, s.Some?);
    if !present {
      return None;
    }
    var format := TakeU(bs, 3, t.next);
    var fullRange := TakeFlag(bs, t.next.next);
    t := t.next.next.next;
    var colourPresent := TakePresence(bs, t, s.value.colour.Some?);
    var colour := None;
    if colourPresent {
      var primaries := TakeU(bs, 8, t.next);
      var transfer := TakeU(bs, 8, t.next.next);
      var matrix := TakeU(bs, 8, t.next.next.next);
      colour := Some(Colour(primaries, transfer, matrix));
    }
    r := Some(VideoSignal(format, fullRange, colour));
  }

  method ReadTiming(bs: BitStream, ghost v: Option<Timing>, ghost k: Table) returns (r: Option<Timing>)
    requires bs.Valid() && (v.Some? ==> TimingInRange(v.value)) && bs.Remaining() == TimingTable(v, k).Bits()
    modifies bs
    ensures bs.Valid() && r == v && bs.Remaining() == k.Bits()
  {
    Pow2At32();
    hide Table.Bits, BitStream.Remaining, BitStream.Valid, Pow2, Int32, Uint32;
    ghost var t := TimingTable(v, k);
    var present := TakePresence(bs, t, v.Some?);
    if !present {
      return None;
    }
    var units := TakeU(bs, 32, t.next);
    var scale := TakeU(bs, 32, t.next.next);
    var rate := TakeFlag(bs, t.next.next.next);
    r := Some(Timing(units, scale, rate));
  }

  method ReadRestriction(bs: BitStream, ghost v: Option<Restriction>, ghost k: Table) returns (r: Option<Restriction>)
    requires bs.Valid() && (v.Some? ==> RestrictionInRange(v.value)) && bs.Remaining() == RestrictionTable(v, k).Bits()
    modifies bs
    ensures bs.Valid() && r == v && bs.Remaining() == k.Bits()
  {
    hide Table.Bits, BitStream.Remaining, BitStream.Valid, Pow2, Int32;
    ghost var t := RestrictionTable(v, k);
    var present := TakePresence(bs, t, v.Some?);
    if !present {
      return None;
    }
    t := t.next;
    var vectors := TakeFlag(bs, t);
    var bytes := TakeUE(bs, t.next);
    var bits := TakeUE(bs, t.next.next);
    t := t.next.next.next;
    var horizontal := TakeUE(bs, t);
    var vertical := TakeUE(bs, t.next);
    var reorder := TakeUE(bs, t.next.next);
    var buffering := TakeUE(bs, t.next.next.next);
    r := Some(Restriction(vectors, bytes, bits, horizontal, vertical, reorder, buffering));
  }

  method ReadMaybeHrd(bs: BitStream, ghost h: Option<Hrd>, ghost k: Table) returns (r: Option<Hrd>)
    requires bs.Valid() && (h.Some? ==> h.value.InRange()) && bs.Remaining() == MaybeHrdTable(h, k).Bits()
    modifies bs
    ensures bs.Valid() && r == h && bs.Remaining() == k.Bits()
  {
    hide Table.Bits, BitStream.Remaining, BitStream.Valid, Hrd.InRange;
    ghost var t := MaybeHrdTable(h, k);
    var present := TakePresence(bs, t, h.Some?);
    if !present {
      return None;
    }
    var hrd := ReadHrdParameters(bs, h.value, k);
    r := Some(hrd);
  }

  method ReadVuiParameters(bs: BitStream, ghost v: Vui, ghost k: Table) returns (r: Vui)
    requires bs.Valid() && v.InRange() && bs.Remaining() == VuiTable(v, k).Bits()
    modifies bs
    ensures bs.Valid() && r == v && bs.Remaining() == k.Bits()
  {
    hide Table.Bits, BitStream.Remaining, BitStream.Valid, Pow2, Int32, Hrd.InRange, AspectInRange, SignalInRange,
      TimingInRange, RestrictionInRange, AspectTable, SignalTable, TimingTable, MaybeHrdTable, RestrictionTable;
    ghost var t4 := VuiTail(v, k);
    ghost var t3 := TimingTable(v.timing, t4);
    ghost var t2 := ChromaLocTable(v.chromaLoc, t3);
    ghost var t1 := SignalTable(v.signal, t2);
    ghost var t0 := OverscanTable(v.overscan, t1);
    var aspect := ReadAspect(bs, v.aspect, t0);
    var overscanPresent := TakePresence(bs, t0, v.overscan.Some?);
    var overscan: Option<nat> := None;
    if overscanPresent {
      var appropriate := TakeFlag(bs, t0.next);
      overscan := Some(appropriate);
    }
    var signal := ReadSignal(bs, v.signal, t2);
    var chromaPresent := TakePresence(bs, t2, v.chromaLoc.Some?);
    var chromaLoc := None;
    if chromaPresent {
      var top := TakeUE(bs, t2.next);
      var bottom := TakeUE(bs, t2.next.next);
      chromaLoc := Some(ChromaLoc(top, bottom));
    }
    var timing := ReadTiming(bs, v.timing, t4);
    var nalHrd, vclHrd, lowDelay, picStruct, restriction := ReadVuiTail(bs, v, k);
    r := Vui(aspect, overscan, signal, chromaLoc, timing, nalHrd, vclHrd, lowDelay, picStruct, restriction);
  }

  method ReadVuiTail(bs: BitStream, ghost v: Vui, ghost k: Table)
    returns (nalHrd: Option<Hrd>, vclHrd: Option<Hrd>, lowDelay: nat, picStruct: nat, restriction: Option<Restriction>)
    requires bs.Valid() && v.InRange() && bs.Remaining() == VuiTail(v, k).Bits()
    modifies bs
    ensures bs.Valid() && bs.Remaining() == k.Bits()
    ensures nalHrd == v.nalHrd && vclHrd == v.vclHrd && lowDelay == v.lowDelayHrd
    ensures picStruct == v.picStructPresent && restriction == v.restriction
  {
    hide Table.Bits, BitStream.Remaining, BitStream.Valid, Pow2, Int32, Hrd.InRange, AspectInRange, SignalInRange,
      TimingInRange, RestrictionInRange, MaybeHrdTable, RestrictionTable;
    ghost var t2 := Line(U(1, v.picStructPresent), RestrictionTable(v.restriction, k));
    ghost var t1 := LowDelayTable(v, t2);
    nalHrd := ReadMaybeHrd(bs, v.nalHrd, MaybeHrdTable(v.vclHrd, t1));
    vclHrd := ReadMaybeHrd(bs, v.vclHrd, t1);
    lowDelay := 0;
    if nalHrd.Some? || vclHrd.Some? {
      lowDelay := TakeFlag(bs, t1);
    }
    picStruct := TakeFlag(bs, t2);
    restriction := ReadRestriction(bs, v.restriction, k);
  }

  // ----- scaling lists -----

  /** A coded scaling list: the values given explicitly; none at all means the default list. */
  type ScalingCode = seq<int>

  /** What the parser keeps of a scaling list. */
  datatype ScalingList = ScalingList(values: seq<int>, useDefault: bool)

  predicate CodeInRange(code: ScalingCode, size: nat) {
    |code| <= size && forall j :: 0 <= j < |code| ==> 1 <= code[j] <= 255
  }

  /** The value before entry j. */
  function LastScale(code: ScalingCode, j: nat): (v: int)
    requires forall i :: 0 <= i < |code| ==> 1 <= code[i] <= 255
    ensures 1 <= v <= 255
  {
    if j == 0 || code == [] then 8 else if j <= |code| then code[j - 1] else code[|code| - 1]
  }

  /** Entries that are not coded repeat the last one that is. */
  function Expanded(code: ScalingCode, size: nat): (l: ScalingList)
    requires CodeInRange(code, size)
    ensures |l.values| == size
  {
    ScalingList(seq(size, j requires 0 <= j < size => LastScale(code, j + 1)), code == [])
  }

  /** The difference from `last` to `next`, in -128..127; a `next` of 0 ends the coded entries. */
  function DeltaScale(last: int, next: int): (d: int)
    requires 1 <= last <= 255 && 0 <= next <= 255
    ensures -128 <= d < 128 && (last + d + 256) % 256 == next
  {
    (next - last + 128) % 256 - 128
  }

  function ScalingTable(code: ScalingCode, j: nat, size: nat, k: Table): (t: Table)
    requires CodeInRange(code, size) && j <= |code|
    ensures EndOf(t) == EndOf(k)
    decreases |code| - j
  {
    if j == size then k
    else if j == |code| then Line(SE(DeltaScale(LastScale(code, j), 0)), k)
    else Line(SE(DeltaScale(LastScale(code, j), code[j])), ScalingTable(code, j + 1, size, k))
  }

  /** Fills the list in place, repeating the last value once a zero has been decoded. */
  method ReadScalingList(bs: BitStream, scalingList: array<int>, ghost code: ScalingCode, ghost k: Table)
    returns (useDefault: bool)
    requires bs.Valid() && scalingList.Length > 0 && CodeInRange(code, scalingList.Length)
    requires bs.Remaining() == ScalingTable(code, 0, scalingList.Length, k).Bits()
    modifies bs, scalingList
    ensures bs.Valid() && bs.Remaining() == k.Bits()
    ensures ScalingList(scalingList[..], useDefault) == Expanded(code, scalingList.Length)
  {
    hide Table.Bits, BitStream.Remaining, BitStream.Valid, DeltaScale, SeRead, Int32, Pow2;
    var lastScale, nextScale := 8, 8;
    var size := scalingList.Length;
    useDefault := false;
    for j := 0 to size
      invariant bs.Valid()
      invariant lastScale == LastScale(code, j)
      invariant forall i :: 0 <= i < j ==> scalingList[i] == LastScale(code, i + 1)
      invariant nextScale != 0 ==> j <= |code| && bs.Remaining() == ScalingTable(code, j, size, k).Bits()
      invariant nextScale == 0 ==> |code| < j && bs.Remaining() == k.Bits()
      invariant 0 < j ==> useDefault == (code == [])
    {
      if nextScale != 0 {
        ghost var t := ScalingTable(code, j, size, k);
        var deltaScale := TakeSE(bs, t);
        nextScale := (lastScale + deltaScale + 256) % 256;
        useDefault := j == 0 && nextScale == 0;
      }
      scalingList[j] := if nextScale == 0 then lastScale else nextScale;
      lastScale := scalingList[j];
    }
    assert scalingList[..] == Expanded(code, size).values;
  }

  function ListSize(i: nat): (size: nat)
    ensures size > 0
  {
    if i < 6 then 16 else 64
  }

  function ListsTable(lists: seq<Option<ScalingCode>>, i: nat, k: Table): (t: Table)
    requires i <= |lists| && ListsInRange(lists)
    ensures EndOf(t) == EndOf(k)
    decreases |lists| - i
  {
    if i == |lists| then k
    else if lists[i].None? then Line(Flag(false), ListsTable(lists, i + 1, k))
    else Line(Flag(true), ScalingTable(lists[i].value, 0, ListSize(i), ListsTable(lists, i + 1, k)))
  }

  predicate ListsInRange(lists: seq<Option<ScalingCode>>) {
    forall i :: 0 <= i < |lists| && lists[i].Some? ==> CodeInRange(lists[i].value, ListSize(i))
  }

  function ExpandedLists(lists: seq<Option<ScalingCode>>): (ls: seq<Option<ScalingList>>)
    requires ListsInRange(lists)
    ensures |ls| == |lists|
  {
    seq(|lists|, i requires 0 <= i < |lists| =>
      if lists[i].None? then None else Some(Expanded(lists[i].value, ListSize(i))))
  }

  method ReadLists(bs: BitStream, count: nat, ghost lists: seq<Option<ScalingCode>>, ghost k: Table)
    returns (ls: seq<Option<ScalingList>>)
    requires bs.Valid() && |lists| == count && ListsInRange(lists)
    requires bs.Remaining() == ListsTable(lists, 0, k).Bits()
    modifies bs
    ensures bs.Valid() && bs.Remaining() == k.Bits() && ls == ExpandedLists(lists)
  {
    hide Table.Bits, BitStream.Remaining, BitStream.Valid, CodeInRange, Expanded, ScalingTable;
    ls := [];
    for i := 0 to count
      invariant bs.Valid() && bs.Remaining() == ListsTable(lists, i, k).Bits()
      invariant |ls| == i && forall j :: 0 <= j < i ==> ls[j] == ExpandedLists(lists)[j]
    {
      ghost var t := ListsTable(lists, i, k);
      var present := TakePresence(bs, t, lists[i].Some?);
      if present {
        var list := new int[ListSize(i)];
        var useDefault := ReadScalingList(bs, list, lists[i].value, ListsTable(lists, i + 1, k));
        ls := ls + [Some(ScalingList(list[..], useDefault))];
      } else {
        ls := ls + [None];
      }
    }
  }

  /** Every list of values has a code. */
  lemma EveryListIsCoded(values: seq<int>)
    requires values != [] && forall j :: 0 <= j < |values| ==> 1 <= values[j] <= 255
    ensures CodeInRange(values, |values|) && Expanded(values, |values|) == ScalingList(values, false)
  {
    assert Expanded(values, |values|).values == values;
  }

  // ----- the parameter set -----

  /** Profiles whose parameter sets carry the chroma format and scaling lists. */
  predicate IsHigh(profileIdc: int) {
    profileIdc in {100, 110, 122, 244, 44, 83, 86, 118, 128, 138, 139, 134, 135}
  }

  /** S is ScalingCode in a parameter set to be written and ScalingList in one that has been read. */
  datatype High<S> = High(chromaFormatIdc: nat, separateColourPlane: nat,
                          bitDepthLumaMinus8: nat, bitDepthChromaMinus8: nat, transformBypass: nat,
                          scaling: Option<seq<Option<S>>>)

  datatype Poc =
    | Poc0(log2MaxPocLsbMinus4: nat)
    | Poc1(deltaAlwaysZero: nat, offsetForNonRefPic: int, offsetForTopToBottomField: int, offsetsForRefFrame: seq<int>)
    | PocOther(pocType: nat)

  datatype Crop = Crop(left: nat, right: nat, top: nat, bottom: nat)

  datatype Sps<S> = Sps(profileIdc: nat, constraintFlags: seq<nat>, levelIdc: nat, id: nat, high: Option<High<S>>,
                        log2MaxFrameNumMinus4: nat, poc: Poc, frame: Frame)

  datatype Frame = Frame(numRefFrames: nat, gapsAllowed: nat, widthInMbsMinus1: nat, heightInMapUnitsMinus1: nat,
                         frameMbsOnly: nat, mbAdaptive: nat, direct8x8Inference: nat,
                         crop: Option<Crop>, vui: Option<Vui>)

  function ListCount(chromaFormatIdc: nat): nat {
    if chromaFormatIdc != 3 then 8 else 12
  }

  predicate HighInRange(h: High<ScalingCode>) {
    && IsUe(h.chromaFormatIdc)
    && U(1, h.separateColourPlane).InRange() && (h.chromaFormatIdc != 3 ==> h.separateColourPlane == 0)
    && IsUe(h.bitDepthLumaMinus8) && IsUe(h.bitDepthChromaMinus8) && U(1, h.transformBypass).InRange()
    && (h.scaling.Some? ==> |h.scaling.value| == ListCount(h.chromaFormatIdc) && ListsInRange(h.scaling.value))
  }

  predicate PocInRange(p: Poc) {
    match p
    case Poc0(log2) => IsUe(log2)
    case Poc1(zero, nonRef, topToBottom, offsets) =>
      && U(1, zero).InRange() && SE(nonRef).InRange() && SE(topToBottom).InRange()
      && |offsets| < 256 && forall i :: 0 <= i < |offsets| ==> SE(offsets[i]).InRange()
    case PocOther(t) => t >= 2 && IsUe(t)
  }

  /** The offsets as the parser sees them. */
  function PocRead(p: Poc): Poc {
    match p
    case Poc1(zero, nonRef, topToBottom, offsets) =>
      Poc1(zero, SeRead(nonRef), SeRead(topToBottom),
           seq(|offsets|, i requires 0 <= i < |offsets| => SeRead(offsets[i])))
    case _ => p
  }

  /** The picture order count fields are recovered exactly when every offset is below 2^30 in absolute value. */
  lemma PocUnchanged(p: Poc)
    requires PocInRange(p)
    ensures PocRead(p) == p <==>
              (p.Poc1? ==>
                && IsSe(p.offsetForNonRefPic) && IsSe(p.offsetForTopToBottomField)
                && forall i :: 0 <= i < |p.offsetsForRefFrame| ==> IsSe(p.offsetsForRefFrame[i]))
  {
    if p.Poc1? {
      SeArithmetic(p.offsetForNonRefPic);
      SeArithmetic(p.offsetForTopToBottomField);
      hide SeRead;
      forall i | 0 <= i < |p.offsetsForRefFrame|
        ensures PocRead(p).offsetsForRefFrame[i] == p.offsetsForRefFrame[i] <==> IsSe(p.offsetsForRefFrame[i])
      {
        SeArithmetic(p.offsetsForRefFrame[i]);
      }
    }
  }

  predicate CropInRange(c: Crop) {
    IsUe(c.left) && IsUe(c.right) && IsUe(c.top) && IsUe(c.bottom)
  }

  predicate FrameInRange(f: Frame) {
    && IsUe(f.numRefFrames) && U(1, f.gapsAllowed).InRange()
    && IsUe(f.widthInMbsMinus1) && IsUe(f.heightInMapUnitsMinus1)
    && U(1, f.frameMbsOnly).InRange() && U(1, f.mbAdaptive).InRange() && (f.frameMbsOnly != 0 ==> f.mbAdaptive == 0)
    && U(1, f.direct8x8Inference).InRange()
    && (f.crop.Some? ==> CropInRange(f.crop.value))
    && (f.vui.Some? ==> f.vui.value.InRange())
  }

  predicate FlagsInRange(flags: seq<nat>) {
    |flags| == 6 && forall i :: 0 <= i < 6 ==> U(1, flags[i]).InRange()
  }

  predicate InRange(v: Sps<ScalingCode>) {
    && U(8, v.profileIdc).InRange() && FlagsInRange(v.constraintFlags)
    && U(8, v.levelIdc).InRange() && IsUe(v.id)
    && (v.high.Some? <==> IsHigh(v.profileIdc)) && (v.high.Some? ==> HighInRange(v.high.value))
    && IsUe(v.log2MaxFrameNumMinus4) && PocInRange(v.poc) && FrameInRange(v.frame)
  }

  function HighTable(h: High<ScalingCode>, k: Table): (t: Table)
    requires HighInRange(h)
    ensures EndOf(t) == EndOf(k)
  {
    Line(UE(h.chromaFormatIdc), SeparateTable(h, DepthTable(h, k)))
  }

  function SeparateTable(h: High<ScalingCode>, k: Table): (t: Table)
    ensures EndOf(t) == EndOf(k)
  {
    if h.chromaFormatIdc == 3 then Line(U(1, h.separateColourPlane), k) else k
  }

  function DepthTable(h: High<ScalingCode>, k: Table): (t: Table)
    requires HighInRange(h)
    ensures EndOf(t) == EndOf(k)
  {
    Line(UE(h.bitDepthLumaMinus8), Line(UE(h.bitDepthChromaMinus8), Line(U(1, h.transformBypass),
    if h.scaling.None? then Line(Flag(false), k) else Line(Flag(true), ListsTable(h.scaling.value, 0, k)))))
  }

  function PocTable(p: Poc, k: Table): (t: Table)
    ensures EndOf(t) == EndOf(k)
  {
    match p
    case Poc0(log2) => Line(UE(0), Line(UE(log2), k))
    case Poc1(zero, nonRef, topToBottom, offsets) =>
      Line(UE(1), Line(U(1, zero), Line(SE(nonRef), Line(SE(topToBottom),
      Line(UE(|offsets|), OffsetsTable(offsets, 0, k))))))
    case PocOther(t) => Line(UE(t), k)
  }

  function OffsetsTable(offsets: seq<int>, i: nat, k: Table): (t: Table)
    requires i <= |offsets|
    ensures EndOf(t) == EndOf(k)
    decreases |offsets| - i
  {
    if i == |offsets| then k else Line(SE(offsets[i]), OffsetsTable(offsets, i + 1, k))
  }

  function CropTable(c: Option<Crop>, k: Table): (t: Table)
    ensures EndOf(t) == EndOf(k)
  {
    if c.None? then Line(Flag(false), k)
    else
      Line(Flag(true), Line(UE(c.value.left), Line(UE(c.value.right),
      Line(UE(c.value.top), Line(UE(c.value.bottom), k)))))
  }

  function FrameTable(f: Frame, k: Table): (t: Table)
    requires FrameInRange(f)
    ensures EndOf(t) == EndOf(k)
  {
    Line(UE(f.numRefFrames), Line(U(1, f.gapsAllowed), Line(UE(f.widthInMbsMinus1), Line(UE(f.heightInMapUnitsMinus1),
    Line(U(1, f.frameMbsOnly), AdaptiveTable(f, FrameTail(f, k)))))))
  }

  function AdaptiveTable(f: Frame, k: Table): (t: Table)
    ensures EndOf(t) == EndOf(k)
  {
    if f.frameMbsOnly == 0 then Line(U(1, f.mbAdaptive), k) else k
  }

  function FrameTail(f: Frame, k: Table): (t: Table)
    requires FrameInRange(f)
    ensures EndOf(t) == EndOf(k)
  {
    Line(U(1, f.direct8x8Inference), CropTable(f.crop, MaybeVuiTable(f.vui, k)))
  }

  function MaybeVuiTable(v: Option<Vui>, k: Table): (t: Table)
    requires v.Some? ==> v.value.InRange()
    ensures EndOf(t) == EndOf(k)
  {
    if v.None? then Line(Flag(false), k) else Line(Flag(true), VuiTable(v.value, k))
  }

  function FlagsTable(flags: seq<nat>, k: Table): (t: Table)
    requires FlagsInRange(flags)
    ensures EndOf(t) == EndOf(k)
  {
    Line(U(1, flags[0]), Line(U(1, flags[1]), Line(U(1, flags[2]),
    Line(U(1, flags[3]), Line(U(1, flags[4]), Line(U(1, flags[5]), k))))))
  }

  /** The parameter set as the standard writes it; `reserved` are the two bits no one looks at. */
  function SpsTable(v: Sps<ScalingCode>, reserved: nat, k: Table): (t: Table)
    requires InRange(v)
    ensures EndOf(t) == EndOf(k)
  {
    Line(U(8, v.profileIdc), FlagsTable(v.constraintFlags, Line(U(2, reserved), Line(U(8, v.levelIdc), Line(UE(v.id),
    MaybeHighTable(v.high, BodyTable(v, k)))))))
  }

  function MaybeHighTable(h: Option<High<ScalingCode>>, k: Table): (t: Table)
    requires h.Some? ==> HighInRange(h.value)
    ensures EndOf(t) == EndOf(k)
  {
    if h.None? then k else HighTable(h.value, k)
  }

  function BodyTable(v: Sps<ScalingCode>, k: Table): (t: Table)
    requires InRange(v)
    ensures EndOf(t) == EndOf(k)
  {
    Line(UE(v.log2MaxFrameNumMinus4), PocTable(v.poc, FrameTable(v.frame, k)))
  }

  /** The same parameter set with its scaling lists filled in and its offsets as the parser sees them. */
  function Filled(v: Sps<ScalingCode>): Sps<ScalingList>
    requires InRange(v)
  {
    Sps(v.profileIdc, v.constraintFlags, v.levelIdc, v.id,
        if v.high.None? then None else Some(FilledHigh(v.high.value)), v.log2MaxFrameNumMinus4, PocRead(v.poc), v.frame)
  }

  function FilledHigh(h: High<ScalingCode>): High<ScalingList>
    requires HighInRange(h)
  {
    High(h.chromaFormatIdc, h.separateColourPlane, h.bitDepthLumaMinus8, h.bitDepthChromaMinus8, h.transformBypass,
         if h.scaling.None? then None else Some(ExpandedLists(h.scaling.value)))
  }

  method ReadHigh(bs: BitStream, ghost h: High<ScalingCode>, ghost k: Table) returns (r: High<ScalingList>)
    requires bs.Valid() && HighInRange(h) && bs.Remaining() == HighTable(h, k).Bits()
    modifies bs
    ensures bs.Valid() && r == FilledHigh(h) && bs.Remaining() == k.Bits()
  {
    hide Table.Bits, BitStream.Remaining, BitStream.Valid, Pow2, Int32, ListsTable, ExpandedLists, ListsInRange;
    ghost var t := HighTable(h, k);
    var chroma := TakeUE(bs, t);
    var separate := 0;
    if chroma == 3 {
      separate := TakeFlag(bs, t.next);
    }
    t := DepthTable(h, k);
    var luma := TakeUE(bs, t);
    var depth := TakeUE(bs, t.next);
    var bypass := TakeFlag(bs, t.next.next);
    t := t.next.next.next;
    var present := TakePresence(bs, t, h.scaling.Some?);
    var scaling := None;
    if present {
      var lists := ReadLists(bs, ListCount(chroma), h.scaling.value, k);
      scaling := Some(lists);
    }
    r := High(chroma, separate, luma, depth, bypass, scaling);
  }

  method ReadPoc(bs: BitStream, ghost p: Poc, ghost k: Table) returns (r: Poc)
    requires bs.Valid() && PocInRange(p) && bs.Remaining() == PocTable(p, k).Bits()
    modifies bs
    ensures bs.Valid() && r == PocRead(p) && bs.Remaining() == k.Bits()
  {
    hide Table.Bits, BitStream.Remaining, BitStream.Valid, Pow2, Int32;
    ghost var t := PocTable(p, k);
    var pocType := TakeUE(bs, t);
    t := t.next;
    if pocType == 0 {
      var log2 := TakeUE(bs, t);
      r := Poc0(log2);
    } else if pocType == 1 {
      var zero := TakeFlag(bs, t);
      var nonRef := TakeSE(bs, t.next);
      var topToBottom := TakeSE(bs, t.next.next);
      var count := TakeUE(bs, t.next.next.next);
      var offsets := new int[256];
      for i := 0 to count
        invariant bs.Valid() && count == |p.offsetsForRefFrame|
        invariant forall j :: 0 <= j < i ==> offsets[j] == SeRead(p.offsetsForRefFrame[j])
        invariant bs.Remaining() == OffsetsTable(p.offsetsForRefFrame, i, k).Bits()
      {
        var offset := TakeSE(bs, OffsetsTable(p.offsetsForRefFrame, i, k));
        offsets[i] := offset;
      }
      r := Poc1(zero, nonRef, topToBottom, offsets[..count]);
      assert r.offsetsForRefFrame == PocRead(p).offsetsForRefFrame;
    } else {
      r := PocOther(pocType);
    }
  }

  method ReadCrop(bs: BitStream, ghost c: Option<Crop>, ghost k: Table) returns (r: Option<Crop>)
    requires bs.Valid() && (c.Some? ==> CropInRange(c.value)) && bs.Remaining() == CropTable(c, k).Bits()
    modifies bs
    ensures bs.Valid() && r == c && bs.Remaining() == k.Bits()
  {
    hide Table.Bits, BitStream.Remaining, BitStream.Valid, Pow2, Int32;
    ghost var t := CropTable(c, k);
    var present := TakePresence(bs, t, c.Some?);
    if !present {
      return None;
    }
    var left := TakeUE(bs, t.next);
    var right := TakeUE(bs, t.next.next);
    var top := TakeUE(bs, t.next.next.next);
    var bottom := TakeUE(bs, t.next.next.next.next);
    r := Some(Crop(left, right, top, bottom));
  }

  method ReadFrame(bs: BitStream, ghost f: Frame, ghost k: Table) returns (r: Frame)
    requires bs.Valid() && FrameInRange(f) && bs.Remaining() == FrameTable(f, k).Bits()
    modifies bs
    ensures bs.Valid() && r == f && bs.Remaining() == k.Bits()
  {
    hide Table.Bits, BitStream.Remaining, BitStream.Valid, Pow2, Int32, CropTable, VuiTable, Vui.InRange, CropInRange;
    ghost var t := FrameTable(f, k);
    var numRefFrames := TakeUE(bs, t);
    var gaps := TakeFlag(bs, t.next);
    var width := TakeUE(bs, t.next.next);
    t := t.next.next.next;
    var height := TakeUE(bs, t);
    var frameMbsOnly := TakeFlag(bs, t.next);
    var mbAdaptive := 0;
    if frameMbsOnly == 0 {
      mbAdaptive := TakeFlag(bs, t.next.next);
    }
    t := FrameTail(f, k);
    var direct := TakeFlag(bs, t);
    t := MaybeVuiTable(f.vui, k);
    var crop := ReadCrop(bs, f.crop, t);
    var vuiPresent := TakePresence(bs, t, f.vui.Some?);
    var vui := None;
    if vuiPresent {
      var v := ReadVuiParameters(bs, f.vui.value, k);
      vui := Some(v);
    }
    r := Frame(numRefFrames, gaps, width, height, frameMbsOnly, mbAdaptive, direct, crop, vui);
  }

  method ReadFlags(bs: BitStream, ghost flags: seq<nat>, ghost k: Table) returns (r: seq<nat>)
    requires bs.Valid() && FlagsInRange(flags) && bs.Remaining() == FlagsTable(flags, k).Bits()
    modifies bs
    ensures bs.Valid() && r == flags && bs.Remaining() == k.Bits()
  {
    hide Table.Bits, BitStream.Remaining, BitStream.Valid, Pow2, Int32;
    ghost var t := FlagsTable(flags, k);
    var f0 := TakeFlag(bs, t);
    var f1 := TakeFlag(bs, t.next);
    var f2 := TakeFlag(bs, t.next.next);
    t := t.next.next.next;
    var f3 := TakeFlag(bs, t);
    var f4 := TakeFlag(bs, t.next);
    var f5 := TakeFlag(bs, t.next.next);
    r := [f0, f1, f2, f3, f4, f5];
  }

  /** Reads a parameter set and stops behind its last bit. */
  method Parse(bs: BitStream, ghost v: Sps<ScalingCode>, ghost reserved: nat, ghost k: Table)
    returns (r: Sps<ScalingList>)
    requires bs.Valid() && InRange(v) && U(2, reserved).InRange() && bs.Remaining() == SpsTable(v, reserved, k).Bits()
    modifies bs
    ensures bs.Valid() && r == Filled(v) && bs.Remaining() == k.Bits()
  {
    hide Table.Bits, BitStream.Remaining, BitStream.Valid, Pow2, Int32, HighInRange, HighTable, FilledHigh,
      PocInRange, PocTable, FrameInRange, FrameTable, FlagsInRange, FlagsTable;
    ghost var t := SpsTable(v, reserved, k);
    var profileIdc := TakeU(bs, 8, t);
    ghost var t1 := Line(U(2, reserved), Line(U(8, v.levelIdc), Line(UE(v.id),
                    MaybeHighTable(v.high, BodyTable(v, k)))));
    var flags := ReadFlags(bs, v.constraintFlags, t1);
    var _ := TakeU(bs, 2, t1);
    var levelIdc := TakeU(bs, 8, t1.next);
    var id := TakeUE(bs, t1.next.next);
    t := BodyTable(v, k);
    var high := None;
    if IsHigh(profileIdc) {
      var h := ReadHigh(bs, v.high.value, t);
      high := Some(h);
    }
    var log2 := TakeUE(bs, t);
    var poc := ReadPoc(bs, v.poc, FrameTable(v.frame, k));
    var frame := ReadFrame(bs, v.frame, k);
    r := Sps(profileIdc, flags, levelIdc, id, high, log2, poc, frame);
  }

  /**
    Every parameter set in range, however its scaling lists are coded and whatever follows it,
    is recovered from the bytes of its RBSP.
  */
  method ParseRbsp(rbsp: seq<byte>, ghost v: Sps<ScalingCode>, ghost reserved: nat, ghost trailing: seq<bit>)
    returns (r: Sps<ScalingList>)
    requires InRange(v) && U(2, reserved).InRange()
    requires |SpsTable(v, reserved, End(trailing)).Bits()| % 8 == 0
    requires rbsp == Pack(SpsTable(v, reserved, End(trailing)).Bits())
    ensures r == Filled(v)
  {
    BitsOfPack(SpsTable(v, reserved, End(trailing)).Bits());
    hide *;
    var bs := new BitStream(rbsp);
    r := Parse(bs, v, reserved, End(trailing));
  }
}
