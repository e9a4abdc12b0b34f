/**
  The decoder's main program: it reads a file unit by unit and parses the parameter sets among the
  units. The last unit of the file is read, but the loop ends before it is looked at.
*/
module DecoderMain {
  import opened Bytes
  import opened AnnexB
  import opened BitReading
  import opened Syntax
  import opened NalReading
  import Emulation
  import Pps
  import Sps

  const SPS_TYPE := 7
  const PPS_TYPE := 8

  /** What an encoder puts into a unit: a parameter set and its trailing zero bits, or anything else. */
  datatype Content =
    | SpsContent(sps: Sps.Sps<Sps.ScalingCode>, reserved: nat, zeros: nat)
    | PpsContent(pps: Pps.Pps, zeros: nat)
    | OtherContent(payload: seq<byte>)
  {
    /** The values are in range, and the trailing bits end on a byte boundary. */
    ghost predicate Valid(header: byte) {
      match this
      case SpsContent(sps, reserved, zeros) =>
        && header % 32 == SPS_TYPE && Sps.InRange(sps) && U(2, reserved).InRange() && zeros < 8 && |Bits()| % 8 == 0
      case PpsContent(pps, zeros) =>
        header % 32 == PPS_TYPE && Pps.InRange(pps) && zeros < 8 && |Bits()| % 8 == 0
      case OtherContent(_) => header % 32 != SPS_TYPE && header % 32 != PPS_TYPE
    }

    ghost function Bits(): seq<bit>
      requires SpsContent? ==> Sps.InRange(sps)
      requires PpsContent? ==> Pps.InRange(pps)
    {
      match this
      case SpsContent(sps, reserved, zeros) => Sps.SpsTable(sps, reserved, End(Trailing(zeros))).Bits()
      case PpsContent(pps, zeros) => Pps.PpsTable(pps, End(Trailing(zeros))).Bits()
      case OtherContent(_) => []
    }

    /** The RBSP. */
    ghost function Rbsp(header: byte): seq<byte>
      requires Valid(header)
    {
      if OtherContent? then payload else Pack(Bits())
    }
  }

  /** A unit to be written, with its header byte and a choice of start code. */
  datatype Unit = Unit(four: bool, header: byte, content: Content) {
    ghost predicate Valid() {
      header != 0 && content.Valid(header)
    }

    ghost function Source(): SourceNal
      requires Valid()
    {
      SourceNal(four, header, content.Rbsp(header))
    }
  }

  ghost function Sources(units: seq<Unit>): (nals: seq<SourceNal>)
    requires forall i :: 0 <= i < |units| ==> units[i].Valid()
    ensures |nals| == |units|
  {
    seq(|units|, i requires 0 <= i < |units| => units[i].Source())
  }

  datatype ParameterSet = FoundSps(sps: Sps.Sps<Sps.ScalingList>) | FoundPps(pps: Pps.Pps)

  /** The parameter sets among the units, as the parser sees them, in order. */
  ghost function ParameterSets(units: seq<Unit>): seq<ParameterSet>
    requires forall i :: 0 <= i < |units| ==> units[i].Valid()
  {
    if units == [] then []
    else ParameterSets(units[..|units| - 1]) + ParameterSetOf(units[|units| - 1])
  }

  ghost function ParameterSetOf(unit: Unit): seq<ParameterSet>
    requires unit.Valid()
  {
    match unit.content
    case SpsContent(sps, _, _) => [FoundSps(Sps.Filled(sps))]
    case PpsContent(pps, _) => [FoundPps(pps)]
    case OtherContent(_) => []
  }

  /** Trailing bits keep a parameter set from ending in a zero byte, so nothing is appended to it. */
  lemma NoTail(content: Content, header: byte)
    requires content.Valid(header) && !content.OtherContent?
    ensures Emulation.Tail(content.Rbsp(header)) == []
  {
    EndsInTrailing(content, header);
    RbspIsPacked(content, header);
    hide *;
    PackedTrailing(content.Bits(), content.zeros);
    NotZeroAtTheEnd(Pack(content.Bits()));
  }

  lemma NotZeroAtTheEnd(rbsp: seq<byte>)
    requires rbsp != [] && rbsp[|rbsp| - 1] != 0
    ensures Emulation.Tail(rbsp) == []
  {
  }

  lemma EndsInTrailing(content: Content, header: byte)
    requires content.Valid(header) && !content.OtherContent?
    ensures var bits, zeros := content.Bits(), content.zeros;
            && zeros < 8 && |bits| % 8 == 0 && zeros < |bits| && bits[|bits| - zeros - 1..] == Trailing(zeros)
  {
    hide Sps.SpsTable, Pps.PpsTable, Sps.InRange, Pps.InRange, Trailing, Table.Bits;
    match content
    case SpsContent(sps, reserved, zeros) =>
      TableEndsInTrailing(Sps.SpsTable(sps, reserved, End(Trailing(zeros))), zeros);
    case PpsContent(pps, zeros) =>
      TableEndsInTrailing(Pps.PpsTable(pps, End(Trailing(zeros))), zeros);
  }

  lemma TableEndsInTrailing(t: Table, zeros: nat)
    requires EndOf(t) == EndOf(End(Trailing(zeros)))
    ensures zeros < |t.Bits()| && t.Bits()[|t.Bits()| - zeros - 1..] == Trailing(zeros)
  {
    hide Table.Bits;
    EndsInEnd(t);
    assert |Trailing(zeros)| == zeros + 1;
  }

  /** What the parser is given for a unit. */
  lemma ParsedUnit(unit: Unit, p: Parsed)
    requires unit.Valid()
    requires var rbsp := unit.content.Rbsp(unit.header); p.Carries(unit.header, rbsp + Emulation.Tail(rbsp))
    ensures p.nalUnitType == unit.header % 32
    ensures !unit.content.OtherContent? ==> p.rbsp == Pack(unit.content.Bits())
  {
    TypeOfHeader(p.forbiddenBit, p.nalRefIdc, p.nalUnitType);
    hide *;
    if !unit.content.OtherContent? {
      NoTail(unit.content, unit.header);
      RbspIsPacked(unit.content, unit.header);
      assert p.rbsp == unit.content.Rbsp(unit.header) + [];
    }
  }

  lemma TypeOfHeader(forbiddenBit: int, nalRefIdc: int, nalUnitType: int)
    requires 0 <= nalUnitType < 32
    ensures HeaderByte(forbiddenBit, nalRefIdc, nalUnitType) % 32 == nalUnitType
  {
  }

  lemma RbspIsPacked(content: Content, header: byte)
    requires content.Valid(header) && !content.OtherContent?
    ensures content.Rbsp(header) == Pack(content.Bits())
  {
    hide Pack, Content.Bits;
  }

  /** Parses one unit if it is a parameter set. */
  method ParseUnit(nal: Parsed, ghost unit: Unit) returns (found: seq<ParameterSet>)
    requires unit.Valid() && nal.nalUnitType == unit.header % 32
    requires !unit.content.OtherContent? ==> nal.rbsp == Pack(unit.content.Bits())
    ensures found == ParameterSetOf(unit)
  {
    hide Sps.SpsTable, Pps.PpsTable, Sps.InRange, Pps.InRange, Pack, Table.Bits;
    found := [];
    if nal.nalUnitType == SPS_TYPE {
      var sps := Sps.ParseRbsp(nal.rbsp, unit.content.sps, unit.content.reserved, Trailing(unit.content.zeros));
      found := [FoundSps(sps)];
    } else if nal.nalUnitType == PPS_TYPE {
      var pps := Pps.ParseRbsp(nal.rbsp, unit.content.pps, Trailing(unit.content.zeros));
      found := [FoundPps(pps)];
    }
  }

  /** The k-th unit of the file and what parsing it gives. */
  lemma UnitOfFile(units: seq<Unit>, k: nat, p: Parsed)
    requires k < |units| && forall i :: 0 <= i < |units| ==> units[i].Valid()
    ensures var parts := Written(Encoded(Sources(units)));
            && CodeLen(parts[k], 0) < |parts[k]|
            && (ParsedFrom(p, parts[k]) ==>
                  && p.nalUnitType == units[k].header % 32
                  && (!units[k].content.OtherContent? ==> p.rbsp == Pack(units[k].content.Bits())))
  {
    var parts := Written(Encoded(Sources(units)));
    var n := units[k].Source();
    assert parts[k] == n.Encoded().Bytes();
    hide Written, Encoded, Sources, SourceNal.Encoded;
    DecodedUnit(n, parts[k], p);
    if ParsedFrom(p, parts[k]) {
      ParsedUnit(units[k], p);
    }
  }

  lemma FileOfUnits(units: seq<Unit>)
    requires units != [] && forall i :: 0 <= i < |units| ==> units[i].Valid()
    ensures var parts := Written(Encoded(Sources(units))); Split(Flatten(parts)) == parts && Readable(parts)
  {
    var nals := Sources(units);
    var coded := Encoded(nals);
    forall i | 0 <= i < |coded| ensures Separable(coded[i].nal) {
      EncodedIsSeparable(nals[i]);
    }
    SplitWritten(coded);
    forall i | 0 <= i < |units| ensures CodeLen(Written(coded)[i], 0) < |Written(coded)[i]| {
      UnitOfFile(units, i, Parsed(0, 0, 0, []));
    }
  }

  lemma ParameterSetsMore(units: seq<Unit>, k: nat)
    requires k < |units| && forall i :: 0 <= i < |units| ==> units[i].Valid()
    ensures ParameterSets(units[..k + 1]) == ParameterSets(units[..k]) + ParameterSetOf(units[k])
  {
    assert units[..k + 1][..k] == units[..k];
  }

  /**
    From a file of units, escaped and written with any start codes, the program finds every parameter
    set but one in the last unit, and parses it to what the encoder wrote.
  */
  method DecodeParameterSets(file: seq<byte>, ghost units: seq<Unit>) returns (found: seq<ParameterSet>)
    requires units != [] && forall i :: 0 <= i < |units| ==> units[i].Valid()
    requires file == Flatten(Written(Encoded(Sources(units))))
    ensures found == ParameterSets(units[..|units| - 1])
  {
    var reader := new AnnexBReader(file);
    found := [];
    ghost var parts := Written(Encoded(Sources(units)));
    ghost var k := 0;
    FileOfUnits(units);
    assert parts == parts[0..];
    hide *;
    while true
      invariant reader.Valid() && fresh(reader)
      invariant k < |units| == |parts| && Split(reader.Rest()) == parts[k..]
      invariant found == ParameterSets(units[..k])
      decreases |units| - k
    {
      NextUnit(parts, k, reader.Rest());
      var nal, isLast := DecodeOne(reader);
      if isLast {
        break;
      }
      UnitOfFile(units, k, nal);
      var one := ParseUnit(nal, units[k]);
      ParameterSetsMore(units, k);
      found := found + one;
      k := k + 1;
    }
  }
}
