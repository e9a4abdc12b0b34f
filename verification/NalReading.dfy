/**
  Reading NAL units from an Annex B file: `AnnexBReader` refills a buffer with reads of
  arbitrary size and cuts units off its front; `Nalu` parses a unit's header and removes
  the emulation prevention bytes.
*/
module NalReading {
  import opened Bytes
  import opened AnnexB
  import Emulation

  const READ_SIZE := 1024

  class Nalu {
    var buf: seq<byte>
    var startCodeLen: nat
    var forbiddenBit: int
    var nalRefIdc: int
    var nalUnitType: int
    var rbsp: seq<byte>

    constructor ()
      ensures buf == [] && startCodeLen == 0
    {
      buf, startCodeLen, rbsp := [], 0, [];
      forbiddenBit, nalRefIdc, nalUnitType := 0, 0, 0;
    }

    method SetBuf(bytes: seq<byte>)
      modifies this`buf
      ensures buf == bytes
    {
      buf := bytes;
    }

    method ParseHeader()
      requires startCodeLen < |buf|
      modifies this`forbiddenBit, this`nalRefIdc, this`nalUnitType
      ensures HeaderByte(forbiddenBit, nalRefIdc, nalUnitType) == buf[startCodeLen]
      ensures 0 <= forbiddenBit < 2 && 0 <= nalRefIdc < 4 && 0 <= nalUnitType < 32
    {
      var naluHead := buf[startCodeLen];
      forbiddenBit := naluHead / 128 % 2;
      nalRefIdc := naluHead / 32 % 4;
      nalUnitType := naluHead % 32;
    }

    method ParseRBSP()
      requires startCodeLen < |buf|
      modifies this`rbsp
      ensures rbsp == Emulation.Unescape(buf[startCodeLen + 1..], 0)
    {
      var ebsp := GetEBSP();
      var bytes, len := Emulation.GetRBSP(ebsp);
      rbsp := bytes[..len];
    }

    method GetEBSP() returns (ebsp: array<byte>)
      requires startCodeLen < |buf|
      ensures ebsp[..] == buf[startCodeLen + 1..]
    {
      var len := |buf| - startCodeLen - 1;
      ebsp := new byte[len];
      for i := 0 to len
        invariant ebsp[..i] == buf[startCodeLen + 1..startCodeLen + 1 + i]
      {
        ebsp[i] := buf[startCodeLen + 1 + i];
      }
    }
  }

  /** The header byte that carries the three fields (section 7.3.1 of ITU-T H.264). */
  function HeaderByte(forbiddenBit: int, nalRefIdc: int, nalUnitType: int): int {
    128 * forbiddenBit + 32 * nalRefIdc + nalUnitType
  }

  /** Where the fields stand in the header byte: the forbidden bit first, then two bits, then five. */
  lemma HeaderFields(forbiddenBit: int, nalRefIdc: int, nalUnitType: int, b: byte)
    requires 0 <= forbiddenBit < 2 && 0 <= nalRefIdc < 4 && 0 <= nalUnitType < 32
    requires HeaderByte(forbiddenBit, nalRefIdc, nalUnitType) == b
    ensures forbiddenBit == 1 <==> b >= 128
    ensures nalRefIdc >= 2 <==> b % 128 >= 64
    ensures nalRefIdc % 2 == 1 <==> b % 64 >= 32
    ensures nalUnitType == b % 32
    ensures b == 0x67 ==> forbiddenBit == 0 && nalRefIdc == 3 && nalUnitType == 7
  {
    var high := if nalRefIdc >= 2 then 1 else 0;
    var low := nalRefIdc - 2 * high;
    Remainder(b, 128, forbiddenBit, 64 * high + 32 * low + nalUnitType);
    Remainder(b, 64, 2 * forbiddenBit + high, 32 * low + nalUnitType);
    Remainder(b, 32, 4 * forbiddenBit + nalRefIdc, nalUnitType);
    hide HeaderByte;
    Bits(b, b % 128, b % 64, forbiddenBit, high, low, nalUnitType);
    assert low == nalRefIdc % 2;
  }

  lemma Bits(b: int, b128: int, b64: int, top: int, high: int, low: int, rest: int)
    requires 0 <= top < 2 && 0 <= high < 2 && 0 <= low < 2 && 0 <= rest < 32
    requires b64 == 32 * low + rest && b128 == 64 * high + b64 && b == 128 * top + b128
    ensures (top == 1 <==> b >= 128) && (high == 1 <==> b128 >= 64) && (low == 1 <==> b64 >= 32)
    ensures b == 0x67 ==> top == 0 && high == 1 && low == 1 && rest == 7
  {
  }

  lemma Remainder(b: int, m: int, q: int, r: int)
    requires m == 32 || m == 64 || m == 128
    requires b == m * q + r && 0 <= r < m
    ensures b % m == r
  {
  }

  class AnnexBReader {
    const file: seq<byte>
    var filePos: nat
    var buffer: seq<byte>

    ghost predicate Valid()
      reads this
    {
      filePos <= |file|
    }

    /** What has not been handed out yet. */
    ghost function Rest(): seq<byte>
      requires Valid()
      reads this
    {
      buffer + file[filePos..]
    }

    constructor (file: seq<byte>)
      ensures Valid() && Rest() == file
    {
      this.file := file;
      filePos, buffer := 0, [];
    }

    /** One read of up to READ_SIZE bytes; how many arrive is not known, but none only at the end. */
    method ReadFromFile() returns (readedLen: nat)
      requires Valid()
      modifies this
      ensures Valid() && Rest() == old(Rest())
      ensures readedLen == 0 <==> old(filePos) == |file|
      ensures filePos == old(filePos) + readedLen && old(buffer) <= buffer
    {
      var available := if |file| - filePos < READ_SIZE then |file| - filePos else READ_SIZE;
      readedLen :| 0 <= readedLen <= available && (readedLen == 0 ==> available == 0);
      if readedLen > 0 {
        ghost var rest := file[filePos..];
        assert rest == file[filePos..filePos + readedLen] + file[filePos + readedLen..];
        buffer := buffer + file[filePos..filePos + readedLen];
        filePos := filePos + readedLen;
      }
    }

    /** The first start code in the buffer at or after `from`, -1 if there is none. */
    method FindNextCode(from: nat) returns (endPos: int)
      requires from <= |buffer|
      ensures endPos == if NextCode(buffer, from) < |buffer| then NextCode(buffer, from) else -1
    {
      for i := from to |buffer|
        invariant forall k :: from <= k < i ==> CodeLen(buffer, k) == 0
      {
        if CodeLen(buffer, i) > 0 {
          NextCodeIs(buffer, from, i);
          return i;
        }
      }
      NextCodeIs(buffer, from, |buffer|);
      return -1;
    }

    /**
      Hands out the first unit of what is left: 0 if more follows, 1 if it was the last.
      Neither the sizes of the reads nor the place of their boundaries matters.
    */
    method ReadNalu(nalu: Nalu) returns (result: int)
      requires Valid()
      modifies this, nalu`buf, nalu`startCodeLen
      ensures Valid()
      ensures var all := old(Rest()); var e := UnitEnd(all);
              && nalu.buf == all[..e]
              && nalu.startCodeLen == CodeLen(all, 0)
              && Rest() == all[e..]
              && result == if e < |all| then 0 else 1
    {
      ghost var all := Rest();
      while true
        invariant Valid() && Rest() == all
        decreases |file| - filePos
      {
        nalu.startCodeLen := CodeLen(buffer, 0);
        var endPos := FindNextCode(nalu.startCodeLen);
        if endPos > 0 {
          UnitEndExtends(buffer, file[filePos..]);
          assert all == buffer + file[filePos..];
          nalu.SetBuf(buffer[..endPos]);
          buffer := buffer[endPos..];
          return 0;
        }
        assert UnitEnd(buffer) == |buffer|;
        var readedLen := ReadFromFile();
        if readedLen <= 0 {
          assert all == buffer;
          nalu.SetBuf(buffer);
          buffer := [];
          return 1;
        }
      }
    }
  }

  // ----- the decoder's main loop and its round trip -----

  datatype Parsed = Parsed(forbiddenBit: int, nalRefIdc: int, nalUnitType: int, rbsp: seq<byte>) {
    /** The unit was read from this header byte and these payload bytes. */
    predicate Carries(header: byte, payload: seq<byte>) {
      && 0 <= forbiddenBit < 2 && 0 <= nalRefIdc < 4 && 0 <= nalUnitType < 32
      && HeaderByte(forbiddenBit, nalRefIdc, nalUnitType) == header
      && rbsp == payload
    }
  }

  /** Every unit has a header byte after its start code. */
  predicate Readable(units: seq<seq<byte>>) {
    forall i :: 0 <= i < |units| ==> CodeLen(units[i], 0) < |units[i]|
  }

  predicate ParsedFrom(p: Parsed, unit: seq<byte>)
    requires CodeLen(unit, 0) < |unit|
  {
    p.Carries(unit[CodeLen(unit, 0)], Emulation.Unescape(unit[CodeLen(unit, 0) + 1..], 0))
  }

  /** `nals` is what the units of `file` parse to, in order. */
  predicate DecodedFrom(nals: seq<Parsed>, file: seq<byte>) {
    && Readable(Split(file))
    && |nals| == |Split(file)|
    && forall i :: 0 <= i < |nals| ==> ParsedFrom(nals[i], Split(file)[i])
  }

  /** One round of the loop: read a unit, then parse it. */
  method DecodeOne(reader: AnnexBReader) returns (nal: Parsed, isLast: bool)
    requires reader.Valid() && CodeLen(reader.Rest(), 0) < UnitEnd(reader.Rest())
    modifies reader
    ensures reader.Valid()
    ensures var rest := old(reader.Rest()); var e := UnitEnd(rest);
            && CodeLen(rest[..e], 0) < e
            && ParsedFrom(nal, rest[..e])
            && reader.Rest() == rest[e..]
            && isLast == (e == |rest|)
  {
    hide UnitEnd, CodeLen;
    CodeOfPrefix(reader.Rest());
    var nalu := new Nalu();
    var result := reader.ReadNalu(nalu);
    nalu.ParseHeader();
    nalu.ParseRBSP();
    nal := Parsed(nalu.forbiddenBit, nalu.nalRefIdc, nalu.nalUnitType, nalu.rbsp);
    isLast := result != 0;
  }

  /** The first of the remaining units, and the units after it. */
  lemma NextUnit(units: seq<seq<byte>>, k: nat, rest: seq<byte>)
    requires k < |units| && Readable(units) && Split(rest) == units[k..]
    ensures units[k] == rest[..UnitEnd(rest)] && CodeLen(rest, 0) < UnitEnd(rest)
    ensures UnitEnd(rest) < |rest| ==> k + 1 < |units| && Split(rest[UnitEnd(rest)..]) == units[k + 1..]
    ensures UnitEnd(rest) == |rest| ==> k + 1 == |units|
  {
    CodeOfPrefix(rest);
    assert units[k] == Split(rest)[0];
    assert units[k..][1..] == units[k + 1..];
    if UnitEnd(rest) < |rest| {
      assert Split(rest)[1..] == Split(rest[UnitEnd(rest)..]);
    }
  }

  /** Reads unit after unit until the file ends; every one of them is parsed. */
  method DecodeFile(file: seq<byte>) returns (nals: seq<Parsed>)
    requires Readable(Split(file))
    ensures DecodedFrom(nals, file)
  {
    var reader := new AnnexBReader(file);
    nals := [];
    var isLast := false;
    ghost var units := Split(file);
    assert units == units[0..];
    hide Split, UnitEnd, CodeLen, ParsedFrom;
    while !isLast
      invariant reader.Valid() && fresh(reader)
      invariant |nals| <= |units| && forall i :: 0 <= i < |nals| ==> ParsedFrom(nals[i], units[i])
      invariant !isLast ==> |nals| < |units| && Split(reader.Rest()) == units[|nals|..]
      invariant isLast ==> |nals| == |units|
      decreases |units| - |nals|
    {
      NextUnit(units, |nals|, reader.Rest());
      var nal;
      nal, isLast := DecodeOne(reader);
      nals := nals + [nal];
    }
  }

  /** A NAL unit as an encoder has it: header byte, payload, and a choice of start code. */
  datatype SourceNal = SourceNal(four: bool, header: byte, payload: seq<byte>) {
    function Encoded(): Coded {
      Coded(four, [header] + Emulation.Escape(payload))
    }
  }

  function Encoded(nals: seq<SourceNal>): (units: seq<Coded>)
    ensures |units| == |nals|
  {
    seq(|nals|, i requires 0 <= i < |nals| => nals[i].Encoded())
  }

  lemma EncodedIsSeparable(n: SourceNal)
    requires n.header != 0
    ensures Separable(n.Encoded().nal)
  {
    var e := Emulation.Escape(n.payload);
    var nal := n.Encoded().nal;
    Emulation.EscapeIsClean(n.payload);
    forall i | 0 <= i < |nal| - 2 ensures NoCodeTriple(nal, i) {
      if i > 0 {
        assert Emulation.CleanAt(e, i - 1);
      }
    }
  }

  lemma DecodedUnit(n: SourceNal, unit: seq<byte>, p: Parsed)
    requires n.header != 0 && unit == n.Encoded().Bytes()
    ensures CodeLen(unit, 0) < |unit|
    ensures ParsedFrom(p, unit) ==> p.Carries(n.header, n.payload + Emulation.Tail(n.payload))
  {
    var u := n.Encoded();
    EncodedIsSeparable(n);
    UnitThenCode(u, []);
    assert u.Bytes() + [] == u.Bytes();
    assert unit[|Code(u.four)|] == n.header;
    assert unit[|Code(u.four)| + 1..] == Emulation.Escape(n.payload);
    Emulation.UnescapeEscape(n.payload);
  }

  /**
    Escaping, adding start codes, splitting, parsing the header and unescaping give back every
    header and payload. A payload that ends in a zero byte comes back with the final 03
    (section 7.4.1) still attached; every other payload comes back as it was.
  */
  lemma DecodeInvertsEncode(nals: seq<SourceNal>, decoded: seq<Parsed>)
    requires nals != [] && forall i :: 0 <= i < |nals| ==> nals[i].header != 0
    ensures Readable(Split(Flatten(Written(Encoded(nals)))))
    ensures DecodedFrom(decoded, Flatten(Written(Encoded(nals)))) ==>
              && |decoded| == |nals|
              && forall i :: 0 <= i < |nals| ==>
                   decoded[i].Carries(nals[i].header, nals[i].payload + Emulation.Tail(nals[i].payload))
  {
    var coded := Encoded(nals);
    forall i | 0 <= i < |coded| ensures Separable(coded[i].nal) {
      EncodedIsSeparable(nals[i]);
    }
    SplitWritten(coded);
    var units := Written(coded);
    forall i | 0 <= i < |nals| ensures CodeLen(units[i], 0) < |units[i]| {
      DecodedUnit(nals[i], units[i], Parsed(0, 0, 0, []));
    }
    if DecodedFrom(decoded, Flatten(Written(coded))) {
      forall i | 0 <= i < |nals|
        ensures decoded[i].Carries(nals[i].header, nals[i].payload + Emulation.Tail(nals[i].payload))
      {
        DecodedUnit(nals[i], units[i], decoded[i]);
      }
    }
  }
}
