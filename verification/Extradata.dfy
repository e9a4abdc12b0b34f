/**
  The decoder configuration record of an MP4 file (section 5.3.3.1 of ISO/IEC 14496-15) turned
  into Annex B: every parameter set behind a four-byte start code, sequence sets first.
*/
module Extradata {
  import opened Bytes
  import opened AnnexB

  const INT_MAX := 0x7fff_ffff
  const START_CODE_SIZE := 4
  const LEN_SIZE := 2

  /** A byte of the record; FFmpeg buffers continue with zero bytes. */
  function At(x: seq<byte>, i: nat): byte {
    if i < |x| then x[i] else 0
  }

  /** n units with 16-bit lengths from offset p on, and where they end; None if one does not fit. */
  function ReadUnits(x: seq<byte>, p: nat, n: nat): Option<(seq<seq<byte>>, nat)>
    decreases n
  {
    if n == 0 then Some(([], p))
    else
      var size := Word16(At(x, p), At(x, p + 1));
      if p + LEN_SIZE + size > |x| then None
      else
        var unit := x[p + LEN_SIZE..p + LEN_SIZE + size];
        match ReadUnits(x, p + LEN_SIZE + size, n - 1)
        case None => None
        case Some((units, end)) => Some(([unit] + units, end))
  }

  /** Units behind four-byte start codes. */
  function WithCodes(units: seq<seq<byte>>): seq<byte> {
    Flatten(Written(FourCoded(units)))
  }

  function FourCoded(units: seq<seq<byte>>): (coded: seq<Coded>)
    ensures |coded| == |units|
  {
    seq(|units|, i requires 0 <= i < |units| => Coded(true, units[i]))
  }

  datatype Converted = Invalid | Ok(lengthSize: nat, data: seq<byte>)

  /** What the conversion returns when `done` has been written and n units follow at p. */
  function Remaining(x: seq<byte>, spsDone: bool, n: nat, p: nat, done: seq<seq<byte>>): Option<seq<seq<byte>>> {
    match ReadUnits(x, p, n)
    case None => None
    case Some((units, end)) =>
      if spsDone then Some(done + units)
      else
        match ReadUnits(x, end + 1, At(x, end))
        case None => None
        case Some((pps, _)) => Some(done + units + pps)
  }

  lemma ReadOne(x: seq<byte>, spsDone: bool, n: nat, p: nat, done: seq<seq<byte>>)
    requires n > 0
    ensures var size := Word16(At(x, p), At(x, p + 1));
            Remaining(x, spsDone, n, p, done)
            == if p + LEN_SIZE + size > |x| then None
               else Remaining(x, spsDone, n - 1, p + LEN_SIZE + size, done + [x[p + LEN_SIZE..p + LEN_SIZE + size]])
  {
    ReadUnitsNext(x, n, p);
    hide ReadUnits, At, Word16;
    var size := Word16(At(x, p), At(x, p + 1));
    if p + LEN_SIZE + size <= |x| {
      var unit := x[p + LEN_SIZE..p + LEN_SIZE + size];
      var r := ReadUnits(x, p + LEN_SIZE + size, n - 1);
      if r.Some? {
        AppendAssoc(done, [unit], r.value.0);
      }
    }
  }

  lemma ReadUnitsNext(x: seq<byte>, n: nat, p: nat)
    requires n > 0
    ensures var size := Word16(At(x, p), At(x, p + 1));
            ReadUnits(x, p, n)
            == if p + LEN_SIZE + size > |x| then None
               else
                 var r := ReadUnits(x, p + LEN_SIZE + size, n - 1);
                 if r.None? then None
                 else Some(([x[p + LEN_SIZE..p + LEN_SIZE + size]] + r.value.0, r.value.1))
  {
    hide At, Word16;
  }

  lemma WithCodesMore(units: seq<seq<byte>>, unit: seq<byte>)
    ensures WithCodes(units + [unit]) == WithCodes(units) + (Code(true) + unit)
  {
    assert Written(FourCoded(units + [unit])) == Written(FourCoded(units)) + [Code(true) + unit];
    FlattenSnoc(Written(FourCoded(units)), Code(true) + unit);
  }

  lemma {:induction false} WithCodesGrows(units: seq<seq<byte>>, more: seq<seq<byte>>)
    ensures |WithCodes(units)| <= |WithCodes(units + more)|
  {
    assert Written(FourCoded(units + more)) == Written(FourCoded(units)) + Written(FourCoded(more));
    FlattenAppend(Written(FourCoded(units)), Written(FourCoded(more)));
  }

  /** The size check and the bounds check both answer Invalid. */
  function Conversion(x: seq<byte>, padding: nat): Converted {
    match Remaining(x, false, At(x, 5) % 32, 6, [])
    case None => Invalid
    case Some(units) =>
      if |WithCodes(units)| > INT_MAX - padding then Invalid
      else Ok(At(x, 4) % 4 + 1, WithCodes(units))
  }

  lemma NextPhase(x: seq<byte>, p: nat, done: seq<seq<byte>>)
    ensures Remaining(x, false, 0, p, done) == Remaining(x, true, At(x, p), p + 1, done)
  {
    assert done + [] == done;
  }

  /** The size check comes before the bounds check; either way the answer is Invalid. */
  lemma TooBig(x: seq<byte>, padding: nat, spsDone: bool, n: nat, p: nat, done: seq<seq<byte>>)
    requires Remaining(x, false, At(x, 5) % 32, 6, []) == Remaining(x, spsDone, n + 1, p, done)
    requires |WithCodes(done)| + Word16(At(x, p), At(x, p + 1)) + START_CODE_SIZE > INT_MAX - padding
    ensures Conversion(x, padding) == Invalid
  {
    hide ReadUnits, Remaining, At, WithCodes;
    var r, size := Remaining(x, spsDone, n + 1, p, done), Word16(At(x, p), At(x, p + 1));
    ReadOne(x, spsDone, n + 1, p, done);
    if r.Some? {
      var more := done + [x[p + LEN_SIZE..p + LEN_SIZE + size]];
      DoneIsPrefix(x, spsDone, n, p + LEN_SIZE + size, more);
      WithCodesMore(done, more[|done|]);
      assert r.value == more + r.value[|more|..];
      WithCodesGrows(more, r.value[|more|..]);
    }
  }

  lemma DoneIsPrefix(x: seq<byte>, spsDone: bool, n: nat, p: nat, done: seq<seq<byte>>)
    ensures Remaining(x, spsDone, n, p, done).Some? ==> done <= Remaining(x, spsDone, n, p, done).value
  {
  }

  /**
    Walks over the sequence parameter sets and then, entering the loop body in the middle when
    there are none, over the picture parameter sets.
  */
  method ExtradataToAnnexB(x: seq<byte>, padding: nat) returns (result: Converted)
    requires padding <= INT_MAX
    ensures result == Conversion(x, padding)
  {
    hide Remaining, WithCodes, Conversion;
    var out: seq<byte> := [];
    var totalSize := 0;
    var lengthSize := At(x, 4) % 4 + 1;
    var unitNb: nat := At(x, 5) % 32;
    var pos: nat := 6;
    var spsDone := false;
    ghost var done: seq<seq<byte>> := [];
    NothingWritten();
    if unitNb == 0 {
      NextPhase(x, pos, done);
      unitNb, pos, spsDone := At(x, pos), pos + 1, true;
    }
    while unitNb > 0
      invariant 0 <= unitNb && (unitNb == 0 ==> spsDone)
      invariant Remaining(x, false, At(x, 5) % 32, 6, []) == Remaining(x, spsDone, unitNb, pos, done)
      invariant out == WithCodes(done) && totalSize == |out| <= INT_MAX - padding
      decreases !spsDone, unitNb
    {
      ReadOne(x, spsDone, unitNb, pos, done);
      unitNb := unitNb - 1;
      var unitSize := Word16(At(x, pos), At(x, pos + 1));
      totalSize := totalSize + unitSize + START_CODE_SIZE;
      if totalSize > INT_MAX - padding {
        TooBig(x, padding, spsDone, unitNb, pos, done);
        return Invalid;
      }
      if pos + LEN_SIZE + unitSize > |x| {
        Misfit(x, padding);
        return Invalid;
      }
      var unit := x[pos + LEN_SIZE..pos + LEN_SIZE + unitSize];
      WithCodesMore(done, unit);
      done := done + [unit];
      pos := pos + LEN_SIZE + unitSize;
      out := out + (Code(true) + unit);
      if unitNb == 0 && !spsDone {
        NextPhase(x, pos, done);
        unitNb, pos, spsDone := At(x, pos), pos + 1, true;
      }
    }
    Finished(x, padding, pos, done);
    result := Ok(lengthSize, out);
  }

  lemma NothingWritten()
    ensures WithCodes([]) == []
  {
  }

  lemma Misfit(x: seq<byte>, padding: nat)
    requires Remaining(x, false, At(x, 5) % 32, 6, []) == None
    ensures Conversion(x, padding) == Invalid
  {
  }

  lemma Finished(x: seq<byte>, padding: nat, p: nat, done: seq<seq<byte>>)
    requires Remaining(x, false, At(x, 5) % 32, 6, []) == Remaining(x, true, 0, p, done)
    requires |WithCodes(done)| <= INT_MAX - padding
    ensures Conversion(x, padding) == Ok(At(x, 4) % 4 + 1, WithCodes(done))
  {
    assert done + [] == done;
  }

  // ----- records written as the standard says -----

  /** Every unit's size fits its 16-bit length field. */
  predicate Short(units: seq<seq<byte>>) {
    forall i :: 0 <= i < |units| ==> |units[i]| < 0x1_0000
  }

  function LengthPrefixed(units: seq<seq<byte>>): seq<byte>
    requires Short(units)
  {
    if units == [] then []
    else [|units[0]| / 256, |units[0]| % 256] + units[0] + LengthPrefixed(units[1..])
  }

  /**
    A record: version, profile, compatibility, level, length size, the two lists of parameter sets,
    and `ext`, what the standard puts behind them for the high profiles.
  */
  function Record(profile: seq<byte>, lengthSize: nat, sps: seq<seq<byte>>, pps: seq<seq<byte>>, ext: seq<byte>)
    : seq<byte>
    requires |profile| == 4 && 1 <= lengthSize <= 4 && |sps| < 32 && |pps| < 256
    requires Short(sps) && Short(pps)
  {
    profile + [252 + lengthSize - 1, 224 + |sps|] + LengthPrefixed(sps) + [|pps|] + (LengthPrefixed(pps) + ext)
  }

  /** A record byte by byte: level 3.1, four-byte lengths, one set of either kind, and an extension byte. */
  lemma SampleRecord()
    ensures Short([[0x67, 1]]) && Short([[0x68, 2, 3]])
    ensures Record([1, 100, 0, 31], 4, [[0x67, 1]], [[0x68, 2, 3]], [0xFD])
         == [1, 100, 0, 31, 0xFF, 0xE1, 0, 2, 0x67, 1, 1, 0, 3, 0x68, 2, 3, 0xFD]
  {
    var sps: seq<seq<byte>>, pps: seq<seq<byte>> := [[0x67, 1]], [[0x68, 2, 3]];
    assert sps[1..] == [] && pps[1..] == [];
    assert LengthPrefixed(sps) == [0, 2] + [0x67, 1] + [];
    assert LengthPrefixed(pps) == [0, 3] + [0x68, 2, 3] + [];
  }

  lemma FirstUnit(x: seq<byte>, p: nat, hi: byte, lo: byte, unit: seq<byte>, after: seq<byte>)
    requires p <= |x| && x[p..] == [hi, lo] + unit + after
    ensures At(x, p) == hi && At(x, p + 1) == lo
    ensures p + LEN_SIZE + |unit| <= |x|
    ensures x[p + LEN_SIZE..p + LEN_SIZE + |unit|] == unit && x[p + LEN_SIZE + |unit|..] == after
  {
    var t := x[p..];
    assert x[p] == t[0] && x[p + 1] == t[1];
    assert x[p + LEN_SIZE..p + LEN_SIZE + |unit|] == t[LEN_SIZE..LEN_SIZE + |unit|];
    assert x[p + LEN_SIZE + |unit|..] == t[LEN_SIZE + |unit|..];
  }

  lemma ReadStep(x: seq<byte>, p: nat, u: seq<byte>, units: seq<seq<byte>>, end: nat)
    requires Word16(At(x, p), At(x, p + 1)) == |u| && p + LEN_SIZE + |u| <= |x|
    requires x[p + LEN_SIZE..p + LEN_SIZE + |u|] == u
    requires ReadUnits(x, p + LEN_SIZE + |u|, |units|) == Some((units, end))
    ensures ReadUnits(x, p, |units| + 1) == Some(([u] + units, end))
  {
  }

  lemma {:induction false} ReadWritten(x: seq<byte>, p: nat, units: seq<seq<byte>>, after: seq<byte>)
    requires Short(units)
    requires p <= |x| && x[p..] == LengthPrefixed(units) + after
    ensures ReadUnits(x, p, |units|) == Some((units, p + |LengthPrefixed(units)|))
    decreases |units|
  {
    hide LengthPrefixed, At, ReadUnits, Word16, Short;
    LengthPrefixedCons(units);
    if units != [] {
      var u, rest := units[0], units[1..];
      AppendAssoc([|u| / 256, |u| % 256] + u, LengthPrefixed(rest), after);
      FirstUnit(x, p, |u| / 256, |u| % 256, u, LengthPrefixed(rest) + after);
      var p' := p + LEN_SIZE + |u|;
      ReadWritten(x, p', rest, after);
      ReadStep(x, p, u, rest, p' + |LengthPrefixed(rest)|);
    } else {
      ReadNone(x, p);
    }
  }

  lemma ReadNone(x: seq<byte>, p: nat)
    ensures ReadUnits(x, p, 0) == Some(([], p))
  {
  }

  lemma LengthPrefixedCons(units: seq<seq<byte>>)
    requires Short(units)
    ensures units == [] ==> LengthPrefixed(units) == []
    ensures units != [] ==>
              var u, rest := units[0], units[1..];
              && |u| < 0x1_0000 && Short(rest) && units == [u] + rest
              && Word16(|u| / 256, |u| % 256) == |u|
              && LengthPrefixed(units) == [|u| / 256, |u| % 256] + u + LengthPrefixed(rest)
  {
  }

  /**
    Every well-formed record, with any number of parameter sets of either kind and whatever stands
    behind them, converts to exactly its units, unless they and the padding are too long for an int.
  */
  lemma RecordConverts(profile: seq<byte>, lengthSize: nat, sps: seq<seq<byte>>, pps: seq<seq<byte>>, ext: seq<byte>,
                       padding: nat)
    requires |profile| == 4 && 1 <= lengthSize <= 4 && |sps| < 32 && |pps| < 256
    requires Short(sps) && Short(pps)
    ensures Conversion(Record(profile, lengthSize, sps, pps, ext), padding)
         == if |WithCodes(sps + pps)| <= INT_MAX - padding then Ok(lengthSize, WithCodes(sps + pps)) else Invalid
  {
    hide Record, LengthPrefixed, ReadUnits, Remaining, Conversion, WithCodes, Short, At;
    var x := Record(profile, lengthSize, sps, pps, ext);
    var s := LengthPrefixed(sps);
    RecordLayout(profile, lengthSize, sps, pps, ext);
    ReadWritten(x, 6, sps, [|pps|] + (LengthPrefixed(pps) + ext));
    ReadWritten(x, 7 + |s|, pps, ext);
    HeadFields(x, lengthSize, |sps|, |pps|, 6 + |s|);
    ShortAppend(sps, pps);
    SetsOf(x, sps, pps, 6 + |s|);
    ConversionIs(x, padding, |sps|, sps + pps);
  }

  lemma HeadFields(x: seq<byte>, lengthSize: nat, n: nat, m: nat, p: nat)
    requires 5 < p < |x| && x[4] == 252 + lengthSize - 1 && x[5] == 224 + n && x[p] == m
    requires 1 <= lengthSize <= 4 && n < 32
    ensures At(x, 5) % 32 == n && At(x, 4) % 4 + 1 == lengthSize && At(x, p) == m
  {
  }

  lemma ShortAppend(a: seq<seq<byte>>, b: seq<seq<byte>>)
    requires Short(a) && Short(b)
    ensures Short(a + b)
  {
  }

  lemma ConversionIs(x: seq<byte>, padding: nat, n: nat, units: seq<seq<byte>>)
    requires At(x, 5) % 32 == n && Remaining(x, false, n, 6, []) == Some(units)
    ensures Conversion(x, padding)
         == if |WithCodes(units)| <= INT_MAX - padding then Ok(At(x, 4) % 4 + 1, WithCodes(units)) else Invalid
  {
  }

  lemma SetsOf(x: seq<byte>, sps: seq<seq<byte>>, pps: seq<seq<byte>>, p: nat)
    requires At(x, p) == |pps| && ReadUnits(x, 6, |sps|) == Some((sps, p))
    requires ReadUnits(x, p + 1, |pps|).Some? && ReadUnits(x, p + 1, |pps|).value.0 == pps
    ensures Remaining(x, false, |sps|, 6, []) == Some(sps + pps)
  {
    hide ReadUnits, At;
    assert [] + sps + pps == sps + pps;
  }

  lemma Layout(head: seq<byte>, s: seq<byte>, n: byte, p: seq<byte>)
    requires |head| == 6
    ensures var x := head + s + [n] + p;
            && |x| == 7 + |s| + |p| && x[6..] == s + ([n] + p) && x[7 + |s|..] == p
            && x[4] == head[4] && x[5] == head[5] && x[6 + |s|] == n
  {
  }

  lemma RecordLayout(profile: seq<byte>, lengthSize: nat, sps: seq<seq<byte>>, pps: seq<seq<byte>>, ext: seq<byte>)
    requires |profile| == 4 && 1 <= lengthSize <= 4 && |sps| < 32 && |pps| < 256
    requires Short(sps) && Short(pps)
    ensures var x, s, p := Record(profile, lengthSize, sps, pps, ext), LengthPrefixed(sps), LengthPrefixed(pps) + ext;
            && |x| == 7 + |s| + |p| && x[6..] == s + ([|pps|] + p) && x[7 + |s|..] == p
            && x[4] == 252 + lengthSize - 1 && x[5] == 224 + |sps| && x[6 + |s|] == |pps|
  {
    hide LengthPrefixed, Short;
    Layout(profile + [252 + lengthSize - 1, 224 + |sps|], LengthPrefixed(sps), |pps|,
           LengthPrefixed(pps) + ext);
  }

  lemma {:induction false} WithCodesSize(units: seq<seq<byte>>)
    requires Short(units)
    ensures |WithCodes(units)| <= 0x1_0003 * |units|
    decreases |units|
  {
    if units == [] {
      NothingWritten();
    } else {
      var init, last := units[..|units| - 1], units[|units| - 1];
      assert units == init + [last];
      WithCodesMore(init, last);
      WithCodesSize(init);
    }
  }
}
