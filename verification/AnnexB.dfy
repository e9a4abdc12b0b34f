/**
  Byte stream format of H.264 (Annex B of ITU-T H.264): NAL units separated by the start
  codes 00 00 01 and 00 00 00 01. `Split` cuts a whole stream into units, each with the
  start code in front of it.
*/
module AnnexB {
  import opened Bytes

  /** The length of the start code at offset i, 0 if there is none. */
  function CodeLen(s: seq<byte>, i: nat): (n: nat)
    requires i <= |s|
    ensures n == 0 || n == 3 || n == 4
    ensures i + n <= |s|
  {
    if |s| - i <= 2 then 0
    else if s[i] == 0 && s[i + 1] == 0 && s[i + 2] == 1 then 3
    else if |s| - i >= 4 && s[i] == 0 && s[i + 1] == 0 && s[i + 2] == 0 && s[i + 3] == 1 then 4
    else 0
  }

  /** The first start code at or after offset i, or the end of the stream. */
  function NextCode(s: seq<byte>, i: nat): (j: nat)
    requires i <= |s|
    ensures i <= j <= |s|
    ensures j < |s| ==> CodeLen(s, j) > 0
    ensures forall k :: i <= k < j ==> CodeLen(s, k) == 0
    decreases |s| - i
  {
    if i == |s| || CodeLen(s, i) > 0 then i else NextCode(s, i + 1)
  }

  /** Where the first unit of the stream ends: at the first start code after its own. */
  function UnitEnd(s: seq<byte>): (e: nat)
    ensures CodeLen(s, 0) <= e <= |s|
    ensures s != [] ==> 0 < e
  {
    NextCode(s, CodeLen(s, 0))
  }

  /** The units of the stream, start codes included. */
  function Split(s: seq<byte>): (units: seq<seq<byte>>)
    ensures |units| > 0
    decreases |s|
  {
    var e := UnitEnd(s);
    if e >= |s| then [s] else [s[..e]] + Split(s[e..])
  }

  lemma NextCodeIs(s: seq<byte>, i: nat, j: nat)
    requires i <= j <= |s|
    requires j < |s| ==> CodeLen(s, j) > 0
    requires forall k :: i <= k < j ==> CodeLen(s, k) == 0
    ensures NextCode(s, i) == j
    decreases j - i
  {
    if i < j {
      assert CodeLen(s, i) == 0;
      NextCodeIs(s, i + 1, j);
    }
  }

  // ----- a unit found in a prefix of the stream is a unit of the stream -----

  lemma CodeLenExtends(s: seq<byte>, more: seq<byte>, i: nat)
    requires i <= |s|
    ensures i + 4 <= |s| || CodeLen(s, i) > 0 ==> CodeLen(s + more, i) == CodeLen(s, i)
  {
  }

  lemma UnitEndExtends(s: seq<byte>, more: seq<byte>)
    requires UnitEnd(s) < |s|
    ensures UnitEnd(s + more) == UnitEnd(s)
    ensures CodeLen(s + more, 0) == CodeLen(s, 0)
  {
    var e := UnitEnd(s);
    CodeLenExtends(s, more, 0);
    CodeLenExtends(s, more, e);
    forall k | CodeLen(s, 0) <= k < e ensures CodeLen(s + more, k) == 0 {
      CodeLenExtends(s, more, k);
    }
    NextCodeIs(s + more, CodeLen(s, 0), e);
  }

  // ----- what Split guarantees on every stream -----

  /** Nothing is lost, added or reordered. */
  lemma {:induction false} SplitKeepsBytes(s: seq<byte>)
    ensures Flatten(Split(s)) == s
    decreases |s|
  {
    var e := UnitEnd(s);
    if e < |s| {
      SplitKeepsBytes(s[e..]);
      assert Split(s)[1..] == Split(s[e..]);
      assert s == s[..e] + s[e..];
    } else {
      assert Split(s)[1..] == [];
    }
  }

  /** The start code in front of a unit is the one in front of the stream it was cut from. */
  lemma CodeOfPrefix(s: seq<byte>)
    ensures CodeLen(s[..UnitEnd(s)], 0) == CodeLen(s, 0)
  {
    var u := s[..UnitEnd(s)];
    assert s == u + s[UnitEnd(s)..];
    CodeLenExtends(u, s[UnitEnd(s)..], 0);
  }

  /** A unit cut off the front holds no start code besides its own. */
  lemma NoCodeInPrefix(s: seq<byte>)
    ensures UnitEnd(s[..UnitEnd(s)]) == UnitEnd(s)
  {
    var e := UnitEnd(s);
    var u, after := s[..e], s[e..];
    assert u + after == s;
    CodeOfPrefix(s);
    forall k | CodeLen(u, 0) <= k < e ensures CodeLen(u, k) == 0 {
      CodeLenExtends(u, after, k);
    }
    NextCodeIs(u, CodeLen(u, 0), e);
  }

  /** No unit holds a start code besides its own, and all units but the first have one. */
  lemma {:induction false} SplitUnits(s: seq<byte>)
    ensures forall k :: 0 <= k < |Split(s)| ==> UnitEnd(Split(s)[k]) == |Split(s)[k]|
    ensures forall k :: 1 <= k < |Split(s)| ==> CodeLen(Split(s)[k], 0) > 0
    decreases |s|
  {
    var e := UnitEnd(s);
    if e < |s| {
      NoCodeInPrefix(s);
      var rest := s[e..];
      SplitUnits(rest);
      assert CodeLen(rest, 0) == CodeLen(s, e);
      var f := UnitEnd(rest);
      assert f >= CodeLen(rest, 0);
      assert CodeLen(rest[..f], 0) == CodeLen(rest, 0);
      assert Split(s) == [s[..e]] + Split(rest);
    }
  }

  // ----- Split inverts concatenation -----

  /** The start code with four or with three bytes. */
  function Code(four: bool): (c: seq<byte>) {
    if four then [0, 0, 0, 1] else [0, 0, 1]
  }

  /** A NAL unit to be written with a 3- or 4-byte start code. */
  datatype Coded = Coded(four: bool, nal: seq<byte>) {
    function Bytes(): seq<byte> {
      Code(four) + nal
    }
  }

  /** No start code can begin inside these bytes, whatever follows them. */
  predicate Separable(nal: seq<byte>) {
    && (nal != [] ==> nal[|nal| - 1] != 0)
    && forall i :: 0 <= i < |nal| - 2 ==> NoCodeTriple(nal, i)
  }

  function Written(units: seq<Coded>): (parts: seq<seq<byte>>)
    ensures |parts| == |units|
  {
    seq(|units|, i requires 0 <= i < |units| => units[i].Bytes())
  }

  predicate NoCodeTriple(s: seq<byte>, i: nat)
    requires i + 2 < |s|
  {
    !(s[i] == 0 && s[i + 1] == 0 && s[i + 2] == 1)
  }

  lemma NoCodeInside(s: seq<byte>, c: nat, e: nat, k: nat)
    requires c <= k < e <= |s| && s[e - 1] != 0
    requires forall i :: c <= i < e - 2 ==> NoCodeTriple(s, i)
    ensures CodeLen(s, k) == 0
  {
    if k < e - 2 {
      assert NoCodeTriple(s, k);
    }
    if k + 1 < e - 2 {
      assert NoCodeTriple(s, k + 1);
    }
  }

  lemma SeparableInside(u: Coded, after: seq<byte>)
    requires Separable(u.nal) && u.nal != []
    ensures var s, c, e := u.Bytes() + after, |Code(u.four)|, |u.Bytes()|;
            s[e - 1] != 0 && forall i :: c <= i < e - 2 ==> NoCodeTriple(s, i)
  {
    var s, c, e := u.Bytes() + after, |Code(u.four)|, |u.Bytes()|;
    assert s[c..e] == u.nal;
    assert s[e - 1] == u.nal[|u.nal| - 1];
    forall i | c <= i < e - 2 ensures NoCodeTriple(s, i) {
      var j := i - c;
      assert s[i] == u.nal[j] && s[i + 1] == u.nal[j + 1] && s[i + 2] == u.nal[j + 2];
      assert NoCodeTriple(u.nal, j);
    }
  }

  lemma CodeLenShift(before: seq<byte>, after: seq<byte>)
    ensures CodeLen(before + after, |before|) == CodeLen(after, 0)
  {
  }

  lemma OwnCode(u: Coded, after: seq<byte>)
    ensures CodeLen(u.Bytes() + after, 0) == |Code(u.four)|
  {
    assert (u.Bytes() + after)[..|Code(u.four)|] == Code(u.four);
  }

  lemma UnitThenCode(u: Coded, after: seq<byte>)
    requires Separable(u.nal)
    requires after == [] || CodeLen(after, 0) > 0
    ensures UnitEnd(u.Bytes() + after) == |u.Bytes()|
    ensures CodeLen(u.Bytes() + after, 0) == |Code(u.four)|
  {
    hide CodeLen;
    var s, c, e := u.Bytes() + after, |Code(u.four)|, |u.Bytes()|;
    OwnCode(u, after);
    CodeLenShift(u.Bytes(), after);
    forall k | c <= k < e ensures CodeLen(s, k) == 0 {
      SeparableInside(u, after);
      NoCodeInside(s, c, e, k);
    }
    NextCodeIs(s, c, e);
  }

  /** Units written one after the other are split into the same units again. */
  lemma {:induction false} SplitWritten(units: seq<Coded>)
    requires units != [] && forall i :: 0 <= i < |units| ==> Separable(units[i].nal)
    ensures Split(Flatten(Written(units))) == Written(units)
  {
    var u, rest := units[0], units[1..];
    var after := Flatten(Written(rest));
    assert Written(units) == [u.Bytes()] + Written(rest);
    if rest == [] {
      assert Written(rest) == [] && u.Bytes() + after == u.Bytes();
    } else {
      WrittenStartsWithCode(rest);
      SplitWritten(rest);
    }
    UnitThenCode(u, after);
    var s := u.Bytes() + after;
    assert s[..|u.Bytes()|] == u.Bytes() && s[|u.Bytes()|..] == after;
  }

  lemma WrittenStartsWithCode(units: seq<Coded>)
    requires units != []
    ensures CodeLen(Flatten(Written(units)), 0) == |Code(units[0].four)|
  {
    var s := Flatten(Written(units));
    assert s == Written(units)[0] + Flatten(Written(units)[1..]);
    assert s[..|Code(units[0].four)|] == Code(units[0].four);
  }
}
