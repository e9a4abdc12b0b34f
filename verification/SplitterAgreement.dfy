/**
  The two Annex B splitters of the repository compared: the automaton of `NalSource` and
  the buffering reader of `NalReading`.
*/
module SplitterAgreement {
  import opened Bytes
  import opened AnnexB
  import opened NalSource

  /** What successive calls of the automaton return until the file ends. */
  function Results(s: seq<byte>): seq<seq<byte>>
    decreases |s|
  {
    match Copy(s, 0)
    case Found(nal, used) => [nal] + Results(s[used..])
    case Ended(_) => []
  }

  /** Every result fits a buffer of the given size. */
  predicate Fits(s: seq<byte>, size: nat)
    decreases |s|
  {
    var r := Copy(s, 0);
    r.Size() <= size && (r.Found? ==> Fits(s[r.used..], size))
  }

  lemma SeparableSuffix(s: seq<byte>, i: nat)
    requires Separable(s) && i <= |s|
    ensures Separable(s[i..])
  {
    var t := s[i..];
    forall k | 0 <= k < |t| - 2 ensures NoCodeTriple(t, k) {
      assert NoCodeTriple(s, i + k);
    }
  }

  lemma NotCompleted(nal: seq<byte>, z: nat)
    requires z <= 3 && nal != [] && Separable(Zeros(z) + nal)
    ensures !Completes(nal[0], z)
  {
    if z >= 2 {
      assert NoCodeTriple(Zeros(z) + nal, z - 2);
    }
  }

  /** Reading one byte of a unit leaves a unit with other zero bytes held in front. */
  lemma ShiftHeld(nal: seq<byte>, z: nat)
    requires z <= 3 && nal != [] && Separable(Zeros(z) + nal)
    ensures var written, next := Emitted(nal[0], z), Held(nal[0], z);
            && Separable(Zeros(next) + nal[1..])
            && written + Zeros(next) + nal[1..] == Zeros(z) + nal
            && (nal[1..] == [] ==> next == 0)
  {
    var written, next := Emitted(nal[0], z), Held(nal[0], z);
    var all := Zeros(z) + nal;
    assert nal == [nal[0]] + nal[1..];
    AppendAssoc(Zeros(z), [nal[0]], nal[1..]);
    AppendAssoc(written, Zeros(next), nal[1..]);
    assert all == written + (Zeros(next) + nal[1..]);
    SeparableSuffix(all, |written|);
    assert all[|written|..] == Zeros(next) + nal[1..];
    assert all[|all| - 1] == nal[|nal| - 1];
  }

  /**
    Bytes that cannot be confused with start codes pass through the automaton unchanged,
    and afterwards it holds nothing back.
  */
  lemma {:induction false} CopyThrough(nal: seq<byte>, z: nat, after: seq<byte>)
    requires z <= 3 && Separable(Zeros(z) + nal) && (nal == [] ==> z == 0)
    ensures Copy(nal + after, z) == Copy(after, 0).After(Zeros(z) + nal, |nal|)
    decreases |nal|
  {
    if nal == [] {
      assert nal + after == after && Zeros(0) + nal == [];
      assert Copy(after, 0).After([], 0) == Copy(after, 0) by {
        NothingBefore(Copy(after, 0));
      }
    } else {
      var next, written := Held(nal[0], z), Emitted(nal[0], z);
      NotCompleted(nal, z);
      ShiftHeld(nal, z);
      assert (nal + after)[1..] == nal[1..] + after;
      CopyThrough(nal[1..], next, after);
      assert Copy(nal + after, z) == Copy(nal[1..] + after, next).After(written, 1);
      hide Copy, Emitted;
      AfterAfter(Copy(after, 0), written, 1, Zeros(next) + nal[1..], |nal| - 1);
      AppendAssoc(written, Zeros(next), nal[1..]);
    }
  }

  lemma NothingBefore(r: Copied)
    ensures r.After([], 0) == r
  {
    assert [] + (if r.Found? then r.nal else r.partial) == if r.Found? then r.nal else r.partial;
  }

  // ----- runs of zero bytes -----

  /** Four held zero bytes are given up; two or three in front of 01 are a start code. */
  lemma ShortRun(n: nat, after: seq<byte>)
    requires n <= 3
    ensures Copy(Zeros(n) + ([1] + after), 0)
         == if n >= 2 then Found([], n + 1) else Copy(after, 0).After(Zeros(n) + [1], n + 1)
  {
    var s0 := Zeros(n) + ([1] + after);
    HoldZeros(n, 0, [1] + after);
    assert ([1] + after)[1..] == after;
    if n < 2 {
      AfterAfter(Copy(after, 0), [], n, Emitted(1, n), 1);
      assert [] + (Zeros(n) + [1]) == Zeros(n) + [1];
    }
  }

  lemma {:induction false} HoldZeros(n: nat, z: nat, after: seq<byte>)
    requires n + z <= 3
    ensures Copy(Zeros(n) + after, z) == Copy(after, n + z).After([], n)
    decreases n
  {
    if n == 0 {
      assert Zeros(0) + after == after;
      NothingBefore(Copy(after, z));
    } else {
      assert (Zeros(n) + after)[1..] == Zeros(n - 1) + after;
      HoldZeros(n - 1, z + 1, after);
      AfterAfter(Copy(after, n + z), [], 1, [], n - 1);
    }
  }

  lemma FourZeros(n: nat, after: seq<byte>)
    requires n >= 4
    ensures Copy(Zeros(n) + after, 0) == Copy(Zeros(n - 4) + after, 0).After(Zeros(4), 4)
  {
    var rest := Zeros(n - 4) + after;
    assert Zeros(n) + after == Zeros(3) + ([0] + rest);
    HoldZeros(3, 0, [0] + rest);
    assert ([0] + rest)[1..] == rest;
    AfterAfter(Copy(rest, 0), [], 3, Emitted(0, 3), 1);
    assert [] + (Zeros(3) + [0]) == Zeros(4);
  }

  /** Where the automaton stops in a run of n zero bytes and 01. */
  lemma {:induction false} LongRun(n: nat, after: seq<byte>)
    ensures StopsAtRun(Copy(Zeros(n) + ([1] + after), 0), [], n)
  {
    if n <= 3 {
      ShortRun(n, after);
      assert [] + Zeros(0) == [];
    } else {
      LongRun(n - 4, after);
      FourZeros(n, [1] + after);
      FourMore(Copy(Zeros(n - 4) + ([1] + after), 0), n);
    }
  }

  lemma FourMore(r: Copied, n: nat)
    requires n >= 4 && StopsAtRun(r, [], n - 4)
    ensures StopsAtRun(r.After(Zeros(4), 4), [], n)
  {
    if n % 4 >= 2 {
      assert Zeros(4) + ([] + Zeros(n - 4 - n % 4)) == [] + Zeros(n - n % 4);
    }
  }

  // ----- one unit of an arbitrary stream -----

  /** How many zero bytes stand directly before offset p. */
  function ZeroRun(s: seq<byte>, p: nat): (n: nat)
    requires p <= |s|
    ensures n <= p && forall i :: p - n <= i < p ==> s[i] == 0
    ensures n < p ==> s[p - n - 1] != 0
  {
    if p == 0 || s[p - 1] != 0 then 0 else ZeroRun(s, p - 1) + 1
  }

  /** The offset of the 01 byte of the first start code. */
  function FirstOne(s: seq<byte>): (one: nat)
    requires NextCode(s, 0) < |s|
    ensures NextCode(s, 0) + 2 <= one < |s| && s[one] == 1
  {
    NextCode(s, 0) + CodeLen(s, NextCode(s, 0)) - 1
  }

  lemma RunOfFirstCode(s: seq<byte>)
    requires NextCode(s, 0) < |s|
    ensures var run := ZeroRun(s, FirstOne(s));
            run >= 2 && NextCode(s, 0) == if run == 2 then FirstOne(s) - 2 else FirstOne(s) - 3
  {
    var e, one, run := NextCode(s, 0), FirstOne(s), ZeroRun(s, FirstOne(s));
    assert s[one - 1] == 0 && s[one - 2] == 0;
    assert run > 2 ==> CodeLen(s, one - 3) > 0;
  }

  /** The bytes before the zero run of the first start code hold no start code. */
  lemma BeforeFirstCode(s: seq<byte>)
    requires NextCode(s, 0) < |s|
    ensures Separable(s[..FirstOne(s) - ZeroRun(s, FirstOne(s))])
  {
    RunOfFirstCode(s);
    hide CodeLen;
    SeparableBefore(s, FirstOne(s) - ZeroRun(s, FirstOne(s)));
  }

  lemma SeparableBefore(s: seq<byte>, p: nat)
    requires p <= |s| && (p > 0 ==> s[p - 1] != 0)
    requires forall i :: 0 <= i < p ==> CodeLen(s, i) == 0
    ensures Separable(s[..p])
  {
    var a := s[..p];
    forall i | 0 <= i < |a| - 2 ensures NoCodeTriple(a, i) {
      assert CodeLen(s, i) == 0;
    }
  }

  lemma AroundRun(s: seq<byte>, one: nat)
    requires one < |s| && s[one] == 1
    ensures var run := ZeroRun(s, one); s == s[..one - run] + (Zeros(run) + ([1] + s[one + 1..]))
  {
    var run := ZeroRun(s, one);
    var p := one - run;
    AllZeros(s[p..one]);
    CutAround(s, p, one);
  }

  lemma CutAround(s: seq<byte>, p: nat, one: nat)
    requires p <= one < |s|
    ensures s == s[..p] + (s[p..one] + ([s[one]] + s[one + 1..]))
  {
    assert s == s[..p] + s[p..];
    assert s[p..] == s[p..one] + s[one..];
    assert s[one..] == [s[one]] + s[one + 1..];
  }

  lemma AllZeros(s: seq<byte>)
    requires forall i :: 0 <= i < |s| ==> s[i] == 0
    ensures s == Zeros(|s|)
  {
  }

  /** The automaton stops at the 01 behind a run of zero bytes, having written all of them but two or three. */
  predicate StopsAtRun(r: Copied, a: seq<byte>, run: nat) {
    && (run % 4 == 2 ==> r == Found(a + Zeros(run - 2), |a| + run + 1))
    && (run % 4 == 3 ==> r == Found(a + Zeros(run - 3), |a| + run + 1))
    && (run % 4 < 2 ==> r.Found? ==> r.used > |a| + run + 1)
  }

  lemma StopsAfter(r: Copied, a: seq<byte>, run: nat)
    requires StopsAtRun(r, [], run)
    ensures StopsAtRun(r.After(a, |a|), a, run)
  {
    if run % 4 >= 2 {
      assert [] + Zeros(run - run % 4) == Zeros(run - run % 4);
    }
  }

  lemma CopyAroundRun(a: seq<byte>, run: nat, after: seq<byte>)
    requires Separable(a)
    ensures StopsAtRun(Copy(a + (Zeros(run) + ([1] + after)), 0), a, run)
  {
    assert Zeros(0) + a == a;
    var tail := Zeros(run) + ([1] + after);
    CopyThrough(a, 0, tail);
    LongRun(run, after);
    StopsAfter(Copy(tail, 0), a, run);
  }

  /** The automaton agrees with the buffering reader about a run of zero bytes before 01. */
  predicate Agreeable(run: nat) {
    run == 2 || run % 4 == 3
  }

  /**
    In front of bytes that do not begin with the unit's own start code: the automaton returns what
    stands before the first start code exactly when two zero bytes, or 3 modulo 4 of them, stand
    before that start code's 01.
  */
  lemma FirstCut(s: seq<byte>)
    requires NextCode(s, 0) < |s|
    ensures if Agreeable(ZeroRun(s, FirstOne(s))) then Copy(s, 0) == Found(s[..NextCode(s, 0)], FirstOne(s) + 1)
            else !(Copy(s, 0).Found? && Copy(s, 0).nal == s[..NextCode(s, 0)])
  {
    hide *;
    var one, run := FirstOne(s), ZeroRun(s, FirstOne(s));
    RunOfFirstCode(s);
    StopsAtFirstCode(s);
    UnitBeforeCode(s);
    UsedSize(s);
    StopsAtUnit(Copy(s, 0), s[..one - run], run, s[..NextCode(s, 0)]);
  }

  lemma UsedSize(s: seq<byte>)
    ensures var r := Copy(s, 0); r.Found? ==> r.used <= |r.nal| + 4
  {
    CopyConserves(s, 0);
  }

  lemma CopyAtRun(s: seq<byte>, a: seq<byte>, run: nat, after: seq<byte>)
    requires Separable(a) && s == a + (Zeros(run) + ([1] + after))
    ensures StopsAtRun(Copy(s, 0), a, run)
  {
    CopyAroundRun(a, run, after);
  }

  lemma StopsAtFirstCode(s: seq<byte>)
    requires NextCode(s, 0) < |s|
    ensures var run := ZeroRun(s, FirstOne(s)); StopsAtRun(Copy(s, 0), s[..FirstOne(s) - run], run)
  {
    hide *;
    var one, run := FirstOne(s), ZeroRun(s, FirstOne(s));
    BeforeFirstCode(s);
    AroundRun(s, one);
    CopyAtRun(s, s[..one - run], run, s[one + 1..]);
  }

  lemma UnitBeforeCode(s: seq<byte>)
    requires NextCode(s, 0) < |s|
    ensures var run := ZeroRun(s, FirstOne(s));
            run >= 2 && s[..NextCode(s, 0)] == s[..FirstOne(s) - run] + Zeros(if run == 2 then 0 else run - 3)
  {
    hide *;
    var e, one, run := NextCode(s, 0), FirstOne(s), ZeroRun(s, FirstOne(s));
    RunOfFirstCode(s);
    ZerosInside(s, one - run, e);
  }

  lemma ZerosInside(s: seq<byte>, p: nat, e: nat)
    requires p <= e <= |s| && forall i :: p <= i < e ==> s[i] == 0
    ensures s[..e] == s[..p] + Zeros(e - p)
  {
    AllZeros(s[p..e]);
    assert s[..e] == s[..p] + s[p..e];
  }

  lemma StopsAtUnit(r: Copied, a: seq<byte>, run: nat, unit: seq<byte>)
    requires StopsAtRun(r, a, run) && run >= 2 && (r.Found? ==> r.used <= |r.nal| + 4)
    requires unit == a + Zeros(if run == 2 then 0 else run - 3)
    ensures if Agreeable(run) then r == Found(unit, |a| + run + 1) else !(r.Found? && r.nal == unit)
  {
    if run % 4 == 2 && run != 2 {
      assert |a + Zeros(run - 2)| != |unit|;
    }
  }

  /** A unit followed by a start code. */
  lemma CopyUnit(nal: seq<byte>, four: bool, after: seq<byte>)
    requires Separable(nal)
    ensures Copy(nal + (Code(four) + after), 0) == Found(nal, |nal| + |Code(four)|)
  {
    hide Copy, Separable;
    hide Code, Zeros;
    CodeIsRun(four, after);
    NoZeros(nal);
    CopyAroundRun(nal, if four then 3 else 2, after);
  }

  lemma CodeIsRun(four: bool, after: seq<byte>)
    ensures Code(four) + after == Zeros(if four then 3 else 2) + ([1] + after)
    ensures |Code(four)| == if four then 4 else 3
  {
  }

  lemma NoZeros(nal: seq<byte>)
    ensures nal + Zeros(0) == nal
  {
  }

  /** A unit at the end of the file, with at most one byte behind it, is not returned. */
  lemma CopyLastUnit(nal: seq<byte>, beyond: seq<byte>)
    requires Separable(nal) && |beyond| <= 1
    ensures Copy(nal + beyond, 0).Ended?
  {
    assert Zeros(0) + nal == nal;
    CopyThrough(nal, 0, beyond);
    if beyond != [] {
      assert beyond[1..] == [];
    }
  }

  // ----- whole streams -----

  function Nals(units: seq<Coded>): (nals: seq<seq<byte>>)
    ensures |nals| == |units|
  {
    seq(|units|, i requires 0 <= i < |units| => units[i].nal)
  }

  lemma ResultsStep(nal: seq<byte>, code: seq<byte>, after: seq<byte>)
    requires Copy(nal + (code + after), 0) == Found(nal, |nal| + |code|)
    ensures Results(nal + (code + after)) == [nal] + Results(after)
  {
    hide *;
    ResultsNext(nal + (code + after));
    BehindUnit(nal, code, after);
  }

  lemma BehindUnit(nal: seq<byte>, code: seq<byte>, after: seq<byte>)
    ensures (nal + (code + after))[|nal| + |code|..] == after
  {
  }

  /** From a unit's first byte on: every unit is returned except the last one. */
  lemma {:induction false} ResultsOfUnits(first: seq<byte>, units: seq<Coded>, beyond: seq<byte>)
    requires Separable(first) && forall i :: 0 <= i < |units| ==> Separable(units[i].nal)
    requires |beyond| <= 1
    ensures Results(first + (Flatten(Written(units)) + beyond))
         == if units == [] then [] else [first] + Nals(units[..|units| - 1])
    decreases |units|
  {
    if units == [] {
      assert Flatten(Written(units)) + beyond == beyond;
      CopyLastUnit(first, beyond);
    } else {
      hide Results, Copy, Separable;
      var u, rest := units[0], units[1..];
      var after := u.nal + (Flatten(Written(rest)) + beyond);
      WrittenCons(units, beyond);
      CopyUnit(first, u.four, after);
      ResultsStep(first, Code(u.four), after);
      ResultsOfUnits(u.nal, rest, beyond);
      NalsOfAllButLast(units);
    }
  }

  lemma NalsOfAllButLast(units: seq<Coded>)
    requires units != []
    ensures Nals(units[..|units| - 1])
         == if units[1..] == [] then [] else [units[0].nal] + Nals(units[1..][..|units| - 2])
  {
  }

  lemma WrittenCons(units: seq<Coded>, beyond: seq<byte>)
    requires units != []
    ensures Flatten(Written(units)) + beyond
         == Code(units[0].four) + (units[0].nal + (Flatten(Written(units[1..])) + beyond))
  {
    var code, nal, rest := Code(units[0].four), units[0].nal, Flatten(Written(units[1..]));
    assert Written(units) == [code + nal] + Written(units[1..]);
    hide Written, Code;
    FlattenCons(code + nal, Written(units[1..]));
    hide Flatten;
    AppendAssoc(code, nal, rest);
    Regroup(code, nal, rest, beyond);
  }

  lemma DeliveredTail(file: seq<byte>, x: byte, tail: seq<byte>, beyond: byte)
    requires file == [x] + tail
    ensures Delivered(file, beyond) == tail + [beyond]
  {
    assert file[1..] == tail;
  }

  /** A written file without the first byte of its first start code. */
  lemma WrittenTail(units: seq<Coded>)
    requires units != []
    ensures var after := units[0].nal + Flatten(Written(units[1..]));
            Flatten(Written(units)) == [0] + ((if units[0].four then Code(false) else [0, 1]) + after)
  {
    WrittenCons(units, []);
    hide Flatten, Written;
    NothingBehind(Flatten(Written(units)));
    NothingBehind(Flatten(Written(units[1..])));
    CodeTail(units[0].four, units[0].nal + Flatten(Written(units[1..])));
  }

  lemma NothingBehind(s: seq<byte>)
    ensures s + [] == s
  {
  }

  lemma CodeTail(four: bool, after: seq<byte>)
    ensures Code(four) + after == [0] + ((if four then Code(false) else [0, 1]) + after)
  {
  }

  lemma Regroup(a: seq<byte>, b: seq<byte>, c: seq<byte>, d: seq<byte>)
    ensures (a + (b + c)) + d == (a + b) + (c + d)
    ensures (a + (b + c)) + d == a + (b + (c + d))
  {
  }

  /** A file starting with 00 00 00 01 is delivered as one starting with 00 00 01. */
  lemma DeliveredFour(units: seq<Coded>, beyond: byte)
    requires units != [] && units[0].four
    ensures Delivered(Flatten(Written(units)), beyond)
         == Flatten(Written([Coded(false, units[0].nal)] + units[1..])) + [beyond]
  {
    hide Flatten, Written, Delivered, Code;
    var others, rest := [Coded(false, units[0].nal)] + units[1..], Flatten(Written(units[1..]));
    assert others[1..] == units[1..];
    WrittenTail(units);
    DeliveredTail(Flatten(Written(units)), 0, Code(false) + (units[0].nal + rest), beyond);
    WrittenCons(others, [beyond]);
    Regroup(Code(false), units[0].nal, rest, [beyond]);
  }

  lemma DeliveredThree(units: seq<Coded>, beyond: byte)
    requires units != [] && !units[0].four
    ensures Delivered(Flatten(Written(units)), beyond)
         == ([0, 1] + units[0].nal) + (Flatten(Written(units[1..])) + [beyond])
  {
    hide Flatten, Written, Delivered;
    var rest := Flatten(Written(units[1..]));
    WrittenTail(units);
    DeliveredTail(Flatten(Written(units)), 0, [0, 1] + (units[0].nal + rest), beyond);
    Regroup([0, 1], units[0].nal, rest, [beyond]);
  }

  lemma ResultsFour(units: seq<Coded>, beyond: byte)
    requires units != [] && units[0].four && forall i :: 0 <= i < |units| ==> Separable(units[i].nal)
    ensures Results(Delivered(Flatten(Written(units)), beyond)) == [[]] + Nals(units[..|units| - 1])
  {
    hide Results;
    var others := [Coded(false, units[0].nal)] + units[1..];
    DeliveredFour(units, beyond);
    ResultsOfUnits([], others, [beyond]);
    NothingBefore(Ended(Flatten(Written(others)) + [beyond]));
    assert Nals(others[..|others| - 1]) == Nals(units[..|units| - 1]);
  }

  lemma ResultsThree(units: seq<Coded>, beyond: byte)
    requires units != [] && !units[0].four && forall i :: 0 <= i < |units| ==> Separable(units[i].nal)
    ensures |Results(Delivered(Flatten(Written(units)), beyond))| == |units| - 1
  {
    hide Results;
    DeliveredThree(units, beyond);
    var nal := units[0].nal;
    var first := [0, 1] + nal;
    forall i | 0 <= i < |first| - 2 ensures NoCodeTriple(first, i) {
      assert i >= 2 ==> NoCodeTriple(nal, i - 2);
    }
    ResultsOfUnits(first, units[1..], [beyond]);
  }

  /**
    The units the buffering reader finds in a written file are returned by the automaton as well:
    first an empty result for the leading start code, then every unit but the last. This holds
    exactly when the file starts with the four-byte start code, because `Fread1` never delivers
    the first byte.
  */
  lemma SplittersAgree(units: seq<Coded>, beyond: byte)
    requires units != [] && forall i :: 0 <= i < |units| ==> Separable(units[i].nal)
    ensures Split(Flatten(Written(units))) == Written(units)
    ensures Results(Delivered(Flatten(Written(units)), beyond)) == [[]] + Nals(units[..|units| - 1])
            <==> units[0].four
  {
    SplitWritten(units);
    if units[0].four {
      ResultsFour(units, beyond);
    } else {
      ResultsThree(units, beyond);
    }
  }

  // ----- arbitrary streams -----

  /** Bytes behind the first c, when these do not end in a zero byte, have the same runs of zero bytes. */
  lemma {:induction false} ZeroRunBehind(s: seq<byte>, c: nat, p: nat)
    requires c <= p <= |s| && (c > 0 ==> s[c - 1] != 0)
    ensures ZeroRun(s[c..], p - c) == ZeroRun(s, p)
    decreases p
  {
    if p > c && s[p - 1] == 0 {
      ZeroRunBehind(s, c, p - 1);
    }
  }

  lemma CodeLenBehind(s: seq<byte>, c: nat, i: nat)
    requires c <= i <= |s|
    ensures CodeLen(s[c..], i - c) == CodeLen(s, i)
  {
  }

  lemma NextCodeBehind(s: seq<byte>, c: nat)
    requires c <= |s|
    ensures NextCode(s, c) == c + NextCode(s[c..], 0)
  {
    var e := NextCode(s, c);
    hide CodeLen;
    forall k | 0 <= k < e - c ensures CodeLen(s[c..], k) == 0 {
      CodeLenBehind(s, c, c + k);
    }
    CodeLenBehind(s, c, e);
    NextCodeIs(s[c..], 0, e - c);
  }

  /** The zero bytes before the 01 that ends the first unit. */
  function EndRun(s: seq<byte>): nat
    requires UnitEnd(s) < |s|
  {
    ZeroRun(s, UnitEnd(s) + CodeLen(s, UnitEnd(s)) - 1)
  }

  /**
    On any stream with a start code after its first unit, the automaton, started behind the unit's
    own start code, returns the unit the buffering reader returns, and stops behind the next start
    code, if two zero bytes, or 3 modulo 4 of them, stand before that start code's 01; otherwise
    it returns something else.
  */
  lemma FirstUnitAgrees(s: seq<byte>)
    requires UnitEnd(s) < |s|
    ensures var c, e := CodeLen(s, 0), UnitEnd(s);
            if Agreeable(EndRun(s)) then Copy(s[c..], 0) == Found(s[c..e], e - c + CodeLen(s, e))
            else !(Copy(s[c..], 0).Found? && Copy(s[c..], 0).nal == s[c..e])
  {
    hide *;
    var c, e := CodeLen(s, 0), UnitEnd(s);
    BehindCode(s, s[c..]);
    FirstCut(s[c..]);
  }

  lemma BehindCode(s: seq<byte>, t: seq<byte>)
    requires UnitEnd(s) < |s| && t == s[CodeLen(s, 0)..]
    ensures var c, e := CodeLen(s, 0), UnitEnd(s);
            && NextCode(t, 0) == e - c < |t| && t[..NextCode(t, 0)] == s[c..e]
            && FirstOne(t) == e - c + CodeLen(s, e) - 1 && ZeroRun(t, FirstOne(t)) == EndRun(s)
  {
    var c, e := CodeLen(s, 0), UnitEnd(s);
    OwnCodeEnds(s);
    UnitBehindCode(s);
    var p := e + CodeLen(s, e) - 1;
    assert EndRun(s) == ZeroRun(s, p);
    hide *;
    ZeroRunBehind(s, c, p);
    SliceOfSlice(s, c, e);
  }

  lemma UnitBehindCode(s: seq<byte>)
    requires UnitEnd(s) < |s|
    ensures var c, e := CodeLen(s, 0), UnitEnd(s);
            && NextCode(s[c..], 0) == e - c < |s[c..]| && FirstOne(s[c..]) == e - c + CodeLen(s, e) - 1
  {
    var c, e := CodeLen(s, 0), UnitEnd(s);
    hide CodeLen, NextCode;
    NextCodeBehind(s, c);
    CodeLenBehind(s, c, e);
  }

  lemma SliceOfSlice(s: seq<byte>, c: nat, e: nat)
    requires c <= e <= |s|
    ensures s[c..][..e - c] == s[c..e]
  {
  }

  lemma OwnCodeEnds(s: seq<byte>)
    ensures CodeLen(s, 0) > 0 ==> s[CodeLen(s, 0) - 1] == 1
  {
  }

  /** A unit without its start code. */
  function Bare(unit: seq<byte>): seq<byte> {
    unit[CodeLen(unit, 0)..]
  }

  function AllBare(units: seq<seq<byte>>): (nals: seq<seq<byte>>)
    ensures |nals| == |units|
  {
    seq(|units|, i requires 0 <= i < |units| => Bare(units[i]))
  }

  /** The automaton and the buffering reader agree about every start code between two units. */
  predicate RunsAgree(s: seq<byte>)
    decreases |s|
  {
    UnitEnd(s) < |s| ==> Agreeable(EndRun(s)) && RunsAgree(s[UnitEnd(s)..])
  }

  lemma NothingFound(s: seq<byte>)
    requires NextCode(s, 0) == |s|
    ensures Results(s) == []
  {
    CopyConserves(s, 0);
    var r := Copy(s, 0);
    if r.Found? {
      var four :| Zeros(0) + s[..r.used] == r.nal + Code(four);
      CodeFound(s, r.nal, four, r.used);
      assert false;
    }
  }

  lemma CodeFound(s: seq<byte>, nal: seq<byte>, four: bool, used: nat)
    requires used <= |s| && Zeros(0) + s[..used] == nal + Code(four)
    ensures |nal| < |s| && CodeLen(s, |nal|) > 0
  {
    var t := nal + Code(four);
    assert t == s[..used];
    assert t[|nal|] == 0 && t[|nal| + 1] == 0 && t[|nal| + 2] == if four then 0 else 1;
    assert four ==> t[|nal| + 3] == 1;
  }

  lemma AllButLast(s: seq<byte>)
    requires UnitEnd(s) < |s|
    ensures var c, e, units, rest := CodeLen(s, 0), UnitEnd(s), Split(s), Split(s[UnitEnd(s)..]);
            AllBare(units[..|units| - 1]) == [s[c..e]] + AllBare(rest[..|rest| - 1])
  {
    var e, rest := UnitEnd(s), Split(s[UnitEnd(s)..]);
    assert Split(s) == [s[..e]] + rest;
    hide Split;
    CodeOfPrefix(s);
    hide *;
    BareCons(s[..e], rest);
    BareUnit(s, CodeLen(s, 0), e);
  }

  lemma BareCons(unit: seq<byte>, rest: seq<seq<byte>>)
    requires rest != []
    ensures var units := [unit] + rest;
            AllBare(units[..|units| - 1]) == [Bare(unit)] + AllBare(rest[..|rest| - 1])
  {
    hide Bare;
    assert ([unit] + rest)[..|rest|] == [unit] + rest[..|rest| - 1];
  }

  lemma BareUnit(s: seq<byte>, c: nat, e: nat)
    requires c <= e <= |s| && CodeLen(s[..e], 0) == c
    ensures Bare(s[..e]) == s[c..e]
  {
    hide CodeLen;
  }

  /**
    On every stream, the results of successive calls of the automaton, started behind the first
    start code, are the buffering reader's units without their start codes and without the last
    one if and only if the automaton agrees about every start code between two units.
  */
  lemma {:induction false} StreamsAgree(s: seq<byte>)
    ensures var units := Split(s);
            Results(s[CodeLen(s, 0)..]) == AllBare(units[..|units| - 1]) <==> RunsAgree(s)
    decreases |s|
  {
    hide *;
    var c, e := CodeLen(s, 0), UnitEnd(s);
    if e < |s| {
      var rest := Split(s[e..]);
      AllButLast(s);
      FirstUnitAgrees(s);
      RestOfStream(s, c, e);
      RunsStep(s);
      ResultsNext(s[c..]);
      var r := Copy(s[c..], 0);
      if r.Found? {
        SameLists(r.nal, Results(s[c..][r.used..]), s[c..e], AllBare(rest[..|rest| - 1]));
      }
      if Agreeable(EndRun(s)) {
        StreamsAgree(s[e..]);
      }
    } else {
      LastUnit(s);
    }
  }

  lemma LastUnit(s: seq<byte>)
    requires UnitEnd(s) >= |s|
    ensures RunsAgree(s) && Results(s[CodeLen(s, 0)..]) == [] && AllBare(Split(s)[..|Split(s)| - 1]) == []
  {
    NextCodeBehind(s, CodeLen(s, 0));
    NothingFound(s[CodeLen(s, 0)..]);
  }

  lemma SameLists(x: seq<byte>, a: seq<seq<byte>>, y: seq<byte>, b: seq<seq<byte>>)
    ensures [x] + a == [y] + b <==> x == y && a == b
  {
    if [x] + a == [y] + b {
      assert ([x] + a)[0] == x && ([y] + b)[0] == y;
      assert ([x] + a)[1..] == a && ([y] + b)[1..] == b;
    }
  }

  lemma RestOfStream(s: seq<byte>, c: nat, e: nat)
    requires c <= e <= |s|
    ensures s[c..][e - c + CodeLen(s, e)..] == s[e..][CodeLen(s[e..], 0)..]
  {
    CodeLenBehind(s, e, e);
    hide CodeLen;
  }

  lemma RunsStep(s: seq<byte>)
    requires UnitEnd(s) < |s|
    ensures RunsAgree(s) <==> Agreeable(EndRun(s)) && RunsAgree(s[UnitEnd(s)..])
  {
    hide UnitEnd, EndRun, Agreeable;
  }

  lemma ResultsNext(s: seq<byte>)
    ensures Results(s) == if Copy(s, 0).Found? then [Copy(s, 0).nal] + Results(s[Copy(s, 0).used..]) else []
  {
    hide Copy;
  }

  /** The start code at the beginning of a stream is returned as an empty unit. */
  lemma LeadingCode(s: seq<byte>)
    requires CodeLen(s, 0) > 0
    ensures Results(s) == [[]] + Results(s[CodeLen(s, 0)..])
  {
    var four, after := CodeLen(s, 0) == 4, s[CodeLen(s, 0)..];
    assert s == [] + (Code(four) + after);
    CopyUnit([], four, after);
    ResultsStep([], Code(four), after);
  }
}
