/**
  The receiver of the proxy's packets (H.264: RFC 6184 section 5.8, H.265: RFC 7798 section 4.4.3):
  what it restores from the fragments that the cache hands out.
*/
module FragmentReceiver {
  import opened Bytes
  import opened Receiver
  import opened RtspFraming
  import opened UnitFragments
  import Delivery
  import FuA
  import Interception

  /** The bytes of the fragments. */
  function Data(fs: seq<Fragment>): (ps: seq<seq<byte>>)
    ensures |ps| == |fs|
  {
    seq(|fs|, i requires 0 <= i < |fs| => fs[i].data)
  }

  // ----- one unit -----

  /** A unit that goes out as one packet must have a type that says so. */
  predicate Sendable(nal: seq<byte>, is265: bool) {
    |nal| < RTP_PAYLOAD_MAX_SIZE ==> Single(nal, is265)
  }

  /** The lengths that are too short for two fragments, and too long for a packet of their own. */
  function SingleFuSizes(is265: bool): (sizes: set<nat>) {
    {RTP_PAYLOAD_MAX_SIZE, RTP_PAYLOAD_MAX_SIZE + 1} + if is265 then {RTP_PAYLOAD_MAX_SIZE + 2} else {}
  }

  /** The marks on fragment k, and what it carries. */
  lemma FragmentBits(nal: seq<byte>, is265: bool, k: nat)
    requires |nal| >= RTP_PAYLOAD_MAX_SIZE && k < |Fragmented(nal, is265)|
    ensures var fs := Fragmented(nal, is265); var p := fs[k].data;
            && IsFu(p, is265) && !Single(p, is265)
            && (Starts(p, is265) <==> k == 0) && (Ends(p, is265) <==> 0 < k == |fs| - 1)
            && Payload(p, is265) == FuA.Piece(Body(nal, is265), k)
            && HeaderOf(p, is265) == nal[..HeaderSize(is265)]
  {
    var body := Body(nal, is265);
    var fragType := FuA.FragType(k, FuA.FragmentCount(|body|));
    assert Fragmented(nal, is265)[k] == FragmentAt(nal, is265, k);
    PrefixedData(nal, is265, fragType, FuA.Piece(body, k), FragmentAt(nal, is265, k).data);
    hide HeaderOf, Payload, FuA.Piece, FuA.FragmentCount, FuA.Indicator, FuA.FuHeader, Indicator265, FuHeader265;
  }

  /** What the receiver has kept of a unit after its first k fragments. */
  function Kept(nal: seq<byte>, is265: bool, k: nat): seq<byte>
    requires |nal| >= RTP_PAYLOAD_MAX_SIZE && RTP_PAYLOAD_MAX_SIZE * k <= |Body(nal, is265)|
  {
    nal[..HeaderSize(is265)] + Body(nal, is265)[..RTP_PAYLOAD_MAX_SIZE * k]
  }

  lemma KeptMore(nal: seq<byte>, is265: bool, k: nat)
    requires |nal| >= RTP_PAYLOAD_MAX_SIZE && k < |Fragmented(nal, is265)|
    ensures RTP_PAYLOAD_MAX_SIZE * k <= |Body(nal, is265)|
    ensures var piece, count := FuA.Piece(Body(nal, is265), k), |Fragmented(nal, is265)|;
            if k == count - 1 then Kept(nal, is265, k) + piece == nal
            else RTP_PAYLOAD_MAX_SIZE * (k + 1) <= |Body(nal, is265)|
                 && Kept(nal, is265, k) + piece == Kept(nal, is265, k + 1)
    ensures Kept(nal, is265, 0) == nal[..HeaderSize(is265)]
  {
    var body := Body(nal, is265);
    FuA.PiecesCover(body, k);
    HeaderAndBody(nal, is265);
    AppendAssoc(nal[..HeaderSize(is265)], body[..RTP_PAYLOAD_MAX_SIZE * k], FuA.Piece(body, k));
    assert body[..|body|] == body && nal[..HeaderSize(is265)] + [] == nal[..HeaderSize(is265)];
    hide FuA.Piece, Body, HeaderSize;
  }

  /** Later fragments are appended until the end bit completes the unit. */
  lemma {:induction false} ReceiveMore(nal: seq<byte>, is265: bool, k: nat, more: seq<seq<byte>>)
    requires |nal| >= RTP_PAYLOAD_MAX_SIZE && 0 < k < |Fragmented(nal, is265)|
    requires RTP_PAYLOAD_MAX_SIZE * k <= |Body(nal, is265)|
    ensures Reassemble(Data(Fragmented(nal, is265))[k..] + more, Some(Kept(nal, is265, k)), is265)
         == [nal] + Reassemble(more, None, is265)
    decreases |Fragmented(nal, is265)| - k
  {
    var ps := Data(Fragmented(nal, is265));
    FragmentBits(nal, is265, k);
    KeptMore(nal, is265, k);
    ReassembleNext(ps, k, more, Some(Kept(nal, is265, k)), is265);
    hide Fragmented, Kept, Body, Payload, HeaderOf, IsFu, Single, Starts, Ends, Reassemble;
    if k == |ps| - 1 {
      assert ps[k + 1..] + more == more;
    } else {
      ReceiveMore(nal, is265, k + 1, more);
    }
  }

  /** A unit is restored from its fragments exactly when it does not have one of the single-FU lengths. */
  lemma ReceiveUnit(nal: seq<byte>, is265: bool, more: seq<seq<byte>>, pending: Pending)
    requires nal != [] && Sendable(nal, is265)
    ensures Reassemble(Data(Fragmented(nal, is265)) + more, pending, is265)
         == if |nal| in SingleFuSizes(is265) then Reassemble(more, Some(nal), is265)
            else [nal] + Reassemble(more, None, is265)
  {
    FragmentSizes(nal, is265);
    hide *;
    if |nal| < RTP_PAYLOAD_MAX_SIZE {
      ReceiveSingle(nal, is265, more, pending);
    } else {
      ReceiveFirst(nal, is265, more, pending);
      if |Fragmented(nal, is265)| > 1 {
        ReceiveMore(nal, is265, 1, more);
      } else {
        NoMore(Data(Fragmented(nal, is265))[1..], more);
      }
    }
  }

  lemma ReceiveSingle(nal: seq<byte>, is265: bool, more: seq<seq<byte>>, pending: Pending)
    requires Single(nal, is265)
    ensures Reassemble([nal] + more, pending, is265) == [nal] + Reassemble(more, None, is265)
  {
    hide Single, IsFu;
    assert ([nal] + more)[1..] == more;
  }

  /** After the first fragment, the others are still to come, or the unit is pending for ever. */
  lemma ReceiveFirst(nal: seq<byte>, is265: bool, more: seq<seq<byte>>, pending: Pending)
    requires |nal| >= RTP_PAYLOAD_MAX_SIZE
    requires |Fragmented(nal, is265)| > 1 ==> RTP_PAYLOAD_MAX_SIZE <= |Body(nal, is265)|
    ensures var ps := Data(Fragmented(nal, is265));
            Reassemble(ps + more, pending, is265)
            == Reassemble(ps[1..] + more, Some(if |ps| == 1 then nal else Kept(nal, is265, 1)), is265)
  {
    var ps := Data(Fragmented(nal, is265));
    FragmentBits(nal, is265, 0);
    KeptMore(nal, is265, 0);
    hide Fragmented, Kept, Payload, HeaderOf, IsFu, Single, Starts, Ends;
    ReassembleNext(ps, 0, more, pending, is265);
    hide Reassemble;
    assert ps[0..] == ps;
  }

  lemma NoMore(none: seq<seq<byte>>, more: seq<seq<byte>>)
    requires |none| == 0
    ensures none + more == more
  {
  }

  /** How many fragments there are, and that they fit a packet. */
  lemma FragmentSizes(nal: seq<byte>, is265: bool)
    requires nal != []
    ensures |nal| < RTP_PAYLOAD_MAX_SIZE ==> Data(Fragmented(nal, is265)) == [nal]
    ensures |nal| >= RTP_PAYLOAD_MAX_SIZE ==>
              && (|Fragmented(nal, is265)| == 1 <==> |nal| in SingleFuSizes(is265))
              && (|Fragmented(nal, is265)| > 1 ==> RTP_PAYLOAD_MAX_SIZE <= |Body(nal, is265)|)
    ensures forall k :: 0 <= k < |Fragmented(nal, is265)| ==>
              0 < |Fragmented(nal, is265)[k].data| <= RTP_PAYLOAD_MAX_SIZE + 3
  {
    hide Prefix, FuA.Piece, FuA.FragmentCount, FuA.FragType, FuA.LastFragmentSize;
  }

  // ----- the stream of fragments -----

  /** The first n units when the file is read over and over. */
  function Cycled(units: seq<seq<byte>>, n: nat): (taken: seq<seq<byte>>)
    requires units != []
    ensures |taken| == n && forall i :: 0 <= i < n ==> taken[i] in units
  {
    if n == 0 then [] else Cycled(units, n - 1) + [units[Wrap(n - 1, |units|)]]
  }

  function AllData(nals: seq<seq<byte>>, is265: bool): seq<seq<byte>>
    requires forall i :: 0 <= i < |nals| ==> nals[i] != []
  {
    if nals == [] then [] else Data(Fragmented(nals[0], is265)) + AllData(nals[1..], is265)
  }

  lemma {:induction false} AllDataMore(nals: seq<seq<byte>>, nal: seq<byte>, is265: bool)
    requires nal != [] && forall i :: 0 <= i < |nals| ==> nals[i] != []
    ensures AllData(nals + [nal], is265) == AllData(nals, is265) + Data(Fragmented(nal, is265))
  {
    hide Data, Fragmented;
    if nals == [] {
      assert nals + [nal] == [nal];
      assert [nal][1..] == [];
    } else {
      assert (nals + [nal])[1..] == nals[1..] + [nal];
      AllDataMore(nals[1..], nal, is265);
      AppendAssoc(Data(Fragmented(nals[0], is265)), AllData(nals[1..], is265), Data(Fragmented(nal, is265)));
    }
  }

  lemma DataAppend(a: seq<Fragment>, b: seq<Fragment>)
    ensures Data(a + b) == Data(a) + Data(b)
  {
  }

  lemma {:induction false} StreamData(units: seq<seq<byte>>, is265: bool, n: nat)
    requires units != [] && forall i :: 0 <= i < |units| ==> units[i] != []
    ensures forall i :: 0 <= i < n ==> Cycled(units, n)[i] != []
    ensures Data(FragmentStream(units, is265, n)) == AllData(Cycled(units, n), is265)
  {
    if n > 0 {
      var nal := units[Wrap(n - 1, |units|)];
      StreamData(units, is265, n - 1);
      hide Wrap, Fragmented, Data;
      DataAppend(FragmentStream(units, is265, n - 1), Fragmented(nal, is265));
      AllDataMore(Cycled(units, n - 1), nal, is265);
    } else {
      assert Data([]) == [];
    }
  }

  lemma {:induction false} ReassembleAll(nals: seq<seq<byte>>, is265: bool, pending: Pending)
    requires forall i :: 0 <= i < |nals| ==> nals[i] != [] && Sendable(nals[i], is265)
    ensures Reassemble(AllData(nals, is265), pending, is265) == Restored(nals, SingleFuSizes(is265))
    decreases |nals|
  {
    if nals != [] {
      var rest := nals[1..];
      ReceiveUnit(nals[0], is265, AllData(rest, is265), pending);
      hide Fragmented, Data, Reassemble, SingleFuSizes, Sendable;
      ReassembleAll(rest, is265, if |nals[0]| in SingleFuSizes(is265) then Some(nals[0]) else None);
    }
  }

  /** As long as a unit's last fragment is missing, nothing is restored from the others. */
  lemma PartRestoresNothing(nal: seq<byte>, is265: bool, k: nat, pending: Pending)
    requires nal != [] && k < |Fragmented(nal, is265)|
    ensures Reassemble(Data(Fragmented(nal, is265)[..k]), pending, is265) == []
  {
    var ps := Data(Fragmented(nal, is265)[..k]);
    FragmentSizes(nal, is265);
    forall i | 0 <= i < k ensures IsFu(ps[i], is265) && !Single(ps[i], is265) && !Ends(ps[i], is265) {
      FragmentBits(nal, is265, i);
    }
    NothingComplete(ps, pending, is265);
  }

  /** How many of the first n units have all their fragments among the first `len` fragments. */
  function Whole(units: seq<seq<byte>>, is265: bool, n: nat, len: nat): (m: nat)
    requires units != [] && forall i :: 0 <= i < |units| ==> units[i] != []
    ensures m <= n && |FragmentStream(units, is265, m)| <= len
    ensures m < n ==> len < |FragmentStream(units, is265, m + 1)|
  {
    if |FragmentStream(units, is265, n)| <= len then n else Whole(units, is265, n - 1, len)
  }

  lemma {:induction false} StreamGrows(units: seq<seq<byte>>, is265: bool, m: nat, n: nat)
    requires units != [] && forall i :: 0 <= i < |units| ==> units[i] != []
    requires m <= n
    ensures FragmentStream(units, is265, m) <= FragmentStream(units, is265, n)
    decreases n - m
  {
    if m < n {
      hide Fragmented, Wrap;
      StreamGrows(units, is265, m, n - 1);
    }
  }

  /** The units that come back when the first m units have been sent. */
  function Back(units: seq<seq<byte>>, is265: bool, m: nat): seq<seq<byte>>
    requires units != []
  {
    Restored(Cycled(units, m), SingleFuSizes(is265))
  }

  lemma WholeUnits(units: seq<seq<byte>>, is265: bool, m: nat)
    requires units != [] && forall i :: 0 <= i < |units| ==> units[i] != [] && Sendable(units[i], is265)
    ensures Reassemble(Data(FragmentStream(units, is265, m)), None, is265) == Back(units, is265, m)
  {
    StreamData(units, is265, m);
    hide FragmentStream, Sendable, Data;
    ReassembleAll(Cycled(units, m), is265, None);
  }

  /** Fragments that end inside a unit restore exactly the units before it. */
  lemma PartialStream(units: seq<seq<byte>>, is265: bool, m: nat, fs: seq<Fragment>)
    requires units != [] && forall i :: 0 <= i < |units| ==> units[i] != [] && Sendable(units[i], is265)
    requires FragmentStream(units, is265, m) <= fs < FragmentStream(units, is265, m + 1)
    ensures Reassemble(Data(fs), None, is265) == Back(units, is265, m)
  {
    hide *;
    var whole, nal := FragmentStream(units, is265, m), units[Wrap(m, |units|)];
    StreamMore(units, is265, m);
    var k := |fs| - |whole|;
    PrefixOfAppend(whole, Fragmented(nal, is265), fs);
    DataAppend(whole, Fragmented(nal, is265)[..k]);
    WholeUnits(units, is265, m);
    ReassembleAppend(Data(whole), Data(Fragmented(nal, is265)[..k]), None, is265);
    PartRestoresNothing(nal, is265, k, Left(Data(whole), None, is265));
    assert Back(units, is265, m) + [] == Back(units, is265, m);
  }

  lemma PrefixOfAppend(a: seq<Fragment>, b: seq<Fragment>, fs: seq<Fragment>)
    requires a <= fs < a + b
    ensures fs == a + b[..|fs| - |a|] && |fs| - |a| < |b|
  {
    assert forall i :: |a| <= i < |fs| ==> fs[i] == (a + b)[i] == b[i - |a|];
  }

  /**
    From the first fragments of the stream the receiver restores exactly the units all of whose
    fragments are among them, in order, except those of a single-FU length.
  */
  lemma StreamRestores(units: seq<seq<byte>>, is265: bool, n: nat, fs: seq<Fragment>)
    requires units != [] && forall i :: 0 <= i < |units| ==> units[i] != [] && Sendable(units[i], is265)
    requires fs <= FragmentStream(units, is265, n)
    ensures Reassemble(Data(fs), None, is265) == Back(units, is265, Whole(units, is265, n, |fs|))
  {
    var m := Whole(units, is265, n, |fs|);
    assert m <= n;
    assert m < n ==> |fs| < |FragmentStream(units, is265, m + 1)|;
    assert |FragmentStream(units, is265, m)| <= |fs|;
    hide *;
    if m == n {
      SamePrefix(fs, FragmentStream(units, is265, n));
      WholeUnits(units, is265, n);
    } else {
      EndsInUnit(units, is265, m, n, fs);
      PartialStream(units, is265, m, fs);
    }
  }

  lemma EndsInUnit(units: seq<seq<byte>>, is265: bool, m: nat, n: nat, fs: seq<Fragment>)
    requires units != [] && forall i :: 0 <= i < |units| ==> units[i] != []
    requires m < n && fs <= FragmentStream(units, is265, n)
    requires |FragmentStream(units, is265, m)| <= |fs| < |FragmentStream(units, is265, m + 1)|
    ensures FragmentStream(units, is265, m) <= fs < FragmentStream(units, is265, m + 1)
  {
    hide *;
    StreamGrows(units, is265, m, n);
    StreamGrows(units, is265, m + 1, n);
    Between(FragmentStream(units, is265, m), fs, FragmentStream(units, is265, m + 1), FragmentStream(units, is265, n));
  }

  lemma SamePrefix(a: seq<Fragment>, whole: seq<Fragment>)
    requires a <= whole && |whole| <= |a|
    ensures a == whole
  {
  }

  lemma Between(a: seq<Fragment>, b: seq<Fragment>, c: seq<Fragment>, whole: seq<Fragment>)
    requires a <= whole && b <= whole && c <= whole && |a| <= |b| < |c|
    ensures a <= b < c
  {
    assert a == whole[..|a|] && b == whole[..|b|] && c == whole[..|c|];
  }

  // ----- the packets on the connection -----

  lemma PacketsCarry(first: Interception.RtpHeader, fs: seq<Fragment>)
    requires first.Valid() && Interception.AllSound(fs)
    ensures Delivery.Carry(Interception.Packets(first, fs), Data(fs))
  {
    var packets, ps := Interception.Packets(first, fs), Data(fs);
    forall i | 0 <= i < |packets| ensures Delivery.CarriesPayload(packets[i], ps[i]) {
      assert packets[i] == Framed(Interception.Renumbered(first, i, fs[i].marker).Bytes(), ps[i]);
    }
  }

  lemma {:induction false} StreamTransportable(units: seq<seq<byte>>, is265: bool, n: nat)
    requires units != [] && forall i :: 0 <= i < |units| ==> units[i] != []
    ensures Delivery.AllTransportable(Data(FragmentStream(units, is265, n)))
  {
    hide *;
    if n == 0 {
      StreamStart(units, is265);
      NothingTransportable(FragmentStream(units, is265, n));
    } else {
      var nal := units[Wrap(n - 1, |units|)];
      var before := FragmentStream(units, is265, n - 1);
      StreamTransportable(units, is265, n - 1);
      UnitTransportable(nal, is265);
      StreamMore(units, is265, n - 1);
      DataAppend(before, Fragmented(nal, is265));
      TransportableAppend(Data(before), Data(Fragmented(nal, is265)));
    }
  }

  lemma NothingTransportable(none: seq<Fragment>)
    requires none == []
    ensures Delivery.AllTransportable(Data(none))
  {
  }

  lemma UnitTransportable(nal: seq<byte>, is265: bool)
    requires nal != []
    ensures Delivery.AllTransportable(Data(Fragmented(nal, is265)))
  {
    FragmentSizes(nal, is265);
    hide Fragmented;
  }

  lemma TransportableAppend(a: seq<seq<byte>>, b: seq<seq<byte>>)
    requires Delivery.AllTransportable(a) && Delivery.AllTransportable(b)
    ensures Delivery.AllTransportable(a + b)
  {
    hide Delivery.Transportable;
  }

  /**
    What the proxy's client gets: locating the packets sent for the first fragments of the stream,
    taking their payloads and reassembling them gives exactly the file's units, in order and pass
    after pass, all of whose packets have been located, except those of a single-FU length. Only a
    last packet too short for the look-ahead is not located.
  */
  lemma ClientReceives(first: Interception.RtpHeader, units: seq<seq<byte>>, is265: bool, n: nat, fs: seq<Fragment>)
    requires first.Valid() && Interception.WellSized(units, is265)
    requires units != [] && forall i :: 0 <= i < |units| ==> units[i] != [] && Sendable(units[i], is265)
    requires fs <= FragmentStream(units, is265, n)
    ensures Interception.AllSound(fs)
    ensures var packets := Interception.Packets(first, fs);
            var sent := Flatten(packets);
            && !Scan(sent, 0).broken
            && Reassemble(Delivery.PayloadsAt(sent, Scan(sent, 0).starts), None, is265)
               == Back(units, is265, Whole(units, is265, n, Locatable(packets)))
  {
    var all := FragmentStream(units, is265, n);
    Interception.StreamIsSound(units, is265, n);
    StreamTransportable(units, is265, n);
    FirstOnes(fs, all);
    PacketsCarry(first, fs);
    hide *;
    var l := Locatable(Interception.Packets(first, fs));
    Delivery.LocatedPayloads(Interception.Packets(first, fs), Data(fs));
    DataTaken(fs, l);
    StreamRestores(units, is265, n, fs[..l]);
  }

  lemma FirstOnes(fs: seq<Fragment>, all: seq<Fragment>)
    requires fs <= all && Interception.AllSound(all) && Delivery.AllTransportable(Data(all))
    ensures Interception.AllSound(fs) && Delivery.AllTransportable(Data(fs))
  {
    assert forall i :: 0 <= i < |fs| ==> Data(fs)[i] == Data(all)[i];
  }

  lemma DataTaken(fs: seq<Fragment>, l: nat)
    requires l <= |fs|
    ensures Data(fs)[..l] == Data(fs[..l])
  {
  }

  /**
    In every state of an interceptor that is replacing packets, its client has got exactly the units
    all of whose packets it can locate.
  */
  lemma ClientOfInceptor(i: Interception.Inceptor)
    requires i.Valid() && i.previousStatus
    requires var units := UnitsOf(i.fragments.File());
             forall k :: 0 <= k < |units| ==> Sendable(units[k], i.fragments.is265)
    ensures i.mark <= |i.peer.sent|
    ensures var sent, units := Flatten(i.peer.sent[i.mark..]), UnitsOf(i.fragments.File());
            && !Scan(sent, 0).broken && units != []
            && Reassemble(Delivery.PayloadsAt(sent, Scan(sent, 0).starts), None, i.fragments.is265)
               == Back(units, i.fragments.is265,
                       Whole(units, i.fragments.is265, i.fragments.Taken(), Locatable(i.peer.sent[i.mark..])))
  {
    hide Scan, Sendable, UnitsOf, Reassemble, Back, Whole, FragmentStream, Flatten, Locatable,
      Interception.Packets, Interception.WellSized, Interception.AllSound;
    i.Unpack();
    i.Replaceable();
    ClientReceives(i.first, UnitsOf(i.fragments.File()), i.fragments.is265, i.fragments.Taken(), i.fragments.emitted);
  }

  // ----- markers -----

  /** The payload is the last fragment of several: it has the FU type and the end bit. */
  predicate LastOfUnit(p: seq<byte>, is265: bool) {
    if is265 then |p| > 2 && p[0] / 2 % 64 == 49 && p[2] / 64 % 2 == 1
    else |p| > 1 && p[0] % 32 == 28 && p[1] / 64 % 2 == 1
  }

  /** The marker is set on exactly the last of several fragments. */
  lemma MarkerIsEnd(nal: seq<byte>, is265: bool, k: nat)
    requires nal != [] && k < |Fragmented(nal, is265)|
    ensures var fs := Fragmented(nal, is265);
            && fs[k].marker == (if 0 < k == |fs| - 1 then 1 else 0)
            && (|nal| >= 1400 || Sendable(nal, is265) ==>
                  fs[k].marker == if LastOfUnit(fs[k].data, is265) then 1 else 0)
            && (|nal| < 1400 ==> |fs| == 1 && fs[k].marker == 0 && fs[k].data == nal)
  {
    FragmentSizes(nal, is265);
    if |nal| >= RTP_PAYLOAD_MAX_SIZE {
      FragmentBits(nal, is265, k);
    }
    hide Body, Prefix, FuA.Piece, FuA.FragmentCount, FuA.LastFragmentSize, Payload, HeaderOf;
  }

  /** The fragment has its marker set if and only if it ends a unit. */
  predicate Marked(f: Fragment, is265: bool) {
    f.marker == if LastOfUnit(f.data, is265) then 1 else 0
  }

  lemma {:induction false} StreamMarked(units: seq<seq<byte>>, is265: bool, n: nat)
    requires units != [] && forall i :: 0 <= i < |units| ==> units[i] != [] && Sendable(units[i], is265)
    ensures forall k :: 0 <= k < |FragmentStream(units, is265, n)| ==> Marked(FragmentStream(units, is265, n)[k], is265)
  {
    hide Fragmented, Sendable, LastOfUnit;
    if n > 0 {
      StreamMarked(units, is265, n - 1);
      var nal := units[Wrap(n - 1, |units|)];
      forall k | 0 <= k < |Fragmented(nal, is265)| ensures Marked(Fragmented(nal, is265)[k], is265) {
        MarkerIsEnd(nal, is265, k);
      }
    }
  }

  /**
    In every state of an interceptor that is replacing packets, the j-th packet sent since the start
    has a number and a time counted on from the first header, and its marker bit is set if and only
    if its payload ends a unit.
  */
  lemma PacketsOfInceptor(i: Interception.Inceptor, j: nat)
    requires i.Valid() && i.previousStatus && j < |i.peer.sent| - i.mark
    requires var units := UnitsOf(i.fragments.File());
             forall k :: 0 <= k < |units| ==> Sendable(units[k], i.fragments.is265)
    ensures NumberedAndMarked(i.peer.sent[i.mark + j], i.first, j, i.fragments.is265)
  {
    hide UnitsOf, Sendable, FragmentStream, NumberedAndMarked;
    hide Interception.Packets, Interception.WellSized, Interception.AllSound;
    i.Unpack();
    i.Replaceable();
    assert i.peer.sent[i.mark..][j] == i.peer.sent[i.mark + j];
    PacketMarked(i.first, UnitsOf(i.fragments.File()), i.fragments.is265, i.fragments.Taken(), i.fragments.emitted, j);
  }

  /** The packet is the j-th since the first header, and marked if and only if its payload ends a unit. */
  predicate NumberedAndMarked(p: seq<byte>, first: Interception.RtpHeader, j: nat, is265: bool) {
    && Complete(p) && |p| >= 16 && p[1] == 0
    && p[4] == first.flags && p[5] % 128 == first.payloadType && p[12..16] == first.ssrc
    && (p[5] >= 128 <==> LastOfUnit(p[16..], is265))
    && Number(p[6..8]) == Plus16(first.seqNo, j) && Number(p[8..12]) == Plus32(first.timestamp, 3000 * (j + 1))
  }

  lemma PacketMarked(first: Interception.RtpHeader, units: seq<seq<byte>>, is265: bool, n: nat,
                     fs: seq<Fragment>, j: nat)
    requires units != [] && forall i :: 0 <= i < |units| ==> units[i] != [] && Sendable(units[i], is265)
    requires fs <= FragmentStream(units, is265, n) && j < |fs|
    requires first.Valid() && Interception.AllSound(fs)
    ensures NumberedAndMarked(Interception.Packets(first, fs)[j], first, j, is265)
  {
    hide Sendable, FragmentStream, NumberedAndMarked, Interception.Packets, Interception.Renumbered;
    hide Interception.Sound, Interception.RtpHeader.Bytes, Framed, LastOfUnit, Plus16, Plus32;
    EmittedMarked(units, is265, n, fs, j);
    Interception.PacketOfFragment(first, fs, j);
    PacketSays(Interception.Packets(first, fs)[j], Interception.Renumbered(first, j, fs[j].marker), first, fs[j], j,
               is265);
  }

  lemma PacketSays(p: seq<byte>, h: Interception.RtpHeader, first: Interception.RtpHeader, f: Fragment, j: nat,
                   is265: bool)
    requires h.Valid() && p == Framed(h.Bytes(), f.data) && |f.data| < 0x8000 - 12
    requires h.flags == first.flags && h.payloadType == first.payloadType && h.ssrc == first.ssrc
    requires h.marker == f.marker && Marked(f, is265)
    requires h.seqNo == Plus16(first.seqNo, j) && h.timestamp == Plus32(first.timestamp, 3000 * (j + 1))
    ensures NumberedAndMarked(p, first, j, is265)
  {
    Interception.FieldsOfPacket(p, h, f.data);
    hide Plus16, Plus32, LastOfUnit, Framed, Number, Complete, Interception.RtpHeader.Bytes;
  }

  lemma EmittedMarked(units: seq<seq<byte>>, is265: bool, n: nat, fs: seq<Fragment>, j: nat)
    requires units != [] && forall i :: 0 <= i < |units| ==> units[i] != [] && Sendable(units[i], is265)
    requires fs <= FragmentStream(units, is265, n) && j < |fs|
    ensures Marked(fs[j], is265) && |fs[j].data| < 0x8000 - 12
  {
    StreamMarked(units, is265, n);
    StreamTransportable(units, is265, n);
    var all := FragmentStream(units, is265, n);
    hide FragmentStream, LastOfUnit, Sendable;
    assert fs[j] == all[j] && Marked(all[j], is265);
    assert Delivery.Transportable(Data(all)[j]);
  }
}
