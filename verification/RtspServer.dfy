/**
  The RTSP server's play loop: NAL units are copied from the file and sent until the file
  ends or the client goes away. The last lemma follows a file all the way to the receiver.
*/
module RtspServer {
  import opened Bytes
  import opened AnnexB
  import opened NalSource
  import opened SplitterAgreement
  import opened FuA
  import opened Receiver
  import opened RtspFraming
  import opened RtpSender
  import opened Delivery

  const FRAMERATE := 25

  /** The clock and the sequence counter with which the cnt-th unit is sent; the second one starts them over. */
  function ClockFor(cnt: nat, ts: nat): (clock: nat)
    ensures clock < 0x1_0000_0000
  {
    if cnt == 1 then 0 else NextClock(ts, FRAMERATE)
  }

  function CounterFor(cnt: nat, seqNum: nat): nat {
    if cnt == 1 then 0 else seqNum
  }

  function UnitFrames(nal: seq<byte>, cnt: nat, seqNum: nat, ts: nat): (fs: seq<seq<byte>>)
    ensures |fs| == |Payloads(nal)|
  {
    Frames(Payloads(nal), CounterFor(cnt, seqNum), ClockFor(cnt, ts))
  }

  /** The sequence counter after the unit. */
  function CounterAfter(nal: seq<byte>, cnt: nat, seqNum: nat): nat {
    SeqAfter(CounterFor(cnt, seqNum), |Payloads(nal)|)
  }

  /** Everything sent for the units, the first of which is the cnt-th. */
  function Served(nals: seq<seq<byte>>, cnt: nat, seqNum: nat, ts: nat): seq<seq<byte>> {
    if nals == [] then []
    else
      UnitFrames(nals[0], cnt, seqNum, ts)
      + Served(nals[1..], cnt + 1, CounterAfter(nals[0], cnt, seqNum), ClockFor(cnt, ts))
  }

  /** The connection has taken all the frames, or as many as it still could. */
  predicate TakenFrom(fs: seq<seq<byte>>, sent: seq<seq<byte>>, room: nat, now: seq<seq<byte>>, left: nat, all: bool) {
    && (all <==> room >= |fs|)
    && now == sent + fs[..if all then |fs| else room]
    && left == room - if all then |fs| else room
  }

  /** Sends one unit: all its frames, or as many as the connection still takes. */
  method SendOne(nal: seq<byte>, cnt: nat, sender: Packetizer, socket: Socket) returns (ok: bool)
    requires sender.Valid()
    modifies sender, socket
    ensures sender.Valid()
    ensures TakenFrom(UnitFrames(nal, cnt, old(sender.seqNum), old(sender.tsCurrent)), old(socket.sent),
                      old(socket.room), socket.sent, socket.room, ok)
    ensures ok ==> sender.seqNum == CounterAfter(nal, cnt, old(sender.seqNum))
                   && sender.tsCurrent == ClockFor(cnt, old(sender.tsCurrent))
  {
    hide Frames, Payloads, NextClock, SeqAfter;
    var r := sender.SendNal(FRAMERATE, nal, socket, cnt);
    ok := r == 0;
  }

  lemma ServedNext(s: seq<byte>, cnt: nat, seqNum: nat, ts: nat)
    ensures var r := Copy(s, 0);
            Served(Results(s), cnt, seqNum, ts)
            == if r.Ended? then []
               else
                 UnitFrames(r.nal, cnt, seqNum, ts)
                 + Served(Results(s[r.used..]), cnt + 1, CounterAfter(r.nal, cnt, seqNum), ClockFor(cnt, ts))
  {
    var r := Copy(s, 0);
    ResultsNext(s);
    if r.Found? {
      hide Copy, Results, Served, UnitFrames, CounterAfter, ClockFor;
      ServedCons(r.nal, Results(s[r.used..]), cnt, seqNum, ts);
    }
  }

  lemma ServedCons(nal: seq<byte>, later: seq<seq<byte>>, cnt: nat, seqNum: nat, ts: nat)
    ensures Served([nal] + later, cnt, seqNum, ts)
         == UnitFrames(nal, cnt, seqNum, ts)
            + Served(later, cnt + 1, CounterAfter(nal, cnt, seqNum), ClockFor(cnt, ts))
  {
    assert ([nal] + later)[1..] == later;
  }

  /** The first `room` of the frames, or all of them. */
  function Taken(frames: seq<seq<byte>>, room: nat): seq<seq<byte>> {
    frames[..if room < |frames| then room else |frames|]
  }

  /** `done` has been sent and `later` is to be sent, on a connection that took `room` frames at first. */
  predicate Partway(all: seq<seq<byte>>, done: seq<seq<byte>>, later: seq<seq<byte>>, before: seq<seq<byte>>,
                    room: nat, sent: seq<seq<byte>>, left: nat)
  {
    all == done + later && sent == before + done && |done| <= room && left == room - |done|
  }

  lemma PartwayStart(all: seq<seq<byte>>, sent: seq<seq<byte>>, room: nat)
    ensures Partway(all, [], all, sent, room, sent, room)
  {
  }

  lemma PartwayMore(all: seq<seq<byte>>, done: seq<seq<byte>>, fs: seq<seq<byte>>, later: seq<seq<byte>>,
                    before: seq<seq<byte>>, room: nat, sent: seq<seq<byte>>, left: nat,
                    now: seq<seq<byte>>, leftNow: nat, ok: bool)
    requires Partway(all, done, fs + later, before, room, sent, left)
    requires TakenFrom(fs, sent, left, now, leftNow, ok)
    ensures if ok then Partway(all, done + fs, later, before, room, now, leftNow) else now == before + Taken(all, room)
  {
    AppendAssoc(done, fs, later);
    if ok {
      AppendAssoc(before, done, fs);
    } else {
      AppendAssoc(before, done, fs[..left]);
      assert Taken(all, room) == done + fs[..left];
    }
  }

  lemma PartwayEnd(all: seq<seq<byte>>, done: seq<seq<byte>>, before: seq<seq<byte>>, room: nat,
                   sent: seq<seq<byte>>, left: nat)
    requires Partway(all, done, [], before, room, sent, left)
    ensures sent == before + Taken(all, room)
  {
    assert done + [] == done;
  }

  /**
    Everything the automaton returns is sent, in order; a connection that takes fewer frames gets
    as many as it takes.
  */
  method StreamFile(file: seq<byte>, beyond: byte, sender: Packetizer, socket: Socket)
    requires sender.Valid() && Fits(Delivered(file, beyond), NAL_BUF_SIZE)
    modifies sender, socket
    ensures socket.sent == old(socket.sent) + Taken(Served(Results(Delivered(file, beyond)), 0, old(sender.seqNum),
                                                           old(sender.tsCurrent)), old(socket.room))
  {
    var source := new RtspSource(file, beyond);
    var nalBuf := new byte[NAL_BUF_SIZE];
    var cnt := 0;
    assert source.Remaining() == Delivered(file, beyond);
    ghost var all := Served(Results(source.Remaining()), 0, sender.seqNum, sender.tsCurrent);
    ghost var before, room, done := socket.sent, socket.room, [];
    PartwayStart(all, before, room);
    hide Delivered, Results, Served, UnitFrames, CounterAfter, ClockFor, Taken, Partway, TakenFrom, Copy;
    while true
      invariant source.Valid() && sender.Valid() && fresh(source) && fresh(nalBuf) && nalBuf.Length == NAL_BUF_SIZE
      invariant Fits(source.Remaining(), NAL_BUF_SIZE)
      invariant Partway(all, done, Served(Results(source.Remaining()), cnt, sender.seqNum, sender.tsCurrent),
                        before, room, socket.sent, socket.room)
      decreases |source.Remaining()|
    {
      ghost var seqNum, ts, sent, left := sender.seqNum, sender.tsCurrent, socket.sent, socket.room;
      ServedNext(source.Remaining(), cnt, seqNum, ts);
      var ret, len := source.CopyNalFromFile(nalBuf);
      if ret < 0 {
        PartwayEnd(all, done, before, room, sent, left);
        return;
      }
      var nal := nalBuf[..len];
      ghost var fs := UnitFrames(nal, cnt, seqNum, ts);
      ghost var later := Served(Results(source.Remaining()), cnt + 1, CounterAfter(nal, cnt, seqNum),
                                ClockFor(cnt, ts));
      var ok := SendOne(nal, cnt, sender, socket);
      PartwayMore(all, done, fs, later, before, room, sent, left, socket.sent, socket.room, ok);
      if !ok {
        return;
      }
      done := done + fs;
      cnt := cnt + 1;
    }
  }

  // ----- what the frames hold -----

  /** The frames carry the payloads of the units, in order. */
  lemma {:induction false} ServedCarries(nals: seq<seq<byte>>, cnt: nat, seqNum: nat, ts: nat)
    ensures Carry(Served(nals, cnt, seqNum, ts), AllPayloads(nals))
    decreases |nals|
  {
    if nals != [] {
      var later := Served(nals[1..], cnt + 1, CounterAfter(nals[0], cnt, seqNum), ClockFor(cnt, ts));
      ServedCarries(nals[1..], cnt + 1, CounterAfter(nals[0], cnt, seqNum), ClockFor(cnt, ts));
      FramesCarry(Payloads(nals[0]), CounterFor(cnt, seqNum), ClockFor(cnt, ts));
      hide Carry, Payloads, Frames, ClockFor, CounterFor, CounterAfter;
      CarryAppend(UnitFrames(nals[0], cnt, seqNum, ts), Payloads(nals[0]), later, AllPayloads(nals[1..]));
    }
  }

  lemma CarryAppend(a: seq<seq<byte>>, pa: seq<seq<byte>>, b: seq<seq<byte>>, pb: seq<seq<byte>>)
    requires Carry(a, pa) && Carry(b, pb)
    ensures Carry(a + b, pa + pb)
  {
    hide CarriesPayload;
  }

  lemma FramesCarry(payloads: seq<seq<byte>>, seqNum: nat, timestamp: nat)
    ensures Carry(Frames(payloads, seqNum, timestamp), payloads)
  {
    forall i | 0 <= i < |payloads| ensures CarriesPayload(Frames(payloads, seqNum, timestamp)[i], payloads[i]) {
      FrameAt(payloads, seqNum, timestamp, i);
    }
  }

  /**
    What one frame says: that it is the count-th packet and shows the clock after so many ticks, as
    far as its fields can hold that, and this server's version, type and source.
  */
  predicate Says(f: seq<byte>, count: nat, ticks: nat, payload: seq<byte>) {
    && Complete(f) && |f| >= 16 && f[1] == 0 && f[4..6] == [128, 96]
    && Number(f[6..8]) == count % 65536 % 65535 && Number(f[8..12]) == ticks % 0x1_0000_0000
    && f[12..16] == [0xff, 0xef, 0x24, 0xe7] && f[16..] == payload
  }

  /** Counters that have wrapped on the way say the same. */
  lemma SaysLater(f: seq<byte>, counter: nat, n: nat, j: nat, ts: nat, u: nat, payload: seq<byte>)
    requires Says(f, SeqAfter(counter, n) + j + 1, NextClock(ts, 25) + 3600 * u, payload)
    ensures Says(f, counter + n + j + 1, ts + 3600 * (u + 1), payload)
  {
    Wraps(counter + n, j + 1, 65536);
    Wraps(ts + 3600, 3600 * u, 0x1_0000_0000);
    hide Complete, Number;
  }

  /** Frame k of the unit with which the clock and the counter are `clock` and `counter`. */
  lemma UnitFrameSays(nal: seq<byte>, counter: nat, clock: nat, k: nat)
    requires k < |Payloads(nal)| && clock < 0x1_0000_0000
    ensures Says(Frames(Payloads(nal), counter, clock)[k], counter + k + 1, clock, Payloads(nal)[k])
  {
    PayloadSize(nal, k);
    FrameAt(Payloads(nal), counter, clock, k);
    hide *;
    FrameSays(SeqAfter(counter, k + 1) % UINT16_MAX, clock, Payloads(nal)[k], counter + k + 1);
  }

  lemma PayloadSize(nal: seq<byte>, k: nat)
    requires k < |Payloads(nal)|
    ensures |Payloads(nal)[k]| < 0x8000 - 12
  {
    PayloadsTransportable([nal]);
    SinglePayloads(nal);
    hide Payloads, AllPayloads;
    assert Transportable(Payloads(nal)[k]);
  }

  lemma FrameSays(seqNo: nat, clock: nat, payload: seq<byte>, count: nat)
    requires seqNo == count % 65536 % 65535 && clock < 0x1_0000_0000 && |payload| < 0x8000 - 12
    ensures Says(Frame(seqNo, clock, payload), count, clock, payload)
  {
    NotWrapped(clock);
    hide Frame, Complete, Number;
    FrameBytes(seqNo, clock, payload);
  }

  lemma NotWrapped(clock: nat)
    requires clock < 0x1_0000_0000
    ensures clock % 0x1_0000_0000 == clock
  {
  }

  lemma SinglePayloads(nal: seq<byte>)
    ensures AllPayloads([nal]) == Payloads(nal)
  {
    var single: seq<seq<byte>> := [nal];
    assert single[1..] == [];
    assert Payloads(nal) + [] == Payloads(nal);
  }

  /** How many frames the first u units take. */
  function FramesBefore(nals: seq<seq<byte>>, u: nat): nat
    requires u <= |nals|
  {
    |AllPayloads(nals[..u])|
  }

  lemma FramesBeforeRest(nals: seq<seq<byte>>, u: nat)
    requires 0 < u <= |nals|
    ensures FramesBefore(nals, u) == |Payloads(nals[0])| + FramesBefore(nals[1..], u - 1)
  {
    assert nals[..u][1..] == nals[1..][..u - 1];
  }

  lemma NothingBefore(nals: seq<seq<byte>>)
    ensures FramesBefore(nals, 0) == 0
  {
  }

  lemma InFirst(nals: seq<seq<byte>>, cnt: nat, seqNum: nat, ts: nat, k: nat)
    requires nals != [] && k < |Payloads(nals[0])|
    ensures var j := FramesBefore(nals, 0) + k;
            && j == k < |Served(nals, cnt, seqNum, ts)|
            && Served(nals, cnt, seqNum, ts)[j]
               == Frames(Payloads(nals[0]), CounterFor(cnt, seqNum), ClockFor(cnt, ts))[k]
  {
    hide Payloads, Frames, CounterAfter, CounterFor, ClockFor;
  }

  lemma BehindFirst(nals: seq<seq<byte>>, cnt: nat, seqNum: nat, ts: nat, u: nat, k: nat)
    requires 0 < u < |nals|
    requires var later := Served(nals[1..], cnt + 1, SeqAfter(CounterFor(cnt, seqNum), |Payloads(nals[0])|),
                                 ClockFor(cnt, ts));
             FramesBefore(nals[1..], u - 1) + k < |later|
    ensures var later := Served(nals[1..], cnt + 1, SeqAfter(CounterFor(cnt, seqNum), |Payloads(nals[0])|),
                                ClockFor(cnt, ts));
            var j := FramesBefore(nals, u) + k;
            && j == |Payloads(nals[0])| + FramesBefore(nals[1..], u - 1) + k < |Served(nals, cnt, seqNum, ts)|
            && Served(nals, cnt, seqNum, ts)[j] == later[FramesBefore(nals[1..], u - 1) + k]
  {
    FramesBeforeRest(nals, u);
    hide Payloads, Frames, CounterFor, ClockFor, SeqAfter, FramesBefore;
  }

  /** The second unit starts clock and counter over. */
  lemma Clocks(cnt: nat, seqNum: nat, ts: nat)
    ensures CounterFor(cnt, seqNum) == if cnt == 1 then 0 else seqNum
    ensures ClockFor(cnt, ts) == if cnt == 1 then 0 else NextClock(ts, 25)
  {
  }

  /** The clock of the next unit, which is as good as one that has not wrapped. */
  lemma NextSays(nal: seq<byte>, seqNum: nat, ts: nat, k: nat)
    requires k < |Payloads(nal)|
    ensures Says(Frames(Payloads(nal), seqNum, NextClock(ts, 25))[k], seqNum + k + 1, ts + 3600, Payloads(nal)[k])
  {
    hide *;
    UnitFrameSays(nal, seqNum, NextClock(ts, 25), k);
    SaysTicks(Frames(Payloads(nal), seqNum, NextClock(ts, 25))[k], seqNum + k + 1, ts, Payloads(nal)[k]);
  }

  lemma SaysTicks(f: seq<byte>, count: nat, ts: nat, payload: seq<byte>)
    requires Says(f, count, NextClock(ts, 25), payload)
    ensures Says(f, count, ts + 3600, payload)
  {
    hide Complete, Number;
  }

  /** From the third unit on: the clock ticks 3600 times for every unit, and numbers go on. */
  lemma {:induction false} LaterFrames(nals: seq<seq<byte>>, cnt: nat, seqNum: nat, ts: nat, u: nat, k: nat)
    requires cnt >= 2 && u < |nals| && k < |Payloads(nals[u])|
    ensures var j := FramesBefore(nals, u) + k;
            && j < |Served(nals, cnt, seqNum, ts)|
            && Says(Served(nals, cnt, seqNum, ts)[j], seqNum + j + 1, ts + 3600 * (u + 1), Payloads(nals[u])[k])
    decreases u
  {
    hide *;
    Clocks(cnt, seqNum, ts);
    var n := |Payloads(nals[0])|;
    if u == 0 {
      InFirst(nals, cnt, seqNum, ts, k);
      NextSays(nals[0], seqNum, ts, k);
    } else {
      LaterFrames(nals[1..], cnt + 1, SeqAfter(seqNum, n), NextClock(ts, 25), u - 1, k);
      BehindFirst(nals, cnt, seqNum, ts, u, k);
      var j := FramesBefore(nals[1..], u - 1) + k;
      SaysLater(Served(nals, cnt, seqNum, ts)[n + j], seqNum, n, j, ts, u, Payloads(nals[u])[k]);
    }
  }

  lemma SecondStartsOver(nals: seq<seq<byte>>, seqNum: nat, ts: nat, u: nat, k: nat)
    requires u < |nals| && k < |Payloads(nals[u])|
    ensures var j, fs := FramesBefore(nals, u) + k, Served(nals, 1, seqNum, ts);
            j < |fs| && Says(fs[j], j + 1, 3600 * u, Payloads(nals[u])[k])
  {
    hide *;
    Clocks(1, seqNum, ts);
    var n := |Payloads(nals[0])|;
    if u == 0 {
      InFirst(nals, 1, seqNum, ts, k);
      UnitFrameSays(nals[0], 0, 0, k);
    } else {
      LaterFrames(nals[1..], 2, SeqAfter(0, n), 0, u - 1, k);
      BehindFirst(nals, 1, seqNum, ts, u, k);
      var j := FramesBefore(nals[1..], u - 1) + k;
      SaysSecond(Served(nals, 1, seqNum, ts)[n + j], n, j, 3600 * u, Payloads(nals[u])[k]);
    }
  }

  lemma SaysSecond(f: seq<byte>, n: nat, j: nat, ticks: nat, payload: seq<byte>)
    requires Says(f, SeqAfter(0, n) + j + 1, ticks, payload)
    ensures Says(f, n + j + 1, ticks, payload)
  {
    Wraps(n, j + 1, 65536);
    hide Complete, Number;
  }

  /**
    What the play loop sends, byte by byte: the number and the time of the k-th frame of the u-th
    unit. The second unit starts both over; all frames of a unit have one time, 3600 ticks after
    that of the unit before.
  */
  lemma ServedSays(nals: seq<seq<byte>>, seqNum: nat, ts: nat, u: nat, k: nat)
    requires u < |nals| && k < |Payloads(nals[u])|
    ensures var j, fs := FramesBefore(nals, u) + k, Served(nals, 0, seqNum, ts);
            && j < |fs|
            && (u == 0 ==> Says(fs[j], seqNum + k + 1, ts + 3600, Payloads(nals[u])[k]))
            && (u > 0 ==> Says(fs[j], j - |Payloads(nals[0])| + 1, 3600 * (u - 1), Payloads(nals[u])[k]))
  {
    hide *;
    Clocks(0, seqNum, ts);
    if u == 0 {
      InFirst(nals, 0, seqNum, ts, k);
      NextSays(nals[0], seqNum, ts, k);
    } else {
      SecondStartsOver(nals[1..], SeqAfter(seqNum, |Payloads(nals[0])|), NextClock(ts, 25), u - 1, k);
      BehindFirst(nals, 0, seqNum, ts, u, k);
    }
  }

  /** Numbers count on by one, except around the wrap, where 65535 is written as 0 and 0 follows. */
  lemma NumbersCountOn(count: nat)
    ensures (count + 1) % 65536 % 65535 == (count % 65536 % 65535 + 1) % 65536 <==> count % 65536 < 65534
  {
    var m := count % 65536;
    Wraps(count, 1, 65536);
    assert (count + 1) % 65536 == if m < 65535 then m + 1 else 0;
  }

  lemma Wraps(a: nat, b: nat, m: nat)
    requires m == 65536 || m == 0x1_0000_0000
    ensures (a % m + b) % m == (a + b) % m
  {
  }

  // ----- from the file to the receiver -----

  /** The empty result for the file's first start code changes nothing. */
  lemma LeadingEmptyUnit(nals: seq<seq<byte>>)
    ensures Restored(Seen([[]] + nals), LOST) == Restored(Seen(nals), LOST)
    decreases |nals|
  {
    var all: seq<seq<byte>> := [[]] + nals;
    assert all[1..] == nals;
    if nals == [] {
      assert all[..0] == [];
      assert Seen(all) == Seen(all[..0]);
    } else {
      var init := nals[..|nals| - 1];
      assert all[..|all| - 1] == [[]] + init;
      if nals[|nals| - 1] == [] {
        LeadingEmptyUnit(init);
      } else if |nals[|nals| - 1]| <= 2 {
        assert ([[]] + init)[1..] == init;
      }
    }
  }

  /**
    A file of NAL units that starts with 00 00 00 01, served completely and received over any
    cut of the connection, arrives as its units in order without the last one; of the others
    only those of 0 and 1401 bytes, and a final one of 1 or 2 bytes, are missing.
  */
  lemma ServedFileArrives(units: seq<Coded>, beyond: byte, frames: seq<seq<byte>>)
    requires units != [] && units[0].four
    requires forall i :: 0 <= i < |units| ==> Separable(units[i].nal) && Sendable(units[i].nal)
    requires Carry(frames, AllPayloads(Results(Delivered(Flatten(Written(units)), beyond))))
    ensures Reassemble(PayloadsAt(Flatten(frames), Scan(Flatten(frames), 0).starts), None, false)
         == Restored(Seen(Nals(units[..|units| - 1])), LOST)
  {
    hide *;
    var nals := Nals(units[..|units| - 1]);
    ResultsSendable(units);
    SplittersAgree(units, beyond);
    DeliveryRestores([[]] + nals, frames);
    LeadingEmptyUnit(nals);
  }

  lemma ResultsSendable(units: seq<Coded>)
    requires units != [] && forall i :: 0 <= i < |units| ==> Separable(units[i].nal) && Sendable(units[i].nal)
    ensures forall i :: 0 <= i < |units| ==> Separable(units[i].nal)
    ensures var results: seq<seq<byte>> := [[]] + Nals(units[..|units| - 1]);
            forall i :: 0 <= i < |results| ==> Sendable(results[i])
  {
    hide Separable;
    var results: seq<seq<byte>> := [[]] + Nals(units[..|units| - 1]);
    forall i | 0 <= i < |results| ensures Sendable(results[i]) {
      assert i > 0 ==> results[i] == units[i - 1].nal;
    }
  }

  lemma FramesBeforeLeading(nals: seq<seq<byte>>, u: nat)
    requires u <= |nals|
    ensures FramesBefore([[]] + nals, u + 1) == FramesBefore(nals, u)
  {
    var all: seq<seq<byte>> := [[]] + nals;
    FramesBeforeRest(all, u + 1);
    assert all[1..] == nals;
  }

  /**
    The frames sent for such a file: the n-th has the number n + 1 modulo 2^16, with 0 for 65535, and
    those of the i-th unit have the time 3600 * i.
  */
  lemma ServedFileSays(units: seq<Coded>, beyond: byte, seqNum: nat, ts: nat, i: nat, k: nat)
    requires units != [] && units[0].four && forall i :: 0 <= i < |units| ==> Separable(units[i].nal)
    requires i < |units| - 1 && k < |Payloads(units[i].nal)|
    ensures var fs := Served(Results(Delivered(Flatten(Written(units)), beyond)), 0, seqNum, ts);
            var n := FramesBefore(Nals(units), i) + k;
            && n < |fs|
            && Says(fs[n], n + 1, 3600 * i, Payloads(units[i].nal)[k])
  {
    hide *;
    var nals := Nals(units[..|units| - 1]);
    SplittersAgree(units, beyond);
    AllButLastUnit(units, i);
    FramesBeforeLeading(nals, i);
    NoPayload();
    ServedSays([[]] + nals, seqNum, ts, i + 1, k);
  }

  lemma AllButLastUnit(units: seq<Coded>, i: nat)
    requires i < |units| - 1
    ensures var nals := Nals(units[..|units| - 1]);
            |nals| == |units| - 1 && FramesBefore(Nals(units), i) == FramesBefore(nals, i) && nals[i] == units[i].nal
  {
    hide AllPayloads;
    assert Nals(units)[..i] == Nals(units[..|units| - 1])[..i];
  }

  lemma NoPayload()
    ensures Payloads([]) == []
  {
  }
}
