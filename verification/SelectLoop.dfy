/**
  The select loop's bookkeeping: a table of client descriptors, the set to be watched, and the
  largest descriptor and table position in use.
*/
module SelectLoop {
  const FD_SIZE := 2
  const FREE := -1

  /** The descriptors in a table. */
  function Occupied(fds: seq<int>): set<int> {
    set fd | fd in fds && fd != FREE
  }

  /** No descriptor is in two slots. */
  predicate Distinct(fds: seq<int>) {
    forall i, j :: 0 <= i < j < |fds| && fds[i] != FREE ==> fds[i] != fds[j]
  }

  predicate AtLeastFree(fds: seq<int>) {
    forall i :: 0 <= i < |fds| ==> fds[i] >= FREE
  }

  /** The ready descriptors of a table, in slot order. */
  function ReadyIn(fds: seq<int>, ready: set<int>): seq<int> {
    if fds == [] then []
    else (if fds[0] != FREE && fds[0] in ready then [fds[0]] else []) + ReadyIn(fds[1..], ready)
  }

  lemma OccupiedTaken(fds: seq<int>, i: nat, fd: int)
    requires i < |fds| && fds[i] == FREE && fd >= 0 && fd !in Occupied(fds) && Distinct(fds) && AtLeastFree(fds)
    ensures Occupied(fds[i := fd]) == Occupied(fds) + {fd}
    ensures Distinct(fds[i := fd]) && AtLeastFree(fds[i := fd])
  {
    assert fd !in fds;
    var t := fds[i := fd];
    forall x ensures x in Occupied(t) <==> x in Occupied(fds) + {fd} {
      if x in fds && x != FREE {
        var k :| 0 <= k < |fds| && fds[k] == x;
        assert t[k] == x;
      }
      assert t[i] == fd;
    }
  }

  lemma OccupiedFreed(fds: seq<int>, i: nat)
    requires i < |fds| && fds[i] != FREE && Distinct(fds) && AtLeastFree(fds)
    ensures Occupied(fds[i := FREE]) == Occupied(fds) - {fds[i]} && fds[i] in Occupied(fds) && fds[i] >= 0
    ensures Distinct(fds[i := FREE]) && AtLeastFree(fds[i := FREE])
  {
    var t := fds[i := FREE];
    forall x ensures x in Occupied(t) <==> x in Occupied(fds) - {fds[i]} {
      if x in Occupied(fds) - {fds[i]} {
        var k :| 0 <= k < |fds| && fds[k] == x;
        assert t[k] == x;
      }
    }
  }

  lemma ReadyInStep(fds: seq<int>, served: seq<int>, i: nat, ready: set<int>)
    requires i < |fds|
    ensures var one := fds[i] != FREE && fds[i] in ready;
            && served + ReadyIn(fds[i..], ready)
               == (if one then served + [fds[i]] else served) + ReadyIn(fds[i + 1..], ready)
            && |ReadyIn(fds[i..], ready)| == |ReadyIn(fds[i + 1..], ready)| + if one then 1 else 0
  {
    assert fds[i..][1..] == fds[i + 1..];
  }

  lemma {:induction false} ReadyInCount(fds: seq<int>, ready: set<int>)
    requires Distinct(fds)
    ensures |ReadyIn(fds, ready)| == |ready * Occupied(fds)|
    ensures forall fd :: fd in ReadyIn(fds, ready) <==> fd in ready * Occupied(fds)
  {
    if fds == [] {
      assert ready * Occupied(fds) == {};
    } else {
      var rest := fds[1..];
      OccupiedCons(fds);
      hide Occupied, Distinct;
      ReadyInCount(rest, ready);
      ReadyMore(ready, Occupied(rest), Occupied(fds), fds[0]);
    }
  }

  lemma ReadyMore(ready: set<int>, rest: set<int>, all: set<int>, fd: int)
    requires fd !in rest && all == rest + if fd != FREE then {fd} else {}
    ensures ready * all == ready * rest + if fd != FREE && fd in ready then {fd} else {}
    ensures |ready * all| == |ready * rest| + if fd != FREE && fd in ready then 1 else 0
  {
    assert ready * all == ready * rest + if fd != FREE && fd in ready then {fd} else {};
  }

  lemma OccupiedCons(fds: seq<int>)
    requires fds != [] && Distinct(fds)
    ensures Occupied(fds) == Occupied(fds[1..]) + if fds[0] != FREE then {fds[0]} else {}
    ensures fds[0] !in Occupied(fds[1..]) && Distinct(fds[1..])
  {
    var rest := fds[1..];
    assert fds == [fds[0]] + rest;
    assert forall k :: 0 <= k < |rest| ==> rest[k] == fds[k + 1];
  }

  /** Table, watched set and client count agree. */
  predicate Agree(fds: seq<int>, serverFd: int, fdSet: set<int>, clientNum: int) {
    && |fds| == FD_SIZE && serverFd >= 0 && serverFd !in Occupied(fds)
    && Distinct(fds) && AtLeastFree(fds)
    && clientNum == |Occupied(fds)|
    && fdSet == {serverFd} + Occupied(fds)
  }

  /** maxFd is the largest watched descriptor, and no slot behind maxPos is used. */
  predicate Bounds(fds: seq<int>, fdSet: set<int>, maxFd: int, maxPos: int) {
    && maxFd in fdSet && (forall fd :: fd in fdSet ==> fd <= maxFd)
    && -1 <= maxPos < |fds|
    && (forall i :: maxPos < i < |fds| ==> fds[i] == FREE)
  }

  lemma AgreeTaken(fds: seq<int>, serverFd: int, fdSet: set<int>, clientNum: int, i: nat, fd: int)
    requires Agree(fds, serverFd, fdSet, clientNum) && i < |fds| && fds[i] == FREE && fd >= 0 && fd !in fdSet
    ensures Agree(fds[i := fd], serverFd, fdSet + {fd}, clientNum + 1)
  {
    hide Occupied, Distinct, AtLeastFree;
    OccupiedTaken(fds, i, fd);
  }

  lemma AgreeFreed(fds: seq<int>, serverFd: int, fdSet: set<int>, clientNum: int, i: nat)
    requires Agree(fds, serverFd, fdSet, clientNum) && i < |fds| && fds[i] != FREE
    ensures Agree(fds[i := FREE], serverFd, fdSet - {fds[i]}, clientNum - 1)
    ensures fds[i] in fdSet && fds[i] >= 0
  {
    hide Occupied, Distinct, AtLeastFree;
    OccupiedFreed(fds, i);
    OneLess(Occupied(fds), fds[i]);
  }

  lemma OneLess(s: set<int>, x: int)
    requires x in s
    ensures |s - {x}| == |s| - 1
  {
  }

  lemma BoundsTaken(fds: seq<int>, set0: set<int>, max0: int, pos0: int, i: nat, fd: int)
    requires Bounds(fds, set0, max0, pos0) && i < |fds| && fds[i] == FREE && fd >= 0
    ensures Bounds(fds[i := fd], set0 + {fd}, if fd > max0 then fd else max0, if i > pos0 then i else pos0)
  {
  }

  /** What the kernel does in a round: descriptors it signals, the next connection, connections that have ended. */
  datatype Event = Event(signalled: set<int>, acceptFd: int, gone: set<int>)

  function Watched(fds: seq<int>, serverFd: int): set<int> {
    {serverFd} + Occupied(fds)
  }

  lemma SetIsWatched(fds: seq<int>, serverFd: int, fdSet: set<int>, clientNum: int)
    requires Agree(fds, serverFd, fdSet, clientNum)
    ensures fdSet == Watched(fds, serverFd)
  {
  }

  function TableNext(fds: seq<int>, serverFd: int, e: Event): seq<int> {
    var ready := e.signalled * Watched(fds, serverFd);
    if ready == {} then fds else Kept(if serverFd in ready then Accepted(fds, e.acceptFd) else fds, ready * e.gone)
  }

  function TableAfter(fds: seq<int>, serverFd: int, events: seq<Event>): seq<int>
    decreases |events|
  {
    if events == [] then fds else TableAfter(TableNext(fds, serverFd, events[0]), serverFd, events[1..])
  }

  function ServedNext(fds: seq<int>, serverFd: int, e: Event): seq<int> {
    var ready := e.signalled * Watched(fds, serverFd);
    if ready == {} then [] else ReadyIn(fds, ready)
  }

  function ServedIn(fds: seq<int>, serverFd: int, events: seq<Event>): seq<seq<int>>
    decreases |events|
  {
    if events == [] then []
    else
      [ServedNext(fds, serverFd, events[0])] + ServedIn(TableNext(fds, serverFd, events[0]), serverFd, events[1..])
  }

  lemma RunStep(fds: seq<int>, serverFd: int, events: seq<Event>, n: nat)
    requires n < |events| && Possible(fds, serverFd, events[n..])
    ensures var next := TableNext(fds, serverFd, events[n]);
            && TableAfter(fds, serverFd, events[n..]) == TableAfter(next, serverFd, events[n + 1..])
            && ServedIn(fds, serverFd, events[n..])
               == [ServedNext(fds, serverFd, events[n])] + ServedIn(next, serverFd, events[n + 1..])
            && Possible(next, serverFd, events[n + 1..])
    ensures events[n].acceptFd >= 0 && events[n].acceptFd !in Watched(fds, serverFd)
  {
    assert events[n..][1..] == events[n + 1..];
    hide TableNext, ServedNext, Watched;
  }

  lemma RunEnds(fds: seq<int>, serverFd: int, events: seq<Event>)
    ensures events[0..] == events
    ensures TableAfter(fds, serverFd, events[|events|..]) == fds && ServedIn(fds, serverFd, events[|events|..]) == []
  {
  }

  /** accept never returns a descriptor that is in use. */
  predicate Possible(fds: seq<int>, serverFd: int, events: seq<Event>)
    decreases |events|
  {
    events == [] ||
    (events[0].acceptFd >= 0 && events[0].acceptFd !in Watched(fds, serverFd)
     && Possible(TableNext(fds, serverFd, events[0]), serverFd, events[1..]))
  }

  /** The table after the given descriptors have been removed. */
  function Kept(fds: seq<int>, leaving: set<int>): (t: seq<int>)
    ensures |t| == |fds|
  {
    seq(|fds|, i requires 0 <= i < |fds| => if fds[i] in leaving then FREE else fds[i])
  }

  /** The table after a connection has been accepted: it goes into the first free slot, if there is one. */
  function Accepted(fds: seq<int>, fd: int): (t: seq<int>) {
    if FirstFree(fds) < |fds| then fds[FirstFree(fds) := fd] else fds
  }

  /** The client in slot k leaves. */
  predicate Leaves(fds: seq<int>, leaving: set<int>, k: int) {
    0 <= k < |fds| && fds[k] != FREE && fds[k] in leaving
  }

  /** The last of the first i slots whose client leaves, or -1. */
  predicate Last(fds: seq<int>, leaving: set<int>, i: nat, lastPos: int) {
    && i <= |fds| && -1 <= lastPos < i
    && (lastPos >= 0 ==> fds[lastPos] in leaving && fds[lastPos] != FREE)
    && (forall k :: lastPos < k < i ==> fds[k] == FREE || fds[k] !in leaving)
  }

  /** The slots before i have been handled, the others are as they were. */
  predicate Progress(fds: seq<int>, now: seq<int>, leaving: set<int>, i: nat, lastPos: int) {
    Last(fds, leaving, i, lastPos) && now == Kept(fds[..i], leaving) + fds[i..]
  }

  lemma ProgressStart(fds: seq<int>, leaving: set<int>)
    ensures Progress(fds, fds, leaving, 0, -1)
  {
  }

  lemma ProgressStep(fds: seq<int>, now: seq<int>, leaving: set<int>, i: nat, lastPos: int)
    requires Progress(fds, now, leaving, i, lastPos) && i < |fds|
    ensures |now| == |fds| && now[i] == fds[i]
    ensures fds[i] != FREE && fds[i] in leaving ==> Progress(fds, now[i := FREE], leaving, i + 1, i)
    ensures fds[i] == FREE || fds[i] !in leaving ==> Progress(fds, now, leaving, i + 1, lastPos)
  {
    var next := Kept(fds[..i + 1], leaving) + fds[i + 1..];
    if fds[i] != FREE && fds[i] in leaving {
      assert now[i := FREE] == next;
    } else {
      assert now == next;
    }
  }

  lemma ProgressEnd(fds: seq<int>, now: seq<int>, ready: set<int>, leaving: set<int>, i: nat, lastPos: int)
    requires Progress(fds, now, leaving, i, lastPos) && ReadyIn(fds[i..], ready) == [] && leaving <= ready
    ensures now == Kept(fds, leaving) && Last(fds, leaving, |fds|, lastPos)
  {
    var rest := fds[i..];
    NoneReady(rest, ready);
    forall k | i <= k < |fds| ensures fds[k] == FREE || fds[k] !in leaving {
      assert fds[k] == rest[k - i];
    }
    assert now == Kept(fds, leaving);
  }

  lemma {:induction false} NoneReady(fds: seq<int>, ready: set<int>)
    ensures ReadyIn(fds, ready) == [] <==> forall fd :: fd in fds ==> fd == FREE || fd !in ready
  {
    if fds != [] {
      NoneReady(fds[1..], ready);
      assert fds == [fds[0]] + fds[1..];
    }
  }

  /** Every slot behind maxPos is free. */
  predicate Behind(fds: seq<int>, maxPos: int) {
    -1 <= maxPos < |fds| && forall i :: maxPos < i < |fds| ==> fds[i] == FREE
  }

  lemma BehindRange(fds: seq<int>, maxPos: int)
    requires Behind(fds, maxPos)
    ensures -1 <= maxPos < |fds|
  {
  }

  lemma BoundsRange(fds: seq<int>, fdSet: set<int>, maxFd: int, maxPos: int)
    requires Bounds(fds, fdSet, maxFd, maxPos)
    ensures -1 <= maxPos < |fds|
  {
  }

  lemma NoneBehind(fds: seq<int>, fdSet: set<int>, maxFd: int, maxPos: int, ready: set<int>)
    requires Bounds(fds, fdSet, maxFd, maxPos)
    ensures -1 <= maxPos < |fds| && ReadyIn(fds[maxPos + 1..], ready) == []
  {
    NoneReady(fds[maxPos + 1..], ready);
  }

  lemma BehindKept(fds: seq<int>, set0: set<int>, maxFd: int, maxPos: int, leaving: set<int>, lastPos: int)
    requires Bounds(fds, set0, maxFd, maxPos) && Last(fds, leaving, |fds|, lastPos)
    ensures Behind(Kept(fds, leaving), maxPos)
    ensures lastPos == maxPos >= 0 ==> Behind(Kept(fds, leaving), maxPos - 1)
    ensures maxPos >= 0 ==> (lastPos == maxPos <==> Leaves(fds, leaving, maxPos))
  {
  }

  /** maxFd is the largest of the server's descriptor and those in the first i slots. */
  predicate Largest(fds: seq<int>, serverFd: int, i: nat, maxFd: int) {
    && i <= |fds| && (maxFd == serverFd || maxFd in fds) && serverFd <= maxFd
    && forall k :: 0 <= k < i ==> fds[k] <= maxFd
  }

  lemma LargestStart(fds: seq<int>, serverFd: int)
    ensures Largest(fds, serverFd, 0, serverFd)
  {
  }

  lemma LargestIsBound(fds: seq<int>, serverFd: int, fdSet: set<int>, clientNum: int, maxPos: int, maxFd: int)
    requires Agree(fds, serverFd, fdSet, clientNum) && Behind(fds, maxPos)
    requires Largest(fds, serverFd, maxPos + 1, maxFd)
    ensures Bounds(fds, fdSet, maxFd, maxPos)
  {
  }

  lemma StillLargest(fds: seq<int>, set0: set<int>, maxFd: int, pos0: int, now: seq<int>, fdSet: set<int>,
                     removedFd: int, maxPos: int)
    requires Bounds(fds, set0, maxFd, pos0) && Shrunk(set0, fdSet, removedFd) && removedFd != maxFd
    requires Behind(now, maxPos)
    ensures Bounds(now, fdSet, maxFd, maxPos)
  {
    assert maxFd in fdSet || maxFd <= removedFd;
  }

  /** Descriptors have been removed from a set; the largest of them is `largest`, or -1 if there is none. */
  predicate Shrunk(before: set<int>, now: set<int>, largest: int) {
    && now <= before
    && (forall fd :: fd in before && fd !in now ==> 0 <= fd <= largest)
    && (largest != -1 ==> largest in before && largest !in now)
  }

  lemma ShrunkStart(before: set<int>)
    ensures Shrunk(before, before, -1)
  {
  }

  lemma ShrunkMore(before: set<int>, now: set<int>, largest: int, removed: int)
    requires Shrunk(before, now, largest) && removed in now && removed >= 0
    ensures Shrunk(before, now - {removed}, if largest < removed then removed else largest)
  {
  }

  lemma ReadyCount(fds: seq<int>, serverFd: int, fdSet: set<int>, clientNum: int, ready: set<int>)
    requires Agree(fds, serverFd, fdSet, clientNum) && ready <= fdSet
    ensures |ready| == |ReadyIn(fds, ready)| + if serverFd in ready then 1 else 0
  {
    ReadyInCount(fds, ready);
    if serverFd in ready {
      assert ready == ready * Occupied(fds) + {serverFd};
    } else {
      assert ready == ready * Occupied(fds);
    }
  }

  lemma {:induction false} ReadyUpdated(fds: seq<int>, i: nat, fd: int, ready: set<int>)
    requires i < |fds| && fds[i] == FREE && fd !in ready
    ensures ReadyIn(fds[i := fd], ready) == ReadyIn(fds, ready)
  {
    if i > 0 {
      ReadyUpdated(fds[1..], i - 1, fd, ready);
      assert fds[i := fd][1..] == fds[1..][i - 1 := fd];
    } else {
      assert fds[i := fd][1..] == fds[1..];
    }
  }

  lemma ReadyAccepted(fds: seq<int>, fd: int, ready: set<int>)
    requires fd !in ready
    ensures ReadyIn(Accepted(fds, fd), ready) == ReadyIn(fds, ready)
  {
    if FirstFree(fds) < |fds| {
      ReadyUpdated(fds, FirstFree(fds), fd, ready);
    }
  }

  lemma ReadyBounded(fds: seq<int>, fdSet: set<int>, maxFd: int, maxPos: int, ready: set<int>)
    requires Bounds(fds, fdSet, maxFd, maxPos) && ReadyIn(fds, ready) != []
    ensures maxPos >= 0
  {
    NoneReady(fds, ready);
  }

  /** The first free slot, or the size of the table. */
  function FirstFree(fds: seq<int>): (i: nat)
    ensures i <= |fds| && (i < |fds| ==> fds[i] == FREE)
    ensures forall k :: 0 <= k < i ==> fds[k] != FREE
  {
    if fds == [] || fds[0] == FREE then 0 else 1 + FirstFree(fds[1..])
  }

  lemma FullTable(fds: seq<int>, fdSet: set<int>, maxFd: int, maxPos: int)
    requires FirstFree(fds) == |fds| > 0 && Bounds(fds, fdSet, maxFd, maxPos)
    ensures maxPos == |fds| - 1
  {
    assert fds[|fds| - 1] != FREE;
  }

  // ----- what a run does to the table, descriptor by descriptor -----

  /** A table without the server's descriptor, and a connection whose descriptor is not in use. */
  predicate Usable(fds: seq<int>, serverFd: int, e: Event) {
    serverFd != FREE && serverFd !in fds && e.acceptFd != FREE && e.acceptFd != serverFd && e.acceptFd !in fds
  }

  /**
    Every slot after a round: a client is removed if it was signalled and has gone, and a connection
    that is waiting gets the first slot that was free before the round.
  */
  lemma SlotAfterRound(fds: seq<int>, serverFd: int, e: Event, i: nat)
    requires Usable(fds, serverFd, e) && i < |fds|
    ensures |TableNext(fds, serverFd, e)| == |fds|
    ensures TableNext(fds, serverFd, e)[i]
         == if fds[i] != -1 then (if fds[i] in e.signalled && fds[i] in e.gone then -1 else fds[i])
            else if serverFd in e.signalled && -1 !in fds[..i] then e.acceptFd
            else -1
  {
    var ready := e.signalled * Watched(fds, serverFd);
    assert FREE !in ready && e.acceptFd !in ready;
    assert fds[i] != FREE ==> (fds[i] in ready <==> fds[i] in e.signalled);
    assert serverFd in ready <==> serverFd in e.signalled;
    FirstFreeExactly(fds, i);
    hide FirstFree, Watched;
  }

  lemma FirstFreeExactly(fds: seq<int>, i: nat)
    requires i < |fds|
    ensures i == FirstFree(fds) <==> fds[i] == -1 && -1 !in fds[..i]
  {
    var first := FirstFree(fds);
    if first < i {
      assert fds[..i][first] == -1;
    }
  }

  /** Who is in the table after a round. */
  lemma ClientsAfterRound(fds: seq<int>, serverFd: int, e: Event, x: int)
    requires Usable(fds, serverFd, e) && x != -1
    ensures x in TableNext(fds, serverFd, e)
            <==> (x in fds && !(x in e.signalled && x in e.gone))
                 || (x == e.acceptFd && serverFd in e.signalled && -1 in fds)
  {
    var next := TableNext(fds, serverFd, e);
    hide TableNext;
    if fds == [] {
      NoSlots(fds, serverFd, e);
    } else {
      SlotAfterRound(fds, serverFd, e, 0);
    }
    if x in next {
      var i: nat :| i < |next| && next[i] == x;
      SlotAfterRound(fds, serverFd, e, i);
    }
    if x in fds && !(x in e.signalled && x in e.gone) {
      var i: nat :| i < |fds| && fds[i] == x;
      SlotAfterRound(fds, serverFd, e, i);
    }
    if x == e.acceptFd && -1 in fds && serverFd in e.signalled {
      var first := FirstFree(fds);
      FirstFreeExactly(fds, first);
      SlotAfterRound(fds, serverFd, e, first);
    }
  }

  lemma NoSlots(fds: seq<int>, serverFd: int, e: Event)
    requires fds == []
    ensures TableNext(fds, serverFd, e) == []
  {
  }

  /** Still no descriptor twice, and none of the server's. */
  lemma UsableNext(fds: seq<int>, serverFd: int, e: Event)
    requires Usable(fds, serverFd, e) && Distinct(fds)
    ensures serverFd !in TableNext(fds, serverFd, e) && Distinct(TableNext(fds, serverFd, e))
  {
    var next := TableNext(fds, serverFd, e);
    ClientsAfterRound(fds, serverFd, e, serverFd);
    hide TableNext;
    forall i: nat, j: nat | i < j < |next| && next[i] != FREE ensures next[i] != next[j] {
      if fds == [] {
        NoSlots(fds, serverFd, e);
      } else {
        SlotAfterRound(fds, serverFd, e, 0);
        SlotAfterRound(fds, serverFd, e, i);
        SlotAfterRound(fds, serverFd, e, j);
      }
    }
  }

  /** The clients served in a round are those in the table that were signalled, once each. */
  lemma ClientsServed(fds: seq<int>, serverFd: int, e: Event)
    requires serverFd !in fds && Distinct(fds)
    ensures var served := ServedNext(fds, serverFd, e);
            && (forall x :: x in served <==> x != -1 && x in fds && x in e.signalled)
            && (forall i, j :: 0 <= i < j < |served| ==> served[i] != served[j])
  {
    var ready := e.signalled * Watched(fds, serverFd);
    assert ready * Occupied(fds) == e.signalled * Occupied(fds);
    ReadyInCount(fds, ready);
    ReadyOnce(fds, ready);
    if ready == {} {
      assert forall x :: x in fds && x != -1 ==> x in Occupied(fds);
    }
  }

  lemma {:induction false} ReadyOnce(fds: seq<int>, ready: set<int>)
    requires Distinct(fds)
    ensures var served := ReadyIn(fds, ready);
            && (forall x :: x in served ==> x in fds && x != FREE)
            && (forall i, j :: 0 <= i < j < |served| ==> served[i] != served[j])
  {
    if fds != [] {
      var rest := fds[1..];
      OccupiedCons(fds);
      ReadyOnce(rest, ready);
      var later := ReadyIn(rest, ready);
      assert fds == [fds[0]] + rest;
      forall x | x in later ensures x != fds[0] {
        assert x in Occupied(rest);
      }
      var served := ReadyIn(fds, ready);
      assert served == later || served == [fds[0]] + later;
      hide Occupied, Distinct, ReadyIn;
    }
  }

  /** The table before the k-th event. */
  function TableAt(fds: seq<int>, serverFd: int, events: seq<Event>, k: nat): seq<int>
    requires k <= |events|
  {
    TableAfter(fds, serverFd, events[..k])
  }

  lemma {:induction false} TableAtNext(fds: seq<int>, serverFd: int, events: seq<Event>, k: nat)
    requires k < |events|
    ensures TableAt(fds, serverFd, events, 0) == fds
    ensures TableAt(fds, serverFd, events, k + 1) == TableNext(TableAt(fds, serverFd, events, k), serverFd, events[k])
    decreases k
  {
    hide TableNext;
    if k == 0 {
      var next := TableNext(fds, serverFd, events[0]);
      assert events[..1][1..] == [] && TableAfter(next, serverFd, []) == next;
    } else {
      assert events[..k + 1][1..] == events[1..][..k] && events[..k][1..] == events[1..][..k - 1];
      TableAtNext(TableNext(fds, serverFd, events[0]), serverFd, events[1..], k - 1);
    }
  }

  lemma {:induction false} ServedAt(fds: seq<int>, serverFd: int, events: seq<Event>, k: nat)
    requires k < |events|
    ensures |ServedIn(fds, serverFd, events)| == |events|
    ensures ServedIn(fds, serverFd, events)[k] == ServedNext(TableAt(fds, serverFd, events, k), serverFd, events[k])
    decreases |events|
  {
    hide TableNext, ServedNext;
    if |events| > 1 {
      ServedAt(TableNext(fds, serverFd, events[0]), serverFd, events[1..], if k > 0 then k - 1 else 0);
      if k > 0 {
        assert events[..k][1..] == events[1..][..k - 1];
      }
    }
  }

  lemma {:induction false} UsableAt(fds: seq<int>, serverFd: int, events: seq<Event>, k: nat)
    requires serverFd >= 0 && serverFd !in fds && Distinct(fds) && Possible(fds, serverFd, events) && k <= |events|
    ensures serverFd !in TableAt(fds, serverFd, events, k) && Distinct(TableAt(fds, serverFd, events, k))
    ensures k < |events| ==> Usable(TableAt(fds, serverFd, events, k), serverFd, events[k])
    decreases k
  {
    hide TableNext, Distinct;
    if k > 0 {
      assert Usable(fds, serverFd, events[0]);
      UsableNext(fds, serverFd, events[0]);
      UsableAt(TableNext(fds, serverFd, events[0]), serverFd, events[1..], k - 1);
      assert events[..k][1..] == events[1..][..k - 1];
    }
  }

  /** From the k-th event on x is in the table: it was there at first, or the event before brought it. */
  predicate Joined(fds: seq<int>, serverFd: int, events: seq<Event>, k: nat, x: int)
    requires k <= |events|
  {
    if k == 0 then x in fds
    else
      var e := events[k - 1];
      x == e.acceptFd && serverFd in e.signalled && -1 in TableAt(fds, serverFd, events, k - 1)
  }

  predicate LeavesAt(e: Event, x: int) {
    x in e.signalled && x in e.gone
  }

  /** x has joined before event k and has not left between that and event n. */
  ghost predicate Stays(fds: seq<int>, serverFd: int, events: seq<Event>, k: nat, n: nat, x: int)
    requires k <= n <= |events|
  {
    Joined(fds, serverFd, events, k, x) && forall m :: k <= m < n ==> !LeavesAt(events[m], x)
  }

  /**
    Over every run of events: a client is in the table exactly if it was there at first or has been
    accepted while a slot was free, and has not been found gone since.
  */
  lemma {:induction false} ClientsOfRun(fds: seq<int>, serverFd: int, events: seq<Event>, n: nat, x: int)
    requires serverFd >= 0 && serverFd !in fds && Distinct(fds) && Possible(fds, serverFd, events)
    requires x != -1 && n <= |events|
    ensures x in TableAt(fds, serverFd, events, n)
            <==> exists k: nat :: k <= n && Stays(fds, serverFd, events, k, n, x)
    decreases n
  {
    hide TableNext, TableAfter, Possible, Distinct, LeavesAt;
    if n == 0 {
      TableAtStart(fds, serverFd, events);
      assert x in fds ==> Stays(fds, serverFd, events, 0, 0, x);
    } else {
      ClientsOfRun(fds, serverFd, events, n - 1, x);
      UsableAt(fds, serverFd, events, n - 1);
      TableAtNext(fds, serverFd, events, n - 1);
      var e := events[n - 1];
      ClientsOneMore(TableAt(fds, serverFd, events, n - 1), serverFd, e, x);
      hide TableAt, Usable, Joined;
      if x in TableAt(fds, serverFd, events, n - 1) && !LeavesAt(e, x) {
        var k: nat :| k <= n - 1 && Stays(fds, serverFd, events, k, n - 1, x);
        assert Stays(fds, serverFd, events, k, n, x);
      }
      JoinedBefore(fds, serverFd, events, n, x);
      if Joined(fds, serverFd, events, n, x) {
        assert Stays(fds, serverFd, events, n, n, x);
      }
      if exists k: nat :: k <= n && Stays(fds, serverFd, events, k, n, x) {
        var k: nat :| k <= n && Stays(fds, serverFd, events, k, n, x);
        if k < n {
          assert Stays(fds, serverFd, events, k, n - 1, x) && !LeavesAt(e, x);
        }
      }
    }
  }

  lemma JoinedBefore(fds: seq<int>, serverFd: int, events: seq<Event>, n: nat, x: int)
    requires 0 < n <= |events|
    ensures var e := events[n - 1];
            Joined(fds, serverFd, events, n, x)
            <==> x == e.acceptFd && serverFd in e.signalled && -1 in TableAt(fds, serverFd, events, n - 1)
  {
  }

  lemma TableAtStart(fds: seq<int>, serverFd: int, events: seq<Event>)
    ensures TableAt(fds, serverFd, events, 0) == fds
  {
  }

  lemma ClientsOneMore(fds: seq<int>, serverFd: int, e: Event, x: int)
    requires Usable(fds, serverFd, e) && x != -1
    ensures x in TableNext(fds, serverFd, e)
            <==> (x in fds && !LeavesAt(e, x)) || (x == e.acceptFd && serverFd in e.signalled && -1 in fds)
  {
    ClientsAfterRound(fds, serverFd, e, x);
  }

  /** In the k-th round of a run exactly the clients signalled are served, once each. */
  lemma ServedOfRun(fds: seq<int>, serverFd: int, events: seq<Event>, k: nat)
    requires serverFd >= 0 && serverFd !in fds && Distinct(fds) && Possible(fds, serverFd, events) && k < |events|
    ensures |ServedIn(fds, serverFd, events)| == |events|
    ensures var served := ServedIn(fds, serverFd, events)[k];
            && (forall x :: x in served <==>
                  x != -1 && x in TableAt(fds, serverFd, events, k) && x in events[k].signalled)
            && (forall i, j :: 0 <= i < j < |served| ==> served[i] != served[j])
  {
    hide ServedNext, TableAt, Possible, Distinct, ServedIn;
    ServedAt(fds, serverFd, events, k);
    UsableAt(fds, serverFd, events, k);
    ClientsServed(TableAt(fds, serverFd, events, k), serverFd, events[k]);
  }

  class IoSet {
    var readySet: set<int>
    var fdSet: set<int>
    var nReady: int
    var maxPos: int
    var maxFd: int
    const serverFd: int
    const clientFds: array<int>
    var clientNum: int

    /** What holds in the middle of a round as well. */
    ghost predicate Consistent()
      reads this, clientFds
    {
      clientFds.Length == FD_SIZE && Agree(clientFds[..], serverFd, fdSet, clientNum)
    }

    ghost predicate Valid()
      reads this, clientFds
    {
      Consistent() && Bounds(clientFds[..], fdSet, maxFd, maxPos)
    }

    constructor (listenFd: int)
      requires listenFd >= 0
      ensures Valid() && fresh(clientFds)
      ensures serverFd == listenFd && fdSet == {listenFd} && clientNum == 0 && maxPos == -1
    {
      readySet, nReady := {}, 0;
      fdSet := {listenFd};
      serverFd, maxFd := listenFd, listenFd;
      maxPos := -1;
      var fds := new int[FD_SIZE];
      clientFds := fds;
      clientNum := 0;
      new;
      for i := 0 to FD_SIZE
        modifies clientFds
        invariant forall k :: 0 <= k < i ==> clientFds[k] == FREE
      {
        clientFds[i] := FREE;
      }
      assert Occupied(clientFds[..]) == {};
    }

    /** Records a client in a free slot. */
    method Occupy(i: nat, clientFd: int)
      requires Valid() && clientFd >= 0 && clientFd !in fdSet && i < FD_SIZE && clientFds[i] == FREE
      modifies this`fdSet, this`maxPos, this`maxFd, this`clientNum, clientFds
      ensures Valid() && maxPos >= 0
      ensures clientFds[..] == old(clientFds[..])[i := clientFd]
      ensures fdSet == old(fdSet) + {clientFd} && clientNum == old(clientNum) + 1
      ensures maxPos == if i > old(maxPos) then i else old(maxPos)
    {
      hide Agree, Bounds, Occupied;
      ghost var fds := clientFds[..];
      AgreeTaken(fds, serverFd, fdSet, clientNum, i, clientFd);
      BoundsTaken(fds, fdSet, maxFd, maxPos, i, clientFd);
      clientFds[i] := clientFd;
      assert clientFds[..] == fds[i := clientFd];
      if i > maxPos {
        maxPos := i;
      }
      fdSet := fdSet + {clientFd};
      if clientFd > maxFd {
        maxFd := clientFd;
      }
      clientNum := clientNum + 1;
    }

    /** Puts a client into the first free slot; -1 if there is none. */
    method AddClient(clientFd: int) returns (r: int)
      requires Valid() && clientFd >= 0 && clientFd !in fdSet
      modifies this`fdSet, this`nReady, this`maxPos, this`maxFd, this`clientNum, clientFds
      ensures Valid() && nReady == old(nReady) - 1 && maxPos >= 0
      ensures var fds := old(clientFds[..]); var i := FirstFree(fds);
              if i < FD_SIZE
              then r == 0 && clientFds[..] == fds[i := clientFd]
                   && fdSet == old(fdSet) + {clientFd} && clientNum == old(clientNum) + 1
                   && maxPos == (if i > old(maxPos) then i else old(maxPos))
              else r == -1 && clientFds[..] == fds && fdSet == old(fdSet) && clientNum == old(clientNum)
                   && maxPos == old(maxPos) && maxFd == old(maxFd)
    {
      hide Agree, Bounds, Occupied;
      nReady := nReady - 1;
      ghost var fds := clientFds[..];
      assert fds[0..] == fds;
      for i := 0 to FD_SIZE
        invariant FirstFree(fds) == i + FirstFree(fds[i..])
      {
        assert fds[i..][1..] == fds[i + 1..];
        if clientFds[i] == FREE {
          Occupy(i, clientFd);
          return 0;
        }
      }
      FullTable(fds, fdSet, maxFd, maxPos);
      r := -1;
    }

    /**
      Serves the client in slot i if it is ready; one whose connection has ended (`gone`) is closed
      and taken out of the table. Returns the descriptor served and the one removed, or FREE.
    */
    method ServeSlot(i: nat, gone: set<int>) returns (served: int, removed: int)
      requires Consistent() && i < FD_SIZE
      modifies this`nReady, this`fdSet, this`clientNum, clientFds
      ensures Consistent()
      ensures served == (if old(clientFds[i]) in readySet then old(clientFds[i]) else FREE)
      ensures removed == (if served in gone then served else FREE)
      ensures nReady == old(nReady) - (if served != FREE then 1 else 0)
      ensures if removed == FREE
              then clientFds[..] == old(clientFds[..]) && fdSet == old(fdSet)
              else clientFds[..] == old(clientFds[..])[i := FREE] && fdSet == old(fdSet) - {removed}
                   && removed in old(fdSet) && removed >= 0
    {
      hide Agree;
      served, removed := FREE, FREE;
      var clientFd := clientFds[i];
      if clientFd != FREE && clientFd in readySet {
        nReady := nReady - 1;
        served := clientFd;
        if clientFd in gone {
          AgreeFreed(clientFds[..], serverFd, fdSet, clientNum, i);
          clientFds[i] := FREE;
          assert clientFds[..] == old(clientFds[..])[i := FREE];
          fdSet := fdSet - {clientFd};
          removed := clientFd;
          clientNum := clientNum - 1;
        }
      }
    }

    /** Serves every ready client once, in slot order, and takes out those that are gone. */
    method ServeReady(gone: set<int>) returns (served: seq<int>, lastPos: int, largest: int)
      requires Valid() && nReady == |ReadyIn(clientFds[..], readySet)|
      modifies this`nReady, this`fdSet, this`clientNum, clientFds
      ensures Consistent() && nReady == 0
      ensures served == ReadyIn(old(clientFds[..]), readySet)
      ensures clientFds[..] == Kept(old(clientFds[..]), readySet * gone)
      ensures Last(old(clientFds[..]), readySet * gone, |clientFds[..]|, lastPos)
      ensures Shrunk(old(fdSet), fdSet, largest)
    {
      hide Agree, Bounds, Progress, Last, Shrunk, Kept, ReadyIn;
      ghost var fds, set0, leaving := clientFds[..], fdSet, readySet * gone;
      lastPos, largest, served := -1, -1, [];
      var i := 0;
      assert fds[0..] == fds;
      ProgressStart(fds, leaving);
      ShrunkStart(set0);
      BoundsRange(fds, fdSet, maxFd, maxPos);
      while i <= maxPos && nReady != 0
        invariant Consistent() && 0 <= i && i <= maxPos + 1 <= FD_SIZE
        invariant Progress(fds, clientFds[..], leaving, i, lastPos)
        invariant served + ReadyIn(fds[i..], readySet) == ReadyIn(fds, readySet)
        invariant nReady == |ReadyIn(fds[i..], readySet)|
        invariant Shrunk(set0, fdSet, largest)
        decreases maxPos - i
      {
        ghost var now, setNow := clientFds[..], fdSet;
        ReadyInStep(fds, served, i, readySet);
        ProgressStep(fds, now, leaving, i, lastPos);
        var one, removed := ServeSlot(i, gone);
        if one != FREE {
          served := served + [one];
        }
        if removed != FREE {
          ShrunkMore(set0, setNow, largest, removed);
          lastPos := i;
          if largest < removed {
            largest := removed;
          }
        }
        i := i + 1;
      }
      if nReady != 0 {
        NoneBehind(fds, set0, maxFd, maxPos, readySet);
      }
      ProgressEnd(fds, clientFds[..], readySet, leaving, i, lastPos);
    }

    /** The largest watched descriptor, found again after it may have been removed. */
    method FindMaxFd()
      requires Consistent() && Behind(clientFds[..], maxPos)
      modifies this`maxFd
      ensures Consistent() && Bounds(clientFds[..], fdSet, maxFd, maxPos)
    {
      hide Agree, Bounds, Behind;
      ghost var fds := clientFds[..];
      maxFd := serverFd;
      LargestStart(fds, serverFd);
      BehindRange(fds, maxPos);
      for i := 0 to maxPos + 1
        invariant Consistent() && clientFds[..] == fds && Largest(fds, serverFd, i, maxFd)
      {
        var clientFd := clientFds[i];
        if maxFd < clientFd {
          maxFd := clientFd;
        }
      }
      LargestIsBound(fds, serverFd, fdSet, clientNum, maxPos, maxFd);
    }

    /** Brings maxPos and maxFd up to date after the removal of clients. */
    method Update(lastPos: int, removedFd: int, ghost fds: seq<int>, ghost set0: set<int>, ghost leaving: set<int>)
      requires Consistent() && Bounds(fds, set0, maxFd, maxPos) && maxPos >= 0
      requires clientFds[..] == Kept(fds, leaving) && Last(fds, leaving, |fds|, lastPos)
      requires Shrunk(set0, fdSet, removedFd)
      modifies this`maxPos, this`maxFd
      ensures Valid()
      ensures maxPos == old(maxPos) - if Leaves(fds, leaving, old(maxPos)) then 1 else 0
    {
      hide Agree, Bounds, Kept, Last, Shrunk, Behind, Leaves;
      BehindKept(fds, set0, maxFd, maxPos, leaving, lastPos);
      if lastPos == maxPos {
        maxPos := maxPos - 1;
      }
      if removedFd == maxFd {
        FindMaxFd();
      } else {
        StillLargest(fds, set0, maxFd, old(maxPos), clientFds[..], fdSet, removedFd, maxPos);
      }
    }

    /** Serves every ready client once, removes those that are gone, and keeps the table's bounds. */
    method CheckClients(gone: set<int>) returns (served: seq<int>)
      requires Valid() && maxPos >= 0 && nReady == |ReadyIn(clientFds[..], readySet)|
      modifies this`nReady, this`fdSet, this`clientNum, this`maxPos, this`maxFd, clientFds
      ensures Valid() && nReady == 0
      ensures served == ReadyIn(old(clientFds[..]), readySet)
      ensures clientFds[..] == Kept(old(clientFds[..]), readySet * gone)
      ensures maxPos == old(maxPos) - if Leaves(old(clientFds[..]), readySet * gone, old(maxPos)) then 1 else 0
    {
      hide Agree, Bounds, Kept, Last, Shrunk, ReadyIn, Leaves;
      ghost var fds, set0 := clientFds[..], fdSet;
      var lastPos, largest;
      served, lastPos, largest := ServeReady(gone);
      Update(lastPos, largest, fds, set0, readySet * gone);
    }

    /**
      One round of the main loop: `ready` is what select reports, acceptFd the descriptor accept
      returns if a connection is waiting, and `gone` the clients whose connection has ended.
    */
    method Round(ready: set<int>, acceptFd: int, gone: set<int>) returns (served: seq<int>)
      requires Valid() && ready != {} && ready <= fdSet && acceptFd >= 0 && acceptFd !in fdSet
      modifies this, clientFds
      ensures Valid() && nReady == 0
      ensures served == ReadyIn(old(clientFds[..]), ready)
      ensures clientFds[..] == Kept(
        if serverFd in ready then Accepted(old(clientFds[..]), acceptFd) else old(clientFds[..]), ready * gone)
    {
      hide Agree, Bounds, Kept, ReadyIn, FirstFree;
      ghost var fds := clientFds[..];
      readySet := ready;
      nReady := |ready|;
      ReadyCount(fds, serverFd, fdSet, clientNum, ready);
      if serverFd in ready {
        var r := AddClient(acceptFd);
        ReadyAccepted(fds, acceptFd, ready);
      } else {
        ReadyBounded(fds, fdSet, maxFd, maxPos, ready);
      }
      served := CheckClients(gone);
    }

    /** The main loop over a run of events; a round in which nothing is ready changes nothing. */
    method Serve(events: seq<Event>) returns (served: seq<seq<int>>)
      requires Valid() && Possible(clientFds[..], serverFd, events)
      modifies this, clientFds
      ensures Valid()
      ensures clientFds[..] == TableAfter(old(clientFds[..]), serverFd, events)
      ensures served == ServedIn(old(clientFds[..]), serverFd, events)
    {
      hide Agree, Bounds, Kept, ReadyIn, FirstFree, Watched, Occupied, Accepted, TableAfter, ServedIn, Possible;
      ghost var fds := clientFds[..];
      RunEnds(fds, serverFd, events);
      served := [];
      for n := 0 to |events|
        invariant Valid() && Possible(clientFds[..], serverFd, events[n..])
        invariant TableAfter(fds, serverFd, events) == TableAfter(clientFds[..], serverFd, events[n..])
        invariant ServedIn(fds, serverFd, events) == served + ServedIn(clientFds[..], serverFd, events[n..])
      {
        RunStep(clientFds[..], serverFd, events, n);
        SetIsWatched(clientFds[..], serverFd, fdSet, clientNum);
        var ready := events[n].signalled * fdSet;
        var one := [];
        if ready != {} {
          one := Round(ready, events[n].acceptFd, events[n].gone);
        }
        served := served + [one];
      }
      RunEnds(clientFds[..], serverFd, events);
    }
  }
}
