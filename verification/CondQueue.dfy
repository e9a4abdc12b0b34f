/**
  The player's unbounded packet queue: a vector with size and duration totals behind a mutex, and
  a condition variable on which blocking consumers sleep while the vector is empty. Any number of
  threads may enqueue, dequeue (blocking or not) and flush, in any interleaving.
*/
module CondQueue {
  import opened Bytes
  import opened Counting

  datatype Packet = Packet(size: int, duration: int)

  /** Where a thread is. Every state but Idle, Sleeping and Woken holds the mutex. */
  datatype Phase =
    | Idle
    | Enqueuing(packet: Packet)              // about to append
    | Added                                  // about to signal
    | Checking(block: bool, signalled: bool) // at the head of the dequeue loop; signalled if it has been woken
    | Sleeping                               // in the wait, mutex given up
    | Woken                                  // signalled, waiting for the mutex
    | Flushing                               // about to clear
    | Leaving                                // about to unlock

  /** `appended` and `removed` record the history of the vector; flushed packets count as removed. */
  datatype State = State(data: seq<Packet>, size: int, duration: int, mutex: Option<nat>, threads: seq<Phase>,
                         appended: seq<Packet>, removed: seq<Packet>)

  ghost predicate Init(s: State) {
    && s.data == [] && s.size == 0 && s.duration == 0 && s.mutex == None && s.appended == [] && s.removed == []
    && forall i :: 0 <= i < |s.threads| ==> s.threads[i] == Idle
  }

  function At(s: State, i: nat, phase: Phase): (threads: seq<Phase>)
    requires i < |s.threads|
    ensures |threads| == |s.threads|
  {
    s.threads[i := phase]
  }

  /** An idle thread takes the mutex for one of the three operations. */
  ghost predicate Enter(s: State, s': State, i: nat)
    requires i < |s.threads|
  {
    && s.threads[i] == Idle && s.mutex == None
    && ((exists packet :: s' == s.(mutex := Some(i), threads := At(s, i, Enqueuing(packet))))
        || (exists block :: s' == s.(mutex := Some(i), threads := At(s, i, Checking(block, false))))
        || s' == s.(mutex := Some(i), threads := At(s, i, Flushing)))
  }

  ghost predicate Append(s: State, s': State, i: nat)
    requires i < |s.threads|
  {
    && s.threads[i].Enqueuing?
    && var p := s.threads[i].packet;
       s' == s.(size := s.size + p.size, duration := s.duration + p.duration, data := s.data + [p],
                appended := s.appended + [p], threads := At(s, i, Added))
  }

  ghost predicate IsSleeping(s: State, j: nat) {
    j < |s.threads| && s.threads[j] == Sleeping
  }

  /** The signal wakes one sleeping consumer, or is lost if there is none. */
  ghost predicate Signal(s: State, s': State, i: nat)
    requires i < |s.threads|
  {
    && s.threads[i] == Added
    && var left := s.(threads := At(s, i, Leaving));
       if exists j: nat :: IsSleeping(s, j)
       then exists j: nat :: IsSleeping(s, j) && s' == left.(threads := left.threads[j := Woken])
       else s' == left
  }

  /** The loop head of `dequeue`: take the first packet, give up, or wait and release the mutex. */
  ghost predicate Check(s: State, s': State, i: nat)
    requires i < |s.threads|
  {
    && s.threads[i].Checking?
    && if s.data != [] then
         var p := s.data[0];
         s' == s.(size := s.size - p.size, duration := s.duration - p.duration, data := s.data[1..],
                  removed := s.removed + [p], threads := At(s, i, Leaving))
       else if s.threads[i].block then s' == s.(mutex := None, threads := At(s, i, Sleeping))
       else s' == s.(threads := At(s, i, Leaving))
  }

  /** A wait may also end without a signal. */
  ghost predicate WakeUnasked(s: State, s': State, i: nat)
    requires i < |s.threads|
  {
    s.threads[i] == Sleeping && s' == s.(threads := At(s, i, Woken))
  }

  ghost predicate Reacquire(s: State, s': State, i: nat)
    requires i < |s.threads|
  {
    s.threads[i] == Woken && s.mutex == None && s' == s.(mutex := Some(i), threads := At(s, i, Checking(true, true)))
  }

  ghost predicate Flush(s: State, s': State, i: nat)
    requires i < |s.threads|
  {
    && s.threads[i] == Flushing
    && s' == s.(size := 0, duration := 0, data := [], removed := s.removed + s.data, threads := At(s, i, Leaving))
  }

  ghost predicate Leave(s: State, s': State, i: nat)
    requires i < |s.threads|
  {
    s.threads[i] == Leaving && s' == s.(mutex := None, threads := At(s, i, Idle))
  }

  ghost predicate Step(s: State, s': State, i: nat) {
    && i < |s.threads|
    && (Enter(s, s', i) || Append(s, s', i) || Signal(s, s', i) || Check(s, s', i)
        || WakeUnasked(s, s', i) || Reacquire(s, s', i) || Flush(s, s', i) || Leave(s, s', i))
  }

  // ----- invariants -----

  function Sizes(data: seq<Packet>): int {
    if data == [] then 0 else data[0].size + Sizes(data[1..])
  }

  function Durations(data: seq<Packet>): int {
    if data == [] then 0 else data[0].duration + Durations(data[1..])
  }

  lemma {:induction false} TotalsAppend(data: seq<Packet>, p: Packet)
    ensures Sizes(data + [p]) == Sizes(data) + p.size
    ensures Durations(data + [p]) == Durations(data) + p.duration
  {
    if data == [] {
      assert data + [p] == [p];
      assert [p][1..] == data;
    } else {
      assert (data + [p])[1..] == data[1..] + [p];
      TotalsAppend(data[1..], p);
    }
  }

  ghost predicate Totals(s: State) {
    s.size == Sizes(s.data) && s.duration == Durations(s.data) && s.appended == s.removed + s.data
  }

  ghost predicate HasMutex(t: Phase) {
    t != Idle && t != Sleeping && t != Woken
  }

  ghost predicate MutexOwned(s: State) {
    && (s.mutex.Some? ==> s.mutex.value < |s.threads|)
    && forall i :: 0 <= i < |s.threads| ==> (HasMutex(s.threads[i]) <==> s.mutex == Some(i))
  }

  /** Consumers that have been woken and have not looked at the vector since. */
  function Signalled(): Phase -> bool {
    (t: Phase) => t == Woken || (t.Checking? && t.signalled)
  }

  /** A packet has been appended and its signal is still to come. */
  function Signalling(): Phase -> bool {
    (t: Phase) => t == Added
  }

  /** As long as somebody sleeps, every packet has a woken consumer or a signal on its way. */
  ghost predicate NoLostWakeup(s: State) {
    (exists j: nat :: IsSleeping(s, j)) ==> |s.data| <= Count(s.threads, Signalled()) + Count(s.threads, Signalling())
  }

  ghost predicate Inv(s: State) {
    Totals(s) && MutexOwned(s) && NoLostWakeup(s)
  }

  lemma StepTotals(s: State, s': State, i: nat)
    requires Totals(s) && Step(s, s', i)
    ensures Totals(s')
  {
    if Append(s, s', i) {
      TotalsAppend(s.data, s.threads[i].packet);
      AppendAssoc(s.removed, s.data, [s.threads[i].packet]);
    } else if Check(s, s', i) && s.data != [] {
      assert s.data == [s.data[0]] + s.data[1..];
      AppendAssoc(s.removed, [s.data[0]], s.data[1..]);
    } else if Flush(s, s', i) {
      assert (s.removed + s.data) + [] == s.removed + s.data;
    }
  }

  lemma StepMutex(s: State, s': State, i: nat)
    requires MutexOwned(s) && Step(s, s', i)
    ensures MutexOwned(s')
  {
    if Signal(s, s', i) && exists j: nat :: IsSleeping(s, j) {
      var j: nat :| IsSleeping(s, j) && s'.threads == At(s, i, Leaving)[j := Woken];
      assert s'.mutex == s.mutex;
    } else {
      assert s'.threads == s.threads[i := s'.threads[i]];
      assert HasMutex(s.threads[i]) || HasMutex(s'.threads[i]) ==> s.mutex == None || s.mutex == Some(i);
    }
  }

  lemma CountsAfter(threads: seq<Phase>, i: nat, t: Phase)
    requires i < |threads|
    ensures var ts := threads[i := t];
            && Count(ts, Signalled()) + One(Signalled()(threads[i]))
               == Count(threads, Signalled()) + One(Signalled()(t))
            && Count(ts, Signalling()) + One(Signalling()(threads[i]))
               == Count(threads, Signalling()) + One(Signalling()(t))
  {
    CountUpdate(threads, i, t, Signalled());
    CountUpdate(threads, i, t, Signalling());
  }

  lemma StillSleeping(s: State, s': State, j: nat)
    requires IsSleeping(s', j) && |s.threads| == |s'.threads| && s.threads[j] == s'.threads[j]
    ensures exists k: nat :: IsSleeping(s, k)
  {
    assert IsSleeping(s, j);
  }

  /** A signal with a sleeper: the packet whose signal was pending now has a woken consumer. */
  lemma SignalWakeup(s: State, s': State, i: nat)
    requires NoLostWakeup(s) && i < |s.threads| && Signal(s, s', i)
    ensures NoLostWakeup(s')
  {
    var threads := At(s, i, Leaving);
    CountsAfter(s.threads, i, Leaving);
    if exists j: nat :: IsSleeping(s, j) {
      var j: nat :| IsSleeping(s, j) && s'.threads == threads[j := Woken];
      CountsAfter(threads, j, Woken);
    } else {
      forall j: nat ensures !IsSleeping(s', j) {
        if IsSleeping(s', j) {
          assert s.threads[j] == s'.threads[j];
          assert IsSleeping(s, j);
        }
      }
    }
  }

  /** Every other step changes one thread. */
  lemma OtherWakeup(s: State, s': State, i: nat)
    requires NoLostWakeup(s) && Step(s, s', i) && !Signal(s, s', i)
    ensures NoLostWakeup(s')
  {
    CountsAfter(s.threads, i, s'.threads[i]);
    hide Count;
    assert s'.threads == s.threads[i := s'.threads[i]];
    if exists j: nat :: IsSleeping(s', j) {
      var j: nat :| IsSleeping(s', j);
      if j != i {
        StillSleeping(s, s', j);
      }
    }
  }

  lemma InitInv(s: State)
    requires Init(s)
    ensures Inv(s)
  {
    forall j: nat ensures !IsSleeping(s, j) {
    }
  }

  lemma StepInv(s: State, s': State, i: nat)
    requires Inv(s) && Step(s, s', i)
    ensures Inv(s')
  {
    StepTotals(s, s', i);
    StepMutex(s, s', i);
    if Signal(s, s', i) {
      SignalWakeup(s, s', i);
    } else {
      OtherWakeup(s, s', i);
    }
  }

  // ----- runs -----

  ghost predicate Run(states: seq<State>, movers: seq<nat>) {
    && |states| == |movers| + 1
    && Init(states[0])
    && forall k :: 0 <= k < |movers| ==> Step(states[k], states[k + 1], movers[k])
  }

  /** In every reachable state the totals are the sums over the queue, the order is FIFO and no wake-up is lost. */
  lemma {:induction false} RunInv(states: seq<State>, movers: seq<nat>, k: nat)
    requires Run(states, movers) && k < |states|
    ensures Inv(states[k])
  {
    if k == 0 {
      InitInv(states[0]);
    } else {
      RunInv(states, movers, k - 1);
      assert Step(states[k - 1], states[k], movers[k - 1]);
      StepInv(states[k - 1], states[k], movers[k - 1]);
    }
  }

  /**
    While the mutex is free and a consumer sleeps, the queue holds no more packets than there are
    woken consumers; so with a packet in the queue some consumer is awake and can take it.
  */
  lemma SleepersAreSafe(s: State, j: nat)
    requires Inv(s) && s.mutex == None && IsSleeping(s, j)
    ensures |s.data| <= Count(s.threads, WokenOnly())
    ensures s.data != [] ==> exists i :: 0 <= i < |s.threads| && s.threads[i] == Woken
  {
    forall i | 0 <= i < |s.threads| ensures !HasMutex(s.threads[i]) {
    }
    CountNone(s.threads, Signalling());
    CountSame(s.threads);
    if s.data != [] && !exists i :: 0 <= i < |s.threads| && s.threads[i] == Woken {
      CountNone(s.threads, WokenOnly());
    }
  }

  function WokenOnly(): Phase -> bool {
    (t: Phase) => t == Woken
  }

  lemma {:induction false} CountSame(threads: seq<Phase>)
    requires forall i :: 0 <= i < |threads| ==> !HasMutex(threads[i])
    ensures Count(threads, Signalled()) == Count(threads, WokenOnly())
  {
    if threads != [] {
      CountSame(threads[1..]);
    }
  }

  // ----- what blocking means -----

  /** Inside a dequeue that was called with block set. */
  predicate InBlocking(t: Phase) {
    t == Sleeping || t == Woken || (t.Checking? && t.block)
  }

  /** Thread i takes the first packet out of the queue. */
  ghost predicate Takes(s: State, s': State, i: nat) {
    && i < |s.threads| == |s'.threads| && s.data != [] && s.mutex == Some(i)
    && s'.data == s.data[1..] && s'.removed == s.removed + [s.data[0]] && s'.threads[i] == Leaving
  }

  lemma BlockingStep(s: State, s': State, i: nat, m: nat)
    requires Inv(s) && Step(s, s', m) && i < |s.threads| && InBlocking(s.threads[i])
    ensures |s'.threads| == |s.threads|
    ensures InBlocking(s'.threads[i]) || (m == i && Takes(s, s', i))
  {
    hide Count;
    assert HasMutex(s.threads[m]) ==> s.mutex == Some(m);
    if Signal(s, s', m) && exists j: nat :: IsSleeping(s, j) {
      var j: nat :| IsSleeping(s, j) && s'.threads == At(s, m, Leaving)[j := Woken];
    } else {
      assert s'.threads == s.threads[m := s'.threads[m]];
    }
  }

  /** A dequeue called with block set ends only with a packet that its thread has taken out of the queue. */
  lemma {:induction false} BlockingGetsPacket(states: seq<State>, movers: seq<nat>, i: nat, a: nat, b: nat)
    requires Run(states, movers) && a <= b < |states|
    requires i < |states[a].threads| && InBlocking(states[a].threads[i])
    ensures i < |states[b].threads|
    ensures InBlocking(states[b].threads[i])
            || exists k :: a <= k < b && movers[k] == i && Takes(states[k], states[k + 1], i)
    decreases b - a
  {
    if a < b {
      RunInv(states, movers, a);
      assert Step(states[a], states[a + 1], movers[a]);
      BlockingStep(states[a], states[a + 1], i, movers[a]);
      SameThreads(states, movers, a, b);
      if InBlocking(states[a + 1].threads[i]) {
        BlockingGetsPacket(states, movers, i, a + 1, b);
      } else {
        assert Takes(states[a], states[a + 1], i);
      }
    }
  }

  lemma {:induction false} SameThreads(states: seq<State>, movers: seq<nat>, a: nat, b: nat)
    requires Run(states, movers) && a <= b < |states|
    ensures |states[b].threads| == |states[a].threads|
    decreases b - a
  {
    if a < b {
      SameThreads(states, movers, a, b - 1);
      assert Step(states[b - 1], states[b], movers[b - 1]);
    }
  }

  // ----- no deadlock -----

  /** Some thread has a step, wake-ups without a signal left aside. */
  ghost predicate SomeoneCanMove(s: State) {
    exists s': State, i: nat :: Step(s, s', i) && !WakeUnasked(s, s', i)
  }

  /** A step of a thread that holds the mutex, or of one that takes it. */
  lemma ThreadMoves(s: State, i: nat)
    requires i < |s.threads| && s.threads[i] != Sleeping
    requires HasMutex(s.threads[i]) || s.mutex == None
    ensures SomeoneCanMove(s)
  {
    var t := s.threads[i];
    match t
    case Idle => ByStep(s, s.(mutex := Some(i), threads := At(s, i, Flushing)), i);
    case Enqueuing(p) =>
      ByStep(s, s.(size := s.size + p.size, duration := s.duration + p.duration, data := s.data + [p],
                   appended := s.appended + [p], threads := At(s, i, Added)), i);
    case Added =>
      var left := s.(threads := At(s, i, Leaving));
      if exists j: nat :: IsSleeping(s, j) {
        var j: nat :| IsSleeping(s, j);
        ByStep(s, left.(threads := left.threads[j := Woken]), i);
      } else {
        ByStep(s, left, i);
      }
    case Checking(block, _) =>
      if s.data != [] {
        var p := s.data[0];
        ByStep(s, s.(size := s.size - p.size, duration := s.duration - p.duration, data := s.data[1..],
                     removed := s.removed + [p], threads := At(s, i, Leaving)), i);
      } else if block {
        ByStep(s, s.(mutex := None, threads := At(s, i, Sleeping)), i);
      } else {
        ByStep(s, s.(threads := At(s, i, Leaving)), i);
      }
    case Woken => ByStep(s, s.(mutex := Some(i), threads := At(s, i, Checking(true, true))), i);
    case Flushing =>
      ByStep(s, s.(size := 0, duration := 0, data := [], removed := s.removed + s.data,
                   threads := At(s, i, Leaving)), i);
    case Leaving => ByStep(s, s.(mutex := None, threads := At(s, i, Idle)), i);
  }

  /** What a thread that is not in an operation can begin, and that a sleeper may wake up unasked. */
  lemma Begins(s: State, i: nat, packet: Packet, block: bool)
    requires i < |s.threads|
    ensures s.threads[i] == Idle && s.mutex == None ==>
              && Step(s, s.(mutex := Some(i), threads := s.threads[i := Enqueuing(packet)]), i)
              && Step(s, s.(mutex := Some(i), threads := s.threads[i := Checking(block, false)]), i)
              && Step(s, s.(mutex := Some(i), threads := s.threads[i := Flushing]), i)
    ensures s.threads[i] == Sleeping ==> Step(s, s.(threads := s.threads[i := Woken]), i)
  {
  }

  lemma ByStep(s: State, s': State, i: nat)
    requires Step(s, s', i) && !WakeUnasked(s, s', i)
    ensures SomeoneCanMove(s)
  {
  }

  /** No thread can move exactly when all of them sleep, and then the queue is empty. */
  lemma StuckExactly(s: State)
    requires Inv(s)
    ensures SomeoneCanMove(s) <==> exists i :: 0 <= i < |s.threads| && s.threads[i] != Sleeping
    ensures s.threads != [] && !SomeoneCanMove(s) ==> s.data == []
  {
    if exists i :: 0 <= i < |s.threads| && s.threads[i] != Sleeping {
      var i :| 0 <= i < |s.threads| && s.threads[i] != Sleeping;
      if s.mutex.Some? {
        ThreadMoves(s, s.mutex.value);
      } else {
        ThreadMoves(s, i);
      }
    } else if s.threads != [] {
      assert IsSleeping(s, 0);
      CountNone(s.threads, Signalled());
      CountNone(s.threads, Signalling());
    }
  }
}
