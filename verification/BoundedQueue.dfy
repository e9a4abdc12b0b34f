/**
  The player's bounded packet queue: a vector behind a mutex, with one semaphore counting free
  slots and one counting items. The two operations are cut into their atomic steps; any number
  of producers and consumers may interleave them in any order.
*/
module BoundedQueue {
  import opened Bytes
  import opened Counting

  type Packet = int

  /** Where a thread is in `enqueue` or `dequeue`. */
  datatype Phase =
    | Waiting   // before its semaphore: slots for a producer, items for a consumer
    | Granted   // past the semaphore, before the mutex
    | Holding   // has the mutex, has not touched the vector
    | Finished  // has the mutex, has changed the vector
    | Released  // has given the mutex back, before posting the other semaphore

  datatype Thread = Producer(phase: Phase) | Consumer(phase: Phase)

  /** `appended` and `removed` record the history of the vector. */
  datatype State = State(slots: nat, items: nat, mutex: Option<nat>, data: seq<Packet>, threads: seq<Thread>,
                         appended: seq<Packet>, removed: seq<Packet>)

  ghost predicate Init(s: State, capacity: nat) {
    && s.slots == capacity && s.items == 0 && s.mutex == None && s.data == []
    && s.appended == [] && s.removed == []
    && forall i :: 0 <= i < |s.threads| ==> s.threads[i].phase == Waiting
  }

  function At(s: State, i: nat, phase: Phase): (threads: seq<Thread>)
    requires i < |s.threads|
    ensures |threads| == |s.threads|
  {
    s.threads[i := s.threads[i].(phase := phase)]
  }

  /** One step of thread i. A dequeue that times out on its semaphore changes nothing. */
  ghost predicate Step(s: State, s': State, i: nat, packet: Packet) {
    i < |s.threads| &&
    match s.threads[i]
    case Producer(Waiting) => s.slots > 0 && s' == s.(slots := s.slots - 1, threads := At(s, i, Granted))
    case Producer(Granted) => s.mutex == None && s' == s.(mutex := Some(i), threads := At(s, i, Holding))
    case Producer(Holding) =>
      s' == s.(data := s.data + [packet], appended := s.appended + [packet], threads := At(s, i, Finished))
    case Producer(Finished) => s' == s.(mutex := None, threads := At(s, i, Released))
    case Producer(Released) => s' == s.(items := s.items + 1, threads := At(s, i, Waiting))
    case Consumer(Waiting) =>
      s' == s || (s.items > 0 && s' == s.(items := s.items - 1, threads := At(s, i, Granted)))
    case Consumer(Granted) => s.mutex == None && s' == s.(mutex := Some(i), threads := At(s, i, Holding))
    case Consumer(Holding) =>
      s.data != [] && s' == s.(data := s.data[1..], removed := s.removed + [s.data[0]], threads := At(s, i, Finished))
    case Consumer(Finished) => s' == s.(mutex := None, threads := At(s, i, Released))
    case Consumer(Released) => s' == s.(slots := s.slots + 1, threads := At(s, i, Waiting))
  }

  // ----- what is in flight -----

  /** A slot has been taken and nothing has been appended yet. */
  function Reserving(): Thread -> bool {
    (t: Thread) => t.Producer? && (t.phase == Granted || t.phase == Holding)
  }

  /** Appended, but the item has not been announced yet. */
  function Announcing(): Thread -> bool {
    (t: Thread) => t.Producer? && (t.phase == Finished || t.phase == Released)
  }

  /** Entitled to an item that is still in the vector. */
  function Claiming(): Thread -> bool {
    (t: Thread) => t.Consumer? && (t.phase == Granted || t.phase == Holding)
  }

  /** Removed, but the slot has not been given back yet. */
  function Returning(): Thread -> bool {
    (t: Thread) => t.Consumer? && (t.phase == Finished || t.phase == Released)
  }

  ghost predicate HasMutex(t: Thread) {
    t.phase == Holding || t.phase == Finished
  }

  /**
    Every slot is free, reserved, occupied or about to be returned; every packet is announced,
    claimed or about to be announced.
  */
  ghost predicate Conserved(s: State, capacity: nat) {
    && s.slots + Count(s.threads, Reserving()) + |s.data| + Count(s.threads, Returning()) == capacity
    && |s.data| == s.items + Count(s.threads, Announcing()) + Count(s.threads, Claiming())
  }

  ghost predicate MutexOwned(s: State) {
    && (s.mutex.Some? ==> s.mutex.value < |s.threads|)
    && forall i :: 0 <= i < |s.threads| ==> (HasMutex(s.threads[i]) <==> s.mutex == Some(i))
  }

  ghost predicate Inv(s: State, capacity: nat) {
    Conserved(s, capacity) && MutexOwned(s) && s.appended == s.removed + s.data
  }

  lemma InitInv(s: State, capacity: nat)
    requires Init(s, capacity)
    ensures Inv(s, capacity)
  {
    CountNone(s.threads, Reserving());
    CountNone(s.threads, Announcing());
    CountNone(s.threads, Claiming());
    CountNone(s.threads, Returning());
  }

  lemma CountsAfter(s: State, i: nat, phase: Phase)
    requires i < |s.threads|
    ensures var t, t', ts := s.threads[i], s.threads[i].(phase := phase), At(s, i, phase);
            && Count(ts, Reserving()) + One(Reserving()(t)) == Count(s.threads, Reserving()) + One(Reserving()(t'))
            && Count(ts, Announcing()) + One(Announcing()(t)) == Count(s.threads, Announcing()) + One(Announcing()(t'))
            && Count(ts, Claiming()) + One(Claiming()(t)) == Count(s.threads, Claiming()) + One(Claiming()(t'))
            && Count(ts, Returning()) + One(Returning()(t)) == Count(s.threads, Returning()) + One(Returning()(t'))
  {
    var t' := s.threads[i].(phase := phase);
    CountUpdate(s.threads, i, t', Reserving());
    CountUpdate(s.threads, i, t', Announcing());
    CountUpdate(s.threads, i, t', Claiming());
    CountUpdate(s.threads, i, t', Returning());
  }

  /** A consumer past its semaphore finds a packet. */
  lemma ClaimedIsThere(s: State, capacity: nat, i: nat)
    requires Inv(s, capacity) && i < |s.threads|
    requires s.threads[i] == Consumer(Granted) || s.threads[i] == Consumer(Holding)
    ensures s.data != []
  {
    CountSome(s.threads, i, Claiming());
  }

  lemma StepConserves(s: State, s': State, i: nat, packet: Packet, capacity: nat)
    requires Conserved(s, capacity) && Step(s, s', i, packet)
    ensures Conserved(s', capacity)
  {
    if s' != s {
      hide Conserved;
      if s.threads[i].Producer? {
        ProducerConserves(s, s', i, packet, capacity);
      } else {
        ConsumerConserves(s, s', i, packet, capacity);
      }
    }
  }

  lemma ProducerConserves(s: State, s': State, i: nat, packet: Packet, capacity: nat)
    requires Conserved(s, capacity) && Step(s, s', i, packet) && s.threads[i].Producer?
    ensures Conserved(s', capacity)
  {
    CountsAfter(s, i, s'.threads[i].phase);
    hide Count;
  }

  lemma ConsumerConserves(s: State, s': State, i: nat, packet: Packet, capacity: nat)
    requires Conserved(s, capacity) && Step(s, s', i, packet) && s.threads[i].Consumer? && s' != s
    ensures Conserved(s', capacity)
  {
    CountsAfter(s, i, s'.threads[i].phase);
    hide Count;
  }

  lemma StepKeepsMutex(s: State, s': State, i: nat, packet: Packet)
    requires MutexOwned(s) && Step(s, s', i, packet)
    ensures MutexOwned(s')
  {
  }

  lemma StepKeepsOrder(s: State, s': State, i: nat, packet: Packet)
    requires s.appended == s.removed + s.data && Step(s, s', i, packet)
    ensures s'.appended == s'.removed + s'.data
  {
    if s.threads[i] == Consumer(Holding) {
      assert s.data == [s.data[0]] + s.data[1..];
      AppendAssoc(s.removed, [s.data[0]], s.data[1..]);
    } else if s.threads[i] == Producer(Holding) {
      AppendAssoc(s.removed, s.data, [packet]);
    }
  }

  lemma StepInv(s: State, s': State, i: nat, packet: Packet, capacity: nat)
    requires Inv(s, capacity) && Step(s, s', i, packet)
    ensures Inv(s', capacity)
  {
    StepConserves(s, s', i, packet, capacity);
    StepKeepsMutex(s, s', i, packet);
    StepKeepsOrder(s, s', i, packet);
  }

  // ----- runs -----

  ghost predicate Run(states: seq<State>, movers: seq<nat>, packets: seq<Packet>, capacity: nat) {
    && |states| == |movers| + 1 == |packets| + 1
    && Init(states[0], capacity)
    && forall k :: 0 <= k < |movers| ==> Step(states[k], states[k + 1], movers[k], packets[k])
  }

  /**
    In every interleaving: slots, reservations, packets and returns add up to the capacity, at most
    one thread holds the mutex, and packets leave in the order in which they were appended.
  */
  lemma {:induction false} RunInv(states: seq<State>, movers: seq<nat>, packets: seq<Packet>, capacity: nat, k: nat)
    requires Run(states, movers, packets, capacity) && k < |states|
    ensures Inv(states[k], capacity)
    ensures |states[k].data| <= capacity && states[k].removed <= states[k].appended
  {
    if k == 0 {
      InitInv(states[0], capacity);
    } else {
      RunInv(states, movers, packets, capacity, k - 1);
      assert Step(states[k - 1], states[k], movers[k - 1], packets[k - 1]);
      StepInv(states[k - 1], states[k], movers[k - 1], packets[k - 1], capacity);
    }
  }

  // ----- no deadlock -----

  /** Thread i has a step that changes something; timing out does not. */
  ghost predicate CanMove(s: State, i: nat) {
    exists s': State, packet :: Step(s, s', i, packet) && s' != s
  }

  /** What such a step waits for. */
  ghost predicate Ready(s: State, i: nat)
    requires i < |s.threads|
  {
    match s.threads[i].phase
    case Waiting => if s.threads[i].Producer? then s.slots > 0 else s.items > 0
    case Granted => s.mutex == None
    case _ => true
  }

  /** A step taken when thread i is ready. */
  function Moved(s: State, i: nat): State
    requires i < |s.threads|
  {
    match s.threads[i]
    case Producer(Waiting) => s.(slots := if s.slots > 0 then s.slots - 1 else 0, threads := At(s, i, Granted))
    case Consumer(Waiting) => s.(items := if s.items > 0 then s.items - 1 else 0, threads := At(s, i, Granted))
    case Producer(Holding) => s.(data := s.data + [0], appended := s.appended + [0], threads := At(s, i, Finished))
    case Consumer(Holding) =>
      if s.data == [] then s
      else s.(data := s.data[1..], removed := s.removed + [s.data[0]], threads := At(s, i, Finished))
    case Producer(Released) => s.(items := s.items + 1, threads := At(s, i, Waiting))
    case Consumer(Released) => s.(slots := s.slots + 1, threads := At(s, i, Waiting))
    case _ =>
      if s.threads[i].phase == Granted then s.(mutex := Some(i), threads := At(s, i, Holding))
      else s.(mutex := None, threads := At(s, i, Released))
  }

  /** A thread can move exactly when its semaphore is positive or the mutex free, or it waits for neither. */
  lemma CanMoveExactly(s: State, capacity: nat, i: nat)
    requires Inv(s, capacity) && i < |s.threads|
    ensures CanMove(s, i) <==> Ready(s, i)
  {
    if Ready(s, i) {
      if s.threads[i] == Consumer(Holding) {
        ClaimedIsThere(s, capacity, i);
      }
      var s' := Moved(s, i);
      assert s'.threads[i].phase != s.threads[i].phase;
      assert Step(s, s', i, 0) && s' != s;
    }
  }

  ghost predicate Stuck(s: State) {
    forall i: nat :: i < |s.threads| ==> !CanMove(s, i)
  }

  lemma StuckMeansWaiting(s: State, capacity: nat, i: nat)
    requires Inv(s, capacity) && Stuck(s) && i < |s.threads|
    ensures s.threads[i].phase == Waiting
  {
    hide CanMove;
    CanMoveExactly(s, capacity, i);
    if s.mutex.Some? {
      var h := s.mutex.value;
      CanMoveExactly(s, capacity, h);
      assert HasMutex(s.threads[h]) && !CanMove(s, h);
    } else {
      assert !HasMutex(s.threads[i]) && !CanMove(s, i);
    }
  }

  /**
    The threads are all blocked exactly when all of them wait for a semaphore and no thread of
    the other kind exists: only producers in front of a full queue, or only consumers in front of
    an empty one. With capacity > 0, a producer and a consumer, that cannot happen.
  */
  lemma StuckExactly(s: State, capacity: nat)
    requires Inv(s, capacity)
    ensures Stuck(s) <==>
              && (forall i :: 0 <= i < |s.threads| ==> s.threads[i].phase == Waiting)
              && ((exists i :: 0 <= i < |s.threads| && s.threads[i].Producer?) ==> |s.data| == capacity)
              && ((exists i :: 0 <= i < |s.threads| && s.threads[i].Consumer?) ==> |s.data| == 0)
  {
    hide CanMove;
    if Stuck(s) {
      forall i | 0 <= i < |s.threads| ensures s.threads[i].phase == Waiting {
        StuckMeansWaiting(s, capacity, i);
      }
    }
    if forall i :: 0 <= i < |s.threads| ==> s.threads[i].phase == Waiting {
      CountNone(s.threads, Reserving());
      CountNone(s.threads, Announcing());
      CountNone(s.threads, Claiming());
      CountNone(s.threads, Returning());
      hide Count;
      assert s.slots + |s.data| == capacity && |s.data| == s.items;
      forall i: nat | i < |s.threads|
        ensures CanMove(s, i) <==> if s.threads[i].Producer? then |s.data| < capacity else |s.data| > 0
      {
        CanMoveExactly(s, capacity, i);
      }
    }
  }

  /** Producers and consumers are never all blocked together. */
  lemma SomeoneCanMove(s: State, capacity: nat, p: nat, c: nat)
    requires Inv(s, capacity) && capacity > 0
    requires p < |s.threads| && s.threads[p].Producer? && c < |s.threads| && s.threads[c].Consumer?
    ensures exists i: nat, s': State, packet :: Step(s, s', i, packet) && s' != s
  {
    StuckExactly(s, capacity);
    var i: nat :| i < |s.threads| && CanMove(s, i);
    var s': State, packet :| Step(s, s', i, packet) && s' != s;
  }

  // ----- whole operations -----

  /** Consecutive changing steps of one thread, all with the same packet. */
  ghost predicate Alone(states: seq<State>, i: nat, packet: Packet) {
    forall k :: 0 <= k < |states| - 1 ==> Step(states[k], states[k + 1], i, packet) && states[k + 1] != states[k]
  }

  lemma FirstStep(states: seq<State>, i: nat, packet: Packet, k: nat)
    requires Alone(states, i, packet) && k < |states| - 1
    ensures Step(states[k], states[k + 1], i, packet) && states[k + 1] != states[k]
  {
  }

  /** An enqueue that is not interrupted takes a slot, appends its packet and announces it. */
  lemma EnqueueAlone(states: seq<State>, i: nat, packet: Packet)
    requires |states| == 6 && Alone(states, i, packet)
    requires i < |states[0].threads| && states[0].threads[i] == Producer(Waiting)
    ensures var s := states[0];
            s.slots > 0 && s.mutex == None
            && states[5] == s.(slots := s.slots - 1, items := s.items + 1, data := s.data + [packet],
                               appended := s.appended + [packet])
  {
    forall k: nat | k < 5 ensures Step(states[k], states[k + 1], i, packet) {
      FirstStep(states, i, packet, k);
    }
    FirstStep(states, i, packet, 0);
    assert states[1].threads[i] == Producer(Granted);
    assert states[2].threads[i] == Producer(Holding);
    assert states[3].threads[i] == Producer(Finished);
    assert states[4].threads[i] == Producer(Released);
    assert states[5].threads == states[0].threads;
  }

  /** A dequeue that is not interrupted takes the oldest packet and gives its slot back. */
  lemma DequeueAlone(states: seq<State>, i: nat, packet: Packet)
    requires |states| == 6 && Alone(states, i, packet)
    requires i < |states[0].threads| && states[0].threads[i] == Consumer(Waiting)
    ensures var s := states[0];
            s.items > 0 && s.mutex == None && s.data != []
            && states[5] == s.(slots := s.slots + 1, items := s.items - 1, data := s.data[1..],
                               removed := s.removed + [s.data[0]])
  {
    forall k: nat | k < 5 ensures Step(states[k], states[k + 1], i, packet) && states[k + 1] != states[k] {
      FirstStep(states, i, packet, k);
    }
    assert states[1].threads[i] == Consumer(Granted);
    assert states[2].threads[i] == Consumer(Holding);
    assert states[3].threads[i] == Consumer(Finished);
    assert states[4].threads[i] == Consumer(Released);
    assert states[5].threads == states[0].threads;
  }
}
