/**
 * Delivery of xenstore watch events against register_xenbus_watch and unregister_xenbus_watch. One
 * step per critical section. Any number of threads register and unregister watches, the reader
 * thread queues events, and the xenwatch thread takes them off the queue and calls back.
 */
module WatchDelivery {

  import opened Common

  type Watch = nat

  datatype Event = Event(watch: Watch, id: nat)

  datatype Holder = Free | Xenwatch | Thread(t: nat)

  /** xenwatch_thread. While Inline, the callback may itself be unregistering the watch `inner`. */
  datatype Reader =
    | Waiting
    | Woken
    | Locked
    | Inline(event: Event, inner: Option<Watch>)
    | Detach(event: Event)                  // XBWF_new_thread, the mutex still held
    | Spawning(event: Event)                // XBWF_new_thread, the mutex released

  datatype Caller =
    | Registering(watch: Watch)             // on the list, xs_watch not yet answered
    | Unlinked(watch: Watch)                // off the list, waiting for xenwatch_mutex
    | Holding(watch: Watch)                 // has xenwatch_mutex
    | Purged(watch: Watch)                  // has xenwatch_mutex, no event of the watch left

  datatype State = State(
    newThread: set<Watch>,                  // XBWF_new_thread watches, never changed
    watches: set<Watch>,
    queue: seq<Event>,                      // watch_events
    mutex: Holder,                          // xenwatch_mutex
    reader: Reader,
    callers: map<nat, Caller>,
    spawned: multiset<Event>,               // callbacks running in threads of their own
    queued: seq<Event>,                     // history: every event ever put on the queue
    taken: seq<Event>,                      // history: every event ever taken off by xenwatch
    finished: multiset<Event>,              // history: events whose callback is over, or got no thread to run in
    cancelled: multiset<Event>)             // history: events purged by an unregistration

  datatype Step =
    | Deliver(e: Event)
    | Register(t: nat, w: Watch)
    | Registered(t: nat, ok: bool)
    | Unlink(t: nat, w: Watch)
    | Lock(t: nat)
    | Purge(t: nat)
    | Return(t: nat)
    | Wake
    | LockReader
    | TakeEvent
    | InnerUnlink(w: Watch)
    | InnerReturn
    | CallbackDone
    | UnlockReader
    | Spawn(ok: bool)
    | SpawnedDone(e: Event)

  /** The events of one watch, in order. */
  function Of(q: seq<Event>, w: Watch): seq<Event> {
    if q == [] then [] else (if q[0].watch == w then [q[0]] else []) + Of(q[1..], w)
  }

  /** The queue without the events of one watch. */
  function Without(q: seq<Event>, w: Watch): (r: seq<Event>)
    ensures forall e :: e in r <==> e in q && e.watch != w
  {
    if q == [] then [] else (if q[0].watch != w then [q[0]] else []) + Without(q[1..], w)
  }

  ghost predicate Initial(s: State) {
    s == State(s.newThread, {}, [], Free, Waiting, map[], multiset{}, [], [], multiset{}, multiset{})
  }

  /** No thread has a registration of the watch still to be answered. */
  ghost predicate Settled(s: State, w: Watch) {
    forall t :: t in s.callers ==> s.callers[t] != Registering(w)
  }

  ghost predicate Next(s: State, a: Step, s': State) {
    match a
    case Deliver(e) =>
      s' == if e.watch in s.watches then s.(queue := s.queue + [e], queued := s.queued + [e]) else s
    case Register(t, w) =>
      && t !in s.callers && w !in s.watches
      && s' == s.(watches := s.watches + {w}, callers := s.callers[t := Registering(w)])
    case Registered(t, ok) =>
      && t in s.callers && s.callers[t].Registering?
      && s' == s.(watches := if ok then s.watches else s.watches - {s.callers[t].watch}, callers := s.callers - {t})
    case Unlink(t, w) =>
      && t !in s.callers && w in s.watches && w !in s.newThread && Settled(s, w)
      && s' == s.(watches := s.watches - {w}, callers := s.callers[t := Unlinked(w)])
    case Lock(t) =>
      && t in s.callers && s.callers[t].Unlinked? && s.mutex == Free
      && s' == s.(mutex := Thread(t), callers := s.callers[t := Holding(s.callers[t].watch)])
    case Purge(t) =>
      && t in s.callers && s.callers[t].Holding?
      && s' == s.(queue := Without(s.queue, s.callers[t].watch), callers := s.callers[t := Purged(s.callers[t].watch)],
                  cancelled := s.cancelled + multiset(Of(s.queue, s.callers[t].watch)))
    case Return(t) =>
      && t in s.callers && s.callers[t].Purged?
      && s' == s.(mutex := Free, callers := s.callers - {t})
    case Wake =>
      s.reader.Waiting? && s.queue != [] && s' == s.(reader := Woken)
    case LockReader =>
      s.reader.Woken? && s.mutex == Free && s' == s.(reader := Locked, mutex := Xenwatch)
    case TakeEvent =>
      && s.reader.Locked?
      && if s.queue == [] then s' == s.(reader := Waiting, mutex := Free)
         else s' == s.(queue := s.queue[1..], taken := s.taken + [s.queue[0]],
                       reader := if s.queue[0].watch in s.newThread then Detach(s.queue[0]) else Inline(s.queue[0], None))
    case InnerUnlink(w) =>
      && s.reader.Inline? && s.reader.inner.None? && w in s.watches && w !in s.newThread && Settled(s, w)
      && s' == s.(watches := s.watches - {w}, reader := Inline(s.reader.event, Some(w)))
    case InnerReturn =>
      && s.reader.Inline? && s.reader.inner.Some?
      && s' == s.(queue := Without(s.queue, s.reader.inner.value), reader := Inline(s.reader.event, None),
                  cancelled := s.cancelled + multiset(Of(s.queue, s.reader.inner.value)))
    case CallbackDone =>
      && s.reader.Inline? && s.reader.inner.None?
      && s' == s.(reader := Waiting, mutex := Free, finished := s.finished + multiset{s.reader.event})
    case UnlockReader =>
      s.reader.Detach? && s' == s.(reader := Spawning(s.reader.event), mutex := Free)
    case Spawn(ok) =>
      && s.reader.Spawning?
      && s' == if ok then s.(reader := Waiting, spawned := s.spawned + multiset{s.reader.event})
               else s.(reader := Waiting, finished := s.finished + multiset{s.reader.event})
    case SpawnedDone(e) =>
      e in s.spawned && s' == s.(spawned := s.spawned - multiset{e}, finished := s.finished + multiset{e})
  }

  /** An event of the watch has been taken off the queue and its callback is not over. */
  ghost predicate Running(s: State, w: Watch) {
    || ((s.reader.Inline? || s.reader.Detach? || s.reader.Spawning?) && s.reader.event.watch == w)
    || exists e :: e in s.spawned && e.watch == w
  }

  /** No event of the watch is queued, and none will be. */
  ghost predicate Drained(s: State, w: Watch) {
    w !in s.watches && forall e :: e in s.queue ==> e.watch != w
  }

  /** And none is being called back. */
  ghost predicate Quiet(s: State, w: Watch) {
    Drained(s, w) && !Running(s, w)
  }

  // ----- xenwatch_mutex

  ghost predicate Mutex(s: State) {
    && (s.mutex == Xenwatch <==> s.reader.Locked? || s.reader.Inline? || s.reader.Detach?)
    && forall t :: s.mutex == Thread(t) <==> t in s.callers && (s.callers[t].Holding? || s.callers[t].Purged?)
  }

  /** Only watches with XBWF_new_thread are called back without the mutex. */
  ghost predicate Flags(s: State) {
    && (s.reader.Inline? ==> s.reader.event.watch !in s.newThread)
    && (s.reader.Detach? || s.reader.Spawning? ==> s.reader.event.watch in s.newThread)
    && forall e :: e in s.spawned ==> e.watch in s.newThread
  }

  ghost predicate Invariant(s: State) {
    Mutex(s) && Flags(s)
  }

  /** The steps of threads that register and unregister. */
  predicate OfCallers(a: Step) {
    a.Register? || a.Registered? || a.Unlink? || a.Lock? || a.Purge? || a.Return?
  }

  lemma CallersMutex(s: State, a: Step, s': State)
    requires Mutex(s) && Next(s, a, s') && OfCallers(a)
    ensures Mutex(s')
  {
    hide Of, Without, Settled;
  }

  lemma OthersMutex(s: State, a: Step, s': State)
    requires Mutex(s) && Next(s, a, s') && !OfCallers(a)
    ensures Mutex(s')
  {
    hide Of, Without, Settled;
  }

  lemma CallersFlags(s: State, a: Step, s': State)
    requires Next(s, a, s') && OfCallers(a)
    ensures s'.reader == s.reader && s'.spawned == s.spawned && s'.newThread == s.newThread
  {
    hide Of, Without, Settled;
  }

  lemma OthersFlags(s: State, a: Step, s': State)
    requires Flags(s) && Next(s, a, s') && !OfCallers(a)
    ensures Flags(s')
  {
    hide Of, Without, Settled;
  }

  lemma InvariantKept(s: State, a: Step, s': State)
    requires Invariant(s) && Next(s, a, s')
    ensures Invariant(s')
  {
    hide Next, Mutex;
    if OfCallers(a) {
      CallersMutex(s, a, s');
      CallersFlags(s, a, s');
    } else {
      OthersMutex(s, a, s');
      OthersFlags(s, a, s');
    }
  }

  // ----- one unregistration

  /** How far thread t has come in unregistering w, provided w has not been registered again. */
  ghost predicate Unregistering(s: State, t: nat, w: Watch) {
    && t in s.callers && w !in s.watches && w !in s.newThread
    && (s.callers[t] == Unlinked(w) || s.callers[t] == Holding(w) || (s.callers[t] == Purged(w) && Quiet(s, w)))
  }

  lemma UnlinkStarts(s: State, t: nat, w: Watch, s': State)
    requires Next(s, Unlink(t, w), s')
    ensures Unregistering(s', t, w)
  {
  }

  lemma QuietKept(s: State, w: Watch, a: Step, s': State)
    requires Quiet(s, w) && Next(s, a, s') && !(a.Register? && a.w == w)
    ensures Quiet(s', w)
  {
    hide Of;
    DrainedKept(s, w, a, s');
    hide Drained;
    assert a.TakeEvent? && s.queue != [] ==> s.queue[0].watch != w by {
      assert Drained(s, w) ==> s.queue == [] || s.queue[0] in s.queue;
    }
  }

  lemma DrainedKept(s: State, w: Watch, a: Step, s': State)
    requires Drained(s, w) && Next(s, a, s') && !(a.Register? && a.w == w)
    ensures Drained(s', w)
  {
  }

  /** The mutex keeps xenwatch out, so that after the purge nothing of w is left. */
  lemma PurgeMakesQuiet(s: State, t: nat, w: Watch, s': State)
    requires Invariant(s) && Next(s, Purge(t), s')
    requires s.callers[t].watch == w && w !in s.watches && w !in s.newThread
    ensures Quiet(s', w)
  {
    assert s.mutex == Thread(t);
  }

  lemma UnregisteringKept(s: State, t: nat, w: Watch, a: Step, s': State)
    requires Invariant(s) && Unregistering(s, t, w) && Next(s, a, s')
    requires a != Return(t) && !(a.Register? && a.w == w)
    ensures Unregistering(s', t, w)
  {
    hide Quiet, Invariant, Without;
    if s.callers[t].Purged? {
      QuietKept(s, w, a, s');
    } else if a == Purge(t) {
      PurgeMakesQuiet(s, t, w, s');
    }
  }

  lemma ReturnsQuiet(s: State, t: nat, w: Watch, s': State)
    requires Unregistering(s, t, w) && Next(s, Return(t), s')
    ensures Quiet(s', w)
  {
  }

  // ----- runs

  ghost predicate IsRun(states: seq<State>, steps: seq<Step>) {
    && |states| == |steps| + 1
    && Initial(states[0])
    && forall i :: 0 <= i < |steps| ==> Next(states[i], steps[i], states[i + 1])
  }

  ghost predicate NotRegistered(steps: seq<Step>, w: Watch, from: nat, to: nat)
    requires from <= to <= |steps|
  {
    forall i :: from <= i < to ==> !(steps[i].Register? && steps[i].w == w)
  }

  lemma {:induction false} InvariantAlways(states: seq<State>, steps: seq<Step>, i: nat)
    requires IsRun(states, steps) && i < |states|
    ensures Invariant(states[i])
  {
    if i > 0 {
      InvariantAlways(states, steps, i - 1);
      InvariantKept(states[i - 1], steps[i - 1], states[i]);
    }
  }

  lemma {:induction false} UnregisteringUntilReturn(states: seq<State>, steps: seq<Step>, t: nat, w: Watch, from: nat, i: nat)
    requires IsRun(states, steps) && from < i < |states|
    requires steps[from] == Unlink(t, w) && NotRegistered(steps, w, from, i)
    requires forall j :: from < j < i ==> steps[j] != Return(t)
    ensures Unregistering(states[i], t, w)
  {
    hide Next, Unregistering, Invariant;
    if i == from + 1 {
      UnlinkStarts(states[from], t, w, states[i]);
    } else {
      UnregisteringUntilReturn(states, steps, t, w, from, i - 1);
      InvariantAlways(states, steps, i - 1);
      UnregisteringKept(states[i - 1], t, w, steps[i - 1], states[i]);
    }
  }

  /**
   * Thread t unlinks w at step `from` and returns from unregister_xenbus_watch at step `to`. From
   * then on, for as long as w is not registered again, no callback of w runs and no event of w is
   * queued, whatever the other threads do.
   */
  lemma {:induction false} QuietAfterReturn(states: seq<State>, steps: seq<Step>, t: nat, w: Watch, from: nat, to: nat, i: nat)
    requires IsRun(states, steps) && from < to < i < |states|
    requires steps[from] == Unlink(t, w) && steps[to] == Return(t)
    requires forall j :: from < j < to ==> steps[j] != Return(t)
    requires NotRegistered(steps, w, from, i)
    ensures Quiet(states[i], w)
  {
    hide Next, Unregistering, Quiet;
    if i == to + 1 {
      UnregisteringUntilReturn(states, steps, t, w, from, to);
      ReturnsQuiet(states[to], t, w, states[i]);
    } else {
      QuietAfterReturn(states, steps, t, w, from, to, i - 1);
      QuietKept(states[i - 1], w, steps[i - 1], states[i]);
    }
  }

  /** The callback in progress has unlinked w, which has not been registered again. */
  ghost predicate InnerUnregistering(s: State, w: Watch) {
    s.reader.Inline? && s.reader.inner == Some(w) && w !in s.watches && w !in s.newThread
  }

  lemma {:induction false} InnerUntilReturn(states: seq<State>, steps: seq<Step>, w: Watch, from: nat, i: nat)
    requires IsRun(states, steps) && from < i < |states|
    requires steps[from] == InnerUnlink(w) && NotRegistered(steps, w, from, i)
    requires forall j :: from < j < i ==> steps[j] != InnerReturn
    ensures InnerUnregistering(states[i], w)
  {
    assert Next(states[i - 1], steps[i - 1], states[i]);
    if i > from + 1 {
      InnerUntilReturn(states, steps, w, from, i - 1);
    }
  }

  /**
   * A callback that unregisters w itself takes no mutex. When that call returns no event of w is
   * queued or can be, and the one callback of w that may still run is the caller's own.
   */
  lemma InnerReturnQuiet(states: seq<State>, steps: seq<Step>, w: Watch, from: nat, to: nat)
    requires IsRun(states, steps) && from < to < |steps|
    requires steps[from] == InnerUnlink(w) && steps[to] == InnerReturn && NotRegistered(steps, w, from, to)
    requires forall j :: from < j < to ==> steps[j] != InnerReturn
    ensures Drained(states[to + 1], w)
    ensures Quiet(states[to + 1], w) <==> states[to].reader.event.watch != w
  {
    InnerUntilReturn(states, steps, w, from, to);
    InvariantAlways(states, steps, to);
    InnerReturns(states[to], w, states[to + 1]);
  }

  lemma InnerReturns(s: State, w: Watch, s': State)
    requires Invariant(s) && InnerUnregistering(s, w) && Next(s, InnerReturn, s')
    ensures Drained(s', w)
    ensures Quiet(s', w) <==> s.reader.event.watch != w
  {
  }

  // ----- nothing is lost or reordered

  lemma {:induction false} OfAppend(q: seq<Event>, r: seq<Event>, w: Watch)
    ensures Of(q + r, w) == Of(q, w) + Of(r, w)
  {
    if q == [] {
      assert q + r == r;
    } else {
      assert (q + r)[0] == q[0] && (q + r)[1..] == q[1..] + r by { hide *; }
      OfAppend(q[1..], r, w);
      var first := if q[0].watch == w then [q[0]] else [];
      assert (first + Of(q[1..], w)) + Of(r, w) == first + (Of(q[1..], w) + Of(r, w)) by { hide *; }
    }
  }

  lemma {:induction false} OfWithout(q: seq<Event>, v: Watch, w: Watch)
    requires v != w
    ensures Of(Without(q, v), w) == Of(q, w)
  {
    if q != [] {
      OfWithout(q[1..], v, w);
      OfAppend(if q[0].watch != v then [q[0]] else [], Without(q[1..], v), w);
    }
  }

  /** Nothing purges the queue of w's events in this step. */
  ghost predicate Spares(s: State, a: Step, w: Watch) {
    && (a.Purge? && a.t in s.callers ==> s.callers[a.t].watch != w)
    && (a.InnerReturn? && s.reader.Inline? && s.reader.inner.Some? ==> s.reader.inner.value != w)
  }

  ghost predicate InOrder(queued: seq<Event>, taken: seq<Event>, queue: seq<Event>, w: Watch) {
    Of(queued, w) == Of(taken, w) + Of(queue, w)
  }

  lemma InOrderAfterDeliver(queued: seq<Event>, taken: seq<Event>, queue: seq<Event>, e: Event, w: Watch)
    requires InOrder(queued, taken, queue, w)
    ensures InOrder(queued + [e], taken, queue + [e], w)
  {
    OfAppend(queue, [e], w);
    OfAppend(queued, [e], w);
  }

  lemma InOrderAfterTake(queued: seq<Event>, taken: seq<Event>, queue: seq<Event>, w: Watch)
    requires InOrder(queued, taken, queue, w) && queue != []
    ensures InOrder(queued, taken + [queue[0]], queue[1..], w)
  {
    OfAppend(taken, [queue[0]], w);
    assert Of([queue[0]], w) + Of(queue[1..], w) == Of(queue, w);
  }

  lemma InOrderAfterPurge(queued: seq<Event>, taken: seq<Event>, queue: seq<Event>, v: Watch, w: Watch)
    requires InOrder(queued, taken, queue, w) && v != w
    ensures InOrder(queued, taken, Without(queue, v), w)
  {
    OfWithout(queue, v, w);
  }

  lemma InOrderKept(s: State, a: Step, s': State, w: Watch)
    requires InOrder(s.queued, s.taken, s.queue, w) && Next(s, a, s') && Spares(s, a, w)
    ensures InOrder(s'.queued, s'.taken, s'.queue, w)
  {
    hide InOrder, Of, Without;
    match a
    case Deliver(e) => InOrderAfterDeliver(s.queued, s.taken, s.queue, e, w);
    case Purge(t) => InOrderAfterPurge(s.queued, s.taken, s.queue, s.callers[t].watch, w);
    case InnerReturn => InOrderAfterPurge(s.queued, s.taken, s.queue, s.reader.inner.value, w);
    case TakeEvent =>
      if s.queue != [] {
        InOrderAfterTake(s.queued, s.taken, s.queue, w);
      }
    case _ =>
  }

  /** As long as a watch is not unregistered, its events are taken off the queue once each, in the order they came. */
  lemma {:induction false} DeliveredInOrder(states: seq<State>, steps: seq<Step>, w: Watch, i: nat)
    requires IsRun(states, steps) && i < |states|
    requires forall j :: 0 <= j < i ==> Spares(states[j], steps[j], w)
    ensures Of(states[i].queued, w) == Of(states[i].taken, w) + Of(states[i].queue, w)
  {
    if i > 0 {
      DeliveredInOrder(states, steps, w, i - 1);
      hide Next, Of, Spares;
      InOrderKept(states[i - 1], steps[i - 1], states[i], w);
    }
  }

  // ----- every event of a registered watch is queued

  /** A step that takes w off the list. */
  ghost predicate Unlinks(s: State, a: Step, w: Watch) {
    || ((a.Unlink? || a.InnerUnlink?) && a.w == w)
    || (a.Registered? && !a.ok && a.t in s.callers && s.callers[a.t] == Registering(w))
  }

  /** The events read from the store in the steps from `from` to `to`. */
  function Arrivals(steps: seq<Step>, from: nat, to: nat): seq<Event>
    requires from <= to <= |steps|
  {
    if from == to then [] else Arrivals(steps, from, to - 1) + if steps[to - 1].Deliver? then [steps[to - 1].e] else []
  }

  lemma RegisteredKept(s: State, a: Step, s': State, w: Watch)
    requires w in s.watches && Next(s, a, s') && !Unlinks(s, a, w)
    ensures w in s'.watches
    ensures a.Deliver? && a.e.watch == w ==> s'.queued == s.queued + [a.e]
    ensures a.Deliver? && a.e.watch != w ==> s'.queued == s.queued || s'.queued == s.queued + [a.e]
    ensures !a.Deliver? ==> s'.queued == s.queued
  {
    hide Of, Without;
  }

  lemma RegisterStarts(s: State, t: nat, w: Watch, s': State)
    requires Next(s, Register(t, w), s')
    ensures w in s'.watches && InOrder(s'.queued, s.queued, [], w)
  {
    assert Of([], w) == [];
    hide Of;
  }

  lemma OfOther(q: seq<Event>, e: Event, w: Watch)
    requires e.watch != w
    ensures Of(q + [e], w) == Of(q, w)
  {
    OfAppend(q, [e], w);
  }

  lemma ArrivalNext(s: State, a: Step, s': State, was: seq<Event>, arrived: seq<Event>, w: Watch)
    requires w in s.watches && Next(s, a, s') && !Unlinks(s, a, w) && InOrder(s.queued, was, arrived, w)
    ensures w in s'.watches && InOrder(s'.queued, was, arrived + if a.Deliver? then [a.e] else [], w)
  {
    RegisteredKept(s, a, s', w);
    hide Next, Unlinks, Of;
    if !a.Deliver? {
      assert arrived + [] == arrived;
    } else if a.e.watch == w {
      InOrderAfterDeliver(s.queued, was, arrived, a.e, w);
    } else {
      OfOther(s.queued, a.e, w);
      OfOther(arrived, a.e, w);
    }
  }

  /**
   * From its registration on, until it is unlinked or the registration fails, every event of w that
   * arrives is queued, once and in the order of arrival, and no other event of w is.
   */
  lemma {:induction false} ArrivalsQueued(states: seq<State>, steps: seq<Step>, t: nat, w: Watch, from: nat, i: nat)
    requires IsRun(states, steps) && from < i <= |steps|
    requires steps[from] == Register(t, w) && forall j :: from < j < i ==> !Unlinks(states[j], steps[j], w)
    ensures w in states[i].watches
    ensures InOrder(states[i].queued, states[from].queued, Arrivals(steps, from, i), w)
  {
    hide Of, Unlinks, Next, InOrder;
    assert Next(states[i - 1], steps[i - 1], states[i]);
    if i == from + 1 {
      RegisterStarts(states[from], t, w, states[i]);
      assert Arrivals(steps, from, i) == [];
    } else {
      ArrivalsQueued(states, steps, t, w, from, i - 1);
      ArrivalNext(states[i - 1], steps[i - 1], states[i], states[from].queued, Arrivals(steps, from, i - 1), w);
    }
  }

  // ----- a registration that fails

  /**
   * register_xenbus_watch unlinks the watch again when xs_watch fails, but does not purge: an event
   * queued in between is still called back after the error was returned.
   */
  lemma FailedRegistrationMayFire(w: Watch)
    ensures exists states: seq<State>, steps: seq<Step> ::
              && IsRun(states, steps) && |steps| == 6
              && steps[2] == Registered(0, false)
              && w !in states[6].watches && Running(states[6], w)
  {
    var e := Event(w, 0);
    var s0 := State({}, {}, [], Free, Waiting, map[], multiset{}, [], [], multiset{}, multiset{});
    var s1 := s0.(watches := {w}, callers := map[0 := Registering(w)]);
    var s2 := s1.(queue := [e], queued := [e]);
    var s3 := s2.(watches := {}, callers := map[]);
    var s4 := s3.(reader := Woken);
    var s5 := s4.(reader := Locked, mutex := Xenwatch);
    var s6 := s5.(queue := [], taken := [e], reader := Inline(e, None));
    var steps := [Register(0, w), Deliver(e), Registered(0, false), Wake, LockReader, TakeEvent];
    assert s2.queue == [] + [e];
    assert IsRun([s0, s1, s2, s3, s4, s5, s6], steps);
  }

  /** The event xenwatch has taken off the queue and not yet handed on. */
  function InHand(r: Reader): multiset<Event> {
    if r.Inline? || r.Detach? || r.Spawning? then multiset{r.event} else multiset{}
  }

  ghost predicate Sum(queued: seq<Event>, queue: seq<Event>, hand: multiset<Event>, spawned: multiset<Event>,
                      finished: multiset<Event>, cancelled: multiset<Event>)
  {
    multiset(queued) == multiset(queue) + hand + spawned + finished + cancelled
  }

  /** Every event ever queued is still queued, being called back, over, or cancelled; and only one of these. */
  ghost predicate Accounted(s: State) {
    Sum(s.queued, s.queue, InHand(s.reader), s.spawned, s.finished, s.cancelled)
  }

  lemma {:induction false} PurgeSplits(q: seq<Event>, w: Watch)
    ensures multiset(q) == multiset(Without(q, w)) + multiset(Of(q, w))
  {
    if q != [] {
      PurgeSplits(q[1..], w);
      assert q == [q[0]] + q[1..];
    }
  }

  lemma SumDeliver(queued: seq<Event>, queue: seq<Event>, h: multiset<Event>, sp: multiset<Event>, f: multiset<Event>, c: multiset<Event>, e: Event)
    requires Sum(queued, queue, h, sp, f, c)
    ensures Sum(queued + [e], queue + [e], h, sp, f, c)
  {
  }

  lemma SumPurge(queued: seq<Event>, queue: seq<Event>, h: multiset<Event>, sp: multiset<Event>, f: multiset<Event>, c: multiset<Event>, w: Watch)
    requires Sum(queued, queue, h, sp, f, c)
    ensures Sum(queued, Without(queue, w), h, sp, f, c + multiset(Of(queue, w)))
  {
    PurgeSplits(queue, w);
  }

  lemma SumTake(queued: seq<Event>, queue: seq<Event>, sp: multiset<Event>, f: multiset<Event>, c: multiset<Event>)
    requires Sum(queued, queue, multiset{}, sp, f, c) && queue != []
    ensures Sum(queued, queue[1..], multiset{queue[0]}, sp, f, c)
  {
    assert queue == [queue[0]] + queue[1..];
  }

  lemma SumEnds(queued: seq<Event>, queue: seq<Event>, h: multiset<Event>, sp: multiset<Event>, f: multiset<Event>, c: multiset<Event>, e: Event)
    requires Sum(queued, queue, h, sp, f, c)
    ensures h == multiset{e} ==> Sum(queued, queue, multiset{}, sp, f + multiset{e}, c) && Sum(queued, queue, multiset{}, sp + multiset{e}, f, c)
    ensures e in sp ==> Sum(queued, queue, h, sp - multiset{e}, f + multiset{e}, c)
  {
  }

  /** The steps that deal with events. */
  ghost predicate MovesEvents(a: Step) {
    a.Deliver? || a.Purge? || a.InnerReturn? || a.TakeEvent? || a.CallbackDone? || a.Spawn? || a.SpawnedDone?
  }

  lemma OtherSteps(s: State, a: Step, s': State)
    requires Next(s, a, s') && !MovesEvents(a)
    ensures s'.queued == s.queued && s'.queue == s.queue && InHand(s'.reader) == InHand(s.reader)
    ensures s'.spawned == s.spawned && s'.finished == s.finished && s'.cancelled == s.cancelled
  {
  }

  lemma AccountedAfterPurge(s: State, a: Step, s': State)
    requires Accounted(s) && Next(s, a, s') && (a.Purge? || a.InnerReturn?)
    ensures Accounted(s')
  {
    hide Of, Without, Sum;
    SumPurge(s.queued, s.queue, InHand(s.reader), s.spawned, s.finished, s.cancelled,
             if a.Purge? then s.callers[a.t].watch else s.reader.inner.value);
  }

  lemma AccountedAfterEnd(s: State, a: Step, s': State)
    requires Accounted(s) && Next(s, a, s') && (a.CallbackDone? || a.Spawn? || a.SpawnedDone?)
    ensures Accounted(s')
  {
    hide Of, Without, Sum;
    SumEnds(s.queued, s.queue, InHand(s.reader), s.spawned, s.finished, s.cancelled,
            if a.SpawnedDone? then a.e else s.reader.event);
  }

  lemma AccountedAfterDeliver(s: State, a: Step, s': State)
    requires Accounted(s) && Next(s, a, s') && a.Deliver?
    ensures Accounted(s')
  {
    hide Of, Without, Sum;
    SumDeliver(s.queued, s.queue, InHand(s.reader), s.spawned, s.finished, s.cancelled, a.e);
  }

  lemma AccountedAfterTake(s: State, a: Step, s': State)
    requires Accounted(s) && Next(s, a, s') && a.TakeEvent?
    ensures Accounted(s')
  {
    hide Of, Without, Sum;
    if s.queue != [] {
      SumTake(s.queued, s.queue, s.spawned, s.finished, s.cancelled);
    }
  }

  lemma AccountedKept(s: State, a: Step, s': State)
    requires Accounted(s) && Next(s, a, s')
    ensures Accounted(s')
  {
    hide Next, Of, Without, Sum, InHand;
    if !MovesEvents(a) {
      OtherSteps(s, a, s');
    } else if a.Purge? || a.InnerReturn? {
      AccountedAfterPurge(s, a, s');
    } else if a.Deliver? {
      AccountedAfterDeliver(s, a, s');
    } else if a.TakeEvent? {
      AccountedAfterTake(s, a, s');
    } else {
      AccountedAfterEnd(s, a, s');
    }
  }

  lemma AccountedFirst(s: State)
    requires Initial(s)
    ensures Accounted(s)
  {
  }

  /** In every run each event is called back to its end, or cancelled, at most as often as it was queued. */
  lemma {:induction false} AccountedAlways(states: seq<State>, steps: seq<Step>, i: nat)
    requires IsRun(states, steps) && i < |states|
    ensures Accounted(states[i])
  {
    if i > 0 {
      AccountedAlways(states, steps, i - 1);
      hide Next, Accounted;
      AccountedKept(states[i - 1], steps[i - 1], states[i]);
    } else {
      hide Accounted, Next;
      AccountedFirst(states[0]);
    }
  }

  /** All events of w that were ever queued have been called back to the end, or were cancelled. */
  ghost predicate AllOver(s: State, w: Watch) {
    forall e: Event :: e.watch == w ==> multiset(s.queued)[e] == s.finished[e] + s.cancelled[e]
  }

  lemma QuietIffAllOver(s: State, w: Watch)
    requires Accounted(s) && w !in s.watches
    ensures Quiet(s, w) <==> AllOver(s, w)
  {
    assert forall e :: e in s.queue <==> multiset(s.queue)[e] > 0;
    if AllOver(s, w) {
      forall e: Event | e.watch == w
        ensures e !in s.queue && e !in s.spawned && e !in InHand(s.reader)
      {
        assert multiset(s.queued)[e] == multiset(s.queue)[e] + InHand(s.reader)[e] + s.spawned[e] + s.finished[e] + s.cancelled[e];
      }
      assert InHand(s.reader) != multiset{} ==> s.reader.event in InHand(s.reader);
    } else {
      var e: Event :| e.watch == w && multiset(s.queued)[e] != s.finished[e] + s.cancelled[e];
      assert multiset(s.queued)[e] == multiset(s.queue)[e] + InHand(s.reader)[e] + s.spawned[e] + s.finished[e] + s.cancelled[e];
    }
  }

  lemma {:induction false} StillRegistering(states: seq<State>, steps: seq<Step>, t: nat, w: Watch, from: nat, to: nat)
    requires IsRun(states, steps) && from < to <= |steps| && steps[from] == Register(t, w)
    requires forall j :: from < j < to ==> !(steps[j].Registered? && steps[j].t == t)
    ensures t in states[to].callers && states[to].callers[t] == Registering(w)
  {
    assert Next(states[to - 1], steps[to - 1], states[to]);
    if to > from + 1 {
      StillRegistering(states, steps, t, w, from, to - 1);
    }
  }

  /** e has been dealt with as often as it was queued since an earlier state. */
  ghost predicate OverSince(s: State, s': State, e: Event) {
    multiset(s'.queued)[e] + s.finished[e] + s.cancelled[e] == multiset(s.queued)[e] + s'.finished[e] + s'.cancelled[e]
  }

  /**
   * Thread t begins to register w, which is quiet, at step `from`, and the error is returned at step
   * `to`. Then w is quiet exactly if every event of w that came in between has been taken and its
   * callback is over, or was cancelled by an unregistration of w still under way.
   */
  lemma FailedRegistrationQuiet(states: seq<State>, steps: seq<Step>, t: nat, w: Watch, from: nat, to: nat)
    requires IsRun(states, steps) && from < to < |steps| && Quiet(states[from], w)
    requires steps[from] == Register(t, w) && steps[to] == Registered(t, false)
    requires forall j :: from < j < to ==> !(steps[j].Registered? && steps[j].t == t)
    ensures Quiet(states[to + 1], w) <==> forall e: Event :: e.watch == w ==> OverSince(states[from], states[to], e)
  {
    var s, s', s'' := states[from], states[to], states[to + 1];
    StillRegistering(states, steps, t, w, from, to);
    AccountedAlways(states, steps, from);
    AccountedAlways(states, steps, to + 1);
    assert Next(s', steps[to], s'');
    hide Accounted, Quiet;
    QuietIffAllOver(s, w);
    QuietIffAllOver(s'', w);
  }

  // ----- nobody waits for ever

  /** The steps that begin something, and those of the store. */
  predicate Begins(a: Step) {
    a.Deliver? || a.Register? || a.Unlink? || a.InnerUnlink?
  }

  /** While events are queued, or calls are under way, somebody can take the next step: nobody is deadlocked over the mutex. */
  lemma NeverStuck(states: seq<State>, steps: seq<Step>, i: nat) returns (a: Step, s': State)
    requires IsRun(states, steps) && i < |states| && (states[i].queue != [] || states[i].callers != map[] || !states[i].reader.Waiting?)
    ensures !Begins(a) && Next(states[i], a, s')
  {
    var s := states[i];
    InvariantAlways(states, steps, i);
    if s.mutex.Thread? {
      a, s' := HolderStep(s, s.mutex.t);
    } else if !s.reader.Waiting? && !(s.reader.Woken? && s.mutex != Free) {
      a, s' := ReaderStep(s);
    } else if s.queue != [] {
      a, s' := Wake, s.(reader := Woken);
    } else {
      var t :| t in s.callers;
      a, s' := CallerStep(s, t);
    }
  }

  /** A watch that is registered can be unregistered; undisturbed, the four steps take it off the list and its events off the queue, and nothing else. */
  lemma Unregisters(s: State, t: nat, w: Watch) returns (s1: State, s2: State, s3: State, s4: State)
    requires t !in s.callers && w in s.watches && w !in s.newThread && Settled(s, w) && s.mutex == Free
    ensures Next(s, Unlink(t, w), s1) && Next(s1, Lock(t), s2) && Next(s2, Purge(t), s3) && Next(s3, Return(t), s4)
    ensures s4 == s.(watches := s.watches - {w}, queue := Without(s.queue, w), cancelled := s.cancelled + multiset(Of(s.queue, w)))
  {
    hide Of, Without;
    s1 := s.(watches := s.watches - {w}, callers := s.callers[t := Unlinked(w)]);
    s2 := s1.(mutex := Thread(t), callers := s.callers[t := Holding(w)]);
    s3 := s2.(queue := Without(s.queue, w), callers := s.callers[t := Purged(w)], cancelled := s.cancelled + multiset(Of(s.queue, w)));
    s4 := s3.(mutex := Free, callers := s.callers);
    assert s.callers[t := Unlinked(w)][t := Holding(w)] == s.callers[t := Holding(w)];
    assert s.callers[t := Holding(w)][t := Purged(w)] == s.callers[t := Purged(w)];
    assert s.callers[t := Purged(w)] - {t} == s.callers;
  }

  /** And so can one by a callback that runs under the mutex. */
  lemma UnregistersInside(s: State, w: Watch) returns (s1: State, s2: State)
    requires s.reader.Inline? && s.reader.inner.None? && w in s.watches && w !in s.newThread && Settled(s, w)
    ensures Next(s, InnerUnlink(w), s1) && Next(s1, InnerReturn, s2)
    ensures s2 == s.(watches := s.watches - {w}, queue := Without(s.queue, w), cancelled := s.cancelled + multiset(Of(s.queue, w)))
  {
    hide Of, Without;
    s1 := s.(watches := s.watches - {w}, reader := Inline(s.reader.event, Some(w)));
    s2 := s1.(queue := Without(s.queue, w), reader := Inline(s.reader.event, None), cancelled := s.cancelled + multiset(Of(s.queue, w)));
  }

  lemma HolderStep(s: State, t: nat) returns (a: Step, s': State)
    requires t in s.callers && (s.callers[t].Holding? || s.callers[t].Purged?)
    ensures !Begins(a) && Next(s, a, s')
  {
    if s.callers[t].Holding? {
      var w := s.callers[t].watch;
      a := Purge(t);
      s' := s.(queue := Without(s.queue, w), callers := s.callers[t := Purged(w)], cancelled := s.cancelled + multiset(Of(s.queue, w)));
    } else {
      a, s' := Return(t), s.(mutex := Free, callers := s.callers - {t});
    }
  }

  lemma CallerStep(s: State, t: nat) returns (a: Step, s': State)
    requires Mutex(s) && t in s.callers && s.mutex == Free
    ensures !Begins(a) && Next(s, a, s')
  {
    if s.callers[t].Registering? {
      a, s' := Registered(t, true), s.(callers := s.callers - {t});
    } else {
      assert s.callers[t].Unlinked?;
      a, s' := Lock(t), s.(mutex := Thread(t), callers := s.callers[t := Holding(s.callers[t].watch)]);
    }
  }

  lemma ReaderStep(s: State) returns (a: Step, s': State)
    requires !s.reader.Waiting? && (s.reader.Woken? ==> s.mutex == Free)
    ensures !Begins(a) && Next(s, a, s')
  {
    match s.reader
    case Woken => a, s' := LockReader, s.(reader := Locked, mutex := Xenwatch);
    case Locked =>
      a := TakeEvent;
      s' := if s.queue == [] then s.(reader := Waiting, mutex := Free)
            else s.(queue := s.queue[1..], taken := s.taken + [s.queue[0]],
                    reader := if s.queue[0].watch in s.newThread then Detach(s.queue[0]) else Inline(s.queue[0], None));
    case Inline(e, inner) =>
      if inner.None? {
        a, s' := CallbackDone, s.(reader := Waiting, mutex := Free, finished := s.finished + multiset{e});
      } else {
        a := InnerReturn;
        s' := s.(queue := Without(s.queue, inner.value), reader := Inline(e, None), cancelled := s.cancelled + multiset(Of(s.queue, inner.value)));
      }
    case Detach(e) => a, s' := UnlockReader, s.(reader := Spawning(e), mutex := Free);
    case Spawning(e) => a, s' := Spawn(true), s.(reader := Waiting, spawned := s.spawned + multiset{e});
  }
}
