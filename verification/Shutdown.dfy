/**
 * The shutdown protocol around the shared variable `shutting_down`, one step per xchg, cmpxchg, read
 * or hand-over. Any number of requesters (the control/shutdown watch and the suspend interrupt) run
 * beside the work item, the suspend thread and the shutdown thread.
 */
module Shutdown {

  datatype Value = Invalid | PowerOff | Suspend | Resuming | Halt

  /** switch_shutdown_state */
  datatype Requester =
    | Try(wanted: Value, expected: Value)   // about to cmpxchg
    | Kick                                  // moved the variable out of Invalid, the work not yet scheduled

  /** __shutdown_handler */
  datatype Handler = Idle | Started | StartSuspend | StartShutdown

  datatype Thread =
    | SuspendStart                          // xen_suspend, before it has its CPU
    | Suspending                            // inside __xen_suspend, before the notifier
    | Resumed                               // __xen_suspend has returned
    | Decide(seen: Value)                    // the cmpxchg of reboot.c:97 did not see Resuming
    | Failing                               // at label fail
    | ShutdownStart                         // shutdown_process, before it reads the variable
    | ShutdownReset                         // about to store Invalid

  datatype State = State(
    shuttingDown: Value,
    requesters: map<nat, Requester>,
    queued: bool,                           // the work is scheduled
    handler: Handler,
    threads: map<nat, Thread>,
    bug: bool,                              // some BUG or BUG_ON was reached
    accepted: seq<Value>,                   // requests whose cmpxchg succeeded
    handed: seq<Value>,                     // requests taken up by a suspend round or a shutdown run
    owner: Actor)                           // history: who holds the token

  datatype Actor = Requesting(r: nat) | Queue | Working | Running(t: nat)

  datatype Step =
    | Request(r: nat, wanted: Value)
    | CompareExchange(r: nat)
    | Schedule(r: nat)
    | StartWork
    | ReadForWork
    | CreateThread(t: nat)
    | CreateFails
    | GetCpu(t: nat, ok: bool)
    | SuspendFails(t: nat)
    | Notify(t: nat)
    | Finish(t: nat)
    | Choose(t: nat)
    | Fail(t: nat)
    | ReadForShutdown(t: nat)
    | Reset(t: nat)

  ghost predicate Active(v: Value) {
    v != Invalid && v != Resuming
  }

  ghost predicate Initial(s: State) {
    s == State(Invalid, map[], false, Idle, map[], false, [], [], Queue)
  }

  ghost predicate Next(s: State, a: Step, s': State) {
    match a
    case Request(r, wanted) =>
      r !in s.requesters && Active(wanted) && s' == s.(requesters := s.requesters[r := Try(wanted, Invalid)])
    case CompareExchange(r) =>
      && r in s.requesters && s.requesters[r].Try?
      && var q := s.requesters[r];
      if s.shuttingDown == q.expected then
        if q.expected == Invalid then
          s' == s.(shuttingDown := q.wanted, requesters := s.requesters[r := Kick],
                   accepted := s.accepted + [q.wanted], owner := Requesting(r))
        else
          s' == s.(shuttingDown := q.wanted, requesters := s.requesters - {r},
                   accepted := s.accepted + [q.wanted], bug := s.bug || q.expected != Resuming)
      else if Active(s.shuttingDown) then
        s' == s.(requesters := s.requesters - {r})
      else
        s' == s.(requesters := s.requesters[r := Try(q.wanted, s.shuttingDown)])
    case Schedule(r) =>
      && r in s.requesters && s.requesters[r].Kick?
      && s' == s.(requesters := s.requesters - {r}, queued := true, owner := Queue)
    case StartWork =>
      s.queued && s.handler.Idle? && s' == s.(queued := false, handler := Started, owner := Working)
    case ReadForWork =>
      && s.handler.Started?
      && s' == s.(handler := if s.shuttingDown == Suspend then StartSuspend else StartShutdown)
    case CreateThread(t) =>
      && (s.handler.StartSuspend? || s.handler.StartShutdown?) && t !in s.threads
      && s' == s.(handler := Idle, owner := Running(t),
                  threads := s.threads[t := if s.handler.StartSuspend? then SuspendStart else ShutdownStart])
    case CreateFails =>
      && (s.handler.StartSuspend? || s.handler.StartShutdown?)
      && s' == s.(handler := Idle, queued := true, owner := Queue)
    case GetCpu(t, ok) =>
      && t in s.threads && s.threads[t].SuspendStart?
      && s' == s.(threads := s.threads[t := if ok then Suspending else Failing], handed := s.handed + [Suspend])
    case SuspendFails(t) =>
      t in s.threads && s.threads[t].Suspending? && s' == s.(threads := s.threads[t := Failing])
    case Notify(t) =>
      && t in s.threads && s.threads[t].Suspending?
      && s' == s.(shuttingDown := Resuming, threads := s.threads[t := Resumed], bug := s.bug || s.shuttingDown != Suspend)
    case Finish(t) =>
      && t in s.threads && s.threads[t].Resumed?
      && (if s.shuttingDown == Resuming then s' == s.(shuttingDown := Invalid, threads := s.threads - {t})
          else s' == s.(threads := s.threads[t := Decide(s.shuttingDown)]))
    case Choose(t) =>
      && t in s.threads && s.threads[t].Decide?
      && var seen := s.threads[t].seen;
      if seen == Suspend then s' == s.(threads := s.threads[t := Suspending], handed := s.handed + [Suspend])
      else if seen == Invalid then s' == s.(bug := true)
      else s' == s.(threads := s.threads - {t}, queued := true, owner := Queue)
    case Fail(t) =>
      && t in s.threads && s.threads[t].Failing?
      && s' == s.(shuttingDown := Invalid, threads := s.threads - {t}, bug := s.bug || s.shuttingDown != Suspend)
    case ReadForShutdown(t) =>
      && t in s.threads && s.threads[t].ShutdownStart?
      && s' == s.(threads := s.threads[t := ShutdownReset],
                  handed := if s.shuttingDown == PowerOff || s.shuttingDown == Halt then s.handed + [s.shuttingDown] else s.handed)
    case Reset(t) =>
      && t in s.threads && s.threads[t].ShutdownReset?
      && s' == s.(shuttingDown := Invalid, threads := s.threads - {t})
  }

  /** Who has to bring the variable back to Invalid, or to pass that duty on. */
  ghost predicate Responsible(s: State, x: Actor) {
    match x
    case Requesting(r) => r in s.requesters && s.requesters[r].Kick?
    case Queue => s.queued
    case Working => !s.handler.Idle?
    case Running(t) => t in s.threads
  }

  ghost predicate OneOwner(s: State) {
    forall x :: Responsible(s, x) <==> s.shuttingDown != Invalid && x == s.owner
  }

  /** What the variable can hold while a given actor is responsible. */
  ghost predicate Holds(s: State) {
    s.shuttingDown != Invalid ==>
      match s.owner
      case Requesting(_) => s.shuttingDown != Resuming
      case Queue => s.shuttingDown != Resuming
      case Working =>
        && s.shuttingDown != Resuming
        && (s.handler.StartSuspend? ==> s.shuttingDown == Suspend)
        && (s.handler.StartShutdown? ==> s.shuttingDown != Suspend)
      case Running(t) =>
        t in s.threads ==>
          match s.threads[t]
          case SuspendStart => s.shuttingDown == Suspend
          case Suspending => s.shuttingDown == Suspend
          case Resumed => true
          case Decide(seen) => s.shuttingDown == seen && seen != Resuming
          case Failing => s.shuttingDown == Suspend
          case ShutdownStart => s.shuttingDown == PowerOff || s.shuttingDown == Halt
          case ShutdownReset => s.shuttingDown == PowerOff || s.shuttingDown == Halt
  }

  /** Requesters only ever expect a value they may leave. */
  ghost predicate Requests(s: State) {
    forall r :: r in s.requesters && s.requesters[r].Try? ==>
                  Active(s.requesters[r].wanted) && !Active(s.requesters[r].expected)
  }

  /** The request in the variable has been taken up by the thread that is responsible for it. */
  ghost predicate TakenUp(s: State) {
    && s.owner.Running? && s.owner.t in s.threads
    && (s.threads[s.owner.t].Suspending? || s.threads[s.owner.t].Failing? || s.threads[s.owner.t].ShutdownReset?)
  }

  ghost predicate Accounted(s: State) {
    s.accepted == s.handed + (if Active(s.shuttingDown) && !TakenUp(s) then [s.shuttingDown] else [])
  }

  ghost predicate Invariant(s: State) {
    OneOwner(s) && Holds(s) && Requests(s) && Accounted(s) && !s.bug
  }

  // ----- the invariant is kept

  lemma OneOwnerKept(s: State, a: Step, s': State)
    requires OneOwner(s) && Holds(s) && Requests(s) && Next(s, a, s')
    ensures OneOwner(s')
  {
    forall x
      ensures Responsible(s', x) <==> s'.shuttingDown != Invalid && x == s'.owner
    {
      assert Responsible(s, x) <==> s.shuttingDown != Invalid && x == s.owner;
      assert Responsible(s, s.owner) <==> s.shuttingDown != Invalid;
      ActorOf(s, a, s');
    }
  }

  /** Only the responsible actor takes the steps that pass the duty on. */
  lemma ActorOf(s: State, a: Step, s': State)
    requires OneOwner(s) && Next(s, a, s')
    ensures a.Schedule? ==> s.owner == Requesting(a.r) && s.shuttingDown != Invalid
    ensures a.StartWork? ==> s.owner == Queue && s.shuttingDown != Invalid
    ensures a.ReadForWork? || a.CreateThread? || a.CreateFails? ==> s.owner == Working && s.shuttingDown != Invalid
    ensures a.GetCpu? || a.SuspendFails? || a.Notify? || a.Finish? || a.Choose? || a.Fail? || a.ReadForShutdown? || a.Reset? ==>
              s.owner == Running(a.t) && s.shuttingDown != Invalid
  {
    if a.Schedule? {
      assert Responsible(s, Requesting(a.r));
    } else if a.StartWork? {
      assert Responsible(s, Queue);
    } else if a.ReadForWork? || a.CreateThread? || a.CreateFails? {
      assert Responsible(s, Working);
    } else if a.Request? || a.CompareExchange? {
    } else {
      assert Responsible(s, Running(a.t));
    }
  }

  lemma HoldsKept(s: State, a: Step, s': State)
    requires OneOwner(s) && Holds(s) && Requests(s) && Next(s, a, s')
    ensures Holds(s')
  {
    ActorOf(s, a, s');
    assert Responsible(s, s.owner) <==> s.shuttingDown != Invalid;
  }

  lemma RequestsKept(s: State, a: Step, s': State)
    requires Requests(s) && Next(s, a, s')
    ensures Requests(s')
  {
  }

  lemma AccountedKept(s: State, a: Step, s': State)
    requires OneOwner(s) && Holds(s) && Requests(s) && Accounted(s) && Next(s, a, s')
    ensures Accounted(s')
  {
    ActorOf(s, a, s');
    assert Responsible(s, s.owner) <==> s.shuttingDown != Invalid;
  }

  lemma NoBug(s: State, a: Step, s': State)
    requires OneOwner(s) && Holds(s) && Requests(s) && !s.bug && Next(s, a, s')
    ensures !s'.bug
  {
    ActorOf(s, a, s');
  }

  lemma InvariantKept(s: State, a: Step, s': State)
    requires Invariant(s) && Next(s, a, s')
    ensures Invariant(s')
  {
    hide Next, OneOwner, Holds, Requests, Accounted;
    OneOwnerKept(s, a, s');
    HoldsKept(s, a, s');
    RequestsKept(s, a, s');
    AccountedKept(s, a, s');
    NoBug(s, a, s');
  }

  // ----- runs

  ghost predicate IsRun(states: seq<State>, steps: seq<Step>) {
    && |states| == |steps| + 1
    && Initial(states[0])
    && forall i :: 0 <= i < |steps| ==> Next(states[i], steps[i], states[i + 1])
  }

  lemma InitialInvariant(s: State)
    requires Initial(s)
    ensures Invariant(s)
  {
  }

  lemma {:induction false} InvariantAlways(states: seq<State>, steps: seq<Step>, i: nat)
    requires IsRun(states, steps) && i < |states|
    ensures Invariant(states[i])
  {
    if i == 0 {
      InitialInvariant(states[0]);
    } else {
      InvariantAlways(states, steps, i - 1);
      InvariantKept(states[i - 1], steps[i - 1], states[i]);
    }
  }

  /** In every state of every run no BUG was reached. */
  lemma NeverBug(states: seq<State>, steps: seq<Step>, i: nat)
    requires IsRun(states, steps) && i < |states|
    ensures !states[i].bug
  {
    InvariantAlways(states, steps, i);
  }

  /** A value other than Invalid has exactly one responsible actor, and Invalid has none. */
  lemma ExactlyOneResponsible(states: seq<State>, steps: seq<Step>, i: nat)
    requires IsRun(states, steps) && i < |states|
    ensures states[i].shuttingDown == Invalid <==> forall x :: !Responsible(states[i], x)
    ensures forall x, y :: Responsible(states[i], x) && Responsible(states[i], y) ==> x == y
  {
    InvariantAlways(states, steps, i);
    assert Responsible(states[i], states[i].owner) <==> states[i].shuttingDown != Invalid;
  }

  /**
   * The requests accepted so far have been handed out in order, each once: all of them when the
   * variable is Invalid or Resuming, all but possibly the last one otherwise.
   */
  lemma HandedExactlyOnce(states: seq<State>, steps: seq<Step>, i: nat)
    requires IsRun(states, steps) && i < |states|
    ensures var s := states[i];
            && (!Active(s.shuttingDown) ==> s.handed == s.accepted)
            && (Active(s.shuttingDown) ==> s.handed == s.accepted || s.handed + [s.shuttingDown] == s.accepted)
  {
    InvariantAlways(states, steps, i);
  }

  // ----- what becomes of a request

  /** The request for `wanted` is accepted in this step: nothing else is under way, or a suspend is just being resumed from. */
  ghost predicate AcceptedAt(s: State, s': State, wanted: Value) {
    !Active(s.shuttingDown) && s'.shuttingDown == wanted && s'.accepted == s.accepted + [wanted]
  }

  /** It is refused in favour of another request that is under way. */
  ghost predicate RefusedAt(s: State, s': State) {
    Active(s.shuttingDown) && s'.shuttingDown == s.shuttingDown && s'.accepted == s.accepted
  }

  ghost predicate Settled(states: seq<State>, steps: seq<Step>, r: nat, wanted: Value, j: nat)
    requires |states| == |steps| + 1
  {
    j < |steps| && steps[j] == CompareExchange(r) && (AcceptedAt(states[j], states[j + 1], wanted) || RefusedAt(states[j], states[j + 1]))
  }

  ghost predicate Pending(s: State, r: nat, wanted: Value) {
    r in s.requesters && s.requesters[r].Try? && s.requesters[r].wanted == wanted
  }

  /** A pending request goes on pending until it is settled. */
  lemma PendingOrSettled(s: State, a: Step, s': State, r: nat, wanted: Value)
    requires Requests(s) && Pending(s, r, wanted) && Next(s, a, s')
    ensures Pending(s', r, wanted) || (a == CompareExchange(r) && (AcceptedAt(s, s', wanted) || RefusedAt(s, s')))
  {
  }

  /** A request is accepted, refused because another one is under way, or still being tried. */
  lemma {:induction false} NeverDropped(states: seq<State>, steps: seq<Step>, r: nat, wanted: Value, from: nat, to: nat)
    requires IsRun(states, steps) && from < to <= |steps| && steps[from] == Request(r, wanted)
    ensures Pending(states[to], r, wanted) || exists j: nat :: from < j < to && Settled(states, steps, r, wanted, j)
  {
    hide Next, Settled, Invariant;
    if to == from + 1 {
      assert Pending(states[to], r, wanted) by { Requested(states[from], r, wanted, states[to]); }
    } else {
      NeverDropped(states, steps, r, wanted, from, to - 1);
      if Pending(states[to - 1], r, wanted) && !Pending(states[to], r, wanted) {
        RequestsAlways(states, steps, to - 1);
        PendingOrSettled(states[to - 1], steps[to - 1], states[to], r, wanted);
        assert Settled(states, steps, r, wanted, to - 1) by { SettledAt(states, steps, r, wanted, to - 1); }
      }
    }
  }

  lemma Requested(s: State, r: nat, wanted: Value, s': State)
    requires Next(s, Request(r, wanted), s')
    ensures Pending(s', r, wanted)
  {
  }

  lemma RequestsAlways(states: seq<State>, steps: seq<Step>, i: nat)
    requires IsRun(states, steps) && i < |states|
    ensures Requests(states[i])
  {
    InvariantAlways(states, steps, i);
  }

  lemma SettledAt(states: seq<State>, steps: seq<Step>, r: nat, wanted: Value, j: nat)
    requires |states| == |steps| + 1 && j < |steps| && steps[j] == CompareExchange(r)
    requires AcceptedAt(states[j], states[j + 1], wanted) || RefusedAt(states[j], states[j + 1])
    ensures Settled(states, steps, r, wanted, j)
  {
  }

  /** While r does not try again, it goes on expecting the value it saw last. */
  lemma {:induction false} ExpectedStays(states: seq<State>, steps: seq<Step>, r: nat, i: nat, j: nat)
    requires IsRun(states, steps) && i <= j < |states| && forall k: nat :: i <= k < j ==> steps[k] != CompareExchange(r)
    requires r in states[i].requesters && states[i].requesters[r].Try?
    ensures r in states[j].requesters && states[j].requesters[r] == states[i].requesters[r]
  {
    if i < j {
      ExpectedStays(states, steps, r, i, j - 1);
      assert Next(states[j - 1], steps[j - 1], states[j]);
    }
  }

  /**
   * Where a try fails although no other request is under way, the next one succeeds unless the
   * variable has changed in between: a request that meets Resuming is not lost.
   */
  lemma SecondTrySucceeds(states: seq<State>, steps: seq<Step>, r: nat, wanted: Value, i: nat, j: nat)
    requires IsRun(states, steps) && i < j < |steps| && steps[i] == steps[j] == CompareExchange(r)
    requires forall k: nat :: i < k < j ==> steps[k] != CompareExchange(r)
    requires Pending(states[i], r, wanted) && !Active(states[i].shuttingDown) && states[j].shuttingDown == states[i].shuttingDown
    ensures AcceptedAt(states[i], states[i + 1], wanted) || AcceptedAt(states[j], states[j + 1], wanted)
  {
    assert Next(states[i], steps[i], states[i + 1]);
    if !AcceptedAt(states[i], states[i + 1], wanted) {
      ExpectedStays(states, steps, r, i + 1, j);
      assert Next(states[j], steps[j], states[j + 1]);
    }
  }

  // ----- the protocol cannot get stuck

  /** A step of the given actor. */
  ghost predicate StepOf(x: Actor, a: Step) {
    match x
    case Requesting(r) => a == Schedule(r)
    case Queue => a == StartWork
    case Working => a == ReadForWork || a.CreateThread?
    case Running(t) =>
      a == GetCpu(t, true) || a == Notify(t) || a == Finish(t) || a == Choose(t) || a == Fail(t) || a == ReadForShutdown(t) || a == Reset(t)
  }

  /** As long as the variable is not Invalid, the actor responsible for it can take its next step. */
  lemma ResponsibleCanStep(states: seq<State>, steps: seq<Step>, i: nat) returns (a: Step, s': State)
    requires IsRun(states, steps) && i < |states| && states[i].shuttingDown != Invalid
    ensures StepOf(states[i].owner, a) && Next(states[i], a, s')
  {
    var s := states[i];
    InvariantAlways(states, steps, i);
    assert Responsible(s, s.owner);
    match s.owner
    case Requesting(r) =>
      a, s' := Schedule(r), s.(requesters := s.requesters - {r}, queued := true, owner := Queue);
    case Queue =>
      assert !Responsible(s, Working);
      a, s' := StartWork, s.(queued := false, handler := Started, owner := Working);
    case Working =>
      if s.handler.Started? {
        a, s' := ReadForWork, s.(handler := if s.shuttingDown == Suspend then StartSuspend else StartShutdown);
      } else {
        var t := Unused(s.threads.Keys);
        a := CreateThread(t);
        s' := s.(handler := Idle, owner := Running(t), threads := s.threads[t := if s.handler.StartSuspend? then SuspendStart else ShutdownStart]);
      }
    case Running(t) =>
      hide Invariant;
      a, s' := ThreadStep(s, t);
  }

  lemma {:induction false} Unused(ids: set<nat>) returns (t: nat)
    ensures forall id :: id in ids ==> id < t
  {
    if ids == {} {
      t := 0;
    } else {
      var id :| id in ids;
      var t0 := Unused(ids - {id});
      t := if t0 <= id then id + 1 else t0;
      forall i | i in ids
        ensures i < t
      {
        assert i == id || i in ids - {id};
      }
    }
  }

  lemma ThreadStep(s: State, t: nat) returns (a: Step, s': State)
    requires t in s.threads
    ensures StepOf(Running(t), a) && Next(s, a, s')
  {
    match s.threads[t]
    case SuspendStart =>
      a, s' := GetCpu(t, true), s.(threads := s.threads[t := Suspending], handed := s.handed + [Suspend]);
    case Suspending =>
      a, s' := Notify(t), s.(shuttingDown := Resuming, threads := s.threads[t := Resumed], bug := s.bug || s.shuttingDown != Suspend);
    case Resumed =>
      a := Finish(t);
      s' := if s.shuttingDown == Resuming then s.(shuttingDown := Invalid, threads := s.threads - {t})
            else s.(threads := s.threads[t := Decide(s.shuttingDown)]);
    case Decide(seen) =>
      a := Choose(t);
      s' := if seen == Suspend then s.(threads := s.threads[t := Suspending], handed := s.handed + [Suspend])
            else if seen == Invalid then s.(bug := true)
            else s.(threads := s.threads - {t}, queued := true, owner := Queue);
    case Failing =>
      a, s' := Fail(t), s.(shuttingDown := Invalid, threads := s.threads - {t}, bug := s.bug || s.shuttingDown != Suspend);
    case ShutdownStart =>
      a := ReadForShutdown(t);
      s' := s.(threads := s.threads[t := ShutdownReset],
               handed := if s.shuttingDown == PowerOff || s.shuttingDown == Halt then s.handed + [s.shuttingDown] else s.handed);
    case ShutdownReset =>
      a, s' := Reset(t), s.(shuttingDown := Invalid, threads := s.threads - {t});
  }
}
