/**
 * The event-channel scan with the hypervisor at work beside it, as a state machine with one step per
 * access to shared memory.
 *
 * The hypervisor delivers an event in three steps: it sets the port's pending bit, then the selector
 * bit of its word, then the upcall flag. The guest clears the flag, takes the selector word, and
 * clears pending bits word by word. Masks are fixed; ports are bound to a handler and unbound at any
 * time.
 */
module EventDelivery {

  import opened EventPort

  /** Where the interrupt handler stands. */
  datatype Pc =
    | Idle
    | Entered                   // the upcall flag is cleared, the selector not yet taken
    | Outer                     // at the head of the loop over selected words
    | Inner(word: nat)          // at the head of the loop over one word
    | Serving(port: Port)       // the pending bit is cleared, the handler still to be looked up
    | Running(port: Port)       // the handler was found, and is still to run
    | Dropping(word: nat)       // the word was read as zero, its selector bit still to be cleared

  datatype State = State(
    pending: set<Port>,
    selector: set<nat>,
    upcall: bool,
    selecting: multiset<Port>,  // pending bit set, selector bit still to be set
    raising: multiset<Port>,    // selector bit set, upcall flag still to be set
    pc: Pc,
    l1: set<nat>,
    bound: set<Port>,           // ports with an irq and a handler
    raised: multiset<Port>,     // every time a pending bit went from clear to set
    calls: multiset<Port>,      // every handler run
    ignored: multiset<Port>)    // every pending bit cleared for want of a handler

  datatype Step =
    | SetPending(p: Port) | SetSelector(p: Port) | SetUpcall(p: Port)
    | Enter | TakeSelector | Visit(word: nat) | ClearPending(p: Port) | LookUp | RunHandler | Reread | Drop | Leave
    | Bind(p: Port) | Unbind(p: Port)

  const NoPorts: multiset<Port> := multiset{}

  ghost predicate Initial(s: State) {
    s == State({}, {}, false, NoPorts, NoPorts, Idle, {}, s.bound, NoPorts, NoPorts, NoPorts)
  }

  ghost predicate WordActive(s: State, masked: set<Port>, word: nat) {
    exists p :: p in s.pending - masked && p.word == word
  }

  ghost predicate Next(s: State, a: Step, s': State, masked: set<Port>) {
    match a
    case SetPending(p) =>
      && p !in s.pending
      && s' == s.(pending := s.pending + {p}, raised := s.raised + multiset{p},
                  selecting := if p in masked then s.selecting else s.selecting + multiset{p})
    case SetSelector(p) =>
      && p in s.selecting
      && s' == s.(selector := s.selector + {p.word}, selecting := s.selecting - multiset{p}, raising := s.raising + multiset{p})
    case SetUpcall(p) =>
      p in s.raising && s' == s.(upcall := true, raising := s.raising - multiset{p})
    case Enter =>
      s.pc.Idle? && s.upcall && s' == s.(upcall := false, pc := Entered)
    case TakeSelector =>
      s.pc.Entered? && s' == s.(l1 := s.selector, selector := {}, pc := Outer)
    case Visit(w) =>
      s.pc.Outer? && w in s.l1 && s' == s.(pc := Inner(w))
    case ClearPending(p) =>
      && s.pc == Inner(p.word) && p in s.pending && p !in masked
      && s' == s.(pending := s.pending - {p}, pc := Serving(p))
    case LookUp =>
      && s.pc.Serving?
      && s' == if s.pc.port in s.bound then s.(pc := Running(s.pc.port))
               else s.(ignored := s.ignored + multiset{s.pc.port}, pc := Inner(s.pc.port.word))
    case RunHandler =>
      s.pc.Running? && s' == s.(calls := s.calls + multiset{s.pc.port}, pc := Inner(s.pc.port.word))
    case Reread =>
      s.pc.Inner? && s' == s.(pc := if WordActive(s, masked, s.pc.word) then Outer else Dropping(s.pc.word))
    case Drop =>
      s.pc.Dropping? && s' == s.(l1 := s.l1 - {s.pc.word}, pc := Outer)
    case Leave =>
      s.pc.Outer? && s.l1 == {} && s' == s.(pc := Idle)
    case Bind(p) =>
      s' == s.(bound := s.bound + {p})
    case Unbind(p) =>
      s' == s.(bound := s.bound - {p})
  }

  /** The event's word will still be looked at: it is selected for the next scan, or left in this one. */
  ghost predicate Noted(s: State, p: Port) {
    p.word in s.selector || (p.word in s.l1 && s.pc != Dropping(p.word))
  }

  ghost predicate AllNoted(s: State, masked: set<Port>) {
    forall p :: p in s.pending && p !in masked && p !in s.selecting ==> Noted(s, p)
  }

  /** A selected word has its interrupt raised, or about to be raised, or about to be taken. */
  ghost predicate Announced(s: State) {
    s.selector != {} ==> s.upcall || s.pc.Entered? || s.raising != NoPorts
  }

  ghost predicate Shape(s: State) {
    && (s.pc.Idle? || s.pc.Entered? ==> s.l1 == {})
    && (s.pc.Inner? || s.pc.Dropping? ==> s.pc.word in s.l1)
    && (s.pc.Serving? || s.pc.Running? ==> s.pc.port.word in s.l1)
  }

  predicate InService(pc: Pc, p: Port) {
    pc == Serving(p) || pc == Running(p)
  }

  ghost predicate AccountedFor(s: State, p: Port) {
    s.raised[p] == s.calls[p] + s.ignored[p] + (if p in s.pending then 1 else 0) + (if InService(s.pc, p) then 1 else 0)
  }

  ghost predicate Accounted(s: State) {
    forall p :: AccountedFor(s, p)
  }

  ghost predicate Invariant(s: State, masked: set<Port>) {
    AllNoted(s, masked) && Announced(s) && Shape(s) && Accounted(s)
  }

  lemma NotedKept(s: State, a: Step, s': State, masked: set<Port>, p: Port)
    requires Shape(s) && AllNoted(s, masked) && Next(s, a, s', masked)
    requires p in s'.pending && p !in masked && p !in s'.selecting
    ensures Noted(s', p)
  {
    if a == SetSelector(p) {
      assert p.word in s'.selector;
    } else {
      assert p in s.pending && p !in s.selecting;
      assert Noted(s, p);
    }
  }

  lemma AnnouncedKept(s: State, a: Step, s': State, masked: set<Port>)
    requires Announced(s) && Next(s, a, s', masked)
    ensures Announced(s')
  {
    if a.SetSelector? {
      assert a.p in s'.raising;
    }
  }

  lemma AccountedKept(s: State, a: Step, s': State, masked: set<Port>)
    requires Accounted(s) && Next(s, a, s', masked)
    ensures Accounted(s')
  {
    forall p
      ensures AccountedFor(s', p)
    {
      AccountedForKept(s, a, s', masked, p);
    }
  }

  lemma AccountedForKept(s: State, a: Step, s': State, masked: set<Port>, p: Port)
    requires AccountedFor(s, p) && Next(s, a, s', masked)
    ensures AccountedFor(s', p)
  {
  }

  lemma AllNotedKept(s: State, a: Step, s': State, masked: set<Port>)
    requires Shape(s) && AllNoted(s, masked) && Next(s, a, s', masked)
    ensures AllNoted(s', masked)
  {
    hide Next, Noted, Shape;
    forall p | p in s'.pending && p !in masked && p !in s'.selecting
      ensures Noted(s', p)
    {
      NotedKept(s, a, s', masked, p);
    }
  }

  lemma ShapeKept(s: State, a: Step, s': State, masked: set<Port>)
    requires Shape(s) && Next(s, a, s', masked)
    ensures Shape(s')
  {
  }

  lemma InvariantKept(s: State, a: Step, s': State, masked: set<Port>)
    requires Invariant(s, masked) && Next(s, a, s', masked)
    ensures Invariant(s', masked)
  {
    hide Next, AllNoted, Announced, Shape, Accounted, AccountedFor;
    AllNotedKept(s, a, s', masked);
    AnnouncedKept(s, a, s', masked);
    ShapeKept(s, a, s', masked);
    AccountedKept(s, a, s', masked);
  }

  ghost predicate IsRun(states: seq<State>, steps: seq<Step>, masked: set<Port>) {
    && |states| == |steps| + 1
    && Initial(states[0])
    && forall i :: 0 <= i < |steps| ==> Next(states[i], steps[i], states[i + 1], masked)
  }

  lemma {:induction false} InvariantAlways(states: seq<State>, steps: seq<Step>, masked: set<Port>, i: nat)
    requires IsRun(states, steps, masked) && i < |states|
    ensures Invariant(states[i], masked)
  {
    if i > 0 {
      InvariantAlways(states, steps, masked, i - 1);
      InvariantKept(states[i - 1], steps[i - 1], states[i], masked);
    }
  }

  /**
   * No event is lost, in any state of any run: once the hypervisor has set both the pending and the
   * selector bit of an unmasked port, the port's word is in the shared selector or in the scan's own.
   */
  lemma NoEventLost(states: seq<State>, steps: seq<Step>, masked: set<Port>, i: nat, p: Port)
    requires IsRun(states, steps, masked) && i < |states|
    requires p in states[i].pending && p !in masked && p !in states[i].selecting
    ensures p.word in states[i].selector || p.word in states[i].l1
    ensures states[i].pc.Idle? ==> p.word in states[i].selector
    ensures states[i].pc.Idle? && states[i].raising == NoPorts ==> states[i].upcall
  {
    InvariantAlways(states, steps, masked, i);
  }

  /**
   * Every event is dealt with exactly once: what has been raised and is neither pending nor just in
   * service has had its handler run, or found none, and nothing else has.
   */
  lemma HandledExactlyOnce(states: seq<State>, steps: seq<Step>, masked: set<Port>, i: nat, p: Port)
    requires IsRun(states, steps, masked) && i < |states|
    ensures states[i].raised[p] == states[i].calls[p] + states[i].ignored[p]
                                 + (if p in states[i].pending then 1 else 0)
                                 + (if InService(states[i].pc, p) then 1 else 0)
  {
    InvariantAlways(states, steps, masked, i);
    assert AccountedFor(states[i], p);
  }

  /** No event of a port that stays bound is ignored, and no handler runs for a port that is never bound. */
  lemma {:induction false} IgnoredOnlyUnbound(states: seq<State>, steps: seq<Step>, masked: set<Port>, i: nat, p: Port)
    requires IsRun(states, steps, masked) && i < |states|
    ensures (forall j :: 0 <= j <= i ==> p in states[j].bound) ==> states[i].ignored[p] == 0
    ensures (forall j :: 0 <= j <= i ==> p !in states[j].bound) ==> states[i].calls[p] == 0 && states[i].pc != Running(p)
  {
    if i > 0 {
      IgnoredOnlyUnbound(states, steps, masked, i - 1, p);
      assert Next(states[i - 1], steps[i - 1], states[i], masked);
    }
  }

  /** No event of a masked port is taken. */
  lemma {:induction false} MaskedUntouched(states: seq<State>, steps: seq<Step>, masked: set<Port>, i: nat, p: Port)
    requires IsRun(states, steps, masked) && i < |states| && p in masked
    ensures states[i].calls[p] == states[i].ignored[p] == 0 && !InService(states[i].pc, p)
  {
    if i > 0 {
      MaskedUntouched(states, steps, masked, i - 1, p);
      assert Next(states[i - 1], steps[i - 1], states[i], masked);
    }
  }

  /** From its binding until its unbinding no event of a port is ignored. */
  lemma {:induction false} NoneIgnoredWhileBound(states: seq<State>, steps: seq<Step>, masked: set<Port>, from: nat, i: nat, p: Port)
    requires IsRun(states, steps, masked) && from < i < |states| && steps[from] == Bind(p)
    requires forall j :: from < j < i ==> steps[j] != Unbind(p)
    ensures p in states[i].bound && states[i].ignored[p] == states[from].ignored[p]
  {
    assert Next(states[i - 1], steps[i - 1], states[i], masked);
    if i > from + 1 {
      NoneIgnoredWhileBound(states, steps, masked, from, i - 1, p);
    }
  }

  /** While an unmasked event is visible the guest can take its next step, or the hypervisor is about to raise the interrupt. */
  lemma NeverStuck(states: seq<State>, steps: seq<Step>, masked: set<Port>, i: nat, p: Port) returns (a: Step, s': State)
    requires IsRun(states, steps, masked) && i < |states|
    requires p in states[i].pending && p !in masked && p !in states[i].selecting
    ensures Next(states[i], a, s', masked) && !a.SetPending? && !a.SetSelector? && !a.Bind? && !a.Unbind?
  {
    var s := states[i];
    NoEventLost(states, steps, masked, i, p);
    InvariantAlways(states, steps, masked, i);
    match s.pc
    case Idle =>
      if s.upcall {
        a, s' := Enter, s.(upcall := false, pc := Entered);
      } else {
        var q :| q in s.raising;
        a, s' := SetUpcall(q), s.(upcall := true, raising := s.raising - multiset{q});
      }
    case Entered => a, s' := TakeSelector, s.(l1 := s.selector, selector := {}, pc := Outer);
    case Outer =>
      if s.l1 == {} {
        a, s' := Leave, s.(pc := Idle);
      } else {
        var w :| w in s.l1;
        a, s' := Visit(w), s.(pc := Inner(w));
      }
    case Inner(w) =>
      if WordActive(s, masked, w) {
        var q :| q in s.pending - masked && q.word == w;
        a, s' := ClearPending(q), s.(pending := s.pending - {q}, pc := Serving(q));
      } else {
        a, s' := Reread, s.(pc := Dropping(w));
      }
    case Serving(q) =>
      a := LookUp;
      s' := if q in s.bound then s.(pc := Running(q)) else s.(ignored := s.ignored + multiset{q}, pc := Inner(q.word));
    case Running(q) => a, s' := RunHandler, s.(calls := s.calls + multiset{q}, pc := Inner(q.word));
    case Dropping(w) => a, s' := Drop, s.(l1 := s.l1 - {w}, pc := Outer);
  }
}
