/**
 * Taking a grant back from a remote domain: gnttab_end_foreign_access in any number of threads, the
 * list of deferred entries and its timer, while the remote domain changes the flags of an entry
 * between any two steps. One step per read, cmpxchg or critical section.
 */
module GrantRevocation {

  import opened Common

  /** The flags of a grant entry: GTF_permit_access, GTF_reading, GTF_writing. */
  datatype Flags = Flags(permit: bool, reading: bool, writing: bool)

  const CLEAR := Flags(false, false, false)

  predicate InUse(f: Flags) {
    f.reading || f.writing
  }

  /** Where a grant reference is: granted, being ended under some ticket, on the free list, or leaked. */
  datatype Place = Live | Ending(ticket: nat) | Free | Leaked

  /** How far a job has come: _gnttab_end_foreign_access_ref, then the free list, then the page. */
  datatype Stage = Reading | Testing(seen: Flags) | Busy | Cleared | FreeingPage

  /** One ending of a grant. The ticket is a number of its own for each call, and stands for its page. */
  datatype Job = Job(ticket: nat, ref: nat, page: bool, stage: Stage)

  /**
   * gnttab_handle_deferred: nr rounds left, and the entry that was the first to stay. Head holds the
   * lock; Fired has been called by the timer and waits for it.
   */
  datatype Handler =
    | Idle
    | Fired
    | Head(nr: nat, first: nat)
    | Working(job: Job, nr: nat, first: nat)
    | Ended(nr: nat, first: nat)

  /** Who holds a ticket. */
  datatype Holder = Caller(t: nat) | List | Timer | Finished | Lost

  const NONE: nat := 0                      // no `first` yet; tickets start at 1

  datatype State = State(
    flags: map<nat, Flags>,
    refs: map<nat, Place>,
    calls: map<nat, Job>,
    deferred: seq<Job>,                     // deferred_list
    pending: bool,                          // timer_pending(&deferred_timer)
    handler: Handler,
    bogus: bool,                            // the handler took an entry off an empty list
    tickets: map<nat, Holder>,              // history
    cleared: set<nat>,                      // history: tickets whose cmpxchg succeeded
    put: seq<nat>,                          // history: tickets whose grant went to the free list
    freed: seq<nat>)                        // history: tickets whose page was freed

  datatype Step =
    | Remote(ref: nat, f: Flags)
    | Grant(ref: nat)
    | Begin(t: nat, ticket: nat, ref: nat, page: bool)
    | Look(t: nat)
    | PutFree(t: nat)
    | FreePage(t: nat)
    | Defer(t: nat, memory: bool)
    | Fire
    | Lock
    | Take
    | TimerLook
    | TimerPutFree
    | TimerFreePage
    | Back

  // ----- one job

  /** A read, or a test and the cmpxchg that follows it. */
  function Looked(stage: Stage, f: Flags): Stage {
    match stage
    case Reading => Testing(f)
    case Testing(seen) => if InUse(seen) then Busy else if f == seen then Cleared else Testing(f)
    case _ => stage
  }

  /** The cmpxchg stores zero where it succeeds. */
  function FlagsAfter(stage: Stage, f: Flags): Flags {
    if stage.Testing? && !InUse(stage.seen) && f == stage.seen then CLEAR else f
  }

  predicate CanLook(stage: Stage) {
    stage.Reading? || stage.Testing?
  }

  /** What a look does to the state outside the job. */
  function AfterLook(s: State, job: Job): State
    requires job.ref in s.flags
  {
    var f := s.flags[job.ref];
    s.(flags := s.flags[job.ref := FlagsAfter(job.stage, f)],
       cleared := if Looked(job.stage, f) == Cleared then s.cleared + {job.ticket} else s.cleared)
  }

  /** put_free_entry; a job without a page is finished with it. */
  function AfterPut(s: State, job: Job): State {
    s.(refs := s.refs[job.ref := Free], put := s.put + [job.ticket],
       tickets := if job.page then s.tickets else s.tickets[job.ticket := Finished])
  }

  function AfterFreePage(s: State, job: Job): State {
    s.(freed := s.freed + [job.ticket], tickets := s.tickets[job.ticket := Finished])
  }

  // ----- steps

  ghost predicate Initial(s: State) {
    && s.flags.Keys == s.refs.Keys && (forall r :: r in s.refs ==> s.refs[r] == Live)
    && s.calls == map[] && s.deferred == [] && !s.pending && s.handler == Idle && !s.bogus
    && s.tickets == map[] && s.cleared == {} && s.put == [] && s.freed == []
  }

  ghost predicate Next(s: State, a: Step, s': State) {
    && !s.bogus
    && match a
       case Remote(r, f) =>
         // only an entry that permits access can get a new user
         && r in s.flags && f.permit == s.flags[r].permit
         && (s.flags[r].permit || ((f.reading ==> s.flags[r].reading) && (f.writing ==> s.flags[r].writing)))
         && s' == s.(flags := s.flags[r := f])
       case Grant(r) =>
         r in s.refs && r in s.flags && s.refs[r] == Free
         && s' == s.(refs := s.refs[r := Live], flags := s.flags[r := Flags(true, false, false)])
       case Begin(t, c, r, page) =>
         && t !in s.calls && c !in s.tickets && c != NONE && r in s.refs && s.refs[r] == Live
         && s' == s.(calls := s.calls[t := Job(c, r, page, Reading)], refs := s.refs[r := Ending(c)],
                     tickets := s.tickets[c := Caller(t)])
       case Look(t) =>
         && t in s.calls && CanLook(s.calls[t].stage) && s.calls[t].ref in s.flags
         && var j := s.calls[t];
            s' == AfterLook(s, j).(calls := s.calls[t := j.(stage := Looked(j.stage, s.flags[j.ref]))])
       case PutFree(t) =>
         && t in s.calls && s.calls[t].stage == Cleared && !s.handler.Head?
         && var j := s.calls[t];
            s' == AfterPut(s, j).(calls := if j.page then s.calls[t := j.(stage := FreeingPage)] else s.calls - {t})
       case FreePage(t) =>
         && t in s.calls && s.calls[t].stage == FreeingPage
         && s' == AfterFreePage(s, s.calls[t]).(calls := s.calls - {t})
       case Defer(t, memory) =>
         && t in s.calls && s.calls[t].stage == Busy && !s.handler.Head?
         && var j := s.calls[t];
            if memory then
              s' == s.(calls := s.calls - {t}, deferred := s.deferred + [j], pending := true, tickets := s.tickets[j.ticket := List])
            else
              s' == s.(calls := s.calls - {t}, refs := s.refs[j.ref := Leaked], tickets := s.tickets[j.ticket := Lost])
       case Fire =>
         s.handler == Idle && s.pending && s' == s.(pending := false, handler := Fired)
       case Lock =>
         s.handler == Fired && s' == s.(handler := Head(10, NONE))
       case Take =>
         && s.handler.Head?
         && if s.handler.nr == 0 then s' == Closed(s)
            else if s.deferred == [] then s' == s.(bogus := true)
            else if s.deferred[0].ticket == s.handler.first then s' == Closed(s)
            else s' == s.(deferred := s.deferred[1..], tickets := s.tickets[s.deferred[0].ticket := Timer],
                          handler := Working(s.deferred[0].(stage := Reading), s.handler.nr - 1, s.handler.first))
       case TimerLook =>
         && s.handler.Working? && CanLook(s.handler.job.stage) && s.handler.job.ref in s.flags
         && var j := s.handler.job;
            s' == AfterLook(s, j).(handler := s.handler.(job := j.(stage := Looked(j.stage, s.flags[j.ref]))))
       case TimerPutFree =>
         && s.handler.Working? && s.handler.job.stage == Cleared
         && var j := s.handler.job;
            s' == AfterPut(s, j).(handler := if j.page then s.handler.(job := j.(stage := FreeingPage)) else Ended(s.handler.nr, s.handler.first))
       case TimerFreePage =>
         && s.handler.Working? && s.handler.job.stage == FreeingPage
         && s' == AfterFreePage(s, s.handler.job).(handler := Ended(s.handler.nr, s.handler.first))
       case Back =>
         if s.handler.Working? && s.handler.job.stage == Busy then
           var j := s.handler.job;
           s' == s.(deferred := s.deferred + [j], tickets := s.tickets[j.ticket := List],
                    handler := Head(s.handler.nr, if s.handler.first == NONE then j.ticket else s.handler.first))
         else
           && s.handler.Ended?
           && if s.deferred == [] then s' == Closed(s) else s' == s.(handler := Head(s.handler.nr, s.handler.first))
  }

  /** The end of gnttab_handle_deferred: the timer is armed again while something is left. */
  function Closed(s: State): State {
    s.(handler := Idle, pending := s.pending || s.deferred != [])
  }

  // ----- the invariant

  /** A job and the books about its ticket and its grant. */
  ghost predicate JobOk(s: State, j: Job, holder: Holder) {
    && j.ticket in s.tickets && s.tickets[j.ticket] == holder && j.ref in s.refs && j.ref in s.flags
    && (j.stage != FreeingPage ==> s.refs[j.ref] == Ending(j.ticket) && j.ticket !in s.put)
    && (j.ticket in s.cleared <==> j.stage == Cleared || j.stage == FreeingPage)
    && (j.stage == Cleared ==> s.flags[j.ref] == CLEAR)
    && (j.stage == FreeingPage ==> j.page && j.ticket in s.put)
    && j.ticket !in s.freed
  }

  ghost predicate CallsOk(s: State) {
    && (forall t :: t in s.calls ==> JobOk(s, s.calls[t], Caller(t)))
    && (forall c :: c in s.tickets && s.tickets[c].Caller? ==> s.tickets[c].t in s.calls && s.calls[s.tickets[c].t].ticket == c)
  }

  ghost predicate ListOk(s: State) {
    && (forall j :: j in s.deferred ==> JobOk(s, j, List) && j.stage == Busy)
    && (forall i, k :: 0 <= i < k < |s.deferred| ==> s.deferred[i].ticket != s.deferred[k].ticket)
  }

  ghost predicate HandlerOk(s: State) {
    && (s.handler.Working? ==> JobOk(s, s.handler.job, Timer))
    && (forall c :: c in s.tickets && s.tickets[c] == Timer ==> s.handler.Working? && s.handler.job.ticket == c)
  }

  /** Grants on the free list have been cleared; each ticket put one there, and freed its page, at most once. */
  ghost predicate BooksOk(s: State) {
    && s.flags.Keys == s.refs.Keys
    && (forall r :: r in s.refs && s.refs[r] == Free ==> s.flags[r] == CLEAR)
    && (forall c :: c in s.put ==> c in s.cleared)
    && (forall c :: c in s.freed ==> c in s.put && c in s.tickets && s.tickets[c] == Finished)
    && (forall c :: c in s.cleared ==> c in s.tickets)
    && (forall c :: c in s.tickets ==> c != NONE)
  }

  ghost predicate OnceOk(s: State) {
    Distinct(s.put) && Distinct(s.freed)
  }

  ghost predicate Invariant(s: State) {
    CallsOk(s) && ListOk(s) && HandlerOk(s) && BooksOk(s) && OnceOk(s)
  }

  // ----- the invariant is kept

  /** Two states with the same books. */
  ghost predicate SameBooks(s: State, s': State) {
    && s'.flags == s.flags && s'.refs == s.refs && s'.tickets == s.tickets
    && s'.cleared == s.cleared && s'.put == s.put && s'.freed == s.freed
  }

  /** The job k moves its ticket to another holder, and perhaps gives its grant up. */
  function Moved(s: State, k: Job, holder: Holder): State {
    s.(tickets := s.tickets[k.ticket := holder], refs := if holder == Lost then s.refs[k.ref := Leaked] else s.refs)
  }

  lemma SameOthers(s: State, s': State, j: Job, holder: Holder)
    requires JobOk(s, j, holder) && SameBooks(s, s')
    ensures JobOk(s', j, holder)
  {
  }

  lemma LookOthers(s: State, k: Job, h: Holder, j: Job, holder: Holder)
    requires JobOk(s, k, h) && JobOk(s, j, holder) && k.ticket != j.ticket && CanLook(k.stage)
    ensures JobOk(AfterLook(s, k), j, holder)
  {
  }

  lemma PutOthers(s: State, k: Job, h: Holder, j: Job, holder: Holder)
    requires JobOk(s, k, h) && JobOk(s, j, holder) && k.ticket != j.ticket && k.stage == Cleared
    ensures JobOk(AfterPut(s, k), j, holder)
  {
  }

  lemma FreePageOthers(s: State, k: Job, h: Holder, j: Job, holder: Holder)
    requires JobOk(s, k, h) && JobOk(s, j, holder) && k.ticket != j.ticket
    ensures JobOk(AfterFreePage(s, k), j, holder)
  {
  }

  lemma MovedOthers(s: State, k: Job, h: Holder, j: Job, holder: Holder, h': Holder)
    requires JobOk(s, k, h) && JobOk(s, j, holder) && k.ticket != j.ticket && k.stage != FreeingPage
    ensures JobOk(Moved(s, k, h'), j, holder)
  {
  }

  /** Steps that work on no job of their own. */
  lemma PassiveOthers(s: State, a: Step, s': State, j: Job, holder: Holder)
    requires Next(s, a, s') && JobOk(s, j, holder) && (a.Remote? || a.Grant? || a.Begin?)
    ensures JobOk(s', j, holder)
  {
  }

  /** The ticket of the job a step works on. */
  ghost function Actor(s: State, a: Step): (c: nat) {
    match a
    case Look(t) => if t in s.calls then s.calls[t].ticket else NONE
    case PutFree(t) => if t in s.calls then s.calls[t].ticket else NONE
    case FreePage(t) => if t in s.calls then s.calls[t].ticket else NONE
    case Defer(t, _) => if t in s.calls then s.calls[t].ticket else NONE
    case Take => if s.deferred != [] && s.handler.Head? && s.handler.nr > 0 && s.deferred[0].ticket != s.handler.first then s.deferred[0].ticket else NONE
    case TimerLook => if s.handler.Working? then s.handler.job.ticket else NONE
    case TimerPutFree => if s.handler.Working? then s.handler.job.ticket else NONE
    case TimerFreePage => if s.handler.Working? then s.handler.job.ticket else NONE
    case Back => if s.handler.Working? then s.handler.job.ticket else NONE
    case _ => NONE
  }

  /** A step leaves every job alone but the one it works on. */
  lemma OthersKept(s: State, a: Step, s': State, j: Job, holder: Holder)
    requires Invariant(s) && Next(s, a, s') && JobOk(s, j, holder) && Actor(s, a) != j.ticket
    ensures JobOk(s', j, holder)
  {
    hide JobOk, AfterLook, AfterPut, AfterFreePage, OnceOk, BooksOk;
    match a
    case Remote(_, _) => PassiveOthers(s, a, s', j, holder);
    case Grant(_) => PassiveOthers(s, a, s', j, holder);
    case Begin(_, _, _, _) => PassiveOthers(s, a, s', j, holder);
    case Look(t) =>
      LookOthers(s, s.calls[t], Caller(t), j, holder);
      SameOthers(AfterLook(s, s.calls[t]), s', j, holder);
    case PutFree(t) =>
      PutOthers(s, s.calls[t], Caller(t), j, holder);
      SameOthers(AfterPut(s, s.calls[t]), s', j, holder);
    case FreePage(t) =>
      FreePageOthers(s, s.calls[t], Caller(t), j, holder);
      SameOthers(AfterFreePage(s, s.calls[t]), s', j, holder);
    case Defer(t, memory) =>
      MovedOthers(s, s.calls[t], Caller(t), j, holder, if memory then List else Lost);
      SameOthers(Moved(s, s.calls[t], if memory then List else Lost), s', j, holder);
    case Fire => SameOthers(s, s', j, holder);
    case Lock => SameOthers(s, s', j, holder);
    case Take =>
      if Actor(s, a) != NONE {
        MovedOthers(s, s.deferred[0], List, j, holder, Timer);
        SameOthers(Moved(s, s.deferred[0], Timer), s', j, holder);
      } else {
        TakeNothing(s, s');
        SameOthers(s, s', j, holder);
      }
    case TimerLook =>
      LookOthers(s, s.handler.job, Timer, j, holder);
      SameOthers(AfterLook(s, s.handler.job), s', j, holder);
    case TimerPutFree =>
      PutOthers(s, s.handler.job, Timer, j, holder);
      SameOthers(AfterPut(s, s.handler.job), s', j, holder);
    case TimerFreePage =>
      FreePageOthers(s, s.handler.job, Timer, j, holder);
      SameOthers(AfterFreePage(s, s.handler.job), s', j, holder);
    case Back =>
      if s.handler.Working? {
        MovedOthers(s, s.handler.job, Timer, j, holder, List);
        SameOthers(Moved(s, s.handler.job, List), s', j, holder);
      } else {
        SameOthers(s, s', j, holder);
      }
  }

  /** A round of the handler that takes no entry changes no books. */
  lemma TakeNothing(s: State, s': State)
    requires ListOk(s) && BooksOk(s) && Next(s, Take, s') && Actor(s, Take) == NONE
    ensures SameBooks(s, s')
  {
    if s.deferred != [] {
      assert JobOk(s, s.deferred[0], List);
    }
  }

  lemma LookOwn(s: State, k: Job, h: Holder)
    requires JobOk(s, k, h) && CanLook(k.stage)
    ensures JobOk(AfterLook(s, k), k.(stage := Looked(k.stage, s.flags[k.ref])), h)
  {
  }

  lemma PutOwn(s: State, k: Job, h: Holder)
    requires JobOk(s, k, h) && k.stage == Cleared && k.page
    ensures JobOk(AfterPut(s, k), k.(stage := FreeingPage), h)
  {
  }

  lemma MovedOwn(s: State, k: Job, h: Holder, h': Holder, stage: Stage)
    requires JobOk(s, k, h) && k.stage == Busy && h' != Lost && (stage == Busy || stage == Reading)
    ensures JobOk(Moved(s, k, h'), k.(stage := stage), h')
  {
  }

  lemma BeginOwn(s: State, t: nat, c: nat, r: nat, page: bool, s': State)
    requires BooksOk(s) && Next(s, Begin(t, c, r, page), s')
    ensures JobOk(s', Job(c, r, page, Reading), Caller(t))
  {
  }

  /** Only a call works on its own ticket. */
  lemma ActingCall(s: State, a: Step, s': State, t: nat)
    requires Invariant(s) && Next(s, a, s') && t in s.calls && Actor(s, a) == s.calls[t].ticket
    ensures (a.Look? || a.PutFree? || a.FreePage? || a.Defer?) && a.t == t
  {
    hide OnceOk, Next;
    assert JobOk(s, s.calls[t], Caller(t));
    assert s.deferred != [] ==> JobOk(s, s.deferred[0], List);
    if (a.Look? || a.PutFree? || a.FreePage? || a.Defer?) && a.t in s.calls {
      assert JobOk(s, s.calls[a.t], Caller(a.t));
    }
  }

  /** Every call's job is in order after a step. */
  lemma CallJobsKept(s: State, a: Step, s': State, t: nat)
    requires Invariant(s) && Next(s, a, s') && t in s'.calls
    ensures JobOk(s', s'.calls[t], Caller(t))
  {
    hide OnceOk, ListOk, HandlerOk, BooksOk, JobOk, AfterLook, AfterPut, AfterFreePage;
    if t !in s.calls {
      CallIsNew(s, a, s', t);
      BeginOwn(s, t, a.ticket, a.ref, a.page, s');
    } else if Actor(s, a) != s.calls[t].ticket {
      OthersKept(s, a, s', s.calls[t], Caller(t));
      CallStays(s, a, s', t);
    } else {
      ActingCall(s, a, s', t);
      if a.Look? {
        LookOwn(s, s.calls[t], Caller(t));
        SameOthers(AfterLook(s, s.calls[t]), s', s'.calls[t], Caller(t));
      } else {
        PutOwn(s, s.calls[t], Caller(t));
        SameOthers(AfterPut(s, s.calls[t]), s', s'.calls[t], Caller(t));
      }
    }
  }

  lemma CallStays(s: State, a: Step, s': State, t: nat)
    requires Next(s, a, s') && t in s.calls && Actor(s, a) != s.calls[t].ticket
    ensures t in s'.calls && s'.calls[t] == s.calls[t]
  {
  }

  lemma CallIsNew(s: State, a: Step, s': State, t: nat)
    requires Next(s, a, s') && t in s'.calls && t !in s.calls
    ensures a.Begin? && a.t == t && s'.calls[t] == Job(a.ticket, a.ref, a.page, Reading)
  {
  }

  /** A ticket held by a call is that call's. */
  lemma CallTicketsKept(s: State, a: Step, s': State, c: nat)
    requires Invariant(s) && Next(s, a, s') && c in s'.tickets && s'.tickets[c].Caller?
    ensures s'.tickets[c].t in s'.calls && s'.calls[s'.tickets[c].t].ticket == c
  {
    hide OnceOk, BooksOk;
    if a.Look? || a.PutFree? || a.FreePage? || a.Defer? {
      TicketsOfCallSteps(s, a, s', c);
    } else if a.Remote? || a.Grant? || a.Begin? {
      TicketsOfPassiveSteps(s, a, s', c);
    } else if a.Fire? || a.Lock? {
      TicketsOfLockSteps(s, a, s', c);
    } else if a.Take? {
      TicketsOfTake(s, s', c);
    } else if a.Back? {
      TicketsOfBack(s, s', c);
    } else {
      TicketsOfTimerSteps(s, a, s', c);
    }
  }

  lemma TicketsOfCallSteps(s: State, a: Step, s': State, c: nat)
    requires CallsOk(s) && Next(s, a, s') && c in s'.tickets && s'.tickets[c].Caller?
    requires a.Look? || a.PutFree? || a.FreePage? || a.Defer?
    ensures s'.tickets[c].t in s'.calls && s'.calls[s'.tickets[c].t].ticket == c
  {
    hide JobOk;
  }

  lemma TicketsOfPassiveSteps(s: State, a: Step, s': State, c: nat)
    requires CallsOk(s) && Next(s, a, s') && c in s'.tickets && s'.tickets[c].Caller?
    requires a.Remote? || a.Grant? || a.Begin?
    ensures s'.tickets[c].t in s'.calls && s'.calls[s'.tickets[c].t].ticket == c
  {
    hide JobOk;
  }

  lemma TicketsOfLockSteps(s: State, a: Step, s': State, c: nat)
    requires CallsOk(s) && Next(s, a, s') && c in s'.tickets && s'.tickets[c].Caller? && (a.Fire? || a.Lock?)
    ensures s'.tickets[c].t in s'.calls && s'.calls[s'.tickets[c].t].ticket == c
  {
    hide JobOk;
  }

  lemma TicketsOfTake(s: State, s': State, c: nat)
    requires CallsOk(s) && Next(s, Take, s') && c in s'.tickets && s'.tickets[c].Caller?
    ensures s'.tickets[c].t in s'.calls && s'.calls[s'.tickets[c].t].ticket == c
  {
    hide JobOk;
  }

  lemma TicketsOfBack(s: State, s': State, c: nat)
    requires CallsOk(s) && Next(s, Back, s') && c in s'.tickets && s'.tickets[c].Caller?
    ensures s'.tickets[c].t in s'.calls && s'.calls[s'.tickets[c].t].ticket == c
  {
    hide JobOk;
  }

  lemma TicketsOfTimerSteps(s: State, a: Step, s': State, c: nat)
    requires CallsOk(s) && Next(s, a, s') && c in s'.tickets && s'.tickets[c].Caller?
    requires a.TimerLook? || a.TimerPutFree? || a.TimerFreePage?
    ensures s'.tickets[c].t in s'.calls && s'.calls[s'.tickets[c].t].ticket == c
  {
    hide JobOk;
  }

  lemma CallsKept(s: State, a: Step, s': State)
    requires Invariant(s) && Next(s, a, s')
    ensures CallsOk(s')
  {
    hide Invariant, Next, JobOk;
    forall t | t in s'.calls
      ensures JobOk(s', s'.calls[t], Caller(t))
    {
      CallJobsKept(s, a, s', t);
    }
    forall c | c in s'.tickets && s'.tickets[c].Caller?
      ensures s'.tickets[c].t in s'.calls && s'.calls[s'.tickets[c].t].ticket == c
    {
      CallTicketsKept(s, a, s', c);
    }
  }

  /** Only Take works on a ticket of the list. */
  lemma ActingList(s: State, a: Step, s': State, j: Job)
    requires Invariant(s) && Next(s, a, s') && j in s.deferred && Actor(s, a) == j.ticket
    ensures a.Take? && s.deferred != [] && s.deferred[0].ticket == j.ticket && j !in s.deferred[1..]
  {
    hide OnceOk, Next;
    assert JobOk(s, j, List);
  }

  /** An entry of the list was on it before, or has just been put there. */
  lemma ListJobs(s: State, a: Step, s': State, j: Job)
    requires Next(s, a, s') && j in s'.deferred
    ensures || (j in s.deferred && (a.Take? && Actor(s, a) != NONE ==> j in s.deferred[1..]))
            || (a.Defer? && a.t in s.calls && j == s.calls[a.t] && j.stage == Busy && SameBooks(Moved(s, j, List), s'))
            || (a.Back? && s.handler.Working? && j == s.handler.job && j.stage == Busy && SameBooks(Moved(s, j, List), s'))
  {
  }

  lemma ListJobsKept(s: State, a: Step, s': State, j: Job)
    requires Invariant(s) && Next(s, a, s') && j in s'.deferred
    ensures JobOk(s', j, List) && j.stage == Busy
  {
    ListJobs(s, a, s', j);
    hide OnceOk, BooksOk, JobOk, Next, Moved, SameBooks;
    if j in s.deferred && (a.Take? && Actor(s, a) != NONE ==> j in s.deferred[1..]) {
      if Actor(s, a) == j.ticket {
        ActingList(s, a, s', j);
        NotNone(s, j);
      } else {
        OthersKept(s, a, s', j, List);
      }
    } else if a.Defer? {
      MovedOwn(s, j, Caller(a.t), List, Busy);
      SameOthers(Moved(s, j, List), s', j, List);
    } else {
      MovedOwn(s, j, Timer, List, Busy);
      SameOthers(Moved(s, j, List), s', j, List);
    }
  }

  lemma NotNone(s: State, j: Job)
    requires BooksOk(s) && JobOk(s, j, List)
    ensures j.ticket != NONE
  {
  }

  lemma TicketsDiffer(s: State, j: Job, k: Job, h: Holder)
    requires JobOk(s, j, List) && JobOk(s, k, h) && h != List
    ensures j.ticket != k.ticket
  {
  }

  ghost predicate Separate(q: seq<Job>) {
    forall i, k :: 0 <= i < k < |q| ==> q[i].ticket != q[k].ticket
  }

  /** The new list: as before, without its head, or with a job from elsewhere behind it. */
  lemma ListShape(s: State, a: Step, s': State)
    requires Next(s, a, s')
    ensures || s'.deferred == s.deferred
            || (s.deferred != [] && s'.deferred == s.deferred[1..])
            || (a.Defer? && a.t in s.calls && s'.deferred == s.deferred + [s.calls[a.t]])
            || (a.Back? && s.handler.Working? && s'.deferred == s.deferred + [s.handler.job])
  {
  }

  lemma SeparateKept(q: seq<Job>, j: Job)
    requires Separate(q)
    ensures q != [] ==> Separate(q[1..])
    ensures (forall k :: 0 <= k < |q| ==> q[k].ticket != j.ticket) ==> Separate(q + [j])
  {
  }

  lemma ListKept(s: State, a: Step, s': State)
    requires Invariant(s) && Next(s, a, s')
    ensures ListOk(s')
  {
    forall j | j in s'.deferred
      ensures JobOk(s', j, List) && j.stage == Busy
    {
      ListJobsKept(s, a, s', j);
    }
    ListShape(s, a, s');
    hide Next, BooksOk, OnceOk, JobOk;
    var q := s.deferred;
    assert Separate(q);
    if a.Defer? && a.t in s.calls {
      forall k | 0 <= k < |q|
        ensures q[k].ticket != s.calls[a.t].ticket
      {
        TicketsDiffer(s, q[k], s.calls[a.t], Caller(a.t));
      }
      SeparateKept(q, s.calls[a.t]);
    } else if a.Back? && s.handler.Working? {
      forall k | 0 <= k < |q|
        ensures q[k].ticket != s.handler.job.ticket
      {
        TicketsDiffer(s, q[k], s.handler.job, Timer);
      }
      SeparateKept(q, s.handler.job);
    } else {
      SeparateKept(q, Job(NONE, 0, false, Busy));
    }
    assert Separate(s'.deferred);
  }

  // ----- the handler's job

  lemma ActingTimer(s: State, a: Step, s': State)
    requires Invariant(s) && Next(s, a, s') && s.handler.Working? && Actor(s, a) == s.handler.job.ticket
    ensures a.TimerLook? || a.TimerPutFree? || a.TimerFreePage? || a.Back?
  {
    hide OnceOk, Next;
    assert JobOk(s, s.handler.job, Timer);
  }

  lemma HandlerShape(s: State, a: Step, s': State)
    requires Next(s, a, s') && s'.handler.Working?
    ensures || (s.handler.Working? && s'.handler == s.handler && !a.TimerLook? && !a.TimerPutFree? && !a.TimerFreePage? && !a.Back?)
            || (a.Take? && s.deferred != [] && s'.handler.job == s.deferred[0].(stage := Reading) && SameBooks(Moved(s, s.deferred[0], Timer), s'))
            || (a.TimerLook? && s.handler.Working? && CanLook(s.handler.job.stage) && s.handler.job.ref in s.flags
                && s'.handler.job == s.handler.job.(stage := Looked(s.handler.job.stage, s.flags[s.handler.job.ref]))
                && SameBooks(AfterLook(s, s.handler.job), s'))
            || (a.TimerPutFree? && s.handler.Working? && s.handler.job.stage == Cleared && s.handler.job.page
                && s'.handler.job == s.handler.job.(stage := FreeingPage) && SameBooks(AfterPut(s, s.handler.job), s'))
  {
  }

  lemma HandlerJobKept(s: State, a: Step, s': State)
    requires Invariant(s) && Next(s, a, s') && s'.handler.Working?
    ensures JobOk(s', s'.handler.job, Timer)
  {
    HandlerShape(s, a, s');
    hide OnceOk, BooksOk, JobOk, Next, Moved, AfterLook, AfterPut, SameBooks;
    if a.Take? && s.deferred != [] && s'.handler.job == s.deferred[0].(stage := Reading) && SameBooks(Moved(s, s.deferred[0], Timer), s') {
      MovedOwn(s, s.deferred[0], List, Timer, Reading);
      SameOthers(Moved(s, s.deferred[0], Timer), s', s'.handler.job, Timer);
    } else if a.TimerLook? {
      LookOwn(s, s.handler.job, Timer);
      SameOthers(AfterLook(s, s.handler.job), s', s'.handler.job, Timer);
    } else if a.TimerPutFree? {
      PutOwn(s, s.handler.job, Timer);
      SameOthers(AfterPut(s, s.handler.job), s', s'.handler.job, Timer);
    } else if Actor(s, a) == s.handler.job.ticket {
      ActingTimer(s, a, s');
    } else {
      OthersKept(s, a, s', s.handler.job, Timer);
    }
  }

  lemma HandlerTicketsKept(s: State, a: Step, s': State, c: nat)
    requires HandlerOk(s) && Next(s, a, s') && c in s'.tickets && s'.tickets[c] == Timer
    ensures s'.handler.Working? && s'.handler.job.ticket == c
  {
    hide JobOk;
    if a.Fire? || a.Lock? {
      HandlerLockSteps(s, a, s');
    } else if a.Take? {
      HandlerTake(s, s', c);
    } else if a.Back? {
      HandlerBack(s, s');
    } else if a.TimerLook? || a.TimerPutFree? || a.TimerFreePage? {
      HandlerTimerSteps(s, a, s', c);
    } else {
      HandlerOtherSteps(s, a, s', c);
    }
  }

  lemma HandlerLockSteps(s: State, a: Step, s': State)
    requires HandlerOk(s) && Next(s, a, s') && (a.Fire? || a.Lock?)
    ensures forall c :: c in s'.tickets ==> s'.tickets[c] != Timer
  {
    hide JobOk;
  }

  lemma HandlerTake(s: State, s': State, c: nat)
    requires HandlerOk(s) && Next(s, Take, s') && c in s'.tickets && s'.tickets[c] == Timer
    ensures s'.handler.Working? && s'.handler.job.ticket == c
  {
    hide JobOk;
  }

  lemma HandlerBack(s: State, s': State)
    requires HandlerOk(s) && Next(s, Back, s')
    ensures forall c :: c in s'.tickets ==> s'.tickets[c] != Timer
  {
    hide JobOk;
  }

  lemma HandlerTimerSteps(s: State, a: Step, s': State, c: nat)
    requires HandlerOk(s) && Next(s, a, s') && c in s'.tickets && s'.tickets[c] == Timer
    requires a.TimerLook? || a.TimerPutFree? || a.TimerFreePage?
    ensures s'.handler.Working? && s'.handler.job.ticket == c
  {
    hide JobOk;
  }

  lemma HandlerOtherSteps(s: State, a: Step, s': State, c: nat)
    requires HandlerOk(s) && Next(s, a, s') && c in s'.tickets && s'.tickets[c] == Timer
    requires a.Remote? || a.Grant? || a.Begin? || a.Look? || a.PutFree? || a.FreePage? || a.Defer?
    ensures s'.handler.Working? && s'.handler.job.ticket == c
  {
    hide JobOk;
  }

  lemma HandlerKept(s: State, a: Step, s': State)
    requires Invariant(s) && Next(s, a, s')
    ensures HandlerOk(s')
  {
    hide Next, JobOk, CallsOk, ListOk, BooksOk, OnceOk;
    if s'.handler.Working? {
      HandlerJobKept(s, a, s');
    }
    forall c | c in s'.tickets && s'.tickets[c] == Timer
      ensures s'.handler.Working? && s'.handler.job.ticket == c
    {
      HandlerTicketsKept(s, a, s', c);
    }
  }

  // ----- the books

  lemma SameBooksOk(s: State, s': State)
    requires BooksOk(s) && SameBooks(s, s')
    ensures BooksOk(s') && (OnceOk(s) ==> OnceOk(s'))
  {
  }

  lemma LookBooks(s: State, k: Job, h: Holder)
    requires BooksOk(s) && OnceOk(s) && JobOk(s, k, h) && CanLook(k.stage)
    ensures BooksOk(AfterLook(s, k)) && OnceOk(AfterLook(s, k))
  {
  }

  lemma PutBooks(s: State, k: Job, h: Holder)
    requires BooksOk(s) && OnceOk(s) && JobOk(s, k, h) && k.stage == Cleared
    ensures BooksOk(AfterPut(s, k)) && OnceOk(AfterPut(s, k))
  {
  }

  lemma FreePageBooks(s: State, k: Job, h: Holder)
    requires BooksOk(s) && OnceOk(s) && JobOk(s, k, h) && k.stage == FreeingPage
    ensures BooksOk(AfterFreePage(s, k)) && OnceOk(AfterFreePage(s, k))
  {
  }

  lemma MovedBooks(s: State, k: Job, h: Holder, h': Holder)
    requires BooksOk(s) && OnceOk(s) && JobOk(s, k, h) && k.stage == Busy
    ensures BooksOk(Moved(s, k, h')) && OnceOk(Moved(s, k, h'))
  {
  }

  lemma PassiveBooks(s: State, a: Step, s': State)
    requires BooksOk(s) && OnceOk(s) && Next(s, a, s') && (a.Remote? || a.Grant? || a.Begin?)
    ensures BooksOk(s') && OnceOk(s')
  {
  }

  lemma BooksKept(s: State, a: Step, s': State)
    requires Invariant(s) && Next(s, a, s')
    ensures BooksOk(s') && OnceOk(s')
  {
    hide JobOk, AfterLook, AfterPut, AfterFreePage, OnceOk, BooksOk;
    match a
    case Remote(_, _) => PassiveBooks(s, a, s');
    case Grant(_) => PassiveBooks(s, a, s');
    case Begin(_, _, _, _) => PassiveBooks(s, a, s');
    case Look(t) =>
      LookBooks(s, s.calls[t], Caller(t));
      SameBooksOk(AfterLook(s, s.calls[t]), s');
    case PutFree(t) =>
      PutBooks(s, s.calls[t], Caller(t));
      SameBooksOk(AfterPut(s, s.calls[t]), s');
    case FreePage(t) =>
      FreePageBooks(s, s.calls[t], Caller(t));
      SameBooksOk(AfterFreePage(s, s.calls[t]), s');
    case Defer(t, memory) =>
      MovedBooks(s, s.calls[t], Caller(t), if memory then List else Lost);
      SameBooksOk(Moved(s, s.calls[t], if memory then List else Lost), s');
    case Fire => SameBooksOk(s, s');
    case Lock => SameBooksOk(s, s');
    case Take =>
      if Actor(s, a) != NONE {
        MovedBooks(s, s.deferred[0], List, Timer);
        SameBooksOk(Moved(s, s.deferred[0], Timer), s');
      } else {
        TakeNothing(s, s');
        SameBooksOk(s, s');
      }
    case TimerLook =>
      LookBooks(s, s.handler.job, Timer);
      SameBooksOk(AfterLook(s, s.handler.job), s');
    case TimerPutFree =>
      PutBooks(s, s.handler.job, Timer);
      SameBooksOk(AfterPut(s, s.handler.job), s');
    case TimerFreePage =>
      FreePageBooks(s, s.handler.job, Timer);
      SameBooksOk(AfterFreePage(s, s.handler.job), s');
    case Back =>
      if s.handler.Working? {
        MovedBooks(s, s.handler.job, Timer, List);
        SameBooksOk(Moved(s, s.handler.job, List), s');
      } else {
        SameBooksOk(s, s');
      }
  }

  lemma InvariantKept(s: State, a: Step, s': State)
    requires Invariant(s) && Next(s, a, s')
    ensures Invariant(s')
  {
    CallsKept(s, a, s');
    ListKept(s, a, s');
    HandlerKept(s, a, s');
    BooksKept(s, a, s');
    hide Next, CallsOk, ListOk, HandlerOk, BooksOk, OnceOk;
  }

  // ----- runs

  ghost predicate IsRun(states: seq<State>, steps: seq<Step>) {
    && |states| == |steps| + 1
    && Initial(states[0])
    && forall i :: 0 <= i < |steps| ==> Next(states[i], steps[i], states[i + 1])
  }

  lemma {:induction false} InvariantAlways(states: seq<State>, steps: seq<Step>, i: nat)
    requires IsRun(states, steps) && i < |states|
    ensures Invariant(states[i])
  {
    if i > 0 {
      InvariantAlways(states, steps, i - 1);
      hide Invariant, Next;
      InvariantKept(states[i - 1], steps[i - 1], states[i]);
    }
  }

  /** A grant on the free list permits nothing and has no user, whatever the remote domain has done. */
  lemma FreeGrantsAreClear(states: seq<State>, steps: seq<Step>, i: nat, r: nat)
    requires IsRun(states, steps) && i < |states| && r in states[i].refs && states[i].refs[r] == Free
    ensures r in states[i].flags && states[i].flags[r] == CLEAR
  {
    InvariantAlways(states, steps, i);
  }

  /**
   * A grant goes to the free list, and a page is freed, at most once per ticket; the page after the
   * grant, and the grant after the one cmpxchg that found neither reading nor writing.
   */
  lemma ClearedThenPutThenFreed(states: seq<State>, steps: seq<Step>, i: nat)
    requires IsRun(states, steps) && i < |states|
    ensures forall c :: c in states[i].put ==> c in states[i].cleared
    ensures forall c :: c in states[i].freed ==> c in states[i].put
    ensures Distinct(states[i].put) && Distinct(states[i].freed)
  {
    InvariantAlways(states, steps, i);
  }

  /** A ticket joins `cleared` in no other way than by an atomic step that saw an unused entry and cleared it. */
  lemma ClearedOnlyWhenUnused(states: seq<State>, steps: seq<Step>, i: nat, c: nat)
    requires IsRun(states, steps) && i < |steps| && c !in states[i].cleared && c in states[i + 1].cleared
    ensures exists r :: && r in states[i].refs && states[i].refs[r] == Ending(c)
                        && r in states[i].flags && !InUse(states[i].flags[r])
                        && r in states[i + 1].flags && states[i + 1].flags[r] == CLEAR
  {
    var s, s' := states[i], states[i + 1];
    InvariantAlways(states, steps, i);
    assert Next(s, steps[i], s');
    match steps[i]
    case Look(t) => ClearingLook(s, s.calls[t], Caller(t), c);
    case TimerLook => ClearingLook(s, s.handler.job, Timer, c);
    case _ =>
  }

  lemma ClearingLook(s: State, j: Job, h: Holder, c: nat)
    requires JobOk(s, j, h) && CanLook(j.stage) && c !in s.cleared && c in AfterLook(s, j).cleared
    ensures j.ticket == c && s.refs[j.ref] == Ending(c) && !InUse(s.flags[j.ref]) && AfterLook(s, j).flags[j.ref] == CLEAR
  {
  }

  /** A ticket that has finished or was lost stays so: nothing is taken off the list a second time. */
  lemma FinishedStays(states: seq<State>, steps: seq<Step>, i: nat, c: nat)
    requires IsRun(states, steps) && i < |steps| && c in states[i].tickets
    requires states[i].tickets[c] == Finished || states[i].tickets[c] == Lost
    ensures c in states[i + 1].tickets && states[i + 1].tickets[c] == states[i].tickets[c]
  {
    InvariantAlways(states, steps, i);
    FinishedStaysOnce(states[i], steps[i], states[i + 1], c);
  }

  lemma FinishedStaysOnce(s: State, a: Step, s': State, c: nat)
    requires Invariant(s) && Next(s, a, s') && c in s.tickets && (s.tickets[c] == Finished || s.tickets[c] == Lost)
    ensures c in s'.tickets && s'.tickets[c] == s.tickets[c]
  {
    hide Next, OnceOk;
    if Actor(s, a) != NONE {
      ActorHeld(s, a);
    }
    OtherTickets(s, a, s', c);
  }

  lemma ActorHeld(s: State, a: Step)
    requires Invariant(s) && Actor(s, a) != NONE
    ensures Actor(s, a) in s.tickets && s.tickets[Actor(s, a)] != Finished && s.tickets[Actor(s, a)] != Lost
  {
    hide OnceOk, BooksOk;
    assert s.deferred != [] ==> JobOk(s, s.deferred[0], List);
  }

  lemma OtherTickets(s: State, a: Step, s': State, c: nat)
    requires Next(s, a, s') && c in s.tickets && c != Actor(s, a)
    ensures c in s'.tickets && s'.tickets[c] == s.tickets[c]
  {
  }

  // ----- the timer and an empty list

  /** Only the first round of a handler can find the list empty. */
  ghost predicate RoundsOk(s: State) {
    && (s.handler.Head? ==> s.handler.nr <= 10 && (s.handler.nr < 10 ==> s.deferred != []))
    && (s.handler.Working? || s.handler.Ended? ==> s.handler.nr < 10)
  }

  lemma {:induction false} RoundsAlways(states: seq<State>, steps: seq<Step>, i: nat)
    requires IsRun(states, steps) && i < |states|
    ensures RoundsOk(states[i])
  {
    if i > 0 {
      RoundsAlways(states, steps, i - 1);
      RoundsKept(states[i - 1], steps[i - 1], states[i]);
    }
  }

  lemma RoundsKept(s: State, a: Step, s': State)
    requires RoundsOk(s) && Next(s, a, s')
    ensures RoundsOk(s')
  {
  }

  /** From taking the lock up to the handler's first look at the list, nobody else changes the list. */
  lemma {:induction false} LockedUntilTake(states: seq<State>, steps: seq<Step>, from: nat, to: nat)
    requires IsRun(states, steps) && from < to <= |steps| && steps[from] == Lock
    requires forall k :: from < k < to ==> steps[k] != Take
    ensures states[to].handler == Head(10, NONE) && states[to].deferred == states[from].deferred
  {
    assert Next(states[to - 1], steps[to - 1], states[to]);
    if to > from + 1 {
      LockedUntilTake(states, steps, from, to - 1);
    }
  }

  /** From the firing of the timer up to the handler's first look at the list, the list only grows. */
  lemma {:induction false} GrowsSinceFire(states: seq<State>, steps: seq<Step>, from: nat, to: nat)
    requires IsRun(states, steps) && from < to <= |steps| && steps[from] == Fire
    requires forall k :: from < k < to ==> steps[k] != Take
    ensures states[to].handler == Fired || states[to].handler == Head(10, NONE)
    ensures states[from].deferred <= states[to].deferred
    ensures (forall k :: from < k < to ==> !(steps[k].Defer? && steps[k].memory)) ==> states[to].deferred == states[from].deferred
    ensures (exists k :: from < k < to && steps[k].Defer? && steps[k].memory) ==> states[to].deferred != []
  {
    assert Next(states[to - 1], steps[to - 1], states[to]);
    if to > from + 1 {
      GrowsSinceFire(states, steps, from, to - 1);
    }
  }

  /** The handler takes an entry that does not exist exactly when nothing is deferred as it takes the lock. */
  lemma BogusIffEmptyAtLock(states: seq<State>, steps: seq<Step>, from: nat, to: nat)
    requires IsRun(states, steps) && from < to < |steps| && steps[from] == Lock && steps[to] == Take
    requires forall k :: from < k < to ==> steps[k] != Take
    ensures states[to + 1].bogus <==> states[from].deferred == []
  {
    LockedUntilTake(states, steps, from, to);
    assert Next(states[to], steps[to], states[to + 1]);
  }

  /**
   * Seen from the firing: exactly when the timer fired with nothing deferred, and nobody added an
   * entry before the handler had the lock.
   */
  lemma BogusIffNoneSinceFire(states: seq<State>, steps: seq<Step>, from: nat, to: nat)
    requires IsRun(states, steps) && from < to < |steps| && steps[from] == Fire && steps[to] == Take
    requires forall k :: from < k < to ==> steps[k] != Take
    ensures states[to + 1].bogus <==>
            states[from].deferred == [] && forall k :: from < k < to ==> !(steps[k].Defer? && steps[k].memory)
  {
    GrowsSinceFire(states, steps, from, to);
    assert Next(states[to], steps[to], states[to + 1]);
  }

  /** No other round takes such an entry. */
  lemma BogusOnlyFirstRound(states: seq<State>, steps: seq<Step>, i: nat)
    requires IsRun(states, steps) && i < |steps| && states[i + 1].bogus
    ensures steps[i] == Take && states[i].handler.Head? && states[i].handler.nr == 10 && states[i].deferred == []
  {
    RoundsAlways(states, steps, i);
    assert Next(states[i], steps[i], states[i + 1]);
    NotYetBogus(states[i], steps[i], states[i + 1]);
  }

  lemma NotYetBogus(s: State, a: Step, s': State)
    requires Next(s, a, s') && s'.bogus
    ensures a == Take && s.handler.Head? && s.handler.nr > 0 && s.deferred == []
  {
  }

  /** In every state of every run: while an entry is deferred and the handler is not at work, the timer is armed. */
  lemma {:induction false} DeferredIsTimed(states: seq<State>, steps: seq<Step>, i: nat)
    requires IsRun(states, steps) && i < |states|
    ensures states[i].handler.Idle? && states[i].deferred != [] ==> states[i].pending
  {
    if i > 0 {
      DeferredIsTimed(states, steps, i - 1);
      assert Next(states[i - 1], steps[i - 1], states[i]);
    }
  }

  // ----- what a finished ending has given back

  /** Wherever the job of ticket c is, it wants its page freed or not, as its call said; if it is finished, that has been done. */
  ghost predicate PageKept(s: State, c: nat, page: bool) {
    && c in s.tickets && (forall t :: t in s.calls && s.calls[t].ticket == c ==> s.calls[t].page == page)
    && (forall j :: j in s.deferred && j.ticket == c ==> j.page == page)
    && (s.handler.Working? && s.handler.job.ticket == c ==> s.handler.job.page == page)
    && (s.tickets[c] == Finished ==> c in s.put && (c in s.freed <==> page))
  }

  lemma PageKeptByCalls(s: State, a: Step, s': State, c: nat, page: bool)
    requires CallsOk(s) && BooksOk(s) && PageKept(s, c, page) && Next(s, a, s') && (a.Look? || a.PutFree? || a.FreePage? || a.Defer?)
    ensures PageKept(s', c, page)
  {
    hide AfterLook, Looked;
    assert JobOk(s, s.calls[a.t], Caller(a.t));
    if a.Look? {
      LookKeeps(s, s.calls[a.t]);
    }
  }

  lemma PageKeptByHandler(s: State, a: Step, s': State, c: nat, page: bool)
    requires HandlerOk(s) && BooksOk(s) && PageKept(s, c, page) && Next(s, a, s') && (a.TimerLook? || a.TimerPutFree? || a.TimerFreePage?)
    ensures PageKept(s', c, page)
  {
    hide AfterLook, Looked;
    assert s.handler.Working? ==> JobOk(s, s.handler.job, Timer);
    if a.TimerLook? {
      LookKeeps(s, s.handler.job);
    }
  }

  lemma PageKeptByTake(s: State, s': State, c: nat, page: bool)
    requires ListOk(s) && PageKept(s, c, page) && Next(s, Take, s')
    ensures PageKept(s', c, page)
  {
    assert s.deferred != [] ==> JobOk(s, s.deferred[0], List);
    hide JobOk;
  }

  lemma PageKeptByBack(s: State, s': State, c: nat, page: bool)
    requires HandlerOk(s) && PageKept(s, c, page) && Next(s, Back, s')
    ensures PageKept(s', c, page)
  {
    assert s.handler.Working? ==> JobOk(s, s.handler.job, Timer);
    hide JobOk;
  }

  lemma PageKeptByOthers(s: State, a: Step, s': State, c: nat, page: bool)
    requires BooksOk(s) && PageKept(s, c, page) && Next(s, a, s') && (a.Remote? || a.Grant? || a.Begin? || a.Fire? || a.Lock?)
    ensures PageKept(s', c, page)
  {
  }

  lemma LookKeeps(s: State, j: Job)
    requires j.ref in s.flags
    ensures var s' := AfterLook(s, j);
            && s'.tickets == s.tickets && s'.put == s.put && s'.freed == s.freed
            && s'.deferred == s.deferred && s'.handler == s.handler && s'.calls == s.calls
  {
  }

  lemma PageBegins(s: State, t: nat, c: nat, r: nat, page: bool, s': State)
    requires Invariant(s) && Next(s, Begin(t, c, r, page), s')
    ensures PageKept(s', c, page)
  {
    assert forall t' :: t' in s.calls ==> JobOk(s, s.calls[t'], Caller(t'));
    assert s.handler.Working? ==> JobOk(s, s.handler.job, Timer);
    assert forall j :: j in s.deferred ==> JobOk(s, j, List);
  }

  /** An ending that is finished has put its grant on the free list, and freed its page exactly if it was given one. */
  lemma {:induction false} FinishedGivesBack(states: seq<State>, steps: seq<Step>, t: nat, c: nat, r: nat, page: bool, from: nat, i: nat)
    requires IsRun(states, steps) && from < i < |states| && steps[from] == Begin(t, c, r, page)
    ensures PageKept(states[i], c, page)
  {
    var s, a, s' := states[i - 1], steps[i - 1], states[i];
    InvariantAlways(states, steps, i - 1);
    assert Next(s, a, s');
    if i > from + 1 {
      FinishedGivesBack(states, steps, t, c, r, page, from, i - 1);
      hide Next, PageKept, CallsOk, ListOk, HandlerOk, BooksOk, OnceOk;
      if a.Look? || a.PutFree? || a.FreePage? || a.Defer? {
        PageKeptByCalls(s, a, s', c, page);
      } else if a.Remote? || a.Grant? || a.Begin? || a.Fire? || a.Lock? {
        PageKeptByOthers(s, a, s', c, page);
      } else if a.Take? {
        PageKeptByTake(s, s', c, page);
      } else if a.Back? {
        PageKeptByBack(s, s', c, page);
      } else {
        PageKeptByHandler(s, a, s', c, page);
      }
    } else {
      hide Next, PageKept, Invariant;
      PageBegins(s, t, c, r, page, s');
    }
  }

  // ----- an ending is found busy only if it is

  /** The job that a caller, or the handler, is at work on. */
  ghost predicate AtWork(s: State, who: Option<nat>) {
    if who.Some? then who.value in s.calls else s.handler.Working?
  }

  ghost function WorkOf(s: State, who: Option<nat>): Job
    requires AtWork(s, who)
  {
    if who.Some? then s.calls[who.value] else s.handler.job
  }

  ghost predicate SameWork(states: seq<State>, who: Option<nat>, j: Job, from: nat, to: nat) {
    && from <= to < |states|
    && forall k :: from <= k <= to ==> AtWork(states[k], who) && WorkOf(states[k], who).ticket == j.ticket && WorkOf(states[k], who).ref == j.ref
  }

  /** Some look in these steps found the entry so. */
  ghost predicate ReadAs(states: seq<State>, r: nat, from: nat, to: nat, f: Flags) {
    exists k :: from <= k < to <= |states| && r in states[k].flags && states[k].flags[r] == f
  }

  lemma StageNext(s: State, a: Step, s': State, who: Option<nat>)
    requires Invariant(s) && Next(s, a, s') && AtWork(s, who) && AtWork(s', who)
    requires WorkOf(s', who).ticket == WorkOf(s, who).ticket
    ensures var j, j' := WorkOf(s, who), WorkOf(s', who);
            || j'.stage == j.stage || (j.stage == Cleared && j'.stage == FreeingPage)
            || (CanLook(j.stage) && j.ref in s.flags && j'.stage == Looked(j.stage, s.flags[j.ref]))
  {
    hide OnceOk, BooksOk, Looked, FlagsAfter;
    var h := if who.Some? then Caller(who.value) else Timer;
    assert JobOk(s, WorkOf(s, who), h);
    hide JobOk;
  }

  /** What a job holds of the flags it has read since it began. */
  ghost predicate StageRead(states: seq<State>, r: nat, from: nat, to: nat, stage: Stage) {
    && (stage.Testing? ==> ReadAs(states, r, from, to, stage.seen))
    && (stage == Busy ==> exists f :: InUse(f) && ReadAs(states, r, from, to, f))
  }

  lemma StageReadKept(states: seq<State>, r: nat, from: nat, to: nat, stage: Stage)
    requires from <= to < |states| && StageRead(states, r, from, to, stage)
    ensures StageRead(states, r, from, to + 1, stage)
    ensures r in states[to].flags ==> StageRead(states, r, from, to + 1, Looked(stage, states[to].flags[r]))
  {
    forall f | ReadAs(states, r, from, to, f)
      ensures ReadAs(states, r, from, to + 1, f)
    {
    }
    assert r in states[to].flags ==> ReadAs(states, r, from, to + 1, states[to].flags[r]);
  }

  lemma NothingRead(states: seq<State>, r: nat, from: nat, stage: Stage)
    requires stage == Reading || stage == FreeingPage
    ensures forall to :: StageRead(states, r, from, to, stage)
  {
  }

  lemma {:induction false} StageReadAlways(states: seq<State>, steps: seq<Step>, who: Option<nat>, j: Job, from: nat, to: nat)
    requires IsRun(states, steps) && SameWork(states, who, j, from, to) && WorkOf(states[from], who).stage == Reading
    ensures StageRead(states, j.ref, from, to, WorkOf(states[to], who).stage)
  {
    hide Invariant, Next, StageRead, Looked;
    if to == from {
      NothingRead(states, j.ref, from, Reading);
    } else {
      StageReadAlways(states, steps, who, j, from, to - 1);
      InvariantAlways(states, steps, to - 1);
      assert Next(states[to - 1], steps[to - 1], states[to]);
      NothingRead(states, j.ref, from, FreeingPage);
      StageNext(states[to - 1], steps[to - 1], states[to], who);
      StageReadKept(states, j.ref, from, to - 1, WorkOf(states[to - 1], who).stage);
    }
  }

  /**
   * A caller, or the handler, gives an ending up as busy only if the remote domain was reading or
   * writing the grant at some moment since this caller began it, or the handler took it off the list.
   */
  lemma BusyOnlyIfUsed(states: seq<State>, steps: seq<Step>, who: Option<nat>, j: Job, from: nat, to: nat)
    requires IsRun(states, steps) && SameWork(states, who, j, from, to)
    requires WorkOf(states[from], who).stage == Reading && WorkOf(states[to], who).stage == Busy
    ensures exists k :: from <= k < to && j.ref in states[k].flags && InUse(states[k].flags[j.ref])
  {
    StageReadAlways(states, steps, who, j, from, to);
    var f :| InUse(f) && ReadAs(states, j.ref, from, to, f);
  }

  // ----- one run of the handler

  /** The tickets taken off the list in the steps from `from` to `to`. */
  ghost function Visited(states: seq<State>, steps: seq<Step>, from: nat, to: nat): set<nat>
    requires from <= to <= |steps| < |states|
  {
    if from == to then {}
    else Visited(states, steps, from, to - 1) + if steps[to - 1] == Take && states[to].handler.Working? then {states[to].handler.job.ticket} else {}
  }

  predicate AtList(h: Handler) {
    h.Head? || h.Working? || h.Ended?
  }

  /**
   * The handler has visited the tickets in `seen`; list0 was the list when it took the lock. The first
   * p entries of the list have not been visited, and behind them comes the first one that stayed.
   */
  ghost predicate Visits(s: State, list0: seq<Job>, seen: set<nat>, p: nat) {
    && AtList(s.handler) && p <= |s.deferred|
    && (forall q :: 0 <= q < p ==> s.deferred[q].ticket !in seen)
    && (if s.handler.first == NONE then p == |s.deferred| else p < |s.deferred| && s.deferred[p].ticket == s.handler.first)
    && (forall j :: j in list0 ==> j.ticket in seen || exists q :: 0 <= q < p && s.deferred[q].ticket == j.ticket)
    && |seen| + s.handler.nr == 10
    && (s.handler.first != NONE ==> s.handler.first in seen)
    && (s.handler.Working? ==> s.handler.job.ticket in seen)
  }

  /** No caller holds a ticket that the handler has visited. */
  ghost predicate NotCalled(s: State, seen: set<nat>) {
    forall c :: c in seen ==> c in s.tickets && !s.tickets[c].Caller?
  }

  lemma NotCalledKept(s: State, a: Step, s': State, seen: set<nat>)
    requires NotCalled(s, seen) && Next(s, a, s')
    ensures NotCalled(s', seen)
  {
  }

  lemma VisitsLock(s: State, s': State)
    requires Next(s, Lock, s')
    ensures Visits(s', s.deferred, {}, |s.deferred|) && NotCalled(s', {})
  {
  }

  /** The entry taken has not been visited before; with it gone the rest stays as it was. */
  lemma VisitsTake(s: State, s': State, list0: seq<Job>, seen: set<nat>, p: nat)
    requires ListOk(s) && BooksOk(s) && Visits(s, list0, seen, p) && NotCalled(s, seen) && Next(s, Take, s') && s'.handler.Working?
    ensures p > 0 && s'.handler.job.ticket !in seen
    ensures Visits(s', list0, seen + {s'.handler.job.ticket}, p - 1) && NotCalled(s', seen + {s'.handler.job.ticket})
  {
    hide BooksOk;
    var c := s.deferred[0].ticket;
    assert JobOk(s, s.deferred[0], List);
    hide JobOk;
    assert s.handler.first == NONE || s.deferred[p].ticket == s.handler.first;
    assert p > 0;
    var seen' := seen + {c};
    assert |seen'| == |seen| + 1;
    forall j | j in list0
      ensures j.ticket in seen' || exists q :: 0 <= q < p - 1 && s'.deferred[q].ticket == j.ticket
    {
      if j.ticket !in seen' {
        var q :| 0 <= q < p && s.deferred[q].ticket == j.ticket;
        assert s'.deferred[q - 1] == s.deferred[q];
      }
    }
    assert s.handler.first != NONE ==> s'.deferred[p - 1] == s.deferred[p];
  }

  /** The entry the handler puts back goes behind those not yet visited. */
  lemma VisitsBack(s: State, s': State, list0: seq<Job>, seen: set<nat>, p: nat)
    requires Visits(s, list0, seen, p) && Next(s, Back, s') && AtList(s'.handler) && HandlerOk(s) && BooksOk(s)
    ensures Visits(s', list0, seen, p)
  {
    assert s.handler.Working? ==> s.handler.job.ticket != NONE by { hide Visits, Next; assert s.handler.Working? ==> JobOk(s, s.handler.job, Timer); }
    hide BooksOk, HandlerOk;
    forall j | j in list0
      ensures j.ticket in seen || exists q :: 0 <= q < p && s'.deferred[q].ticket == j.ticket
    {
      if j.ticket !in seen {
        var q :| 0 <= q < p && s.deferred[q].ticket == j.ticket;
        assert s'.deferred[q] == s.deferred[q];
      }
    }
  }

  /** An entry deferred meanwhile has not been visited. */
  lemma VisitsDefer(s: State, t: nat, memory: bool, s': State, list0: seq<Job>, seen: set<nat>, p: nat)
    requires CallsOk(s) && Visits(s, list0, seen, p) && NotCalled(s, seen) && Next(s, Defer(t, memory), s')
    ensures Visits(s', list0, seen, if memory && FirstNone(s) then p + 1 else p)
  {
    assert JobOk(s, s.calls[t], Caller(t));
    hide JobOk;
    forall j | j in list0
      ensures j.ticket in seen || exists q :: 0 <= q < p && s'.deferred[q].ticket == j.ticket
    {
      if j.ticket !in seen {
        var q :| 0 <= q < p && s.deferred[q].ticket == j.ticket;
        assert s'.deferred[q] == s.deferred[q];
      }
    }
  }

  lemma VisitsOther(s: State, a: Step, s': State, list0: seq<Job>, seen: set<nat>, p: nat)
    requires Visits(s, list0, seen, p) && Next(s, a, s') && !a.Take? && !a.Back? && !a.Defer?
    ensures Visits(s', list0, seen, p)
  {
    assert s'.deferred == s.deferred;
  }

  /** The handler has held the list since step `from`. */
  ghost predicate HandlerRun(states: seq<State>, steps: seq<Step>, from: nat, to: nat) {
    && from < to <= |steps| < |states| && steps[from] == Lock
    && forall k :: from < k <= to ==> AtList(states[k].handler)
  }

  lemma {:induction false} VisitsAlways(states: seq<State>, steps: seq<Step>, from: nat, to: nat) returns (p: nat)
    requires IsRun(states, steps) && HandlerRun(states, steps, from, to)
    ensures Visits(states[to], states[from].deferred, Visited(states, steps, from, to), p)
    ensures NotCalled(states[to], Visited(states, steps, from, to))
  {
    hide Visits, NotCalled, Next, Invariant;
    var s, a, s' := states[to - 1], steps[to - 1], states[to];
    assert Next(s, a, s');
    if to == from + 1 {
      VisitedNone(states, steps, from);
      hide Visited;
      VisitsLock(s, s');
      p := |s.deferred|;
    } else {
      p := VisitsAlways(states, steps, from, to - 1);
      InvariantAlways(states, steps, to - 1);
      p := VisitsStep(s, a, s', states[from].deferred, Visited(states, steps, from, to - 1), p);
    }
  }

  lemma VisitedNone(states: seq<State>, steps: seq<Step>, from: nat)
    requires from < |steps| < |states| && steps[from] == Lock
    ensures Visited(states, steps, from, from + 1) == {}
  {
    assert Visited(states, steps, from, from) == {};
  }

  lemma VisitsStep(s: State, a: Step, s': State, list0: seq<Job>, seen: set<nat>, p: nat) returns (p': nat)
    requires Invariant(s) && Visits(s, list0, seen, p) && NotCalled(s, seen) && Next(s, a, s') && AtList(s'.handler)
    ensures var seen' := seen + if a == Take && s'.handler.Working? then {s'.handler.job.ticket} else {};
            Visits(s', list0, seen', p') && NotCalled(s', seen')
  {
    hide Visits, NotCalled, Next, CallsOk, ListOk, HandlerOk, BooksOk, OnceOk;
    p' := p;
    assert seen + {} == seen;
    NotCalledKept(s, a, s', seen);
    match a
    case Take =>
      TakeWorks(s, s');
      if s'.handler.Working? {
        VisitsTake(s, s', list0, seen, p);
        p' := p - 1;
      } else {
        VisitsSame(s, s', list0, seen, p);
      }
    case Back => VisitsBack(s, s', list0, seen, p);
    case Defer(t, memory) =>
      p' := if memory && FirstNone(s) then p + 1 else p;
      VisitsDefer(s, t, memory, s', list0, seen, p);
    case _ => VisitsOther(s, a, s', list0, seen, p);
  }

  predicate FirstNone(s: State) {
    AtList(s.handler) && s.handler.first == NONE
  }

  lemma TakeWorks(s: State, s': State)
    requires Next(s, Take, s') && AtList(s'.handler)
    ensures s'.handler.Working? || (s'.handler == s.handler && s'.deferred == s.deferred)
  {
  }

  lemma VisitsSame(s: State, s': State, list0: seq<Job>, seen: set<nat>, p: nat)
    requires Visits(s, list0, seen, p) && s'.handler == s.handler && s'.deferred == s.deferred
    ensures Visits(s', list0, seen, p)
  {
  }

  /** In one run of the handler no entry is looked at twice, and no more than ten are. */
  lemma LookedAtOnce(states: seq<State>, steps: seq<Step>, from: nat, to: nat)
    requires IsRun(states, steps) && HandlerRun(states, steps, from, to) && to < |steps|
    requires steps[to] == Take && states[to + 1].handler.Working?
    ensures states[to + 1].handler.job.ticket !in Visited(states, steps, from, to)
    ensures |Visited(states, steps, from, to)| < 10
  {
    var p := VisitsAlways(states, steps, from, to);
    InvariantAlways(states, steps, to);
    assert Next(states[to], steps[to], states[to + 1]);
    VisitsTake(states[to], states[to + 1], states[from].deferred, Visited(states, steps, from, to), p);
  }

  /** And a run that ends, other than on an empty list at its lock, has looked at ten entries or at all that were on the list at its lock. */
  lemma AllLookedAt(states: seq<State>, steps: seq<Step>, from: nat, to: nat)
    requires IsRun(states, steps) && HandlerRun(states, steps, from, to) && to < |steps|
    requires states[to + 1].handler == Idle
    ensures |Visited(states, steps, from, to)| == 10 ||
            forall j :: j in states[from].deferred ==> j.ticket in Visited(states, steps, from, to)
  {
    var p := VisitsAlways(states, steps, from, to);
    InvariantAlways(states, steps, to);
    assert Next(states[to], steps[to], states[to + 1]);
    VisitsEnd(states[to], steps[to], states[to + 1], states[from].deferred, Visited(states, steps, from, to), p);
  }

  lemma VisitsEnd(s: State, a: Step, s': State, list0: seq<Job>, seen: set<nat>, p: nat)
    requires ListOk(s) && BooksOk(s) && Visits(s, list0, seen, p) && Next(s, a, s') && s'.handler == Idle
    ensures |seen| == 10 || forall j :: j in list0 ==> j.ticket in seen
  {
    assert s.deferred != [] ==> JobOk(s, s.deferred[0], List);
    assert s.deferred != [] ==> s.deferred[0].ticket != NONE;
    hide JobOk, ListOk, BooksOk;
    assert |seen| < 10 ==> p == 0;
  }

  // ----- nobody waits for ever

  /** While an ending is under way or deferred, a caller, the timer or its handler can take the next step. */
  lemma NeverStuck(states: seq<State>, steps: seq<Step>, i: nat) returns (a: Step, s': State)
    requires IsRun(states, steps) && i < |states| && !states[i].bogus
    requires states[i].calls != map[] || states[i].deferred != [] || states[i].handler != Idle
    ensures !a.Remote? && !a.Grant? && !a.Begin? && Next(states[i], a, s')
  {
    var s := states[i];
    InvariantAlways(states, steps, i);
    DeferredIsTimed(states, steps, i);
    if s.handler != Idle {
      a, s' := HandlerStep(s);
    } else if s.deferred != [] {
      a, s' := Fire, s.(pending := false, handler := Fired);
    } else {
      var t :| t in s.calls;
      a, s' := CallStep(s, t);
    }
  }

  lemma HandlerStep(s: State) returns (a: Step, s': State)
    requires !s.bogus && s.handler != Idle && (s.handler.Working? ==> JobOk(s, s.handler.job, Timer))
    ensures !a.Remote? && !a.Grant? && !a.Begin? && Next(s, a, s')
  {
    match s.handler
    case Fired => a, s' := Lock, s.(handler := Head(10, NONE));
    case Head(nr, first) =>
      a := Take;
      s' := if nr == 0 then Closed(s)
            else if s.deferred == [] then s.(bogus := true)
            else if s.deferred[0].ticket == first then Closed(s)
            else s.(deferred := s.deferred[1..], tickets := s.tickets[s.deferred[0].ticket := Timer],
                    handler := Working(s.deferred[0].(stage := Reading), nr - 1, first));
    case Working(j, nr, first) =>
      if CanLook(j.stage) {
        a, s' := TimerLook, AfterLook(s, j).(handler := s.handler.(job := j.(stage := Looked(j.stage, s.flags[j.ref]))));
      } else if j.stage == Cleared {
        a, s' := TimerPutFree, AfterPut(s, j).(handler := if j.page then s.handler.(job := j.(stage := FreeingPage)) else Ended(nr, first));
      } else if j.stage == FreeingPage {
        a, s' := TimerFreePage, AfterFreePage(s, j).(handler := Ended(nr, first));
      } else {
        a := Back;
        s' := s.(deferred := s.deferred + [j], tickets := s.tickets[j.ticket := List],
                 handler := Head(nr, if first == NONE then j.ticket else first));
      }
    case Ended(nr, first) =>
      a, s' := Back, if s.deferred == [] then Closed(s) else s.(handler := Head(nr, first));
  }

  lemma CallStep(s: State, t: nat) returns (a: Step, s': State)
    requires !s.bogus && s.handler == Idle && t in s.calls && JobOk(s, s.calls[t], Caller(t))
    ensures !a.Remote? && !a.Grant? && !a.Begin? && Next(s, a, s')
  {
    var j := s.calls[t];
    if CanLook(j.stage) {
      a, s' := Look(t), AfterLook(s, j).(calls := s.calls[t := j.(stage := Looked(j.stage, s.flags[j.ref]))]);
    } else if j.stage == Cleared {
      a, s' := PutFree(t), AfterPut(s, j).(calls := if j.page then s.calls[t := j.(stage := FreeingPage)] else s.calls - {t});
    } else if j.stage == FreeingPage {
      a, s' := FreePage(t), AfterFreePage(s, j).(calls := s.calls - {t});
    } else {
      a := Defer(t, true);
      s' := s.(calls := s.calls - {t}, deferred := s.deferred + [j], pending := true, tickets := s.tickets[j.ticket := List]);
    }
  }

  // ----- such a run

  lemma Extend(states: seq<State>, steps: seq<Step>, a: Step, s': State)
    requires IsRun(states, steps) && Next(states[|steps|], a, s')
    ensures IsRun(states + [s'], steps + [a])
  {
    var states', steps' := states + [s'], steps + [a];
    forall i | 0 <= i < |steps'|
      ensures Next(states'[i], steps'[i], states'[i + 1])
    {
      if i < |steps| {
        assert Next(states[i], steps[i], states[i + 1]);
      }
    }
  }

  const USED := Flags(true, true, false)
  const UNUSED := Flags(true, false, false)

  /** Two grants in use by the remote domain. */
  function Start(): State {
    State(map[0 := USED, 1 := USED], map[0 := Live, 1 := Live], map[], [], false, Idle, false, map[], {}, [], [])
  }

  /** The grant r is ended under ticket c, found busy, and deferred. */
  lemma DeferOne(states: seq<State>, steps: seq<Step>, r: nat, c: nat) returns (states': seq<State>, steps': seq<Step>)
    requires IsRun(states, steps)
    requires var s := states[|steps|];
             !s.bogus && 0 !in s.calls && c !in s.tickets && c != NONE && r in s.refs && s.refs[r] == Live
             && r in s.flags && s.flags[r] == USED && !s.handler.Head?
    ensures IsRun(states', steps') && states <= states' && steps' == steps + [Begin(0, c, r, false), Look(0), Look(0), Defer(0, true)]
    ensures var s, s' := states[|steps|], states'[|steps'|];
            && s'.flags == s.flags && s'.refs == s.refs[r := Ending(c)] && s'.calls == s.calls - {0}
            && s'.deferred == s.deferred + [Job(c, r, false, Busy)] && s'.pending && s'.handler == s.handler && !s'.bogus
            && s'.tickets == s.tickets[c := List]
  {
    var s := states[|steps|];
    var j := Job(c, r, false, Reading);
    var s1 := s.(calls := s.calls[0 := j], refs := s.refs[r := Ending(c)], tickets := s.tickets[c := Caller(0)]);
    Extend(states, steps, Begin(0, c, r, false), s1);
    var s2 := AfterLook(s1, j).(calls := s1.calls[0 := j.(stage := Testing(USED))]);
    Extend(states + [s1], steps + [Begin(0, c, r, false)], Look(0), s2);
    var s3 := AfterLook(s2, s2.calls[0]).(calls := s2.calls[0 := j.(stage := Busy)]);
    Extend(states + [s1] + [s2], steps + [Begin(0, c, r, false)] + [Look(0)], Look(0), s3);
    var s4 := s3.(calls := s3.calls - {0}, deferred := s3.deferred + [s3.calls[0]], pending := true, tickets := s3.tickets[c := List]);
    states', steps' := states + [s1] + [s2] + [s3], steps + [Begin(0, c, r, false)] + [Look(0)] + [Look(0)];
    Extend(states', steps', Defer(0, true), s4);
    states', steps' := states' + [s4], steps' + [Defer(0, true)];
    assert s2.flags == s1.flags && s3.flags == s2.flags;
  }

  /** The remote domain lets go of the handler's grant, and the handler ends it. */
  lemma EndOne(states: seq<State>, steps: seq<Step>, c: nat, r: nat, nr: nat) returns (states': seq<State>, steps': seq<Step>)
    requires IsRun(states, steps)
    requires var s := states[|steps|];
             !s.bogus && s.handler == Working(Job(c, r, false, Reading), nr, NONE) && r in s.refs && r in s.flags && s.flags[r] == USED
    ensures IsRun(states', steps')
    ensures var s, s' := states[|steps|], states'[|steps'|];
            && s'.flags == s.flags[r := CLEAR] && s'.refs == s.refs[r := Free] && s'.calls == s.calls && s'.deferred == s.deferred
            && s'.pending == s.pending && s'.handler == Ended(nr, NONE) && !s'.bogus && s'.tickets == s.tickets[c := Finished]
  {
    var s := states[|steps|];
    var j := Job(c, r, false, Reading);
    var s1 := s.(flags := s.flags[r := UNUSED]);
    Extend(states, steps, Remote(r, UNUSED), s1);
    var s2 := AfterLook(s1, j).(handler := Working(j.(stage := Testing(UNUSED)), nr, NONE));
    Extend(states + [s1], steps + [Remote(r, UNUSED)], TimerLook, s2);
    var s3 := AfterLook(s2, s2.handler.job).(handler := Working(j.(stage := Cleared), nr, NONE));
    Extend(states + [s1] + [s2], steps + [Remote(r, UNUSED)] + [TimerLook], TimerLook, s3);
    var s4 := AfterPut(s3, s3.handler.job).(handler := Ended(nr, NONE));
    states', steps' := states + [s1] + [s2] + [s3], steps + [Remote(r, UNUSED)] + [TimerLook] + [TimerLook];
    Extend(states', steps', TimerPutFree, s4);
    states', steps' := states' + [s4], steps' + [TimerPutFree];
    assert s3.flags == s.flags[r := CLEAR];
  }

  /** The timer fires with nothing but one entry deferred, which the handler takes. */
  lemma FireAndTake(states: seq<State>, steps: seq<Step>, j: Job) returns (states': seq<State>, steps': seq<Step>)
    requires IsRun(states, steps)
    requires var s := states[|steps|]; !s.bogus && s.handler == Idle && s.pending && s.deferred == [j] && j.ticket != NONE
    ensures IsRun(states', steps')
    ensures states'[|steps'|] == states[|steps|].(deferred := [], pending := false, tickets := states[|steps|].tickets[j.ticket := Timer],
                                                  handler := Working(j.(stage := Reading), 9, NONE))
  {
    states', steps' := FireAndLock(states, steps);
    states', steps' := TakeOnly(states', steps', j);
  }

  /** The timer fires and the handler takes the lock at once. */
  lemma FireAndLock(states: seq<State>, steps: seq<Step>) returns (states': seq<State>, steps': seq<Step>)
    requires IsRun(states, steps)
    requires var s := states[|steps|]; !s.bogus && s.handler == Idle && s.pending
    ensures IsRun(states', steps')
    ensures states'[|steps'|] == states[|steps|].(pending := false, handler := Head(10, NONE))
  {
    var s1 := states[|steps|].(pending := false, handler := Fired);
    Extend(states, steps, Fire, s1);
    var s2 := s1.(handler := Head(10, NONE));
    Extend(states + [s1], steps + [Fire], Lock, s2);
    states', steps' := states + [s1] + [s2], steps + [Fire] + [Lock];
  }

  /** The handler takes the only entry. */
  lemma TakeOnly(states: seq<State>, steps: seq<Step>, j: Job) returns (states': seq<State>, steps': seq<Step>)
    requires IsRun(states, steps)
    requires var s := states[|steps|]; !s.bogus && s.handler == Head(10, NONE) && s.deferred == [j] && j.ticket != NONE
    ensures IsRun(states', steps') && steps' == steps + [Take] && states' == states + [states'[|steps'|]]
    ensures states'[|steps'|] == states[|steps|].(deferred := [], tickets := states[|steps|].tickets[j.ticket := Timer],
                                                  handler := Working(j.(stage := Reading), 9, NONE))
  {
    var s := states[|steps|];
    var s1 := s.(deferred := [], tickets := s.tickets[j.ticket := Timer], handler := Working(j.(stage := Reading), 9, NONE));
    assert s.deferred[1..] == [];
    Extend(states, steps, Take, s1);
    states', steps' := states + [s1], steps + [Take];
  }

  /**
   * Two entries, the second deferred while the handler had released the lock, which armed the timer
   * again. The handler has ended both: nothing is left, and the timer is still to fire.
   */
  lemma ArmedOnEmptyList() returns (states: seq<State>, steps: seq<Step>)
    ensures IsRun(states, steps)
    ensures var s := states[|steps|];
            && s.handler == Idle && s.pending && s.deferred == [] && s.calls == map[] && !s.bogus && 3 !in s.tickets
            && 0 in s.refs && s.refs[0] == Free && 0 in s.flags
  {
    states, steps := [Start()], [];
    states, steps := DeferOne(states, steps, 0, 1);
    states, steps := FireAndTake(states, steps, Job(1, 0, false, Busy));
    states, steps := DeferOne(states, steps, 1, 2);
    states, steps := EndOne(states, steps, 1, 0, 9);
    states, steps := TakeNext(states, steps, Job(2, 1, false, Busy));
    states, steps := EndOne(states, steps, 2, 1, 8);
    var s1 := states[|steps|].(handler := Idle);
    Extend(states, steps, Back, s1);
    states, steps := states + [s1], steps + [Back];
  }

  /** Then the timer fires and the handler takes what is not there. */
  lemma TimerCanFireOnEmptyList() returns (states: seq<State>, steps: seq<Step>)
    ensures IsRun(states, steps) && states[|steps|].bogus
  {
    states, steps := ArmedOnEmptyList();
    states, steps := FireAndLock(states, steps);
    var s := states[|steps|].(bogus := true);
    Extend(states, steps, Take, s);
    states, steps := states + [s], steps + [Take];
  }

  /** Or an entry is deferred between the firing and the lock, and the handler takes that. */
  lemma FiredEmptyYetReal() returns (states: seq<State>, steps: seq<Step>, fired: nat)
    ensures IsRun(states, steps) && fired < |steps| && steps[fired] == Fire && states[fired].deferred == []
    ensures |steps| > 0 && steps[|steps| - 1] == Take && !states[|steps|].bogus
    ensures forall k :: fired < k < |steps| - 1 ==> steps[k] != Take
  {
    states, steps := ArmedOnEmptyList();
    var s := states[|steps|];
    var s1 := s.(refs := s.refs[0 := Live], flags := s.flags[0 := Flags(true, false, false)]);
    Extend(states, steps, Grant(0), s1);
    var s2 := s1.(flags := s1.flags[0 := USED]);
    Extend(states + [s1], steps + [Grant(0)], Remote(0, USED), s2);
    states, steps := states + [s1] + [s2], steps + [Grant(0)] + [Remote(0, USED)];
    fired := |steps|;
    var s3 := s2.(pending := false, handler := Fired);
    Extend(states, steps, Fire, s3);
    states, steps := states + [s3], steps + [Fire];
    ghost var states0, steps0 := states, steps;
    states, steps := DeferOne(states, steps, 0, 3);
    assert states0 <= states && steps0 <= steps;
    var s4 := states[|steps|].(handler := Head(10, NONE));
    Extend(states, steps, Lock, s4);
    states, steps := states + [s4], steps + [Lock];
    states, steps := TakeOnly(states, steps, Job(3, 0, false, Busy));
  }

  lemma TakeNext(states: seq<State>, steps: seq<Step>, j: Job) returns (states': seq<State>, steps': seq<Step>)
    requires IsRun(states, steps)
    requires var s := states[|steps|]; !s.bogus && s.handler == Ended(9, NONE) && s.deferred == [j] && j.ticket != NONE
    ensures IsRun(states', steps')
    ensures states'[|steps'|] == states[|steps|].(deferred := [], tickets := states[|steps|].tickets[j.ticket := Timer],
                                                  handler := Working(j.(stage := Reading), 8, NONE))
  {
    var s := states[|steps|];
    var s1 := s.(handler := Head(9, NONE));
    Extend(states, steps, Back, s1);
    var s2 := s1.(deferred := [], tickets := s1.tickets[j.ticket := Timer], handler := Working(j.(stage := Reading), 8, NONE));
    assert s1.deferred[1..] == [];
    Extend(states + [s1], steps + [Back], Take, s2);
    states', steps' := states + [s1] + [s2], steps + [Back] + [Take];
  }
}
