/**
 * The shadow state of the block front-end: the free-id list inside the shadow array, the requests in
 * flight, and how they are saved and reissued over suspend and resume. Requests that need no splitting.
 */
module BlkShadow {

  import opened Common

  const END: nat := 0x0fffffff
  const TAKEN: nat := 0x0fffffee

  /** A request of the block layer and what is needed to issue it. */
  datatype Request = Request(handle: nat, body: nat)

  /** struct blk_shadow. `id` is req.id; `handle` 0 is NULL. */
  datatype Entry = Entry(id: nat, handle: nat, body: nat)

  /** A request on the ring. */
  datatype Slot = Slot(id: nat, body: nat)

  datatype State = Disconnected | Connected | Suspended

  // ----- the free list

  function NextOf(free: seq<nat>, k: nat): nat {
    if k < |free| then free[k] else END
  }

  /** `free` is the list that starts at `head`, `used` the ids in use. */
  ghost predicate Links(shadow: seq<Entry>, size: nat, head: nat, free: seq<nat>, used: set<nat>) {
    && 0 < size <= |shadow| < TAKEN && head == NextOf(free, 0)
    && (forall k :: 0 <= k < |free| ==>
          free[k] < size && shadow[free[k]].id == NextOf(free, k + 1) && shadow[free[k]].handle == 0)
    && (forall k, l :: 0 <= k < l < |free| ==> free[k] != free[l])
    && (forall id :: 0 <= id < |shadow| ==> (id in used <==> shadow[id].handle != 0))
    && (forall id :: id in used ==> 0 <= id < size && shadow[id].id == id)
    && |free| + |used| == size
  }

  function FirstIds(n: nat): (free: seq<nat>)
    ensures |free| == n && forall k :: 0 <= k < n ==> free[k] == k
  {
    seq(n, k requires 0 <= k => k)
  }

  lemma LinksInitial(shadow: seq<Entry>, size: nat, free: seq<nat>)
    requires 0 < size <= |shadow| < TAKEN && |free| == size && forall k :: 0 <= k < size ==> free[k] == k
    requires forall i :: 0 <= i < size ==> shadow[i].id == if i + 1 < size then i + 1 else END
    requires forall i :: 0 <= i < |shadow| ==> shadow[i].handle == 0
    ensures Links(shadow, size, 0, free, {})
  {
  }

  lemma LinksGet(shadow: seq<Entry>, size: nat, head: nat, free: seq<nat>, used: set<nat>, r: Request)
    requires Links(shadow, size, head, free, used) && free != [] && r.handle != 0
    ensures head == free[0] < size && head !in used
    ensures Links(shadow[head := Entry(head, r.handle, r.body)], size, shadow[head].id, free[1..], used + {head})
  {
    assert |used + {head}| == |used| + 1;
  }

  lemma LinksAdd(shadow: seq<Entry>, size: nat, head: nat, free: seq<nat>, used: set<nat>, id: nat)
    requires Links(shadow, size, head, free, used) && id in used
    ensures id < |shadow|
    ensures Links(shadow[id := shadow[id].(id := head, handle := 0)], size, id, [id] + free, used - {id})
  {
    assert used == (used - {id}) + {id};
    assert |used| == |used - {id}| + 1;
  }

  /** The two tests of ADD_ID_TO_FREELIST let through exactly the ids in use. */
  lemma TestsFindUsed(shadow: seq<Entry>, size: nat, head: nat, free: seq<nat>, used: set<nat>, id: nat)
    requires Links(shadow, size, head, free, used) && id < size
    ensures id < |shadow| && (id in used <==> shadow[id].id == id && shadow[id].handle != 0)
  {
  }

  /** With fewer ids in use than the ring has slots there is a free id. */
  lemma FreeIdLeft(shadow: seq<Entry>, size: nat, head: nat, free: seq<nat>, used: set<nat>)
    requires Links(shadow, size, head, free, used)
    ensures free != [] <==> |used| < size
    ensures free != [] <==> head < size
  {
  }

  // ----- the requests in flight

  /** The request an answer with this id would complete. */
  function RequestIn(e: Entry, id: nat): seq<Request> {
    if e.handle != 0 && e.id == id then [Request(e.handle, e.body)] else []
  }

  /** The requests whose ids are in use, in the order of the ids. */
  function InUse(shadow: seq<Entry>): seq<Request> {
    if shadow == [] then [] else InUse(shadow[..|shadow| - 1]) + RequestIn(shadow[|shadow| - 1], |shadow| - 1)
  }

  /** `after` is `before` without `out` and with `put`. */
  ghost predicate Exchanged(before: multiset<Request>, out: multiset<Request>, put: multiset<Request>, after: multiset<Request>) {
    after + out == before + put
  }

  lemma {:induction false} InUseUpdate(shadow: seq<Entry>, id: nat, e: Entry)
    requires id < |shadow|
    ensures Exchanged(multiset(InUse(shadow)), multiset(RequestIn(shadow[id], id)), multiset(RequestIn(e, id)), multiset(InUse(shadow[id := e])))
  {
    hide InUse, RequestIn, Exchanged;
    var n := |shadow| - 1;
    var shadow' := shadow[id := e];
    InUseSplit(shadow);
    InUseSplit(shadow');
    if id == n {
      assert shadow'[..n] == shadow[..n];
      ExchangeLast(multiset(InUse(shadow[..n])), multiset(RequestIn(shadow[n], n)), multiset(RequestIn(e, id)));
    } else {
      assert shadow'[..n] == shadow[..n][id := e];
      InUseUpdate(shadow[..n], id, e);
      ExchangeInside(multiset(InUse(shadow[..n])), multiset(RequestIn(shadow[id], id)), multiset(RequestIn(e, id)),
                     multiset(InUse(shadow'[..n])), multiset(RequestIn(shadow[n], n)));
    }
  }

  lemma ExchangeInside(before: multiset<Request>, out: multiset<Request>, put: multiset<Request>, after: multiset<Request>, last: multiset<Request>)
    requires Exchanged(before, out, put, after)
    ensures Exchanged(before + last, out, put, after + last)
  {
    assert (after + last) + out == (after + out) + last;
    assert (before + last) + put == (before + put) + last;
  }

  lemma ExchangeLast(a: multiset<Request>, out: multiset<Request>, put: multiset<Request>)
    ensures Exchanged(a + out, out, put, a + put)
  {
  }

  lemma InUseSplit(shadow: seq<Entry>)
    requires shadow != []
    ensures var n := |shadow| - 1;
            multiset(InUse(shadow)) == multiset(InUse(shadow[..n])) + multiset(RequestIn(shadow[n], n))
  {
  }

  lemma {:induction false} InUseNone(shadow: seq<Entry>)
    requires forall i :: 0 <= i < |shadow| ==> shadow[i].handle == 0 || shadow[i].id != i
    ensures InUse(shadow) == []
  {
    if shadow != [] {
      InUseNone(shadow[..|shadow| - 1]);
    }
  }

  /** Entries past the ring hold nothing. */
  lemma {:induction false} InUsePrefix(shadow: seq<Entry>, size: nat)
    requires size <= |shadow| && forall i :: size <= i < |shadow| ==> shadow[i].handle == 0 || shadow[i].id != i
    ensures InUse(shadow) == InUse(shadow[..size])
    decreases |shadow|
  {
    if size == |shadow| {
      assert shadow[..size] == shadow;
    } else {
      var n := |shadow| - 1;
      assert shadow[..n][..size] == shadow[..size];
      InUsePrefix(shadow[..n], size);
    }
  }

  lemma {:induction false} InUseLength(shadow: seq<Entry>, size: nat)
    requires size <= |shadow|
    ensures |InUse(shadow[..size])| <= |InUse(shadow)|
    decreases |shadow|
  {
    if size == |shadow| {
      assert shadow[..size] == shadow;
    } else {
      var n := |shadow| - 1;
      assert shadow[..n][..size] == shadow[..size];
      InUseLength(shadow[..n], size);
    }
  }

  // ----- responses

  /** The ids among the answers that take effect: those in use, each at its first appearance. */
  function Effective(answers: seq<nat>, used: set<nat>): seq<nat> {
    if answers == [] then [] else
    if answers[0] in used then [answers[0]] + Effective(answers[1..], used - {answers[0]})
    else Effective(answers[1..], used)
  }

  /** Every id is answered at most once, and only while it is in use. */
  predicate Honest(answers: seq<nat>, used: set<nat>) {
    answers == [] || (answers[0] in used && Honest(answers[1..], used - {answers[0]}))
  }

  lemma {:induction false} HonestTakesEffect(answers: seq<nat>, used: set<nat>)
    ensures Honest(answers, used) <==> |Effective(answers, used)| == |answers|
    ensures |Effective(answers, used)| <= |answers|
  {
    if answers != [] {
      HonestTakesEffect(answers[1..], if answers[0] in used then used - {answers[0]} else used);
    }
  }

  /** No id takes effect twice, and only ids in use do. */
  lemma {:induction false} EffectiveOnce(answers: seq<nat>, used: set<nat>)
    ensures forall k :: 0 <= k < |Effective(answers, used)| ==> Effective(answers, used)[k] in used
    ensures forall k, l :: 0 <= k < l < |Effective(answers, used)| ==> Effective(answers, used)[k] != Effective(answers, used)[l]
  {
    if answers != [] {
      EffectiveOnce(answers[1..], if answers[0] in used then used - {answers[0]} else used);
    }
  }

  /** The answers with an id the ring has: their requests' grants are ended before the id is looked at. */
  function InRange(answers: seq<nat>, size: nat): seq<nat> {
    if answers == [] then [] else (if answers[0] < size then [answers[0]] else []) + InRange(answers[1..], size)
  }

  lemma {:induction false} EffectiveInRange(answers: seq<nat>, used: set<nat>, size: nat)
    requires forall id :: id in used ==> 0 <= id < size
    ensures Effective(InRange(answers, size), used) == Effective(answers, used)
  {
    if answers != [] {
      EffectiveInRange(answers[1..], if answers[0] in used then used - {answers[0]} else used, size);
      var rest := InRange(answers[1..], size);
      assert ([answers[0]] + rest)[1..] == rest;
      assert [] + rest == rest;
    }
  }

  lemma {:induction false} HonestIsEffective(answers: seq<nat>, used: set<nat>)
    requires Honest(answers, used)
    ensures Effective(answers, used) == answers
  {
    if answers != [] {
      HonestIsEffective(answers[1..], used - {answers[0]});
    }
  }

  /**
   * blkif_completion ends the grants of every id in range, before the tests: exactly those of the
   * requests completed, once each, if and only if no id in range is repeated or not in use.
   */
  lemma EndedOnceIffHonest(answers: seq<nat>, used: set<nat>, size: nat)
    requires forall id :: id in used ==> 0 <= id < size
    ensures InRange(answers, size) == Effective(answers, used) <==> Honest(InRange(answers, size), used)
  {
    var ended := InRange(answers, size);
    EffectiveInRange(answers, used, size);
    HonestTakesEffect(ended, used);
    if Honest(ended, used) {
      HonestIsEffective(ended, used);
    }
  }

  /** `ended` are the ids in range of the first i answers. */
  ghost predicate Ending(ended: seq<nat>, answers: seq<nat>, i: nat, size: nat) {
    i <= |answers| && ended + InRange(answers[i..], size) == InRange(answers, size)
  }

  lemma EndingStarts(answers: seq<nat>, size: nat)
    ensures Ending([], answers, 0, size)
  {
    assert answers[0..] == answers;
  }

  lemma EndingNext(ended: seq<nat>, answers: seq<nat>, i: nat, size: nat)
    requires Ending(ended, answers, i, size) && i < |answers|
    ensures Ending(if answers[i] < size then ended + [answers[i]] else ended, answers, i + 1, size)
  {
    var rest := InRange(answers[i + 1..], size);
    assert answers[i..][1..] == answers[i + 1..];
    assert answers[i] < size ==> ended + ([answers[i]] + rest) == (ended + [answers[i]]) + rest;
    assert [] + rest == rest;
  }

  lemma EndingEnds(ended: seq<nat>, answers: seq<nat>, size: nat)
    requires Ending(ended, answers, |answers|, size)
    ensures ended == InRange(answers, size)
  {
  }

  ghost predicate IdsBelow(ids: seq<nat>, n: nat) {
    forall k :: 0 <= k < |ids| ==> ids[k] < n
  }

  /** The requests behind some ids. */
  function RequestsAt(shadow: seq<Entry>, ids: seq<nat>): (r: seq<Request>)
    requires IdsBelow(ids, |shadow|)
    ensures |r| == |ids| && forall k :: 0 <= k < |ids| ==> r[k] == Request(shadow[ids[k]].handle, shadow[ids[k]].body)
  {
    seq(|ids|, k requires 0 <= k < |ids| => Request(shadow[ids[k]].handle, shadow[ids[k]].body))
  }

  /** The requests behind some ids have been completed, in this order. */
  ghost predicate CompletedBy(shadow0: seq<Entry>, ids: seq<nat>, completed0: seq<Request>, completed: seq<Request>) {
    IdsBelow(ids, |shadow0|) && completed == completed0 + RequestsAt(shadow0, ids)
  }

  /**
   * i answers have been looked at: `done` are the ids among them that took effect, their requests have
   * been completed in this order, and the entries of the ids still in use are untouched.
   */
  ghost predicate Responding(shadow0: seq<Entry>, used0: set<nat>, completed0: seq<Request>, answers: seq<nat>, i: nat,
                             shadow: seq<Entry>, used: set<nat>, completed: seq<Request>, done: seq<nat>)
  {
    && i <= |answers| && |shadow| == |shadow0| && IdsBelow(done, |shadow0|)
    && Effective(answers, used0) == done + Effective(answers[i..], used)
    && used == used0 - AsSet(answers[..i]) && |used| + |done| == |used0|
    && completed == completed0 + RequestsAt(shadow0, done)
    && forall id :: id in used ==> 0 <= id < |shadow| && shadow[id] == shadow0[id]
  }

  lemma RespondingStarts(shadow: seq<Entry>, used: set<nat>, completed: seq<Request>, answers: seq<nat>)
    requires forall id :: id in used ==> 0 <= id < |shadow|
    ensures Responding(shadow, used, completed, answers, 0, shadow, used, completed, [])
  {
    assert answers[0..] == answers;
    assert RequestsAt(shadow, []) == [];
  }

  lemma RespondingMisses(shadow0: seq<Entry>, used0: set<nat>, completed0: seq<Request>, answers: seq<nat>, i: nat,
                         shadow: seq<Entry>, used: set<nat>, completed: seq<Request>, done: seq<nat>)
    requires Responding(shadow0, used0, completed0, answers, i, shadow, used, completed, done)
    requires i < |answers| && answers[i] !in used
    ensures Responding(shadow0, used0, completed0, answers, i + 1, shadow, used, completed, done)
  {
    hide RequestsAt;
    assert answers[i..][1..] == answers[i + 1..];
    assert AsSet(answers[..i + 1]) == AsSet(answers[..i]) + {answers[i]};
  }

  lemma RespondingHits(shadow0: seq<Entry>, used0: set<nat>, completed0: seq<Request>, answers: seq<nat>, i: nat,
                       shadow: seq<Entry>, used: set<nat>, completed: seq<Request>, done: seq<nat>, e: Entry)
    requires Responding(shadow0, used0, completed0, answers, i, shadow, used, completed, done)
    requires i < |answers| && answers[i] in used
    ensures var id := answers[i];
            && id < |shadow|
            && Responding(shadow0, used0, completed0, answers, i + 1, shadow[id := e], used - {id},
                          completed + [Request(shadow[id].handle, shadow[id].body)], done + [id])
  {
    hide RequestsAt;
    assert answers[i..][1..] == answers[i + 1..];
    assert AsSet(answers[..i + 1]) == AsSet(answers[..i]) + {answers[i]};
    assert used == (used - {answers[i]}) + {answers[i]};
    RequestsAtMore(shadow0, done, answers[i]);
  }

  /** The same, and `ended` are the ids for which blkif_completion has ended grants. */
  ghost predicate Progress(shadow0: seq<Entry>, used0: set<nat>, completed0: seq<Request>, answers: seq<nat>, i: nat, size: nat,
                           shadow: seq<Entry>, used: set<nat>, completed: seq<Request>, done: seq<nat>, ended: seq<nat>)
  {
    Responding(shadow0, used0, completed0, answers, i, shadow, used, completed, done) && Ending(ended, answers, i, size)
  }

  lemma ProgressStarts(shadow: seq<Entry>, used: set<nat>, completed: seq<Request>, answers: seq<nat>, size: nat)
    requires forall id :: id in used ==> 0 <= id < |shadow|
    ensures Progress(shadow, used, completed, answers, 0, size, shadow, used, completed, [], [])
  {
    hide Responding, Ending;
    RespondingStarts(shadow, used, completed, answers);
    EndingStarts(answers, size);
  }

  function EndedNext(ended: seq<nat>, id: nat, size: nat): seq<nat> {
    if id < size then ended + [id] else ended
  }

  lemma ProgressMisses(shadow0: seq<Entry>, used0: set<nat>, completed0: seq<Request>, answers: seq<nat>, i: nat, size: nat,
                       shadow: seq<Entry>, used: set<nat>, completed: seq<Request>, done: seq<nat>, ended: seq<nat>)
    requires Progress(shadow0, used0, completed0, answers, i, size, shadow, used, completed, done, ended)
    requires i < |answers| && answers[i] !in used
    ensures Progress(shadow0, used0, completed0, answers, i + 1, size, shadow, used, completed, done, EndedNext(ended, answers[i], size))
  {
    hide Responding, Ending;
    RespondingMisses(shadow0, used0, completed0, answers, i, shadow, used, completed, done);
    EndingNext(ended, answers, i, size);
  }

  lemma ProgressHits(shadow0: seq<Entry>, used0: set<nat>, completed0: seq<Request>, answers: seq<nat>, i: nat, size: nat,
                     shadow: seq<Entry>, used: set<nat>, completed: seq<Request>, done: seq<nat>, ended: seq<nat>, e: Entry)
    requires Progress(shadow0, used0, completed0, answers, i, size, shadow, used, completed, done, ended)
    requires i < |answers| && answers[i] in used
    ensures var id := answers[i];
            && id < |shadow|
            && Progress(shadow0, used0, completed0, answers, i + 1, size, shadow[id := e], used - {id},
                        completed + [Request(shadow[id].handle, shadow[id].body)], done + [id], EndedNext(ended, id, size))
  {
    hide Responding, Ending;
    RespondingHits(shadow0, used0, completed0, answers, i, shadow, used, completed, done, e);
    EndingNext(ended, answers, i, size);
  }

  lemma RespondingEnds(shadow0: seq<Entry>, used0: set<nat>, completed0: seq<Request>, answers: seq<nat>,
                       shadow: seq<Entry>, used: set<nat>, completed: seq<Request>, done: seq<nat>)
    requires Responding(shadow0, used0, completed0, answers, |answers|, shadow, used, completed, done)
    ensures Effective(answers, used0) == done && IdsBelow(done, |shadow0|) && completed == completed0 + RequestsAt(shadow0, done)
    ensures used == used0 - AsSet(answers) && |used| + |done| == |used0|
  {
    assert answers[|answers|..] == [] && answers[..|answers|] == answers;
  }

  lemma ProgressEnds(shadow0: seq<Entry>, used0: set<nat>, completed0: seq<Request>, answers: seq<nat>, size: nat,
                     shadow: seq<Entry>, used: set<nat>, completed: seq<Request>, done: seq<nat>, ended: seq<nat>)
    requires Progress(shadow0, used0, completed0, answers, |answers|, size, shadow, used, completed, done, ended)
    ensures Effective(answers, used0) == done && CompletedBy(shadow0, done, completed0, completed)
    ensures used == used0 - AsSet(answers) && |used| + |done| == |used0| && ended == InRange(answers, size)
  {
    RespondingEnds(shadow0, used0, completed0, answers, shadow, used, completed, done);
    EndingEnds(ended, answers, size);
  }

  /** The requests in flight and those completed are together `all`. */
  ghost predicate Accounted(all: multiset<Request>, inFlight: multiset<Request>, completed: seq<Request>) {
    inFlight + multiset(completed) == all
  }

  lemma AccountedStarts(inFlight: multiset<Request>, completed: seq<Request>)
    ensures Accounted(inFlight + multiset(completed), inFlight, completed)
  {
  }

  lemma AccountedDone(all: multiset<Request>, inFlight: multiset<Request>, completed: seq<Request>, inFlight': multiset<Request>, r: Request)
    requires Accounted(all, inFlight, completed) && inFlight' + multiset{r} == inFlight
    ensures Accounted(all, inFlight', completed + [r])
  {
    assert inFlight' + multiset(completed + [r]) == (inFlight' + multiset{r}) + multiset(completed);
  }

  lemma RequestsAtMore(shadow: seq<Entry>, ids: seq<nat>, id: nat)
    requires IdsBelow(ids, |shadow|) && id < |shadow|
    ensures RequestsAt(shadow, ids + [id]) == RequestsAt(shadow, ids) + [Request(shadow[id].handle, shadow[id].body)]
  {
  }

  lemma LinksBounds(shadow: seq<Entry>, size: nat, head: nat, free: seq<nat>, used: set<nat>)
    requires Links(shadow, size, head, free, used)
    ensures |shadow| < TAKEN && forall i :: size <= i < |shadow| ==> shadow[i].handle == 0
    ensures forall i :: 0 <= i < size && shadow[i].handle != 0 ==> shadow[i].id == i
    ensures 0 < size <= |shadow| && forall id :: id in used ==> 0 <= id < size
  {
  }

  /** `issued` has gone onto the ring in order, each request under an id that was free. */
  ghost predicate Posted(ring0: seq<Slot>, ring: seq<Slot>, used0: set<nat>, used: set<nat>, issued: seq<Request>) {
    && |ring| == |ring0| + |issued| && ring[..|ring0|] == ring0
    && (forall p :: |ring0| <= p < |ring| ==>
          ring[p].body == issued[p - |ring0|].body && ring[p].id in used && ring[p].id !in used0)
    && (forall i, j :: |ring0| <= i < j < |ring| ==> ring[i].id != ring[j].id)
    && used0 <= used && |used| == |used0| + |issued|
  }

  lemma PostedNone(ring: seq<Slot>, used: set<nat>)
    ensures Posted(ring, ring, used, used, [])
  {
  }

  lemma PostedMore(ring0: seq<Slot>, ring: seq<Slot>, used0: set<nat>, used: set<nat>, issued: seq<Request>, id: nat, r: Request)
    requires Posted(ring0, ring, used0, used, issued) && id !in used
    ensures Posted(ring0, ring + [Slot(id, r.body)], used0, used + {id}, issued + [r])
  {
    assert |used + {id}| == |used| + 1;
  }

  /** `issued` has joined the requests in flight. */
  ghost predicate Gained(before: multiset<Request>, issued: seq<Request>, after: multiset<Request>) {
    after == before + multiset(issued)
  }

  lemma GainedNone(inFlight: multiset<Request>)
    ensures Gained(inFlight, [], inFlight)
  {
  }

  lemma GainedMore(before: multiset<Request>, issued: seq<Request>, after: multiset<Request>, r: Request)
    requires Gained(before, issued, after)
    ensures Gained(before, issued + [r], after + multiset{r})
  {
  }

  /** What was in flight or completed, and what has been issued, is now in flight or completed. */
  ghost predicate AllAccounted(inFlight0: multiset<Request>, completed0: seq<Request>, issued: seq<Request>,
                               inFlight: multiset<Request>, completed: seq<Request>)
  {
    inFlight + multiset(completed) == inFlight0 + multiset(completed0) + multiset(issued)
  }

  lemma AccountedGained(inFlight0: multiset<Request>, completed0: seq<Request>, inFlight: multiset<Request>, completed: seq<Request>,
                        issued: seq<Request>, after: multiset<Request>)
    requires Accounted(inFlight0 + multiset(completed0), inFlight, completed) && Gained(inFlight, issued, after)
    ensures AllAccounted(inFlight0, completed0, issued, after, completed)
  {
  }

  ghost predicate Proper(rs: seq<Request>) {
    forall k :: 0 <= k < |rs| ==> rs[k].handle != 0
  }

  /** All requests of the driver. */
  ghost function Total(inFlight: multiset<Request>, resume: seq<Request>, queue: seq<Request>, completed: seq<Request>): multiset<Request> {
    inFlight + multiset(resume) + multiset(queue) + multiset(completed)
  }

  lemma MultisetCut(s: seq<Request>, k: nat)
    requires k <= |s|
    ensures multiset(s) == multiset(s[..k]) + multiset(s[k..])
  {
    assert s == s[..k] + s[k..];
  }

  /** What has been saved and queued is issued, still saved, or still queued. */
  lemma RoundConserves(resume0: seq<Request>, inUse0: seq<Request>, queue0: seq<Request>, completed: seq<Request>,
                       k: nat, m: nat, inFlight: multiset<Request>)
    requires k <= |resume0 + inUse0| && m <= |queue0|
    requires Gained(multiset{}, (resume0 + inUse0)[..k] + queue0[..m], inFlight)
    ensures Total(inFlight, (resume0 + inUse0)[k..], queue0[m..], completed) == Total(multiset(inUse0), resume0, queue0, completed)
  {
    var saved := resume0 + inUse0;
    var a, b, c, d := multiset(saved[..k]), multiset(saved[k..]), multiset(queue0[..m]), multiset(queue0[m..]);
    MultisetCut(saved, k);
    MultisetCut(queue0, m);
    assert inFlight == a + c;
    assert multiset(inUse0) + multiset(resume0) == a + b;
    assert ((a + c) + b) + d == (a + b) + (c + d);
  }

  /**
   * After a resume: of the saved requests the first k, and of the queue the first m, have been put on
   * the new ring in order under fresh ids; the queue only once no request is saved any more.
   */
  ghost predicate Reissued(saved: seq<Request>, queue0: seq<Request>, k: nat, m: nat,
                           ring: seq<Slot>, used: set<nat>, resume: seq<Request>, queue: seq<Request>, inFlight: multiset<Request>)
  {
    && k <= |saved| && resume == saved[k..] && m <= |queue0| && queue == queue0[m..] && (m > 0 ==> k == |saved|)
    && Posted([], ring, {}, used, saved[..k] + queue0[..m])
    && Gained(multiset{}, saved[..k] + queue0[..m], inFlight)
  }

  lemma Lost(inFlight: multiset<Request>, resume: seq<Request>, queue: seq<Request>, completed: seq<Request>)
    ensures Total(multiset{}, resume, queue, completed) == Total(inFlight, resume, queue, completed) <==> inFlight == multiset{}
  {
    assert |Total(inFlight, resume, queue, completed)| == |inFlight| + |resume| + |queue| + |completed|;
  }

  /** What goes wrong in talk_to_backend: no ring to be had, a later failure up to the end of the transaction, or nothing. */
  datatype Fault = Nothing | NoRing | Refused

  lemma EmptyShadow(shadow: seq<Entry>, size: nat, free: seq<nat>)
    requires 0 < size <= |shadow| < TAKEN && free == FirstIds(size)
    requires forall i :: 0 <= i < |shadow| ==> shadow[i].handle == 0
    requires forall i :: 0 <= i < size ==> shadow[i].id == if i + 1 < size then i + 1 else END
    ensures Links(shadow, size, 0, free, {}) && InUse(shadow) == []
  {
    LinksInitial(shadow, size, free);
    InUseNone(shadow);
  }

  /** Taking the head of the free list for a request. */
  lemma IssuedOne(shadow: seq<Entry>, size: nat, head: nat, free: seq<nat>, used: set<nat>, r: Request)
    requires Links(shadow, size, head, free, used) && free != [] && r.handle != 0
    ensures head == free[0] < size <= |shadow| && head !in used
    ensures Links(shadow[head := Entry(head, r.handle, r.body)], size, shadow[head].id, free[1..], used + {head})
    ensures multiset(InUse(shadow[head := Entry(head, r.handle, r.body)])) == multiset(InUse(shadow)) + multiset{r}
  {
    LinksGet(shadow, size, head, free, used, r);
    InUseUpdate(shadow, head, Entry(head, r.handle, r.body));
    assert shadow[head].handle == 0;
  }

  /** Giving back an id in use. */
  lemma FreedOne(shadow: seq<Entry>, size: nat, head: nat, free: seq<nat>, used: set<nat>, id: nat)
    requires Links(shadow, size, head, free, used) && id in used
    ensures id < size <= |shadow| && shadow[id].id == id && shadow[id].handle != 0 && |used - {id}| == |used| - 1
    ensures var shadow' := shadow[id := shadow[id].(id := head, handle := 0)];
            && Links(shadow', size, id, [id] + free, used - {id})
            && multiset(InUse(shadow')) + multiset{Request(shadow[id].handle, shadow[id].body)} == multiset(InUse(shadow))
  {
    LinksAdd(shadow, size, head, free, used, id);
    InUseUpdate(shadow, id, shadow[id].(id := head, handle := 0));
  }

  lemma LinkedEmpty(shadow: seq<Entry>, size: nat, head: nat, free: seq<nat>)
    requires Links(shadow, size, head, free, {}) && free == FirstIds(size)
    ensures head == 0 && forall i :: 0 <= i < |shadow| ==> shadow[i].handle == 0
  {
  }

  // ----- any number of rounds

  /** What happens to a connected device: a request comes in, the backend answers, or the guest is suspended and resumed. */
  datatype Round = Asked(r: Request, grants: nat) | Answered(answers: seq<nat>, grants: nat) | Resumed(size: nat, memory: nat, grants: nat)

  /** The requests that come in. */
  function AskedOf(plan: seq<Round>): seq<Request> {
    if plan == [] then [] else
      AskedOf(plan[..|plan| - 1]) + if plan[|plan| - 1].Asked? then [plan[|plan| - 1].r] else []
  }

  lemma AskedNext(plan: seq<Round>, i: nat)
    requires i < |plan|
    ensures AskedOf(plan[..i + 1]) == if plan[i].Asked? then AskedOf(plan[..i]) + [plan[i].r] else AskedOf(plan[..i])
  {
    assert plan[..i + 1][..i] == plan[..i];
  }

  /** The requests of the beginning and those asked since are all there, and the queue has been started from the front. */
  ghost predicate Kept(all0: multiset<Request>, queue0: seq<Request>, asked: seq<Request>, all: multiset<Request>, queue: seq<Request>, m: nat) {
    && all == all0 + multiset(asked)
    && m <= |queue0 + asked| && queue == (queue0 + asked)[m..]
  }

  lemma KeptStart(all: multiset<Request>, queue: seq<Request>)
    ensures Kept(all, queue, [], all, queue, 0) && forall plan: seq<Round> :: AskedOf(plan[..0]) == []
  {
    assert queue + [] == queue;
  }

  lemma KeptAsked(all0: multiset<Request>, queue0: seq<Request>, asked: seq<Request>, all: multiset<Request>, queue: seq<Request>, m: nat, r: Request)
    requires Kept(all0, queue0, asked, all, queue, m)
    ensures Kept(all0, queue0, asked + [r], all + multiset{r}, queue + [r], m)
  {
    assert queue0 + (asked + [r]) == (queue0 + asked) + [r];
  }

  lemma KeptStarted(all0: multiset<Request>, queue0: seq<Request>, asked: seq<Request>, all: multiset<Request>, queue: seq<Request>, m: nat, more: nat)
    requires Kept(all0, queue0, asked, all, queue, m) && more <= |queue|
    ensures Kept(all0, queue0, asked, all, queue[more..], m + more)
  {
    assert (queue0 + asked)[m..][more..] == (queue0 + asked)[m + more..];
  }

  lemma AccountedAsk(inFlight0: multiset<Request>, completed: seq<Request>, issued: seq<Request>, inFlight: multiset<Request>)
    requires Gained(inFlight0, issued, inFlight)
    ensures AllAccounted(inFlight0, completed, issued, inFlight, completed)
  {
  }

  /** A request that comes in is added to the others. */
  lemma TotalAfterAsk(inFlight0: multiset<Request>, completed: seq<Request>, resume: seq<Request>, queue0: seq<Request>, r: Request, m: nat,
                      inFlight: multiset<Request>)
    requires m <= |queue0 + [r]| && AllAccounted(inFlight0, completed, (queue0 + [r])[..m], inFlight, completed)
    ensures Total(inFlight, resume, (queue0 + [r])[m..], completed) == Total(inFlight0, resume, queue0, completed) + multiset{r}
  {
    MultisetCut(queue0 + [r], m);
    var a, b, c, d := multiset((queue0 + [r])[..m]), multiset((queue0 + [r])[m..]), multiset(completed), multiset(resume);
    assert a + b == multiset(queue0) + multiset{r};
    assert inFlight + c == inFlight0 + c + a;
    assert ((inFlight + d) + b) + c == (inFlight + c) + (d + b);
    assert (((inFlight0 + d) + multiset(queue0)) + c) + multiset{r} == (inFlight0 + c) + (d + (multiset(queue0) + multiset{r}));
  }

  /** An interrupt conserves the requests. */
  lemma TotalAfterInterrupt(inFlight0: multiset<Request>, completed0: seq<Request>, resume0: seq<Request>, queue0: seq<Request>, k: nat, m: nat,
                            inFlight: multiset<Request>, completed: seq<Request>)
    requires k <= |resume0| && m <= |queue0|
    requires AllAccounted(inFlight0, completed0, resume0[..k] + queue0[..m], inFlight, completed)
    ensures Total(inFlight, resume0[k..], queue0[m..], completed) == Total(inFlight0, resume0, queue0, completed0)
  {
    MultisetCut(resume0, k);
    MultisetCut(queue0, m);
    var a, b, c, d := multiset(resume0[..k]), multiset(resume0[k..]), multiset(queue0[..m]), multiset(queue0[m..]);
    assert multiset(resume0[..k] + queue0[..m]) == a + c;
    assert inFlight + multiset(completed) == inFlight0 + multiset(completed0) + (a + c);
    assert ((inFlight + b) + d) + multiset(completed) == (inFlight + multiset(completed)) + (b + d);
    assert ((inFlight0 + multiset(resume0)) + multiset(queue0)) + multiset(completed0)
        == (inFlight0 + multiset(completed0) + (a + c)) + (b + d);
  }

  class Device {
    const shadow: array<Entry>
    var shadowFree: nat
    var ringSize: nat
    var ring: seq<Slot>                     // every request put on this ring; req_prod_pvt is its length
    var rspCons: nat
    var resumeList: seq<Request>
    var queue: seq<Request>                 // the block layer's requests not started yet
    var connected: State
    var stopped: bool                       // blk_stop_queue
    ghost var free: seq<nat>
    ghost var used: set<nat>
    ghost var completed: seq<Request>       // history
    var initialised: bool                   // dev->state >= XenbusStateInitialised

    ghost predicate Linked()
      reads `shadowFree, `ringSize, `free, `used, shadow
    {
      Links(shadow[..], ringSize, shadowFree, free, used)
    }

    /** Every id in use has a slot the backend has not answered. */
    ghost predicate Covered()
      reads `ring, `rspCons, `ringSize, `used
    {
      rspCons <= |ring| && |used| <= |ring| - rspCons <= ringSize
    }

    ghost predicate RingFull()
      reads `ring, `rspCons, `ringSize
    {
      |ring| - rspCons == ringSize
    }

    /**
     * Nothing that could be on the ring is left: the ring is full, or no request is saved and the queue
     * is empty and running, or stopped for want of grants.
     */
    ghost predicate Busy(m: nat, grants: nat)
      reads `ring, `rspCons, `ringSize, `resumeList, `queue, `stopped, `connected
    {
      RingFull() || (resumeList == [] && if queue == [] then !stopped else stopped && (m == grants || connected != Connected))
    }

    ghost function InFlight(): multiset<Request>
      reads shadow
    {
      multiset(InUse(shadow[..]))
    }

    /** Takes a free id for a request and puts it on the ring. */
    method Issue(r: Request) returns (id: nat)
      requires Linked() && free != [] && r.handle != 0
      modifies shadow, `shadowFree, `ring, `free, `used
      ensures Linked() && id !in old(used) && used == old(used) + {id}
      ensures ring == old(ring) + [Slot(id, r.body)]
      ensures InFlight() == old(InFlight()) + multiset{r}
    {
      hide Links, InUse;
      IssuedOne(shadow[..], ringSize, shadowFree, free, used, r);
      id := shadowFree;
      assert id < ringSize;                 // BUG_ON(free >= RING_SIZE)
      shadowFree := shadow[id].id;
      KeepRequest(id, r);
      ring := ring + [Slot(id, r.body)];
      free, used := free[1..], used + {id};
    }

    /** The entry of an id taken off the free list, first marked and then filled. */
    method KeepRequest(id: nat, r: Request)
      requires id < shadow.Length
      modifies shadow
      ensures shadow[..] == old(shadow[..])[id := Entry(id, r.handle, r.body)]
    {
      shadow[id] := shadow[id].(id := TAKEN);
      shadow[id] := Entry(id, r.handle, r.body);
    }

    /** The part of ADD_ID_TO_FREELIST behind its tests. */
    method FreeId(id: nat)
      requires Linked() && id in used && id < shadow.Length && shadow[id].id == id && shadow[id].handle != 0
      modifies shadow, `shadowFree, `free, `used
      ensures Linked() && used == old(used) - {id} && |used| == |old(used)| - 1
      ensures InFlight() + multiset{Request(old(shadow[id]).handle, old(shadow[id]).body)} == old(InFlight())
      ensures shadow[..] == old(shadow[..])[id := old(shadow[id].(id := shadowFree, handle := 0))]
    {
      FreedOne(shadow[..], ringSize, shadowFree, free, used, id);
      hide Links, InUse;
      shadow[id] := shadow[id].(id := shadowFree, handle := 0);
      assert shadow[..] == old(shadow[..])[id := old(shadow[id].(id := shadowFree, handle := 0))];
      shadowFree := id;
      free, used := [id] + free, used - {id};
    }

    /** ADD_ID_TO_FREELIST; `ret` is 0 or an error. */
    method AddId(id: nat) returns (ret: int)
      requires Linked() && id < ringSize
      modifies shadow, `shadowFree, `free, `used
      ensures Linked() && (ret == 0 <==> id in old(used)) && id < shadow.Length
      ensures used == old(used) - {id} && (ret != 0 ==> shadow[..] == old(shadow[..]) && used == old(used))
      ensures ret != 0 ==> ret == if shadow[id].id != id then -22 else -6
      ensures ret == 0 ==> InFlight() + multiset{Request(old(shadow[id]).handle, old(shadow[id]).body)} == old(InFlight())
      ensures ret == 0 ==> shadow[..] == old(shadow[..])[id := old(shadow[id].(id := shadowFree, handle := 0))] && |used| == |old(used)| - 1
    {
      TestsFindUsed(shadow[..], ringSize, shadowFree, free, used, id);
      hide Links, InUse;
      if shadow[id].id != id {
        assert used == used - {id};
        return -22;
      }
      if shadow[id].handle == 0 {
        assert used == used - {id};
        return -6;
      }
      FreeId(id);
      return 0;
    }

    /** One round of the loop of blkif_int: the i-th response. */
    method Respond(id: nat, ghost shadow0: seq<Entry>, ghost used0: set<nat>, ghost completed0: seq<Request>,
                   ghost answers: seq<nat>, ghost i: nat, ghost done: seq<nat>, ghost ended: seq<nat>, ghost all: multiset<Request>)
      returns (ghost done': seq<nat>, ghost ended': seq<nat>)
      requires Linked() && i < |answers| && id == answers[i] && Accounted(all, InFlight(), completed)
      requires Progress(shadow0, used0, completed0, answers, i, ringSize, shadow[..], used, completed, done, ended)
      modifies shadow, `shadowFree, `free, `used, `completed
      ensures Linked() && Accounted(all, InFlight(), completed)
      ensures Progress(shadow0, used0, completed0, answers, i + 1, ringSize, shadow[..], used, completed, done', ended')
    {
      LinksBounds(shadow[..], ringSize, shadowFree, free, used);
      hide Links, InUse, Progress, Accounted, EndedNext;
      done' := done;
      if id in used {
        ProgressHits(shadow0, used0, completed0, answers, i, ringSize, shadow[..], used, completed, done, ended,
                     shadow[id].(id := shadowFree, handle := 0));
        done' := done + [id];
      } else {
        ProgressMisses(shadow0, used0, completed0, answers, i, ringSize, shadow[..], used, completed, done, ended);
      }
      ended' := EndedNext(ended, id, ringSize); // blkif_completion, for an id in range
      if id >= ringSize {
        return;                             // incorrect id
      }
      var r := Request(shadow[id].handle, shadow[id].body);
      ghost var inFlight := InFlight();
      var ret := AddId(id);
      if ret != 0 {
        return;                             // couldn't be recycled
      }
      AccountedDone(all, inFlight, completed, InFlight(), r);
      completed := completed + [r];         // __blk_end_request_all
    }

    /** The loop of blkif_int. */
    method RespondToAll(answers: seq<nat>, ghost all: multiset<Request>) returns (ghost done: seq<nat>, ghost ended: seq<nat>)
      requires Linked() && Accounted(all, InFlight(), completed)
      modifies shadow, `shadowFree, `free, `used, `completed
      ensures Linked() && Accounted(all, InFlight(), completed)
      ensures Progress(old(shadow[..]), old(used), old(completed), answers, |answers|, ringSize, shadow[..], used, completed, done, ended)
    {
      LinksBounds(shadow[..], ringSize, shadowFree, free, used);
      ProgressStarts(shadow[..], used, completed, answers, ringSize);
      hide Links, InUse, Progress, Accounted;
      done, ended := [], [];
      var i: nat := 0;
      while i < |answers|
        invariant i <= |answers| && Linked() && Accounted(all, InFlight(), completed)
        invariant Progress(old(shadow[..]), old(used), old(completed), answers, i, ringSize, shadow[..], used, completed, done, ended)
      {
        done, ended := Respond(answers[i], old(shadow[..]), old(used), old(completed), answers, i, done, ended, all);
        i := i + 1;
      }
    }

    /**
     * The responses of one blkif_int, whatever ids the backend has put there. `ended` are the ids
     * whose grants blkif_completion ends, before the id is given back.
     */
    method TakeResponses(answers: seq<nat>) returns (ghost ended: seq<nat>)
      requires Linked()
      modifies shadow, `shadowFree, `free, `used, `completed, `rspCons
      ensures ended == InRange(answers, ringSize)
      ensures Linked() && used == old(used) - AsSet(answers) && rspCons == old(rspCons) + |answers|
      ensures |used| + |Effective(answers, old(used))| == |old(used)|
      ensures CompletedBy(old(shadow[..]), Effective(answers, old(used)), old(completed), completed)
      ensures Accounted(old(InFlight() + multiset(completed)), InFlight(), completed)
    {
      hide Links, InUse, Progress, Effective, CompletedBy, Accounted, AsSet, InRange;
      AccountedStarts(InFlight(), completed);
      ghost var done;
      done, ended := RespondToAll(answers, InFlight() + multiset(completed));
      ProgressEnds(old(shadow[..]), old(used), old(completed), answers, ringSize, shadow[..], used, completed, done, ended);
      rspCons := rspCons + |answers|;
    }

    /** Issues a request while the ring is not full. */
    method IssueNext(r: Request, ghost ring0: seq<Slot>, ghost used0: set<nat>, ghost issued: seq<Request>, ghost before: multiset<Request>)
      requires Linked() && Covered() && !RingFull() && r.handle != 0
      requires Posted(ring0, ring, used0, used, issued) && Gained(before, issued, InFlight())
      modifies shadow, `shadowFree, `ring, `free, `used
      ensures Linked() && Covered()
      ensures Posted(ring0, ring, used0, used, issued + [r]) && Gained(before, issued + [r], InFlight())
    {
      hide Links, InUse, Posted, Gained;
      FreeIdLeft(shadow[..], ringSize, shadowFree, free, used);
      GainedMore(before, issued, InFlight(), r);
      ghost var ring1, used1 := ring, used;
      var id := Issue(r);
      PostedMore(ring0, ring1, used0, used1, issued, id, r);
    }

    /** The loop of kick_pending_request_queues over resume_list. */
    method Reissue(ghost ring0: seq<Slot>, ghost used0: set<nat>, ghost before: multiset<Request>) returns (ghost k: nat)
      requires Linked() && Covered() && Proper(resumeList)
      requires Posted(ring0, ring, used0, used, []) && Gained(before, [], InFlight())
      modifies shadow, `shadowFree, `ring, `free, `used, `resumeList
      ensures Linked() && Covered() && k <= |old(resumeList)| && resumeList == old(resumeList)[k..]
      ensures Posted(ring0, ring, used0, used, old(resumeList)[..k]) && Gained(before, old(resumeList)[..k], InFlight())
      ensures resumeList == [] || RingFull()
    {
      hide Links, InUse, Posted, Gained;
      k := 0;
      ghost var list := resumeList;
      assert list[..0] == [];
      while resumeList != [] && |ring| - rspCons < ringSize
        invariant Linked() && Covered() && k <= |list| && resumeList == list[k..]
        invariant Posted(ring0, ring, used0, used, list[..k]) && Gained(before, list[..k], InFlight())
        decreases |resumeList|
      {
        assert list[..k + 1] == list[..k] + [list[k]];
        IssueNext(resumeList[0], ring0, used0, list[..k], before);
        resumeList := resumeList[1..];
        k := k + 1;
      }
    }

    /** do_blkif_request, with blkif_queue_request: starts requests of the block layer, for `grants` of which grants can be had. */
    method DoRequests(grants: nat, ghost ring0: seq<Slot>, ghost used0: set<nat>, ghost issued: seq<Request>, ghost before: multiset<Request>)
      returns (m: nat)
      requires Linked() && Covered() && Proper(queue)
      requires Posted(ring0, ring, used0, used, issued) && Gained(before, issued, InFlight())
      modifies shadow, `shadowFree, `ring, `free, `used, `queue, `stopped
      ensures Linked() && Covered() && m <= |old(queue)| && queue == old(queue)[m..]
      ensures Posted(ring0, ring, used0, used, issued + old(queue)[..m]) && Gained(before, issued + old(queue)[..m], InFlight())
      ensures queue == [] || RingFull() || connected != Connected || m == grants
      ensures stopped <==> old(stopped) || queue != []
    {
      hide Links, InUse, Posted, Gained;
      m := 0;
      ghost var list := queue;
      assert issued + list[..0] == issued;
      while queue != []
        invariant Linked() && Covered() && m <= |list| && queue == list[m..] && m <= grants && stopped == old(stopped)
        invariant Posted(ring0, ring, used0, used, issued + list[..m]) && Gained(before, issued + list[..m], InFlight())
        decreases |queue|
      {
        if |ring| - rspCons >= ringSize || connected != Connected || m == grants {
          stopped := true;                  // gnttab_alloc_grant_references in blkif_queue_request fails last
          return;
        }
        assert issued + list[..m + 1] == (issued + list[..m]) + [list[m]];
        IssueNext(queue[0], ring0, used0, issued + list[..m], before);
        queue := queue[1..];
        m := m + 1;
      }
    }

    /**
     * kick_pending_request_queues: k saved requests are reissued, then m new ones are started, and new
     * ones only once none is saved any more.
     */
    method Kick(grants: nat) returns (ghost k: nat, ghost m: nat)
      requires Linked() && Covered() && Proper(resumeList) && Proper(queue)
      modifies shadow, `shadowFree, `ring, `free, `used, `resumeList, `queue, `stopped
      ensures Linked() && Covered() && Proper(resumeList) && Proper(queue)
      ensures k <= |old(resumeList)| && resumeList == old(resumeList)[k..]
      ensures m <= |old(queue)| && queue == old(queue)[m..] && (m > 0 ==> resumeList == [])
      ensures Busy(m, grants)
      ensures (old(resumeList) != [] ==> old(stopped)) ==> (resumeList != [] ==> stopped)
      ensures Posted(old(ring), ring, old(used), used, old(resumeList)[..k] + old(queue)[..m])
      ensures Gained(old(InFlight()), old(resumeList)[..k] + old(queue)[..m], InFlight())
    {
      PostedNone(ring, used);
      GainedNone(InFlight());
      hide Links, InUse, Posted, Gained;
      m := 0;
      k := Reissue(ring, used, InFlight());
      assert old(resumeList)[..k] + old(queue)[..0] == old(resumeList)[..k];
      if |ring| - rspCons < ringSize {
        stopped := false;
        m := DoRequests(grants, old(ring), old(used), old(resumeList)[..k], old(InFlight()));
      }
    }

    /** Every request the device has been given. */
    ghost function All(): multiset<Request>
      reads `resumeList, `queue, `completed, shadow
    {
      Total(InFlight(), resumeList, queue, completed)
    }

    /** The responses of a backend that answers each id once. */
    method TakeHonest(answers: seq<nat>)
      requires Linked() && Covered() && Honest(answers, used)
      modifies shadow, `shadowFree, `free, `used, `completed, `rspCons
      ensures Linked() && Covered() && rspCons == old(rspCons) + |answers|
      ensures CompletedBy(old(shadow[..]), answers, old(completed), completed)
      ensures Accounted(old(InFlight() + multiset(completed)), InFlight(), completed)
    {
      hide Links, InUse, Effective, Honest, Accounted, CompletedBy, AsSet, InRange, Proper, Posted, Gained, AllAccounted;
      ghost var used0, eff := used, Effective(answers, used);
      HonestIsEffective(answers, used);
      assert eff == answers;
      ghost var ended := TakeResponses(answers);
      assert |used| + |answers| == |used0|;
    }

    /** blkif_int on a connected device, with a backend that answers each id once. */
    method Interrupt(answers: seq<nat>, grants: nat) returns (ghost k: nat, ghost m: nat)
      requires connected == Connected && Linked() && Covered() && Proper(resumeList) && Proper(queue) && Honest(answers, used)
      modifies shadow, `shadowFree, `ring, `free, `used, `resumeList, `queue, `stopped, `completed, `rspCons
      ensures Linked() && Covered() && Proper(resumeList) && Proper(queue)
      ensures k <= |old(resumeList)| && resumeList == old(resumeList)[k..]
      ensures m <= |old(queue)| && queue == old(queue)[m..] && (m > 0 ==> resumeList == [])
      ensures AllAccounted(old(InFlight()), old(completed), old(resumeList)[..k] + old(queue)[..m], InFlight(), completed)
      ensures All() == old(All())
      ensures CompletedBy(old(shadow[..]), answers, old(completed), completed)
      ensures rspCons == old(rspCons) + |answers| && Busy(m, grants)
      ensures (old(resumeList) != [] ==> old(stopped)) ==> (resumeList != [] ==> stopped)
    {
      hide Links, InUse, Posted, Honest, Accounted, Gained, CompletedBy, AllAccounted, Proper, Total;
      TakeHonest(answers);
      ghost var between, done := InFlight(), completed;
      k, m := Kick(grants);
      AccountedGained(old(InFlight()), old(completed), between, done, old(resumeList)[..k] + old(queue)[..m], InFlight());
      TotalAfterInterrupt(old(InFlight()), old(completed), old(resumeList), old(queue), k, m, InFlight(), completed);
    }

    /** shadow_init: links the first size entries; the caller sets shadow_free. */
    method ShadowInit(size: nat)
      requires 0 < size <= shadow.Length
      modifies shadow
      ensures forall i :: 0 <= i < size ==> shadow[i] == old(shadow[i]).(id := if i + 1 < size then i + 1 else END)
      ensures forall i :: size <= i < shadow.Length ==> shadow[i] == old(shadow[i])
    {
      var i: nat := 1;
      while i < size
        invariant 1 <= i <= size
        invariant forall j :: 0 <= j < i - 1 ==> shadow[j] == old(shadow[j]).(id := j + 1)
        invariant forall j :: i - 1 <= j < shadow.Length ==> shadow[j] == old(shadow[j])
      {
        shadow[i - 1] := shadow[i - 1].(id := i);
        i := i + 1;
      }
      shadow[i - 1] := shadow[i - 1].(id := END);
    }

    /** Stage 1 of blkif_recover: the requests in flight, in the order of their ids; `memory` allocations succeed. */
    method SaveShadow(oldSize: nat, memory: nat) returns (list: seq<Request>, ok: bool)
      requires Links(shadow[..], oldSize, shadowFree, free, used)
      ensures ok <==> |InUse(shadow[..])| <= memory
      ensures ok ==> list == InUse(shadow[..]) && Proper(list)
    {
      LinksBounds(shadow[..], oldSize, shadowFree, free, used);
      list, ok := [], true;
      var i: nat := 0;
      while i < oldSize
        invariant i <= oldSize && list == InUse(shadow[..i]) && Proper(list) && |list| <= memory
      {
        assert shadow[..i + 1][..i] == shadow[..i];
        if shadow[i].handle != 0 {
          if |list| == memory {
            InUseLength(shadow[..], i + 1);
            assert shadow[..][..i + 1] == shadow[..i + 1];
            return [], false;
          }
          list := list + [Request(shadow[i].handle, shadow[i].body)];
        }
        i := i + 1;
      }
      InUsePrefix(shadow[..], oldSize);
      assert shadow[..][..oldSize] == shadow[..oldSize];
    }

    /** Stage 2 of blkif_recover: an empty shadow and a new free list. */
    method ResetShadow(oldSize: nat)
      requires Links(shadow[..], oldSize, shadowFree, free, used) && 0 < ringSize <= shadow.Length && ring == []
      modifies shadow, `shadowFree, `free, `used
      ensures Linked() && used == {} && InFlight() == multiset{}
    {
      LinksBounds(shadow[..], oldSize, shadowFree, free, used);
      hide Links, InUse;
      var i: nat := 0;
      while i < oldSize
        invariant i <= oldSize
        invariant forall j :: 0 <= j < i ==> shadow[j] == Entry(0, 0, 0)
        invariant forall j :: i <= j < shadow.Length ==> shadow[j] == old(shadow[j])
      {
        shadow[i] := Entry(0, 0, 0);
        i := i + 1;
      }
      ShadowInit(ringSize);
      shadowFree := |ring|;
      free, used := FirstIds(ringSize), {};
      EmptyShadow(shadow[..], ringSize, free);
    }

    /**
     * blkif_recover on a new ring. On success the requests in flight have been saved behind those still
     * saved from before, and of all these and the queue the first have been issued in order.
     */
    method Recover(oldSize: nat, memory: nat, grants: nat) returns (ok: bool, ghost k: nat, ghost m: nat)
      requires Links(shadow[..], oldSize, shadowFree, free, used) && 0 < ringSize <= shadow.Length && ring == [] && rspCons == 0
      requires Proper(resumeList) && Proper(queue)
      modifies shadow, `shadowFree, `ring, `free, `used, `resumeList, `queue, `stopped, `connected
      ensures ok <==> |old(InUse(shadow[..]))| <= memory
      ensures !ok ==>
                && shadow[..] == old(shadow[..]) && resumeList == old(resumeList) && queue == old(queue) && connected == old(connected)
                && ring == old(ring) && free == old(free) && used == old(used) && shadowFree == old(shadowFree) && stopped == old(stopped)
      ensures Proper(resumeList) && Proper(queue)
      ensures ok ==>
                && Linked() && Covered() && connected == Connected && Busy(m, grants)
                && (old(stopped) ==> resumeList != [] ==> stopped)
                && Reissued(old(resumeList) + InUse(old(shadow[..])), old(queue), k, m, ring, used, resumeList, queue, InFlight())
    {
      hide Links, InUse, Posted, Gained;
      k, m := 0, 0;
      var list;
      list, ok := SaveShadow(oldSize, memory);
      if !ok {
        return;
      }
      resumeList := resumeList + list;
      ResetShadow(oldSize);
      connected := Connected;
      k, m := Kick(grants);
    }

    /** The requests that an answer on this ring would complete. */
    ghost function Answerable(): multiset<Request>
      requires ringSize <= shadow.Length
      reads `ringSize, shadow
    {
      multiset(InUse(shadow[..ringSize]))
    }

    /** Every request the driver has been given. */
    ghost function Everything(): multiset<Request>
      requires ringSize <= shadow.Length
      reads `ringSize, `resumeList, `queue, `completed, shadow
    {
      Total(Answerable(), resumeList, queue, completed)
    }

    lemma AnswerableInFlight()
      requires Linked()
      ensures 0 < ringSize <= shadow.Length && Answerable() == InFlight()
    {
      LinksBounds(shadow[..], ringSize, shadowFree, free, used);
      InUsePrefix(shadow[..], ringSize);
      assert shadow[..][..ringSize] == shadow[..ringSize];
    }

    constructor (entries: nat)
      requires 0 < entries < TAKEN
      ensures connected == Disconnected && !initialised && fresh(shadow) && shadow.Length == entries && shadowFree == ringSize == 0
      ensures resumeList == [] && queue == [] && completed == [] && ring == [] && rspCons == 0 && !stopped
      ensures forall i :: 0 <= i < entries ==> shadow[i] == Entry(0, 0, 0)
    {
      shadow := new Entry[entries](_ => Entry(0, 0, 0));
      shadowFree, ringSize, ring, rspCons, resumeList, queue := 0, 0, [], 0, [], [];
      connected, stopped, initialised := Disconnected, false, false;
      free, used, completed := [], {}, [];
    }

    /** talk_to_backend on a disconnected device: the free list is linked anew, and nothing else. */
    method Attach(size: nat)
      requires connected == Disconnected && 0 < size <= shadow.Length < TAKEN
      modifies shadow, `ringSize, `ring, `rspCons, `free, `used
      ensures ringSize == size && Answerable() == multiset{}
      ensures Linked() <==> old(shadowFree) == 0 && forall i :: 0 <= i < shadow.Length ==> old(shadow[i]).handle == 0
      ensures Covered() && used == {}
    {
      hide Links, InUse;
      ring, rspCons, ringSize := [], 0, size;
      ShadowInit(size);
      InUseNone(shadow[..size]);
      free, used := FirstIds(size), {};
      if shadowFree == 0 && forall i :: 0 <= i < shadow.Length ==> shadow[i].handle == 0 {
        LinksInitial(shadow[..], size, free);
      } else if Linked() {
        LinkedEmpty(shadow[..], size, shadowFree, free);
      }
    }

    /** The part of talk_to_backend behind a new ring, on a suspended device. */
    method Reattach(oldSize: nat, memory: nat, grants: nat) returns (ok: bool, ghost k: nat, ghost m: nat)
      requires Links(shadow[..], oldSize, shadowFree, free, used) && 0 < ringSize <= shadow.Length && ring == [] && rspCons == 0
      requires Proper(resumeList) && Proper(queue)
      modifies shadow, `shadowFree, `ring, `free, `used, `resumeList, `queue, `stopped, `connected
      ensures Proper(resumeList) && Proper(queue)
      ensures ok <==> |old(InUse(shadow[..]))| <= memory
      ensures !ok ==> shadow[..] == old(shadow[..]) && resumeList == old(resumeList) && queue == old(queue) && Links(shadow[..], oldSize, shadowFree, free, used)
                      && connected == old(connected) && ring == old(ring) && stopped == old(stopped)
      ensures ok ==>
                && Linked() && Covered() && connected == Connected && Busy(m, grants)
                && (old(stopped) ==> resumeList != [] ==> stopped)
                && Everything() == old(Total(InFlight(), resumeList, queue, completed))
                && Reissued(old(resumeList) + InUse(old(shadow[..])), old(queue), k, m, ring, used, resumeList, queue, InFlight())
    {
      hide Links, InUse, Posted, Gained, Total;
      ghost var inUse := InUse(shadow[..]);
      ok, k, m := Recover(oldSize, memory, grants);
      if ok {
        AnswerableInFlight();
        RoundConserves(old(resumeList), inUse, old(queue), completed, k, m, InFlight());
      }
    }

    /**
     * talk_to_backend. A ring that cannot be had leaves everything as it was; a later failure, up to
     * the end of the transaction, goes through blkif_free and leaves the device disconnected; too
     * little memory in blkif_recover leaves it suspended, on the new ring. Each time the requests stay
     * where they were.
     */
    method TalkToBackend(size: nat, fault: Fault, memory: nat, grants: nat, ghost linked: nat) returns (ok: bool, ghost k: nat, ghost m: nat)
      requires connected != Connected && Links(shadow[..], linked, shadowFree, free, used) && 0 < size <= shadow.Length && ringSize <= shadow.Length
      requires connected == Suspended && !initialised ==> linked == ringSize
      requires Proper(resumeList) && Proper(queue)
      modifies shadow, `shadowFree, `ringSize, `ring, `rspCons, `free, `used, `resumeList, `queue, `stopped, `connected, `initialised
      ensures ringSize <= shadow.Length && Proper(resumeList) && Proper(queue)
      ensures ok <==> old(initialised) || (fault == Nothing && (old(connected) == Suspended ==> |old(InUse(shadow[..]))| <= memory))
      ensures old(initialised) || !ok ==> shadow[..] == old(shadow[..]) && resumeList == old(resumeList) && queue == old(queue) && Links(shadow[..], linked, shadowFree, free, used)
      ensures old(initialised) || fault == NoRing ==>
                connected == old(connected) && ringSize == old(ringSize) && ring == old(ring) && initialised == old(initialised)
      ensures !old(initialised) && fault == Refused ==> connected == Disconnected && ringSize == size && !initialised
      ensures !old(initialised) && fault == Nothing ==> ringSize == size && initialised
      ensures !ok && fault == Nothing ==> connected == Suspended
      ensures !ok || old(initialised) || old(connected) == Disconnected ==>
                stopped == (old(stopped) || (fault == Refused && !old(initialised)))
      ensures ok && !old(initialised) && old(connected) == Suspended ==>
                && Linked() && Covered() && connected == Connected && Busy(m, grants)
                && (old(stopped) ==> resumeList != [] ==> stopped)
                && Reissued(old(resumeList) + InUse(old(shadow[..])), old(queue), k, m, ring, used, resumeList, queue, InFlight())
      ensures ok && !old(initialised) && old(connected) == Disconnected ==>
                Answerable() == multiset{} && resumeList == old(resumeList) && queue == old(queue) && connected == Disconnected
      ensures ok && !old(initialised) ==>
                (Everything() == old(Total(InFlight(), resumeList, queue, completed)) <==>
                 old(connected) == Suspended || old(InFlight()) == multiset{})
    {
      hide Links, InUse, Posted, Gained, Total, Reissued;
      ok, k, m := true, 0, 0;
      if initialised {
        return;
      }
      if fault == NoRing {
        return false, 0, 0;
      }
      var oldSize := ringSize;
      ring, rspCons, ringSize := [], 0, size;
      if fault == Refused {
        connected, stopped := Disconnected, true; // blkif_free(info, 0)
        return false, 0, 0;
      }
      initialised := true;
      if connected == Suspended {
        ok, k, m := Reattach(oldSize, memory, grants);
      } else {
        LinksBounds(shadow[..], linked, shadowFree, free, used);
        Attach(size);
        Lost(old(InFlight()), resumeList, queue, completed);
      }
    }

    /**
     * blkfront_resume; `ready` is whether the backend waits for the front-end already. No request is
     * lost exactly when the device was connected or had nothing in flight: a second resume that comes
     * before the device is back finds it suspended, and drops the requests in flight. A resume that
     * fails leaves the requests where they were, and the device no longer connected.
     */
    method Resume(size: nat, ready: bool, fault: Fault, memory: nat, grants: nat, ghost linked: nat) returns (ok: bool, ghost k: nat, ghost m: nat)
      requires Links(shadow[..], linked, shadowFree, free, used) && 0 < size <= shadow.Length && ringSize <= shadow.Length && Proper(resumeList) && Proper(queue)
      requires connected == Connected ==> linked == ringSize
      modifies shadow, `shadowFree, `ringSize, `ring, `rspCons, `free, `used, `resumeList, `queue, `stopped, `connected, `initialised
      ensures ringSize <= shadow.Length && Proper(resumeList) && Proper(queue)
      ensures ok <==> !ready || (fault == Nothing && (old(connected) == Connected ==> |old(InUse(shadow[..]))| <= memory))
      ensures !ready || !ok ==> shadow[..] == old(shadow[..]) && resumeList == old(resumeList) && queue == old(queue) && Links(shadow[..], linked, shadowFree, free, used)
      ensures !ready || (!ok && fault != Refused) ==> connected == if old(connected) == Connected then Suspended else Disconnected
      ensures !ready || !ok || old(connected) != Connected ==> stopped
      ensures !ready || fault == NoRing ==> ringSize == old(ringSize)
      ensures ready && fault == Nothing ==> ringSize == size
      ensures ready && fault == Refused ==> connected == Disconnected
      ensures ready && ok && old(connected) == Connected ==>
                && Linked() && Covered() && connected == Connected && Busy(m, grants) && (resumeList != [] ==> stopped)
                && Reissued(old(resumeList) + InUse(old(shadow[..])), old(queue), k, m, ring, used, resumeList, queue, InFlight())
      ensures ready && ok && old(connected) != Connected ==>
                Answerable() == multiset{} && resumeList == old(resumeList) && queue == old(queue)
      ensures ready && ok ==>
                (Everything() == old(Total(InFlight(), resumeList, queue, completed)) <==>
                 old(connected) == Connected || old(InFlight()) == multiset{})
    {
      hide Links, InUse, Posted, Gained, Total, Reissued;
      ok, k, m := true, 0, 0;
      connected, stopped := if connected == Connected then Suspended else Disconnected, true; // blkif_free
      initialised := false;
      if ready {
        ok, k, m := TalkToBackend(size, fault, memory, grants, linked);
      }
    }

    /**
     * Two resumes, the first of which fails or comes too early: the second loses exactly what was in
     * flight, if it succeeds.
     */
    method ResumeAgain(size: nat, ready: bool, fault: Fault, memory: nat, grants: nat, size': nat, ghost linked: nat) returns (first: bool, second: bool)
      requires Links(shadow[..], linked, shadowFree, free, used) && 0 < size <= shadow.Length && 0 < size' <= shadow.Length && ringSize <= shadow.Length
      requires connected == Connected ==> linked == ringSize
      requires Proper(resumeList) && Proper(queue)
      modifies shadow, `shadowFree, `ringSize, `ring, `rspCons, `free, `used, `resumeList, `queue, `stopped, `connected, `initialised
      ensures ringSize <= shadow.Length && second
      ensures !ready || !first ==>
                && resumeList == old(resumeList) && queue == old(queue) && Answerable() == multiset{}
                && (Everything() == old(Total(InFlight(), resumeList, queue, completed)) <==> old(InFlight()) == multiset{})
    {
      hide Links, InUse, Posted, Gained, Total, Reissued;
      ghost var k, m;
      first, k, m := Resume(size, ready, fault, memory, grants, linked);
      second := true;
      if !ready || !first {
        second, k, m := Resume(size', true, Nothing, 0, grants, linked);
      }
    }

    /** On a connected device. */
    ghost predicate Working()
      reads this, shadow
    {
      && connected == Connected && Linked() && Covered() && Proper(resumeList) && Proper(queue)
      && (resumeList != [] ==> stopped)
    }

    /** The block layer calls do_blkif_request for a new request unless the queue is stopped. */
    method Ask(r: Request, grants: nat) returns (m: nat)
      requires Working() && r.handle != 0
      modifies shadow, `shadowFree, `ring, `free, `used, `queue, `stopped
      ensures Working()
      ensures m <= |old(queue)| + 1 && queue == (old(queue) + [r])[m..]
      ensures AllAccounted(old(InFlight()), completed, (old(queue) + [r])[..m], InFlight(), completed)
      ensures old(stopped) ==> m == 0 && stopped
      ensures !old(stopped) ==> queue == [] || RingFull() || m == grants
    {
      PostedNone(ring, used);
      GainedNone(InFlight());
      hide Links, InUse, Posted, Gained;
      m := 0;
      queue := queue + [r];
      assert [] + queue[..0] == [];
      if !stopped {
        m := DoRequests(grants, ring, used, [], InFlight());
        assert [] + (old(queue) + [r])[..m] == (old(queue) + [r])[..m];
      }
      AccountedAsk(old(InFlight()), completed, (old(queue) + [r])[..m], InFlight());
    }

    /**
     * One round; answers that are not honest, and a resume without enough memory, do not happen. New
     * requests are started only while none is saved.
     */
    method Happen(round: Round) returns (ghost m: nat)
      requires Working() && (round.Asked? ==> round.r.handle != 0)
      modifies shadow, `shadowFree, `ringSize, `ring, `rspCons, `free, `used, `resumeList, `queue, `stopped, `connected, `initialised, `completed
      ensures Working()
      ensures All() == if round.Asked? then old(All()) + multiset{round.r} else old(All())
      ensures var asked := if round.Asked? then old(queue) + [round.r] else old(queue);
              m <= |asked| && queue == asked[m..] && (m > 0 ==> resumeList == [])
      ensures round.Answered? && Honest(round.answers, old(used)) ==>
                Busy(m, round.grants) && CompletedBy(old(shadow[..]), round.answers, old(completed), completed)
      ensures round.Resumed? && 0 < round.size <= shadow.Length && |old(InUse(shadow[..]))| <= round.memory ==>
                Busy(m, round.grants) && ringSize == round.size
      ensures round.Asked? && !old(stopped) ==> queue == [] || RingFull() || m == round.grants
    {
      hide Links, InUse, Posted, Gained, Honest, AllAccounted, CompletedBy, Total, Reissued;
      match round
      case Asked(r, grants) =>
        m := Ask(r, grants);
        TotalAfterAsk(old(InFlight()), completed, resumeList, old(queue), r, m, InFlight());
      case Answered(answers, grants) =>
        m := Answer(answers, grants);
      case Resumed(size, memory, grants) =>
        m := SuspendAndResume(size, memory, grants);
    }

    method Answer(answers: seq<nat>, grants: nat) returns (ghost m: nat)
      requires Working()
      modifies shadow, `shadowFree, `ring, `rspCons, `free, `used, `resumeList, `queue, `stopped, `completed
      ensures Working() && All() == old(All())
      ensures m <= |old(queue)| && queue == old(queue)[m..] && (m > 0 ==> resumeList == [])
      ensures Honest(answers, old(used)) ==> Busy(m, grants) && CompletedBy(old(shadow[..]), answers, old(completed), completed)
    {
      LinksBounds(shadow[..], ringSize, shadowFree, free, used);
      hide Links, InUse, Honest, AllAccounted, CompletedBy, Posted, Gained, Proper, All;
      m := 0;
      var honest := CheckHonest(answers);
      if honest {
        ghost var k;
        k, m := Interrupt(answers, grants);
      }
    }

    method SuspendAndResume(size: nat, memory: nat, grants: nat) returns (ghost m: nat)
      requires Working()
      modifies shadow, `shadowFree, `ringSize, `ring, `rspCons, `free, `used, `resumeList, `queue, `stopped, `connected, `initialised
      ensures Working() && All() == old(All())
      ensures m <= |old(queue)| && queue == old(queue)[m..] && (m > 0 ==> resumeList == [])
      ensures 0 < size <= shadow.Length && |old(InUse(shadow[..]))| <= memory ==> Busy(m, grants) && ringSize == size
    {
      LinksBounds(shadow[..], ringSize, shadowFree, free, used);
      hide Links, InUse, Posted, Gained, Total;
      m := 0;
      var enough := CheckMemory(memory);
      if 0 < size <= shadow.Length && enough {
        ghost var k;
        var ok;
        ok, k, m := Resume(size, true, Nothing, memory, grants, ringSize);
        AnswerableInFlight();
      }
    }

    /** Whether the backend would answer so. */
    method CheckHonest(answers: seq<nat>) returns (honest: bool)
      requires Linked()
      ensures honest <==> Honest(answers, used)
    {
      var ids := set id: nat | id < shadow.Length && shadow[id].handle != 0;
      assert ids == used;
      honest := Honest(answers, ids);
    }

    /** Whether memory is enough for the copies of the requests in flight. */
    method CheckMemory(memory: nat) returns (enough: bool)
      ensures enough <==> |InUse(shadow[..])| <= memory
    {
      enough := |InUse(shadow[..])| <= memory;
    }

    /**
     * Over any number of rounds no request is lost or duplicated, and those of the block layer are
     * started in the order in which they came.
     */
    method Run(plan: seq<Round>) returns (ghost m: nat)
      requires Working() && forall i :: 0 <= i < |plan| && plan[i].Asked? ==> plan[i].r.handle != 0
      modifies shadow, `shadowFree, `ringSize, `ring, `rspCons, `free, `used, `resumeList, `queue, `stopped, `connected, `initialised, `completed
      ensures Working()
      ensures Kept(old(All()), old(queue), AskedOf(plan), All(), queue, m)
    {
      hide Working, Total, Kept, InFlight, All, AskedOf;
      m := 0;
      KeptStart(All(), queue);
      var i: nat := 0;
      ghost var all0, queue0 := All(), queue;
      while i < |plan|
        invariant i <= |plan| && Working()
        invariant Kept(all0, queue0, AskedOf(plan[..i]), All(), queue, m)
      {
        ghost var all, q := All(), queue;
        AskedNext(plan, i);
        ghost var more := Happen(plan[i]);
        if plan[i].Asked? {
          KeptAsked(all0, queue0, AskedOf(plan[..i]), all, q, m, plan[i].r);
          KeptStarted(all0, queue0, AskedOf(plan[..i + 1]), All(), q + [plan[i].r], m, more);
        } else {
          KeptStarted(all0, queue0, AskedOf(plan[..i]), all, q, m, more);
        }
        m := m + more;
        i := i + 1;
      }
      assert plan[..i] == plan;
    }
  }

  /** A concrete run: one request in flight, a resume before the backend is ready, and another. */
  method SecondResumeLoses() returns (d: Device, ghost before: multiset<Request>)
    ensures before == multiset{Request(1, 0)} && d.ringSize <= d.shadow.Length
    ensures d.Answerable() == multiset{} && d.resumeList == [] && d.queue == [] && d.completed == []
  {
    before := multiset{};
    d := OneInFlight();
    hide Links, InUse, Total;
    before := d.InFlight();
    var first, second := d.ResumeAgain(32, false, Nothing, 32, 0, 32, 32);
  }

  method OneInFlight() returns (d: Device)
    ensures fresh(d) && fresh(d.shadow) && d.shadow.Length == d.ringSize == 32 && d.connected == Connected
    ensures d.Linked() && d.InFlight() == multiset{Request(1, 0)}
    ensures d.resumeList == [] && d.queue == [] && d.completed == []
  {
    hide Links, InUse;
    d := Idle();
    var id := d.Issue(Request(1, 0));
  }

  method Idle() returns (d: Device)
    ensures fresh(d) && fresh(d.shadow) && d.shadow.Length == d.ringSize == 32 && d.connected == Connected
    ensures d.Linked() && d.InFlight() == multiset{} && d.free != []
    ensures d.resumeList == [] && d.queue == [] && d.completed == []
  {
    hide Links, InUse;
    d := new Device(32);
    d.Attach(32);
    d.connected := Connected;
    d.AnswerableInFlight();
    FreeIdLeft(d.shadow[..], 32, d.shadowFree, d.free, d.used);
  }
}
