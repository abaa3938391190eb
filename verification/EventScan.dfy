/**
 * The event-channel interrupt handler: a two-level scan that starts behind the port it served last
 * and wraps around. One machine word selects the words of the pending bitmap that hold events.
 *
 * Here nothing arrives during the scan and masks and bindings stay fixed; EventDelivery has the
 * hypervisor at work beside the scan.
 */
module EventScan {

  import opened EventPort

  /** `__ffs(w & (~0UL << i))`, or the word's length where the masked word is zero. */
  function FirstFrom(w: seq<bool>, i: nat): (r: nat)
    requires i <= |w|
    ensures i <= r <= |w|
    ensures r < |w| ==> w[r]
    ensures forall k :: i <= k < r ==> !w[k]
    decreases |w| - i
  {
    if i == |w| || w[i] then i else FirstFrom(w, i + 1)
  }

  function CountSet(w: seq<bool>): nat {
    if w == [] then 0 else (if w[0] then 1 else 0) + CountSet(w[1..])
  }

  lemma {:induction false} CountCleared(w: seq<bool>, i: nat)
    requires i < |w| && w[i]
    ensures CountSet(w[i := false]) == CountSet(w) - 1
  {
    if i == 0 {
      assert w[0 := false][1..] == w[1..];
    } else {
      CountCleared(w[1..], i - 1);
      assert w[i := false][1..] == w[1..][i - 1 := false];
    }
  }

  /** The ports whose bit is set in a two-level bitmap. */
  ghost function Ports(bitmap: array2<bool>): set<Port>
    requires bitmap.Length0 == bitmap.Length1 == BITS
    reads bitmap
  {
    set i, j | 0 <= i < BITS && 0 <= j < BITS && bitmap[i, j] :: Port(i, j)
  }

  ghost predicate InRange(ports: set<Port>) {
    forall p :: p in ports ==> p.word < BITS && p.bit < BITS
  }

  lemma PortsInRange(bitmap: array2<bool>)
    requires bitmap.Length0 == bitmap.Length1 == BITS
    ensures InRange(Ports(bitmap))
    ensures forall i, j :: 0 <= i < BITS && 0 <= j < BITS ==> (bitmap[i, j] <==> Port(i, j) in Ports(bitmap))
  {
  }

  /** The ports of one word from bit `start` on. */
  ghost function InWord(ports: set<Port>, word: nat, start: nat): set<Port> {
    set p | p in ports && p.word == word && start <= p.bit
  }

  /** The ports of the selected words. */
  ghost function InSelected(ports: set<Port>, selected: seq<bool>): set<Port> {
    set p | p in ports && p.word < |selected| && selected[p.word]
  }

  lemma MultisetOfUnion(a: set<Port>, b: set<Port>)
    requires a !! b
    ensures multiset(a + b) == multiset(a) + multiset(b)
  {
  }

  /** `w` is word `word` of the bitmap that holds `ports`. */
  ghost predicate IsWord(w: seq<bool>, ports: set<Port>, word: nat) {
    && |w| == BITS
    && forall j :: 0 <= j < BITS ==> (w[j] <==> Port(word, j) in ports)
  }

  /**
   * What a scan starts from and has to do. It has come as far as `done` when these ports, all due,
   * have lost their pending bit and each handler call was for one of them that is bound.
   */
  datatype Task = Task(due: set<Port>, before: set<Port>, calls: seq<Port>, bound: set<Port>) {
    ghost predicate Reached(done: set<Port>, pendingNow: set<Port>, callsNow: seq<Port>) {
      && done <= due
      && pendingNow == before - done
      && multiset(callsNow) == multiset(calls) + multiset(done * bound)
    }

    lemma Start()
      ensures Reached({}, before, calls)
    {
    }

    /** Serving further ports, all due and none of them served before. */
    lemma Advance(done: set<Port>, pendingNow: set<Port>, callsNow: seq<Port>,
                  batch: set<Port>, pendingThen: set<Port>, callsThen: seq<Port>)
      requires Reached(done, pendingNow, callsNow)
      requires batch <= due && batch !! done
      requires pendingThen == pendingNow - batch
      requires multiset(callsThen) == multiset(callsNow) + multiset(batch * bound)
      ensures Reached(done + batch, pendingThen, callsThen)
    {
      assert (done + batch) * bound == done * bound + batch * bound;
      MultisetOfUnion(done * bound, batch * bound);
    }

    /** The ports still active, when `masked` are masked. */
    lemma StillActive(done: set<Port>, pendingNow: set<Port>, callsNow: seq<Port>, masked: set<Port>)
      requires Reached(done, pendingNow, callsNow)
      ensures pendingNow - masked == (before - masked) - done && done <= due
    {
    }

    lemma Finish(pendingNow: set<Port>, callsNow: seq<Port>)
      requires Reached(due, pendingNow, callsNow)
      ensures pendingNow == before - due && multiset(callsNow) == multiset(calls) + multiset(due * bound)
    {
    }
  }

  /** Calls are only added, and the saved position is the port of the last call, for the next scan to go on behind. */
  ghost predicate Saved(calls: seq<Port>, at: Port, callsThen: seq<Port>, atThen: Port) {
    && calls <= callsThen
    && atThen == if callsThen == calls then at else callsThen[|callsThen| - 1]
  }

  lemma SavedTransitive(calls: seq<Port>, at: Port, callsNow: seq<Port>, atNow: Port, callsThen: seq<Port>, atThen: Port)
    requires Saved(calls, at, callsNow, atNow) && Saved(callsNow, atNow, callsThen, atThen)
    ensures Saved(calls, at, callsThen, atThen)
  {
  }

  /** Within a word the served ports are those below `next`. */
  ghost predicate ServedBelow(due: set<Port>, done: set<Port>, next: nat) {
    forall p :: p in due ==> (p in done <==> p.bit < next)
  }

  /** The first set bit from `next` on is the next port of the word to serve, or none is left. */
  lemma NextInWord(l2: seq<bool>, active: set<Port>, due: set<Port>, done: set<Port>, word: nat, start: nat, next: nat)
    requires InRange(active) && IsWord(l2, active - done, word)
    requires start <= next < BITS && due == InWord(active, word, start)
    requires done <= due && ServedBelow(due, done, next)
    ensures var bit := FirstFrom(l2, next);
            if bit == BITS then ServedBelow(due, done, BITS)
            else
              && {Port(word, bit)} <= due && {Port(word, bit)} !! done
              && ServedBelow(due, done + {Port(word, bit)}, bit + 1)
  {
    forall p | p in due && p !in done
      ensures l2[p.bit] && FirstFrom(l2, next) <= p.bit
    {
      assert p == Port(word, p.bit);
    }
  }

  /** Below the first set bit there is no active port. */
  lemma NoneBefore(l2: seq<bool>, active: set<Port>, due: set<Port>, done: set<Port>, word: nat, start: nat, next: nat, bit: nat)
    requires IsWord(l2, active - done, word) && start <= next <= BITS && bit == FirstFrom(l2, next)
    requires due == InWord(active, word, start) && ServedBelow(due, done, next) && done <= due
    ensures forall k :: next <= k < bit ==> Port(word, k) !in active
    ensures bit < BITS ==> Port(word, bit) in active
  {
    forall p | p in active && p.word == word && next <= p.bit < BITS
      ensures l2[p.bit]
    {
      assert p in due && p !in done && p == Port(word, p.bit);
    }
  }

  lemma NoneServedYet(active: set<Port>, word: nat, start: nat)
    ensures ServedBelow(InWord(active, word, start), {}, start)
  {
  }

  /** Only selected words are left in `l1`, and in a selected word that is not left all is done. */
  ghost predicate Finished(active: set<Port>, selected: seq<bool>, l1: seq<bool>, done: set<Port>) {
    && |selected| == |l1| == BITS
    && (forall w :: 0 <= w < BITS && l1[w] ==> selected[w])
    && (forall p :: p in active && p.word < BITS && selected[p.word] && !l1[p.word] ==> p in done)
  }

  lemma AllFinished(active: set<Port>, selected: seq<bool>, l1: seq<bool>, done: set<Port>)
    requires InRange(active) && Finished(active, selected, l1, done) && done <= InSelected(active, selected)
    requires FirstFrom(l1, 0) == BITS
    ensures done == InSelected(active, selected)
  {
  }

  /** A word read as zero is finished; and it reads as zero if all its active ports are done. */
  lemma WordFinished(l2: seq<bool>, active: set<Port>, selected: seq<bool>, l1: seq<bool>, done: set<Port>, word: nat)
    requires InRange(active) && IsWord(l2, active - done, word) && word < BITS
    requires Finished(active, selected, l1, done)
    ensures FirstFrom(l2, 0) == BITS ==> Finished(active, selected, l1[word := false], done)
    ensures InWord(active, word, 0) <= done ==> FirstFrom(l2, 0) == BITS
  {
    forall p | p in active && p.word == word && p !in done
      ensures l2[p.bit]
    {
      assert p == Port(word, p.bit);
    }
  }

  lemma WordEmpty(l2: seq<bool>, active: set<Port>, reached: set<Port>, word: nat)
    requires InRange(active) && IsWord(l2, active - reached, word)
    ensures FirstFrom(l2, 0) == BITS ==> InWord(active - reached, word, 0) == {}
  {
    forall p | p in active - reached && p.word == word
      ensures l2[p.bit]
    {
      assert p == Port(word, p.bit);
    }
  }

  /** A batch is new and due, and from bit 0 on it is all that its word has left. */
  lemma BatchIsDue(active: set<Port>, selected: seq<bool>, l1: seq<bool>, done: set<Port>, word: nat, start: nat)
    requires InRange(active) && Finished(active, selected, l1, done) && word < BITS && l1[word]
    ensures InWord(active - done, word, start) <= InSelected(active, selected)
    ensures InWord(active - done, word, start) !! done
    ensures start == 0 ==> InWord(active, word, 0) <= done + InWord(active - done, word, 0)
    ensures Finished(active, selected, l1, done + InWord(active - done, word, start))
  {
  }

  // ----- the order of the scan

  /** The ports of one word, bits a to b - 1, in ascending order. */
  ghost function InBits(ports: set<Port>, word: nat, a: nat, b: nat): seq<Port> {
    if a >= b then [] else InBits(ports, word, a, b - 1) + if Port(word, b - 1) in ports then [Port(word, b - 1)] else []
  }

  /** The ports of the selected words a to b - 1, in ascending order. */
  ghost function InWords(ports: set<Port>, selected: seq<bool>, a: nat, b: nat): seq<Port>
    requires b <= |selected|
  {
    if a >= b then [] else InWords(ports, selected, a, b - 1) + if selected[b - 1] then InBits(ports, b - 1, 0, BITS) else []
  }

  /** The word a scan starts with: the first selected one behind the saved word, or else the first of all. */
  function StartWord(selected: seq<bool>, l1: nat): (w: nat)
    requires |selected| == BITS
    ensures w <= BITS && (w < BITS ==> selected[w])
  {
    var above := FirstFrom(selected, (l1 + 1) % BITS);
    if above == BITS then FirstFrom(selected, 0) else above
  }

  /** The bit it starts with: the one behind the saved bit, unless it had to wrap around. */
  function StartBit(selected: seq<bool>, l1: nat, l2: nat): (b: nat)
    requires |selected| == BITS
    ensures b < BITS
  {
    if FirstFrom(selected, (l1 + 1) % BITS) == BITS then 0 else (l2 + 1) % BITS
  }

  /**
   * The order in which ports are served from a saved position on: the start word from the start bit
   * on, the words above it, the words below it, and the rest of the start word.
   */
  ghost function ScanOrder(ports: set<Port>, selected: seq<bool>, l1: nat, l2: nat): seq<Port>
    requires |selected| == BITS
  {
    var w, b := StartWord(selected, l1), StartBit(selected, l1, l2);
    if w == BITS then [] else
      InBits(ports, w, b, BITS) + InWords(ports, selected, w + 1, BITS) + InWords(ports, selected, 0, w) + InBits(ports, w, 0, b)
  }

  lemma {:induction false} BitsSame(p: set<Port>, q: set<Port>, word: nat, a: nat, b: nat)
    requires forall k :: a <= k < b ==> (Port(word, k) in p <==> Port(word, k) in q)
    ensures InBits(p, word, a, b) == InBits(q, word, a, b)
    decreases b
  {
    if a < b {
      BitsSame(p, q, word, a, b - 1);
    }
  }

  lemma {:induction false} BitsNone(p: set<Port>, word: nat, a: nat, b: nat)
    requires forall k :: a <= k < b ==> Port(word, k) !in p
    ensures InBits(p, word, a, b) == []
    decreases b
  {
    if a < b {
      BitsNone(p, word, a, b - 1);
    }
  }

  lemma {:induction false} BitsSplit(p: set<Port>, word: nat, a: nat, m: nat, b: nat)
    requires a <= m <= b
    ensures InBits(p, word, a, b) == InBits(p, word, a, m) + InBits(p, word, m, b)
    decreases b
  {
    if m < b {
      BitsSplit(p, word, a, m, b - 1);
    }
  }

  lemma {:induction false} WordsSame(p: set<Port>, q: set<Port>, s: seq<bool>, t: seq<bool>, a: nat, b: nat)
    requires b <= |s| == |t| && forall w :: a <= w < b ==> s[w] == t[w]
    requires forall w, k :: a <= w < b && 0 <= k < BITS ==> (Port(w, k) in p <==> Port(w, k) in q)
    ensures InWords(p, s, a, b) == InWords(q, t, a, b)
    decreases b
  {
    if a < b {
      WordsSame(p, q, s, t, a, b - 1);
      BitsSame(p, q, b - 1, 0, BITS);
    }
  }

  lemma {:induction false} WordsNone(p: set<Port>, s: seq<bool>, a: nat, b: nat)
    requires b <= |s| && forall w :: a <= w < b ==> !s[w]
    ensures InWords(p, s, a, b) == []
    decreases b
  {
    if a < b {
      WordsNone(p, s, a, b - 1);
    }
  }

  lemma {:induction false} WordsSplit(p: set<Port>, s: seq<bool>, a: nat, m: nat, b: nat)
    requires a <= m <= b <= |s|
    ensures InWords(p, s, a, b) == InWords(p, s, a, m) + InWords(p, s, m, b)
    decreases b
  {
    if m < b {
      WordsSplit(p, s, a, m, b - 1);
    }
  }

  /** From its first bit on the start word is scanned like the others. */
  lemma OrderFromStartWord(p: set<Port>, s: seq<bool>, w: nat, w1: nat)
    requires |s| == BITS && w < BITS && w1 == StartWord(s, w) < BITS
    ensures ScanOrder(p, s, w, BITS - 1) == InWords(p, s, w1, BITS) + InWords(p, s, 0, w1)
  {
    assert StartBit(s, w, BITS - 1) == 0 && InBits(p, w1, 0, 0) == [];
    var first := InBits(p, w1, 0, BITS);
    hide InBits;
    WordsSplit(p, s, w1, w1 + 1, BITS);
    assert InWords(p, s, w1, w1) == [];
    assert InWords(p, s, w1, w1 + 1) == first;
    hide InWords;
    assert first + InWords(p, s, w1 + 1, BITS) + InWords(p, s, 0, w1) + [] == (first + InWords(p, s, w1 + 1, BITS)) + InWords(p, s, 0, w1);
  }

  /** From the end of a word on: the words above it, then the others. */
  lemma OrderFromWordEnd(p: set<Port>, s: seq<bool>, w: nat)
    requires |s| == BITS && w < BITS
    ensures ScanOrder(p, s, w, BITS - 1) == InWords(p, s, w + 1, BITS) + InWords(p, s, 0, w + 1)
  {
    hide InBits, InWords;
    var w1 := StartWord(s, w);
    if w1 == BITS {
      WordsNone(p, s, w + 1, BITS);
      WordsNone(p, s, 0, w + 1);
    } else {
      OrderFromStartWord(p, s, w, w1);
      hide ScanOrder;
      if w < w1 {
        WordsSplit(p, s, w + 1, w1, BITS);
        WordsNone(p, s, w + 1, w1);
        WordsSplit(p, s, 0, w + 1, w1);
        assert InWords(p, s, 0, w1) == InWords(p, s, 0, w + 1) + [];
      } else {
        WordsNone(p, s, w + 1, BITS);
        WordsNone(p, s, 0, w1);
        WordsSplit(p, s, w1, w + 1, BITS);
        WordsSplit(p, s, 0, w1, w + 1);
        assert InWords(p, s, w1, BITS) == InWords(p, s, w1, w + 1) + [];
        assert InWords(p, s, 0, w + 1) == [] + InWords(p, s, w1, w + 1);
      }
    }
  }

  /** Wrapping around changes nothing in the order. */
  lemma OrderWraps(p: set<Port>, s: seq<bool>, l1: nat, l2: nat)
    requires |s| == BITS && l1 < BITS && FirstFrom(s, (l1 + 1) % BITS) == BITS
    ensures ScanOrder(p, s, l1, l2) == ScanOrder(p, s, BITS - 1, BITS - 1)
  {
  }

  /** Visiting the start word: its ports from the start bit on come first, then the order of what is left. */
  lemma OrderVisits(p: set<Port>, s: seq<bool>, l1: nat, l2: nat, w: nat, q: set<Port>, t: seq<bool>)
    requires |s| == BITS && l1 < BITS && w == FirstFrom(s, (l1 + 1) % BITS) < BITS
    requires var b := (l2 + 1) % BITS;
             && q == p - InWord(p, w, b)
             && (t == s || (t == s[w := false] && InWord(q, w, 0) == {}))
    ensures ScanOrder(p, s, l1, l2) == InBits(p, w, (l2 + 1) % BITS, BITS) + ScanOrder(q, t, w, BITS - 1)
  {
    hide InBits, InWords, ScanOrder, InWord;
    var b := (l2 + 1) % BITS;
    OrderStarts(p, s, l1, l2, w);
    RestOfWord(p, w, b, q, t[w]);
    OtherWords(p, w, b, q, s, t);
    OrderFromWordEnd(q, t, w);
    LastWord(q, t, w);
    Regroup(InBits(p, w, b, BITS), InWords(p, s, w + 1, BITS), InWords(p, s, 0, w), InBits(p, w, 0, b));
  }

  lemma OrderStarts(p: set<Port>, s: seq<bool>, l1: nat, l2: nat, w: nat)
    requires |s| == BITS && w == FirstFrom(s, (l1 + 1) % BITS) < BITS
    ensures ScanOrder(p, s, l1, l2)
         == InBits(p, w, (l2 + 1) % BITS, BITS) + InWords(p, s, w + 1, BITS) + InWords(p, s, 0, w) + InBits(p, w, 0, (l2 + 1) % BITS)
  {
  }

  lemma LastWord(p: set<Port>, s: seq<bool>, w: nat)
    requires w < |s|
    ensures InWords(p, s, 0, w + 1) == InWords(p, s, 0, w) + if s[w] then InBits(p, w, 0, BITS) else []
  {
  }

  lemma Regroup(a: seq<Port>, b: seq<Port>, c: seq<Port>, d: seq<Port>)
    ensures a + b + c + d == a + (b + (c + d))
  {
  }

  /** Serving a word leaves the others as they are. */
  lemma OtherWords(p: set<Port>, w: nat, b: nat, q: set<Port>, s: seq<bool>, t: seq<bool>)
    requires |s| == BITS && w < BITS && q == p - InWord(p, w, b) && (t == s || t == s[w := false])
    ensures InWords(p, s, w + 1, BITS) == InWords(q, t, w + 1, BITS) && InWords(p, s, 0, w) == InWords(q, t, 0, w)
  {
    WordsSame(p, q, s, t, w + 1, BITS);
    WordsSame(p, q, s, t, 0, w);
  }

  /** What is left of a word after its ports from bit b on. */
  lemma RestOfWord(p: set<Port>, w: nat, b: nat, q: set<Port>, left: bool)
    requires b < BITS && q == p - InWord(p, w, b) && (left || InWord(q, w, 0) == {})
    ensures (if left then InBits(q, w, 0, BITS) else []) == InBits(p, w, 0, b)
  {
    BitsSplit(q, w, 0, b, BITS);
    BitsNone(q, w, b, BITS);
    BitsSame(p, q, w, 0, b);
    if !left {
      assert forall k :: 0 <= k < b ==> (Port(w, k) in q ==> Port(w, k) in InWord(q, w, 0));
      BitsNone(q, w, 0, b);
    }
  }

  /**
   * The scan goes on behind the saved position: if the first selected word behind the saved one has a
   * port to serve behind the saved bit, the first such port is served first of all.
   */
  lemma GoesOnBehind(p: set<Port>, s: seq<bool>, l1: nat, l2: nat, w: nat, k: nat)
    requires |s| == BITS && (l1 + 1) % BITS <= w < BITS && s[w] && forall v :: (l1 + 1) % BITS <= v < w ==> !s[v]
    requires (l2 + 1) % BITS <= k < BITS && Port(w, k) in p && forall j :: (l2 + 1) % BITS <= j < k ==> Port(w, j) !in p
    ensures ScanOrder(p, s, l1, l2) != [] && ScanOrder(p, s, l1, l2)[0] == Port(w, k)
  {
    assert w == FirstFrom(s, (l1 + 1) % BITS);
    OrderStarts(p, s, l1, l2, w);
    var b := (l2 + 1) % BITS;
    BitsSplit(p, w, b, k + 1, BITS);
    BitsNone(p, w, b, k);
    assert InBits(p, w, b, k + 1) == [Port(w, k)];
  }

  lemma OrderEnds(p: set<Port>, s: seq<bool>, l1: nat, l2: nat)
    requires |s| == BITS && FirstFrom(s, 0) == BITS
    ensures ScanOrder(p, s, l1, l2) == []
  {
  }

  /** The bound ports left when those of a word from `start` on have been served. */
  lemma LeftInWord(active: set<Port>, bound: set<Port>, done: set<Port>, reached: set<Port>, word: nat, start: nat)
    requires reached == done + InWord(active - done, word, start)
    ensures (active - reached) * bound == (active - done) * bound - InWord((active - done) * bound, word, start)
    ensures InWord(active - reached, word, 0) == {} ==> InWord((active - reached) * bound, word, 0) == {}
  {
    assert InWord((active - reached) * bound, word, 0) <= InWord(active - reached, word, 0);
  }

  /** The next port of a word in order. */
  lemma NextInOrder(ports: set<Port>, word: nat, start: nat, next: nat, bit: nat)
    requires start <= next <= bit <= BITS && forall k :: next <= k < bit ==> Port(word, k) !in ports
    ensures InBits(ports, word, start, bit) == InBits(ports, word, start, next)
    ensures bit < BITS ==>
              InBits(ports, word, start, bit + 1) == InBits(ports, word, start, next) + (if Port(word, bit) in ports then [Port(word, bit)] else [])
  {
    BitsSplit(ports, word, start, next, bit);
    BitsNone(ports, word, next, bit);
  }

  class Dispatcher {
    const selector: array<bool>     // evtchn_pending_sel
    const pending: array2<bool>
    const mask: array2<bool>
    const toIrq: array<int>         // evtchn_to_irq
    const hasHandler: array<bool>   // irq_evtchn[].handler != NULL
    var lastL1: nat
    var lastL2: nat
    ghost var calls: seq<Port>      // ports whose handler ran, in order

    ghost predicate Valid()
      reads this, toIrq
    {
      && selector.Length == BITS
      && pending.Length0 == pending.Length1 == mask.Length0 == mask.Length1 == BITS
      && toIrq.Length == BITS * BITS
      && pending != mask && selector != hasHandler
      && (forall p :: 0 <= p < toIrq.Length ==> toIrq[p] < hasHandler.Length)
      && lastL1 < BITS && lastL2 < BITS
    }

    /** Pending and not masked. */
    ghost function Active(): set<Port>
      requires Valid()
      reads this, toIrq, pending, mask
    {
      Ports(pending) - Ports(mask)
    }

    /** The ports that have an irq whose handler is set. */
    ghost function Bound(): set<Port>
      requires Valid()
      reads this, toIrq, hasHandler
    {
      set i, j | 0 <= i < BITS && 0 <= j < BITS && HasHandler(i * BITS + j) :: Port(i, j)
    }

    predicate HasHandler(number: nat)
      requires Valid()
      reads this, toIrq, hasHandler
    {
      number < toIrq.Length && toIrq[number] >= 0 && hasHandler[toIrq[number]]
    }

    /** Nothing but the pending bits and the bookkeeping has changed. */
    twostate predicate SameSetup()
      requires Valid() && old(Valid())
      reads this, toIrq, mask, hasHandler
    {
      Ports(mask) == old(Ports(mask)) && Bound() == old(Bound())
    }

    /** active_evtchns */
    method ActiveWord(word: nat) returns (w: seq<bool>)
      requires Valid() && word < BITS
      ensures IsWord(w, Active(), word)
    {
      PortsInRange(pending);
      PortsInRange(mask);
      w := [];
      while |w| < BITS
        invariant |w| <= BITS
        invariant forall j :: 0 <= j < |w| ==> (w[j] <==> Port(word, j) in Active())
      {
        w := w + [pending[word, |w|] && !mask[word, |w|]];
      }
    }

    /** Lines 287-317 of evtchn.c for one active port: its pending bit goes, then its handler runs if it has one. */
    method Serve(p: Port)
      requires Valid() && p.word < BITS && p.bit < BITS
      modifies pending, this`lastL1, this`lastL2, this`calls
      ensures Valid() && SameSetup()
      ensures Ports(pending) == old(Ports(pending)) - {p}
      ensures calls == if p in Bound() then old(calls) + [p] else old(calls)
      ensures Saved(old(calls), old(Port(lastL1, lastL2)), calls, Port(lastL1, lastL2))
    {
      assert p in Bound() <==> HasHandler(p.Number());
      pending[p.word, p.bit] := false;
      var irq := toIrq[p.Number()];
      if irq < 0 {
        return;
      }
      if !hasHandler[irq] {
        return;
      }
      calls := calls + [p];
      lastL1, lastL2 := p.word, p.bit;
    }

    lemma ActiveInRange()
      requires Valid()
      ensures InRange(Active())
    {
      PortsInRange(pending);
    }

    /**
     * The inner loop, entered with the bit served last: it serves each active port behind that bit
     * once and leaves the bit index at the word's end.
     */
    method ScanWord(word: nat, from: nat) returns (l2i: nat)
      requires Valid() && word < BITS && from < BITS
      modifies pending, this`lastL1, this`lastL2, this`calls
      ensures Valid() && SameSetup() && l2i == BITS - 1
      ensures Saved(old(calls), old(Port(lastL1, lastL2)), calls, Port(lastL1, lastL2))
      ensures Ports(pending) == old(Ports(pending)) - old(InWord(Active(), word, (from + 1) % BITS))
      ensures multiset(calls) == multiset(old(calls)) + multiset(old(InWord(Active(), word, (from + 1) % BITS)) * Bound())
      ensures calls == old(calls) + InBits(old(Active() * Bound()), word, (from + 1) % BITS, BITS)
    {
      hide Ports, InWord, Bound, Task.Reached, ServedBelow, InRange, Saved, WordState, InBits;
      ghost var start := (from + 1) % BITS;
      ghost var active, at, done: set<Port> := Active(), Port(lastL1, lastL2), {};
      ghost var task := Task(InWord(active, word, start), Ports(pending), calls, Bound());
      WordStateStart(task, word, start);
      l2i := from;
      while true
        invariant l2i < BITS && start <= (l2i + 1) % BITS
        invariant WordState(task, at, active, word, start, done, (l2i + 1) % BITS)
        decreases BITS - (l2i + 1) % BITS
      {
        var bit;
        bit, done := ServeNext(word, (l2i + 1) % BITS, task, at, active, start, done);
        l2i := if bit == BITS then BITS - 1 else bit;
        if l2i == BITS - 1 {
          break;
        }
      }
      WordStateEnd(task, at, active, word, start, done);
    }

    /** Everything the inner loop keeps: the ports of the word below `next` are served. */
    ghost predicate WordState(task: Task, at: Port, active: set<Port>, word: nat, start: nat, done: set<Port>, next: nat)
      reads this, toIrq, hasHandler, pending, mask
    {
      && Valid() && InRange(active)
      && active == task.before - Ports(mask) && task.bound == Bound()
      && task.due == InWord(active, word, start)
      && task.Reached(done, Ports(pending), calls)
      && ServedBelow(task.due, done, next)
      && Saved(task.calls, at, calls, Port(lastL1, lastL2))
      && calls == task.calls + InBits(active * task.bound, word, start, next)
    }

    lemma WordStateStart(task: Task, word: nat, start: nat)
      requires Valid()
      requires task == Task(InWord(Active(), word, start), Ports(pending), calls, Bound())
      ensures WordState(task, Port(lastL1, lastL2), Active(), word, start, {}, start)
    {
      ActiveInRange();
      NoneServedYet(Active(), word, start);
    }

    lemma WordStateEnd(task: Task, at: Port, active: set<Port>, word: nat, start: nat, done: set<Port>)
      requires WordState(task, at, active, word, start, done, BITS)
      ensures Valid() && Bound() == task.bound
      ensures Saved(task.calls, at, calls, Port(lastL1, lastL2))
      ensures Ports(pending) == task.before - task.due
      ensures multiset(calls) == multiset(task.calls) + multiset(task.due * task.bound)
      ensures calls == task.calls + InBits(active * task.bound, word, start, BITS)
    {
      assert done == task.due;
    }

    /** Lines 276-317 of evtchn.c: the next active bit from `next` on is looked up and served. */
    method ServeNext(word: nat, next: nat, ghost task: Task, ghost at: Port, ghost active: set<Port>, ghost start: nat, ghost done: set<Port>)
      returns (bit: nat, ghost served: set<Port>)
      requires word < BITS && start <= next < BITS
      requires WordState(task, at, active, word, start, done, next)
      modifies pending, this`lastL1, this`lastL2, this`calls
      ensures next <= bit <= BITS
      ensures WordState(task, at, active, word, start, served, if bit < BITS then bit + 1 else BITS)
    {
      hide Ports, InWord, Bound, Task.Reached, ServedBelow, IsWord, InRange, Saved, InBits;
      task.StillActive(done, Ports(pending), calls, Ports(mask));
      var l2 := ActiveWord(word);
      bit := FirstFrom(l2, next);
      NoneBefore(l2, active, task.due, done, word, start, next, bit);
      NextInOrder(active * task.bound, word, start, next, bit);
      NextInWord(l2, active, task.due, done, word, start, next);
      served := done;
      if bit < BITS {
        ghost var pendingNow, callsNow, now := Ports(pending), calls, Port(lastL1, lastL2);
        Serve(Port(word, bit));
        SavedTransitive(task.calls, at, callsNow, now, calls, Port(lastL1, lastL2));
        task.Advance(done, pendingNow, callsNow, {Port(word, bit)}, Ports(pending), calls);
        served := done + {Port(word, bit)};
      }
    }

    /** Everything the outer loop keeps: `l1` is what it has left, `done` are the ports it has served. */
    ghost predicate ScanState(task: Task, at: Port, active: set<Port>, selected: seq<bool>, l1: seq<bool>, done: set<Port>)
      reads this, toIrq, hasHandler, pending, mask
    {
      && Valid() && InRange(active)
      && active == task.before - Ports(mask) && task.bound == Bound()
      && task.due == InSelected(active, selected)
      && task.Reached(done, Ports(pending), calls)
      && Finished(active, selected, l1, done)
      && Saved(task.calls, at, calls, Port(lastL1, lastL2))
    }

    lemma ScanStateStart(task: Task, selected: seq<bool>)
      requires Valid() && |selected| == BITS
      requires task == Task(InSelected(Active(), selected), Ports(pending), calls, Bound())
      ensures ScanState(task, Port(lastL1, lastL2), Active(), selected, selected, {})
    {
      ActiveInRange();
    }

    lemma ScanStateEnd(task: Task, at: Port, active: set<Port>, selected: seq<bool>, l1: seq<bool>, done: set<Port>)
      requires ScanState(task, at, active, selected, l1, done) && |l1| == BITS && FirstFrom(l1, 0) == BITS
      ensures done == task.due
    {
      AllFinished(active, selected, l1, done);
    }

    /**
     * Lines 275-323 of evtchn.c: one selected word is scanned and, if that left it without active bits, taken off
     * the selector. Scanned from bit 0 on it always is.
     */
    method VisitWord(l1: seq<bool>, word: nat, from: nat, ghost task: Task, ghost at: Port, ghost active: set<Port>,
                     ghost selected: seq<bool>, ghost done: set<Port>)
      returns (left: seq<bool>, l2i: nat, ghost reached: set<Port>)
      requires ScanState(task, at, active, selected, l1, done)
      requires |l1| == BITS && word < BITS && from < BITS && l1[word]
      modifies pending, this`lastL1, this`lastL2, this`calls
      ensures l2i == BITS - 1
      ensures ScanState(task, at, active, selected, left, reached)
      ensures left == l1[word := false] || (left == l1 && from != BITS - 1)
      ensures left == l1[word := false] ==> InWord(active - reached, word, 0) == {}
      ensures reached == done + InWord(active - done, word, (from + 1) % BITS)
      ensures calls == old(calls) + InBits((active - done) * task.bound, word, (from + 1) % BITS, BITS)
    {
      hide Ports, InWord, Bound, InSelected, Task.Reached, IsWord, InRange, FirstFrom, Finished, Saved, InBits;
      task.StillActive(done, Ports(pending), calls, Ports(mask));
      BatchIsDue(active, selected, l1, done, word, (from + 1) % BITS);
      ghost var batch, pendingNow, callsNow := InWord(active - done, word, (from + 1) % BITS), Ports(pending), calls;
      l2i := ScanWord(word, from);
      SavedTransitive(task.calls, at, callsNow, old(Port(lastL1, lastL2)), calls, Port(lastL1, lastL2));
      task.Advance(done, pendingNow, callsNow, batch, Ports(pending), calls);
      reached := done + batch;
      task.StillActive(reached, Ports(pending), calls, Ports(mask));
      var l2 := ActiveWord(word);
      WordFinished(l2, active, selected, l1, reached, word);
      WordEmpty(l2, active, reached, word);
      left := if FirstFrom(l2, 0) == BITS then l1[word := false] else l1;
    }

    /** The outer loop: it ends, with no selected word left. */
    method ScanSelected(selected: seq<bool>, ghost task: Task, ghost at: Port, ghost active: set<Port>)
      requires Valid() && |selected| == BITS
      requires ScanState(task, at, active, selected, selected, {})
      modifies pending, this`lastL1, this`lastL2, this`calls
      ensures ScanState(task, at, active, selected, seq(BITS, _ => false), task.due)
      ensures calls == old(calls) + ScanOrder(active * task.bound, selected, old(lastL1), old(lastL2))
    {
      hide ScanState, Ports, Task.Reached, InRange, ScanOrder, InBits, InWord;
      var l1 := selected;
      ghost var done: set<Port> := {};
      var l1i: nat, l2i: nat := lastL1, lastL2;
      ghost var order, served: seq<Port> := ScanOrder(active * task.bound, selected, l1i, l2i), [];
      assert (active - done) * task.bound == active * task.bound;
      while FirstFrom(l1, 0) < BITS
        invariant ScanState(task, at, active, selected, l1, done)
        invariant |l1| == BITS && l1i < BITS && l2i < BITS
        invariant calls == old(calls) + served
        invariant served + ScanOrder((active - done) * task.bound, l1, l1i, l2i) == order
        decreases if l2i != BITS - 1 then 1 else 0, CountSet(l1), if FirstFrom(l1, (l1i + 1) % BITS) == BITS then 1 else 0
      {
        ghost var last, l, d := l1i, l1, done;
        l1i := (l1i + 1) % BITS;
        if FirstFrom(l1, l1i) == BITS {
          OrderWraps((active - done) * task.bound, l1, last, l2i);
          l1i := BITS - 1;
          l2i := BITS - 1;
          continue;
        }
        l1i := FirstFrom(l1, l1i);
        CountCleared(l1, l1i);
        ghost var from := l2i;
        l1, l2i, done := VisitWord(l1, l1i, l2i, task, at, active, selected, done);
        LeftInWord(active, task.bound, d, done, l1i, (from + 1) % BITS);
        OrderVisits((active - d) * task.bound, l, last, from, l1i, (active - done) * task.bound, l1);
        served := served + InBits((active - d) * task.bound, l1i, (from + 1) % BITS, BITS);
      }
      OrderEnds((active - done) * task.bound, l1, l1i, l2i);
      assert l1 == seq(BITS, _ => false);
      ScanStateEnd(task, at, active, selected, l1, done);
    }

    /**
     * evtchn_interrupt. From any saved position the scan ends; it clears exactly the ports that were
     * active in a selected word, and runs the handlers of the bound ones, each once and no other, in
     * the order of a scan that goes on behind the saved position.
     */
    method Interrupt()
      requires Valid()
      modifies selector, pending, this`lastL1, this`lastL2, this`calls
      ensures Valid()
      ensures Saved(old(calls), old(Port(lastL1, lastL2)), calls, Port(lastL1, lastL2))
      ensures forall w :: 0 <= w < BITS ==> !selector[w]
      ensures Ports(pending) == old(Ports(pending)) - old(InSelected(Active(), selector[..]))
      ensures multiset(calls) == multiset(old(calls)) + multiset(old(InSelected(Active(), selector[..]) * Bound()))
      ensures calls == old(calls) + old(ScanOrder(Active() * Bound(), selector[..], lastL1, lastL2))
    {
      var l1 := selector[..];
      forall w | 0 <= w < BITS {
        selector[w] := false;
      }
      hide Ports, Bound, InSelected, Saved, ScanOrder;
      ghost var task, at := Task(InSelected(Active(), l1), Ports(pending), calls, Bound()), Port(lastL1, lastL2);
      ScanStateStart(task, l1);
      ScanSelected(l1, task, at, Active());
    }
  }
}
