/**
 * The memory balloon: pages the guest has handed back to the hypervisor, and the worker that moves
 * the guest towards its target size.
 *
 * The list of ballooned pages, the counters and the worker's loop follow the driver. The page
 * allocator and the hypervisor's answers are arbitrary values within the range the driver checks.
 */
module Balloon {

  import opened Common

  /** struct page, with its flag PageReserved. */
  datatype Page = Page(pfn: nat, highmem: bool, reserved: bool)

  /** Entries that fit the worker's frame list: one page of longs. */
  const BATCH: nat := 512

  function CountLow(pages: seq<Page>): nat {
    if pages == [] then 0 else (if pages[0].highmem then 0 else 1) + CountLow(pages[1..])
  }

  function CountHigh(pages: seq<Page>): nat {
    if pages == [] then 0 else (if pages[0].highmem then 1 else 0) + CountHigh(pages[1..])
  }

  lemma {:induction false} CountAppend(a: seq<Page>, b: seq<Page>)
    ensures CountLow(a + b) == CountLow(a) + CountLow(b)
    ensures CountHigh(a + b) == CountHigh(a) + CountHigh(b)
  {
    if a == [] {
      assert a + b == b;
    } else {
      CountAppend(a[1..], b);
      assert (a + b)[0] == a[0] && (a + b)[1..] == a[1..] + b;
    }
  }

  lemma {:induction false} CountAll(pages: seq<Page>)
    ensures CountLow(pages) + CountHigh(pages) == |pages|
  {
    if pages != [] {
      CountAll(pages[1..]);
    }
  }

  /** All lowmem pages come before all highmem pages. */
  ghost predicate LowFirst(pages: seq<Page>) {
    forall i, j :: 0 <= i < j < |pages| && pages[i].highmem ==> pages[j].highmem
  }

  /** The order and the counter together say where the boundary is. */
  lemma {:induction false} BoundaryAtCount(pages: seq<Page>)
    requires LowFirst(pages)
    ensures forall i :: 0 <= i < |pages| ==> (pages[i].highmem <==> CountLow(pages) <= i)
  {
    CountAll(pages);
    if pages != [] {
      BoundaryAtCount(pages[1..]);
      if pages[0].highmem {
        AllHigh(pages);
      } else {
        forall i | 0 < i < |pages|
          ensures pages[i].highmem <==> CountLow(pages) <= i
        {
          assert pages[i] == pages[1..][i - 1];
        }
      }
    }
  }

  lemma {:induction false} AllHigh(pages: seq<Page>)
    requires forall i :: 0 <= i < |pages| ==> pages[i].highmem
    ensures CountLow(pages) == 0
  {
    if pages != [] {
      AllHigh(pages[1..]);
    }
  }

  ghost predicate AllReserved(pages: seq<Page>) {
    forall i :: 0 <= i < |pages| ==> pages[i].reserved
  }

  /** The pages with their flag set. */
  function Reserve(pages: seq<Page>): (r: seq<Page>)
    ensures |r| == |pages| && forall i :: 0 <= i < |r| ==> r[i] == pages[i].(reserved := true)
  {
    seq(|pages|, i requires 0 <= i < |pages| => pages[i].(reserved := true))
  }

  /** The list and its counters. */
  ghost predicate Listed(pages: seq<Page>, low: nat, high: nat) {
    LowFirst(pages) && low == CountLow(pages) && high == CountHigh(pages) && AllReserved(pages)
  }

  /** Without auto-translation lent pages are reserved. */
  ghost predicate LentOk(auto: bool, lent: multiset<Page>) {
    !auto ==> forall page :: page in lent ==> page.reserved
  }

  lemma LentMore(auto: bool, lent: multiset<Page>, page: Page)
    requires LentOk(auto, lent) && (!auto ==> page.reserved)
    ensures LentOk(auto, lent + multiset{page})
  {
  }

  lemma LentLess(auto: bool, lent: multiset<Page>, pages: multiset<Page>)
    requires LentOk(auto, lent)
    ensures LentOk(auto, lent - pages)
  {
  }

  /** There is a lowmem page exactly if the first page is one. */
  lemma FirstLow(pages: seq<Page>, low: nat, high: nat)
    requires Listed(pages, low, high)
    ensures if pages != [] && !pages[0].highmem then low > 0 else low == 0
  {
    BoundaryAtCount(pages);
  }

  lemma ReservedNone()
    ensures AllReserved([])
  {
  }

  lemma ReservedNext(pages: seq<Page>, page: Page)
    ensures AllReserved(pages + [page]) <==> AllReserved(pages) && page.reserved
  {
    assert forall i :: 0 <= i < |pages| ==> (pages + [page])[i] == pages[i];
    assert (pages + [page])[|pages|] == page;
  }

  /** The list has been given `done` in addition to what it had. */
  ghost predicate Given(list0: seq<Page>, list: seq<Page>, done: seq<Page>) {
    multiset(list) == multiset(list0) + multiset(Reserve(done))
  }

  lemma GivenNone(list: seq<Page>)
    ensures Given(list, list, [])
  {
    assert Reserve([]) == [];
  }

  lemma GivenNext(list0: seq<Page>, list: seq<Page>, done: seq<Page>, given: Page)
    requires Given(list0, list, done)
    ensures var page := given.(reserved := true);
            Given(list0, list + [page], done + [given]) && Given(list0, [page] + list, done + [given])
  {
    assert Reserve(done + [given]) == Reserve(done) + [given.(reserved := true)];
  }

  /** The pages with their flag as dealloc_pte_fn leaves it. */
  function Flagged(pages: seq<Page>, flag: bool): (r: seq<Page>)
    ensures |r| == |pages| && forall i :: 0 <= i < |r| ==> r[i] == pages[i].(reserved := flag)
  {
    seq(|pages|, i requires 0 <= i < |pages| => pages[i].(reserved := flag))
  }

  /** So many pages have been collected from the list, and so many of those offered. */
  ghost predicate Collected(list0: seq<Page>, taken: nat, offered: seq<Page>, used: nat, flag: bool, pagevec: seq<Page>, list: seq<Page>) {
    && taken <= |list0| && used <= |offered| && |pagevec| == taken + used
    && pagevec == list0[..taken] + Flagged(offered[..used], flag)
    && list == list0[taken..]
  }

  lemma CollectedNone(list0: seq<Page>, offered: seq<Page>, flag: bool)
    ensures Collected(list0, 0, offered, 0, flag, [], list0)
  {
  }

  lemma CollectedNext(list0: seq<Page>, taken: nat, offered: seq<Page>, used: nat, flag: bool, pagevec: seq<Page>, list: seq<Page>)
    requires Collected(list0, taken, offered, used, flag, pagevec, list)
    ensures used == 0 && list != [] ==> Collected(list0, taken + 1, offered, 0, flag, pagevec + [list[0]], list[1..])
    ensures used < |offered| ==> Collected(list0, taken, offered, used + 1, flag, pagevec + [offered[used].(reserved := flag)], list)
  {
    if used == 0 {
      assert pagevec == list0[..taken];
    }
  }

  /** The lowmem pages return to the list they came from, and with them the pages offered. */
  lemma GivenBack(list0: seq<Page>, low: nat, high: nat, taken: nat, offered: seq<Page>, flag: bool, pagevec: seq<Page>, list: seq<Page>, after: seq<Page>)
    requires Listed(list0, low, high) && Collected(list0, taken, offered, |offered|, flag, pagevec, list)
    requires Given(list, after, pagevec)
    ensures Given(list0, after, offered)
  {
    assert offered[..|offered|] == offered;
    assert Reserve(list0[..taken] + Flagged(offered, flag)) == list0[..taken] + Reserve(offered);
    assert list0 == list0[..taken] + list0[taken..];
  }

  // ----- the rounds of the worker

  function Distance(a: nat, b: nat): nat {
    if a < b then b - a else a - b
  }

  /** How many pages move where `nr` are asked for and so many are available. */
  function Moved(nr: nat, available: int): (n: nat)
    ensures n <= nr
  {
    if available < 0 then 0 else Min(nr, available)
  }

  function Available(up: bool, populated: nat -> int, offered: nat -> seq<Page>, k: nat): int {
    if up then populated(k) else |offered(k)|
  }

  /** On the way over d pages the k-th round does not find the pages it asks for. */
  ghost predicate Short(d: nat, up: bool, populated: nat -> int, offered: nat -> seq<Page>, k: nat) {
    k * BATCH < d && Available(up, populated, offered, k) < Min(d - k * BATCH, BATCH)
  }

  /** How the allocation of empty pages ends; Stopped where a BUG_ON stops the machine. */
  datatype Result = Done | Failed | Stopped

  class Balloon {
    const auto: bool            // XENFEAT_auto_translated_physmap
    var ballooned: seq<Page>
    var balloonLow: nat
    var balloonHigh: nat
    var currentPages: nat
    var targetPages: nat
    ghost var lent: multiset<Page>   // handed out by AllocEmptyPages, not in the balloon

    ghost predicate Valid()
      reads this
    {
      Listed(ballooned, balloonLow, balloonHigh) && |ballooned| == balloonLow + balloonHigh && LentOk(auto, lent)
    }

    /** Every page of the guest: in use, in the balloon, or lent out. */
    ghost function Total(): nat
      reads this
    {
      currentPages + balloonLow + balloonHigh + |lent|
    }

    constructor (pages: nat, auto: bool)
      ensures this.auto == auto && Valid() && ballooned == [] && lent == multiset{}
      ensures currentPages == targetPages == pages && Total() == pages
    {
      this.auto := auto;
      ballooned, balloonLow, balloonHigh := [], 0, 0;
      currentPages, targetPages := pages, pages;
      lent := multiset{};
    }

    /** current_target */
    function CurrentTarget(): (t: nat)
      reads this
      ensures t <= targetPages && t <= currentPages + balloonLow + balloonHigh
      ensures t == targetPages || t == currentPages + balloonLow + balloonHigh
    {
      if targetPages > currentPages + balloonLow + balloonHigh then currentPages + balloonLow + balloonHigh
      else targetPages
    }

    /** balloon_append: highmem pages at the tail, lowmem pages at the head, reserved now or before. */
    method Append(given: Page, account: bool) returns (ok: bool)
      requires Valid()
      modifies this`ballooned, this`balloonLow, this`balloonHigh
      ensures ok <==> account || given.reserved
      ensures ok ==> Valid() && balloonLow + balloonHigh == old(balloonLow + balloonHigh) + 1
      ensures ok ==>
                var page := given.(reserved := true);
                ballooned == if page.highmem then old(ballooned) + [page] else [page] + old(ballooned)
    {
      if !account && !given.reserved {
        return false;                       // BUG_ON(!PageReserved(page))
      }
      ok := true;
      var page := given.(reserved := true);
      CountAppend(ballooned, [page]);
      CountAppend([page], ballooned);
      assert [page][1..] == [];
      if page.highmem {
        ballooned := ballooned + [page];
        balloonHigh := balloonHigh + 1;
      } else {
        ballooned := [page] + ballooned;
        balloonLow := balloonLow + 1;
      }
    }

    /** balloon_retrieve: the first page, so lowmem goes before highmem. */
    method Retrieve() returns (page: Page)
      requires Valid() && ballooned != []
      modifies this`ballooned, this`balloonLow, this`balloonHigh
      ensures Valid()
      ensures page == old(ballooned)[0] && page.reserved && ballooned == old(ballooned)[1..]
      ensures !page.highmem <==> old(balloonLow) > 0
      ensures balloonLow == old(balloonLow) - (if page.highmem then 0 else 1)
      ensures balloonHigh == old(balloonHigh) - (if page.highmem then 1 else 0)
    {
      BoundaryAtCount(ballooned);
      page := ballooned[0];
      assert page.reserved;                 // BUG_ON(!PageReserved(page))
      ballooned := ballooned[1..];
      if page.highmem {
        balloonHigh := balloonHigh - 1;
      } else {
        balloonLow := balloonLow - 1;
      }
    }

    /** The frames of the first pages in the balloon. */
    method FirstFrames(n: nat) returns (frames: seq<nat>)
      requires n <= |ballooned|
      ensures |frames| == n && forall i :: 0 <= i < n ==> frames[i] == ballooned[i].pfn
    {
      frames := [];
      while |frames| < n
        invariant |frames| <= n && forall i :: 0 <= i < |frames| ==> frames[i] == ballooned[i].pfn
        decreases n - |frames|
      {
        frames := frames + [ballooned[|frames|].pfn];
      }
    }

    method RetrieveAll(n: nat)
      requires Valid() && n <= |ballooned|
      modifies this`ballooned, this`balloonLow, this`balloonHigh
      ensures Valid() && ballooned == old(ballooned)[n..]
      ensures balloonLow + balloonHigh == old(balloonLow + balloonHigh) - n
    {
      hide Listed, LentOk;
      var taken: nat := 0;
      while taken < n
        invariant taken <= n && Valid()
        invariant ballooned == old(ballooned)[taken..]
        invariant balloonLow + balloonHigh == old(balloonLow + balloonHigh) - taken
      {
        var page := Retrieve();
        taken := taken + 1;
      }
    }

    /**
     * increase_reservation. `populated` is how many frames the hypervisor is ready to populate, or a
     * negative error. The first loop's null check is the array access in bounds.
     */
    method IncreaseReservation(request: nat, populated: int) returns (result: int)
      requires Valid() && request <= balloonLow + balloonHigh
      modifies this`ballooned, this`balloonLow, this`balloonHigh, this`currentPages
      ensures Valid() && Total() == old(Total())
      ensures var nr := Min(request, BATCH);
              && currentPages == old(currentPages) + Moved(nr, populated)
              && ballooned == old(ballooned)[Moved(nr, populated)..]
              && result == if populated < 0 then populated else if populated < nr then 1 else 0
    {
      hide Listed, LentOk;
      var nr: nat := if request > BATCH then BATCH else request;
      var frames := FirstFrames(nr);
      var rc: int := if populated < nr then populated else nr;
      if rc < 0 {
        return rc;
      }
      RetrieveAll(rc);
      currentPages := currentPages + rc;
      result := if rc != nr then 1 else 0;
    }

    /**
     * decrease_reservation. `offered` are the pages the allocator can give; running dry asks the worker
     * to sleep. The hypervisor takes all that are given up, or the driver stops at a BUG.
     */
    method DecreaseReservation(request: nat, offered: seq<Page>) returns (needSleep: bool)
      requires Valid() && request <= currentPages
      modifies this`ballooned, this`balloonLow, this`balloonHigh, this`currentPages
      ensures Valid() && Total() == old(Total())
      ensures var nr := Min(request, BATCH);
              && currentPages == old(currentPages) - Moved(nr, |offered|)
              && Given(old(ballooned), ballooned, offered[..Moved(nr, |offered|)])
              && (needSleep <==> |offered| < nr)
    {
      hide Listed, LentOk, Given;
      var nr: nat := if request > BATCH then BATCH else request;
      var pages: seq<Page> := [];
      needSleep := false;
      while |pages| < nr && !needSleep
        invariant |pages| <= nr && |pages| <= |offered| && pages == offered[..|pages|]
        invariant needSleep ==> |pages| == |offered| < nr
        decreases nr - |pages|, !needSleep
      {
        if |pages| == |offered| {
          needSleep := true;
        } else {
          pages := pages + [offered[|pages|]];
        }
      }
      var ok := GiveBack(pages, true);
      currentPages := currentPages - |pages|;
    }

    /**
     * balloon_process, with the target fixed and nobody else at the balloon. populated(k) is what the
     * hypervisor can populate in the k-th round, and offered(k) what the allocator can give. The guest
     * reaches the largest size that its target and its pages allow, unless a round falls short; then
     * the first such round is the last one.
     */
    method Process(populated: nat -> int, offered: nat -> seq<Page>) returns (slept: bool, ghost last: nat)
      requires Valid()
      modifies this`ballooned, this`balloonLow, this`balloonHigh, this`currentPages
      ensures Valid() && Total() == old(Total())
      ensures var start, goal := old(currentPages), old(CurrentTarget());
              var d, up := Distance(start, goal), start < goal;
              && (!slept ==> currentPages == goal && forall k: nat :: !Short(d, up, populated, offered, k))
              && (slept ==>
                    && Short(d, up, populated, offered, last) && (forall k: nat :: k < last ==> !Short(d, up, populated, offered, k))
                    && Distance(start, currentPages) == last * BATCH + Moved(Min(d - last * BATCH, BATCH), Available(up, populated, offered, last))
                    && (if up then start <= currentPages <= goal else goal <= currentPages <= start))
    {
      hide Listed, LentOk, Given;
      slept, last := false, 0;
      if CurrentTarget() == currentPages {
        return;
      }
      ghost var start, goal := currentPages, CurrentTarget();
      ghost var d, up := Distance(start, goal), start < goal;
      var round: nat := 0;
      var credit: int := CurrentTarget() - currentPages;
      while true
        invariant Valid() && Total() == old(Total()) && !slept
        invariant CurrentTarget() == goal && credit == goal - currentPages
        invariant if up then start <= currentPages <= goal else goal <= currentPages <= start
        invariant Distance(start, currentPages) == Min(round * BATCH, d)
        invariant forall k: nat :: k < round ==> !Short(d, up, populated, offered, k)
        decreases if credit < 0 then -credit else credit
      {
        if credit > 0 {
          var r := IncreaseReservation(credit, populated(round));
          slept := r != 0;
        }
        if credit < 0 {
          slept := DecreaseReservation(-credit, offered(round));
        }
        if credit == 0 || slept {
          last := round;
          break;
        }
        round, credit := round + 1, CurrentTarget() - currentPages;
      }
    }

    /**
     * alloc_empty_pages_and_pagevec: lowmem pages from the balloon, then pages from the allocator,
     * which can give those in `offered`, and whose frames are given up. On failure everything collected
     * goes back into the balloon. Only without auto-translation does a page from the allocator get its
     * flag, in dealloc_pte_fn, so that with it the way back ends at the BUG_ON of balloon_append.
     */
    method AllocEmptyPages(nrPages: nat, offered: seq<Page>) returns (pagevec: seq<Page>, result: Result)
      requires Valid() && |offered| <= currentPages
      modifies this
      ensures result == if nrPages <= old(balloonLow) + |offered| then Done else if auto && offered != [] then Stopped else Failed
      ensures result != Stopped ==> Valid() && Total() == old(Total()) && targetPages == old(targetPages)
      ensures result == Done ==>
                var fromList := Min(nrPages, old(balloonLow));
                && Collected(old(ballooned), fromList, offered, nrPages - fromList, !auto, pagevec, ballooned) && lent == old(lent) + multiset(pagevec)
                && currentPages == old(currentPages) - (nrPages - fromList)
                && (AllReserved(pagevec) <==> !auto || nrPages <= old(balloonLow))
      ensures result == Failed ==>
                && pagevec == [] && lent == old(lent) && Given(old(ballooned), ballooned, offered)
                && currentPages == old(currentPages) - |offered|
    {
      hide Listed, LentOk, AllReserved, Given, Collected;
      ghost var taken, used;
      pagevec, taken, used := Collect(nrPages, offered);
      result := Done;
      if |pagevec| < nrPages {
        result := TakeAllBack(pagevec, old(ballooned), old(balloonLow), old(balloonHigh), taken, offered);
        lent := old(lent);
        pagevec := [];
      }
    }

    /** One round of that loop for a page of the balloon. */
    method LendListed(pagevec: seq<Page>, ghost list0: seq<Page>, ghost taken: nat, offered: seq<Page>) returns (pagevec': seq<Page>)
      requires Valid() && ballooned != [] && !ballooned[0].highmem && Collected(list0, taken, offered, 0, !auto, pagevec, ballooned)
      modifies this`ballooned, this`balloonLow, this`balloonHigh, this`lent
      ensures Valid() && balloonLow == old(balloonLow) - 1 && balloonHigh == old(balloonHigh)
      ensures Collected(list0, taken + 1, offered, 0, !auto, pagevec', ballooned) && |pagevec'| == |pagevec| + 1
      ensures pagevec' == pagevec + [old(ballooned)[0]] && lent == old(lent) + multiset{old(ballooned)[0]}
      ensures AllReserved(pagevec') <==> AllReserved(pagevec)
    {
      hide Listed, LentOk, AllReserved, Collected;
      CollectedNext(list0, taken, offered, 0, !auto, pagevec, ballooned);
      var page := Retrieve();
      ReservedNext(pagevec, page);
      LentMore(auto, lent, page);
      pagevec', lent := pagevec + [page], lent + multiset{page};
    }

    /** And for one of the allocator. */
    method LendNew(pagevec: seq<Page>, ghost list0: seq<Page>, ghost taken: nat, offered: seq<Page>, used: nat) returns (pagevec': seq<Page>)
      requires Valid() && used < |offered| && currentPages > 0 && Collected(list0, taken, offered, used, !auto, pagevec, ballooned)
      modifies this`currentPages, this`lent
      ensures Valid() && currentPages == old(currentPages) - 1
      ensures Collected(list0, taken, offered, used + 1, !auto, pagevec', ballooned) && |pagevec'| == |pagevec| + 1
      ensures pagevec' == pagevec + [offered[used].(reserved := !auto)] && lent == old(lent) + multiset{offered[used].(reserved := !auto)}
      ensures AllReserved(pagevec') <==> AllReserved(pagevec) && !auto
    {
      hide Listed, LentOk, AllReserved, Collected;
      CollectedNext(list0, taken, offered, used, !auto, pagevec, ballooned);
      var page := offered[used].(reserved := !auto);
      ReservedNext(pagevec, page);
      LentMore(auto, lent, page);
      currentPages := currentPages - 1;
      pagevec', lent := pagevec + [page], lent + multiset{page};
    }

    /** The loop of alloc_empty_pages_and_pagevec; it ends early where the allocator fails. */
    method Collect(nrPages: nat, offered: seq<Page>) returns (pagevec: seq<Page>, ghost taken: nat, ghost used: nat)
      requires Valid() && |offered| <= currentPages
      modifies this`ballooned, this`balloonLow, this`balloonHigh, this`currentPages, this`lent
      ensures Valid() && balloonLow + balloonHigh == old(balloonLow + balloonHigh) - taken
      ensures lent == old(lent) + multiset(pagevec) && currentPages == old(currentPages) - used
      ensures Collected(old(ballooned), taken, offered, used, !auto, pagevec, ballooned)
      ensures |pagevec| == taken + used && taken == Min(nrPages, old(balloonLow))
      ensures used == Min(nrPages - taken, |offered|)
      ensures AllReserved(pagevec) <==> !auto || used == 0
    {
      hide Listed, LentOk, AllReserved, Given, Collected;
      pagevec, taken, used := [], 0, 0;
      var next: nat, failed := 0, false;
      ReservedNone();
      CollectedNone(ballooned, offered, !auto);
      while |pagevec| < nrPages && !failed
        invariant |pagevec| == taken + used <= nrPages && next == used <= |offered|
        invariant balloonLow + taken == old(balloonLow) && balloonHigh == old(balloonHigh)
        invariant Valid() && lent == old(lent) + multiset(pagevec) && currentPages == old(currentPages) - used
        invariant Collected(old(ballooned), taken, offered, used, !auto, pagevec, ballooned)
        invariant used > 0 || failed ==> balloonLow == 0
        invariant AllReserved(pagevec) <==> !auto || used == 0
        invariant failed ==> used == |offered|
        decreases nrPages - |pagevec|, !failed
      {
        FirstLow(ballooned, balloonLow, balloonHigh);
        if ballooned != [] && !ballooned[0].highmem {
          pagevec := LendListed(pagevec, old(ballooned), taken, offered);
          taken := taken + 1;
        } else if next == |offered| {
          failed := true;
        } else {
          pagevec := LendNew(pagevec, old(ballooned), taken, offered, next);
          next, used := next + 1, used + 1;
        }
      }
    }

    /** The exit of alloc_empty_pages_and_pagevec on an error. */
    method TakeAllBack(pagevec: seq<Page>, ghost list0: seq<Page>, ghost low: nat, ghost high: nat, ghost taken: nat, ghost offered: seq<Page>)
      returns (result: Result)
      requires Valid() && Listed(list0, low, high) && Collected(list0, taken, offered, |offered|, !auto, pagevec, ballooned)
      modifies this`ballooned, this`balloonLow, this`balloonHigh
      ensures result == if AllReserved(pagevec) then Failed else Stopped
      ensures result == Failed ==>
                && Valid() && Given(list0, ballooned, offered)
                && balloonLow + balloonHigh == old(balloonLow + balloonHigh) + |pagevec|
    {
      hide Listed, LentOk, AllReserved, Given, Collected;
      ghost var list := ballooned;
      var ok := GiveBack(pagevec, false);
      if !ok {
        return Stopped;
      }
      GivenBack(list0, low, high, taken, offered, !auto, pagevec, list, ballooned);
      result := Failed;
    }

    /** The loops over balloon_append: pages that were out of the balloon return to it. */
    method GiveBack(pages: seq<Page>, account: bool) returns (ok: bool)
      requires Valid()
      modifies this`ballooned, this`balloonLow, this`balloonHigh
      ensures ok <==> account || AllReserved(pages)
      ensures ok ==>
                && Valid() && Given(old(ballooned), ballooned, pages)
                && balloonLow + balloonHigh == old(balloonLow + balloonHigh) + |pages|
    {
      hide Given, Listed, LentOk;
      var i := 0;
      GivenNone(ballooned);
      while i < |pages|
        invariant 0 <= i <= |pages|
        invariant Valid() && (account || AllReserved(pages[..i]))
        invariant Given(old(ballooned), ballooned, pages[..i])
        invariant balloonLow + balloonHigh == old(balloonLow + balloonHigh) + i
      {
        GivenNext(old(ballooned), ballooned, pages[..i], pages[i]);
        assert pages[..i + 1] == pages[..i] + [pages[i]];
        ok := Append(pages[i], account);
        if !ok {
          return;
        }
        i := i + 1;
      }
      assert pages[..i] == pages;
      ok := true;
    }

    /** The loop of _free_empty_pages. `shared` says of which pages somebody else holds a reference. */
    method TakeBack(pagevec: seq<Page>, account: bool, shared: nat -> bool) returns (ok: bool)
      requires Valid()
      modifies this`ballooned, this`balloonLow, this`balloonHigh
      ensures ok <==> (forall i: nat :: i < |pagevec| ==> !shared(i)) && (account || AllReserved(pagevec))
      ensures ok ==>
                && Valid() && Given(old(ballooned), ballooned, pagevec)
                && balloonLow + balloonHigh == old(balloonLow + balloonHigh) + |pagevec|
    {
      hide Given, Listed, LentOk;
      var i: nat := 0;
      GivenNone(ballooned);
      while i < |pagevec|
        invariant i <= |pagevec| && forall k: nat :: k < i ==> !shared(k)
        invariant Valid() && (account || AllReserved(pagevec[..i]))
        invariant Given(old(ballooned), ballooned, pagevec[..i])
        invariant balloonLow + balloonHigh == old(balloonLow + balloonHigh) + i
      {
        if shared(i) {
          return false;                     // BUG_ON(page_count(pagevec[i]) != 1)
        }
        GivenNext(old(ballooned), ballooned, pagevec[..i], pagevec[i]);
        assert pagevec[..i + 1] == pagevec[..i] + [pagevec[i]];
        ok := Append(pagevec[i], account);
        if !ok {
          return;
        }
        i := i + 1;
      }
      assert pagevec[..i] == pagevec;
      ok := true;
    }

    /**
     * _free_empty_pages. Pages of the guest itself are accounted for; pages that AllocEmptyPages
     * handed out already are, and are no longer lent.
     */
    method FreeEmptyPages(pagevec: seq<Page>, account: bool, shared: nat -> bool) returns (ok: bool)
      requires Valid() && (if account then |pagevec| <= currentPages else multiset(pagevec) <= lent)
      modifies this
      ensures ok <==> (forall i: nat :: i < |pagevec| ==> !shared(i)) && (account || AllReserved(pagevec))
      ensures ok ==>
                && Valid() && Total() == old(Total()) && targetPages == old(targetPages)
                && Given(old(ballooned), ballooned, pagevec)
                && lent == if account then old(lent) else old(lent) - multiset(pagevec)
    {
      hide Given, Listed, LentOk, AllReserved;
      ok := TakeBack(pagevec, account, shared);
      if !ok {
        return;
      }
      if account {
        currentPages := currentPages - |pagevec|;
      } else {
        LentLess(auto, lent, multiset(pagevec));
        lent := lent - multiset(pagevec);
      }
    }

    /** Without auto-translation a lent page always finds its way back. */
    lemma LentIsReserved(pagevec: seq<Page>)
      requires Valid() && !auto && multiset(pagevec) <= lent
      ensures AllReserved(pagevec)
    {
      forall i | 0 <= i < |pagevec|
        ensures pagevec[i].reserved
      {
        assert pagevec[i] in multiset(pagevec);
      }
    }
  }

  /** A concrete run: with auto-translation one page is allocated for lending, and its return stops the machine. */
  method LentPageStops() returns (result: Result, ok: bool)
    ensures result == Done && !ok
  {
    var b := new Balloon(10, true);
    var pagevec;
    pagevec, result := b.AllocEmptyPages(1, [Page(1, false, false)]);
    ok := b.FreeEmptyPages(pagevec, false, _ => false);
  }
}
