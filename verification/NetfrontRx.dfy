/**
 * The receive ring of the network front-end in copying mode: which slots hold a buffer and a grant
 * while responses are taken, bad buffers are put back, the ring is refilled, and the ring is rebuilt
 * after a reconnect.
 *
 * Ring indices are kept as the counters whose low 32 bits the driver holds (see LowWords). A request
 * and a response share a ring entry, and the grant of a request lies where the flags of a response do.
 */
module NetfrontRx {

  import opened Arithmetic
  import opened Common

  const RING: nat := 256
  const MAX_TARGET: nat := 256
  const MIN_TARGET: nat := 8
  const DEFAULT_MIN_TARGET: nat := 64
  const COPY_THRESHOLD: int := 256
  const MAX_SKB_FRAGS: nat := 17
  const PAGE_SIZE: int := 4096
  const EXTRA_TYPES: nat := 4
  const WRAP: nat := 0x1_0000_0000

  /** A socket buffer and the grant that lets the backend write to its page. Zero is NULL and GRANT_INVALID_REF. */
  datatype Buffer = Buffer(skb: nat, ref: nat)

  /** A response slot, read either as a response or as extra info. */
  datatype Response = Response(
    status: int, offset: nat, extraInfo: bool, moreData: bool,
    extraType: nat, extraMore: bool)

  // ----- 32-bit indices

  /** Differences and slot numbers of the driver's 32-bit indices are those of the counters. */
  lemma LowWords(a: nat, b: nat)
    requires b <= a < b + WRAP
    ensures (a % WRAP - b % WRAP) % WRAP == a - b
    ensures (a % WRAP) % RING == a % RING
  {
    DivModUnique(a % WRAP - b % WRAP, WRAP, b / WRAP - a / WRAP, a - b);
    DivModUnique(a % WRAP, RING, a / RING - a / WRAP * (WRAP / RING), a % RING);
  }

  predicate SeesUnpublished(private_: nat, published: nat) {
    private_ % WRAP > published % WRAP
  }

  /**
   * The test before an early push compares the two 32-bit indices with `>`. It sees unpublished
   * requests exactly when the index did not wrap since the last push.
   */
  lemma EarlyPushTest(private_: nat, published: nat)
    requires published <= private_ <= published + RING
    ensures SeesUnpublished(private_, published) <==> published < private_ && private_ / WRAP == published / WRAP
  {
  }

  /** Two requests posted around the wrap of the index are not seen. */
  lemma EarlyPushMissed()
    ensures !SeesUnpublished(WRAP + 1, WRAP - 1)
  {
    EarlyPushTest(WRAP + 1, WRAP - 1);
  }

  // ----- the window of posted slots

  /** Slot u and the following |q| slots hold the buffers q; all other slots are empty. */
  ghost predicate Shows(skbs: seq<nat>, refs: seq<nat>, u: nat, q: seq<Buffer>) {
    && |skbs| == |refs| == RING && |q| <= RING
    && (forall b :: b in q ==> b.skb > 0 && b.ref > 0)
    && (forall p :: u <= p < u + |q| ==> skbs[p % RING] == q[p - u].skb && refs[p % RING] == q[p - u].ref)
    && (forall p :: u + |q| <= p < u + RING ==> skbs[p % RING] == 0 && refs[p % RING] == 0)
  }

  lemma TakeFirst(skbs: seq<nat>, refs: seq<nat>, u: nat, q: seq<Buffer>)
    requires Shows(skbs, refs, u, q) && q != []
    ensures skbs[u % RING] == q[0].skb > 0 && refs[u % RING] == q[0].ref > 0
    ensures Shows(skbs[u % RING := 0], refs[u % RING := 0], u + 1, q[1..])
  {
    var skbs', refs', n := skbs[u % RING := 0], refs[u % RING := 0], u + |q|;
    forall p | u < p < n
      ensures skbs'[p % RING] == q[p - u].skb && refs'[p % RING] == q[p - u].ref
    {
      DistinctRemainders(u, p, RING);
    }
    forall p | n <= p <= u + RING
      ensures skbs'[p % RING] == 0 && refs'[p % RING] == 0
    {
      if p < u + RING {
        DistinctRemainders(u, p, RING);
      }
    }
  }

  lemma PutLast(skbs: seq<nat>, refs: seq<nat>, u: nat, q: seq<Buffer>, b: Buffer)
    requires Shows(skbs, refs, u, q) && |q| < RING && b.skb > 0 && b.ref > 0
    ensures skbs[(u + |q|) % RING] == 0 && refs[(u + |q|) % RING] == 0
    ensures Shows(skbs[(u + |q|) % RING := b.skb], refs[(u + |q|) % RING := b.ref], u, q + [b])
  {
    var n := u + |q|;
    var skbs', refs' := skbs[n % RING := b.skb], refs[n % RING := b.ref];
    forall p | u <= p < n
      ensures skbs'[p % RING] == q[p - u].skb && refs'[p % RING] == q[p - u].ref
    {
      DistinctRemainders(p, n, RING);
    }
    forall p | n < p < u + RING
      ensures skbs'[p % RING] == 0 && refs'[p % RING] == 0
    {
      DistinctRemainders(n, p, RING);
    }
  }

  /** The grants of posted buffers, in the order of the slots. */
  function Refs(q: seq<Buffer>): (r: seq<nat>)
    ensures |r| == |q| && forall k :: 0 <= k < |q| ==> r[k] == q[k].ref
  {
    seq(|q|, k requires 0 <= k < |q| => q[k].ref)
  }

  function Skbs(q: seq<Buffer>): (r: seq<nat>)
    ensures |r| == |q| && forall k :: 0 <= k < |q| ==> r[k] == q[k].skb
  {
    seq(|q|, k requires 0 <= k < |q| => q[k].skb)
  }

  // ----- what one packet's responses ask for

  ghost predicate BadExtra(r: Response) {
    r.extraType == 0 || r.extraType >= EXTRA_TYPES
  }

  ghost predicate BadData(r: Response) {
    r.status < 0 || r.offset + r.status > PAGE_SIZE
  }

  /** The number of extra-info slots behind slot `cons`. */
  function Extras(answer: nat -> Response, cons: nat, rp: nat): (n: nat)
    requires cons < rp
    ensures cons + n < rp
    decreases rp - cons
  {
    if cons + 1 == rp then 0 else if answer(cons + 1).extraMore then 1 + Extras(answer, cons + 1, rp) else 1
  }

  /** They end with one that says so, or the responses run out first. */
  predicate ExtrasMissing(answer: nat -> Response, cons: nat, rp: nat)
    requires cons < rp
    decreases rp - cons
  {
    cons + 1 == rp || (answer(cons + 1).extraMore && ExtrasMissing(answer, cons + 1, rp))
  }

  /** The number of data slots from slot `next` on that follow a response `rx`. */
  function More(answer: nat -> Response, rx: Response, next: nat, rp: nat): (n: nat)
    requires next <= rp
    ensures next + n <= rp
    decreases rp - next
  {
    if !rx.moreData || next == rp then 0 else 1 + More(answer, answer(next), next + 1, rp)
  }

  /** The buffers whose data is delivered, and those put back on the ring because the response is bad. */
  ghost function Delivered<T>(items: seq<T>, rs: seq<Response>): seq<T>
    requires |items| == |rs|
  {
    if items == [] then [] else
      var n := |items| - 1;
      Delivered(items[..n], rs[..n]) + if BadData(rs[n]) then [] else [items[n]]
  }

  ghost function Returned<T>(items: seq<T>, rs: seq<Response>): seq<T>
    requires |items| == |rs|
  {
    if items == [] then [] else
      var n := |items| - 1;
      Returned(items[..n], rs[..n]) + if BadData(rs[n]) then [items[n]] else []
  }

  lemma MultisetSnoc<T>(a: seq<T>, x: T)
    ensures multiset(a + [x]) == multiset(a) + multiset{x}
  {
  }

  lemma SplitStep<T>(items: seq<T>, delivered: seq<T>, returned: seq<T>, x: T)
    requires multiset(delivered) + multiset(returned) == multiset(items)
    ensures multiset(delivered + [x]) + multiset(returned) == multiset(items + [x])
    ensures multiset(delivered) + multiset(returned + [x]) == multiset(items + [x])
  {
    MultisetSnoc(items, x);
    MultisetSnoc(delivered, x);
    MultisetSnoc(returned, x);
  }

  /** Together they are the buffers taken, each once. */
  lemma {:induction false} Split<T>(items: seq<T>, rs: seq<Response>)
    requires |items| == |rs|
    ensures multiset(Delivered(items, rs)) + multiset(Returned(items, rs)) == multiset(items)
  {
    hide BadData;
    if items != [] {
      var n := |items| - 1;
      Split(items[..n], rs[..n]);
      SplitStep(items[..n], Delivered(items[..n], rs[..n]), Returned(items[..n], rs[..n]), items[n]);
      assert items == items[..n] + [items[n]] by { hide *; }
      if BadData(rs[n]) {
        assert Delivered(items, rs) == Delivered(items[..n], rs[..n]);
      } else {
        assert Returned(items, rs) == Returned(items[..n], rs[..n]);
      }
    }
  }

  /** Everything is delivered exactly when no response is bad. */
  lemma {:induction false} AllDelivered<T>(items: seq<T>, rs: seq<Response>)
    requires |items| == |rs|
    ensures |Delivered(items, rs)| + |Returned(items, rs)| == |items|
    ensures |Delivered(items, rs)| == |items| <==> forall k :: 0 <= k < |rs| ==> !BadData(rs[k])
    ensures |Delivered(items, rs)| == |items| ==> Delivered(items, rs) == items
  {
    hide BadData;
    if items != [] {
      var n := |items| - 1;
      AllDelivered(items[..n], rs[..n]);
      assert forall k :: 0 <= k < n ==> rs[k] == rs[..n][k];
      assert items == items[..n] + [items[n]] by { hide *; }
    }
  }

  lemma {:induction false} RefsSplit(items: seq<Buffer>, rs: seq<Response>)
    requires |items| == |rs|
    ensures Refs(Delivered(items, rs)) == Delivered(Refs(items), rs)
    ensures Refs(Returned(items, rs)) == Returned(Refs(items), rs)
  {
    if items != [] {
      var n := |items| - 1;
      RefsSplit(items[..n], rs[..n]);
      hide BadData;
      assert Refs(items)[..n] == Refs(items[..n]);
    }
  }

  // ----- one packet: what is left of the window and of the list after m of its responses

  /** The responses of a packet: the first one, and those from slot c + 1 on. */
  function ResponsesOf(answer: nat -> Response, rx: Response, c: nat, f: nat): (rs: seq<Response>)
    requires f > 0
    ensures |rs| == f && rs[0] == rx && forall k :: 0 < k < f ==> rs[k] == answer(c + k)
  {
    [rx] + seq(f - 1, k requires 0 <= k < f - 1 => answer(c + 1 + k))
  }

  /** The buffers of a packet: the first slot's, and those behind the e extra-info slots. */
  function ItemsOf(q: seq<Buffer>, e: nat, f: nat): (items: seq<Buffer>)
    requires f > 0 && e + f <= |q|
    ensures |items| == f && items[0] == q[0] && forall k :: 0 < k < f ==> items[k] == q[e + k]
  {
    [q[0]] + q[e + 1..e + f]
  }

  /**
   * n data slots have been taken and m of them dealt with: the window holds the slots not taken yet,
   * then the extra-info slots, then the buffers put back; the list holds the buffers delivered.
   */
  ghost predicate Scanned(q: seq<Buffer>, e: nat, items: seq<Buffer>, rs: seq<Response>, n: nat, m: nat,
                          posted: seq<Buffer>, list: seq<Buffer>)
  {
    && m <= n <= |items| == |rs| && 0 < n && e + |items| <= |q|
    && posted == q[e + n..] + q[1..e + 1] + Returned(items[..m], rs[..m])
    && list == Delivered(items[..m], rs[..m])
  }

  lemma ScanStarts(q: seq<Buffer>, e: nat, items: seq<Buffer>, rs: seq<Response>)
    requires 0 < |items| == |rs| && e + |items| <= |q|
    ensures Scanned(q, e, items, rs, 1, 0, q[1..][e..] + q[1..][..e], [])
  {
    assert q[1..][e..] == q[e + 1..] && q[1..][..e] == q[1..e + 1];
  }

  lemma ScanDeals(q: seq<Buffer>, e: nat, items: seq<Buffer>, rs: seq<Response>, n: nat,
                  posted: seq<Buffer>, list: seq<Buffer>)
    requires n > 0 && Scanned(q, e, items, rs, n, n - 1, posted, list)
    ensures BadData(rs[n - 1]) ==> Scanned(q, e, items, rs, n, n, posted + [items[n - 1]], list)
    ensures !BadData(rs[n - 1]) ==> Scanned(q, e, items, rs, n, n, posted, list + [items[n - 1]])
    ensures |posted| < |q| && |list| <= n - 1
  {
    assert items[..n][..n - 1] == items[..n - 1] && rs[..n][..n - 1] == rs[..n - 1];
    AllDelivered(items[..n - 1], rs[..n - 1]);
    hide BadData;
    if BadData(rs[n - 1]) {
      assert Returned(items[..n], rs[..n]) == Returned(items[..n - 1], rs[..n - 1]) + [items[n - 1]];
    }
  }

  lemma ScanTakes(q: seq<Buffer>, e: nat, f: nat, rs: seq<Response>, n: nat,
                  posted: seq<Buffer>, list: seq<Buffer>)
    requires 0 < n < f && e + f <= |q| && Scanned(q, e, ItemsOf(q, e, f), rs, n, n, posted, list)
    ensures posted != [] && posted[0] == ItemsOf(q, e, f)[n]
    ensures Scanned(q, e, ItemsOf(q, e, f), rs, n + 1, n, posted[1..], list)
  {
    hide Returned, Delivered;
    assert q[e + n..][1..] == q[e + n + 1..];
  }

  /** The loop over the data slots after taking n of them and dealing with m, behind the slots up to c. */
  ghost predicate Taking(answer: nat -> Response, rx: Response, c: nat, rp: nat, q: seq<Buffer>, e: nat, n: nat, m: nat,
                         posted: seq<Buffer>, list: seq<Buffer>)
  {
    && c + 1 <= rp && 1 + e <= |q| && rp <= c + |q| - e
    && var f := 1 + More(answer, rx, c + 1, rp);
       var rs := ResponsesOf(answer, rx, c, f);
       && 1 <= n <= f && m <= n && |list| <= m
       && n + More(answer, rs[n - 1], c + n, rp) == f
       && Scanned(q, e, ItemsOf(q, e, f), rs, n, m, posted, list)
  }

  function ResponseAt(answer: nat -> Response, rx: Response, c: nat, k: nat): Response {
    if k == 0 then rx else answer(c + k)
  }

  lemma TakingStarts(answer: nat -> Response, rx: Response, c: nat, rp: nat, q: seq<Buffer>, e: nat)
    requires c + 1 <= rp && 1 + e <= |q| && rp <= c + |q| - e
    ensures Taking(answer, rx, c, rp, q, e, 1, 0, q[1..][e..] + q[1..][..e], [])
  {
    var f := 1 + More(answer, rx, c + 1, rp);
    ScanStarts(q, e, ItemsOf(q, e, f), ResponsesOf(answer, rx, c, f));
  }

  lemma TakingDeals(answer: nat -> Response, rx: Response, c: nat, rp: nat, q: seq<Buffer>, e: nat, n: nat,
                    posted: seq<Buffer>, list: seq<Buffer>)
    requires n > 0 && Taking(answer, rx, c, rp, q, e, n, n - 1, posted, list)
    ensures e + n <= |q| && |posted| < |q|
    ensures var b := if n == 1 then q[0] else q[e + n - 1];
            if BadData(ResponseAt(answer, rx, c, n - 1)) then Taking(answer, rx, c, rp, q, e, n, n, posted + [b], list)
            else Taking(answer, rx, c, rp, q, e, n, n, posted, list + [b])
    ensures |list| <= n - 1
  {
    hide BadData, Scanned;
    var f := 1 + More(answer, rx, c + 1, rp);
    ScanDeals(q, e, ItemsOf(q, e, f), ResponsesOf(answer, rx, c, f), n, posted, list);
  }

  lemma TakingTakes(answer: nat -> Response, rx: Response, c: nat, rp: nat, q: seq<Buffer>, e: nat, n: nat,
                    posted: seq<Buffer>, list: seq<Buffer>)
    requires n > 0 && Taking(answer, rx, c, rp, q, e, n, n, posted, list)
    requires ResponseAt(answer, rx, c, n - 1).moreData && c + n != rp
    ensures c + n < rp && e + n < |q| && posted != [] && posted[0] == q[e + n]
    ensures Taking(answer, rx, c, rp, q, e, n + 1, n, posted[1..], list)
  {
    hide Scanned;
    var f := 1 + More(answer, rx, c + 1, rp);
    ScanTakes(q, e, f, ResponsesOf(answer, rx, c, f), n, posted, list);
  }

  lemma TakingEnds(answer: nat -> Response, rx: Response, c: nat, rp: nat, q: seq<Buffer>, e: nat, n: nat,
                   posted: seq<Buffer>, list: seq<Buffer>)
    requires n > 0 && Taking(answer, rx, c, rp, q, e, n, n, posted, list)
    requires !ResponseAt(answer, rx, c, n - 1).moreData || c + n == rp
    ensures n == 1 + More(answer, rx, c + 1, rp) && e + n <= |q|
    ensures var rs := ResponsesOf(answer, rx, c, n);
            && rs[n - 1] == ResponseAt(answer, rx, c, n - 1)
            && posted == q[e + n..] + q[1..e + 1] + Returned(ItemsOf(q, e, n), rs)
            && list == Delivered(ItemsOf(q, e, n), rs)
  {
    hide Scanned;
    var f := 1 + More(answer, rx, c + 1, rp);
    ScanEnds(q, e, ItemsOf(q, e, f), ResponsesOf(answer, rx, c, f), posted, list);
  }

  lemma ScanEnds(q: seq<Buffer>, e: nat, items: seq<Buffer>, rs: seq<Response>, posted: seq<Buffer>, list: seq<Buffer>)
    requires Scanned(q, e, items, rs, |items|, |items|, posted, list)
    ensures posted == q[e + |items|..] + q[1..e + 1] + Returned(items, rs)
    ensures list == Delivered(items, rs)
  {
    assert items[..|items|] == items && rs[..|items|] == rs;
  }

  // ----- responses overwritten while they are read

  /** Bit 2 of a grant reference: XEN_NETRXF_more_data, where the reference lies over the flags. */
  predicate MoreBit(ref: nat) {
    ref / 4 % 2 == 1
  }

  lemma BitTwo(high: nat, bit: bool, low: nat)
    requires low < 4
    ensures MoreBit(8 * high + (if bit then 4 else 0) + low) <==> bit
  {
    var b := if bit then 1 else 0;
    DivModUnique(8 * high + 4 * b + low, 4, 2 * high + b, low);
    DivModUnique(2 * high + b, 2, high, b);
  }

  /**
   * On a full ring the buffer of data slot i goes back into slot i itself, if it and all data slots
   * before it are put back. The flags of the first response are read from a copy.
   */
  ghost predicate Overwritten(answer: nat -> Response, rx: Response, c: nat, q: seq<Buffer>, e: nat, i: nat) {
    && |q| == RING && c < i && e + (i - c) < |q|
    && forall k :: 0 <= k <= i - c ==> BadData(ResponseAt(answer, rx, c, k))
  }

  /** The responses as the loop over the data slots reads them: behind slot c, from the window q. */
  ghost function Seen(answer: nat -> Response, rx: Response, c: nat, q: seq<Buffer>, e: nat): (seen: nat -> Response)
    ensures forall i: nat :: seen(i) == if Overwritten(answer, rx, c, q, e, i) then answer(i).(moreData := MoreBit(q[e + (i - c)].ref)) else answer(i)
  {
    (i: nat) => if Overwritten(answer, rx, c, q, e, i) then answer(i).(moreData := MoreBit(q[e + (i - c)].ref)) else answer(i)
  }

  /** The same responses but for more_data. */
  ghost predicate SameButMore(a: nat -> Response, b: nat -> Response) {
    forall i: nat :: b(i) == a(i).(moreData := b(i).moreData)
  }

  lemma {:induction false} SameExtras(a: nat -> Response, b: nat -> Response, c: nat, rp: nat)
    requires SameButMore(a, b) && c < rp
    ensures Extras(a, c, rp) == Extras(b, c, rp) && (ExtrasMissing(a, c, rp) <==> ExtrasMissing(b, c, rp))
    decreases rp - c
  {
    assert b(c + 1) == a(c + 1).(moreData := b(c + 1).moreData);
    if c + 1 < rp {
      SameExtras(a, b, c + 1, rp);
    }
  }

  /** Data slots k of a packet, up to the n-th, are all bad. */
  ghost predicate AllBad(answer: nat -> Response, rx: Response, c: nat, n: nat) {
    forall k :: 0 <= k < n ==> BadData(ResponseAt(answer, rx, c, k))
  }

  lemma NoneBad(answer: nat -> Response, rx: Response, c: nat)
    ensures AllBad(answer, rx, c, 0)
  {
  }

  /** The n-th data slot as it is read before and after its buffer is dealt with. */
  lemma SeenNext(answer: nat -> Response, rx: Response, c: nat, q: seq<Buffer>, e: nat, n: nat)
    requires 1 <= n && e + n <= |q|
    ensures var r, r' := ResponseAt(answer, rx, c, n - 1), ResponseAt(Seen(answer, rx, c, q, e), rx, c, n - 1);
            && (BadData(r) <==> BadData(r'))
            && (AllBad(answer, rx, c, n) <==> AllBad(answer, rx, c, n - 1) && BadData(r))
            && r' == if n > 1 && |q| == RING && AllBad(answer, rx, c, n) then r.(moreData := MoreBit(q[e + n - 1].ref)) else r
  {
    if n > 1 {
      assert Overwritten(answer, rx, c, q, e, c + n - 1) <==> |q| == RING && AllBad(answer, rx, c, n);
    }
  }

  lemma SlotAgain(at: nat, n: nat)
    requires n < RING
    ensures (at + 1 + n) % RING == at % RING <==> n == RING - 1
  {
    if n < RING - 1 {
      DistinctRemainders(at, at + 1 + n, RING);
    }
  }

  // ----- a whole packet

  function ExtraSlots(answer: nat -> Response, c: nat, rp: nat): (e: nat)
    requires c < rp
    ensures c + e < rp
  {
    if answer(c).extraInfo then Extras(answer, c, rp) else 0
  }

  function DataSlots(answer: nat -> Response, c: nat, rp: nat): (f: nat)
    requires c < rp
    ensures f > 0 && c + ExtraSlots(answer, c, rp) + f <= rp
  {
    1 + More(answer, answer(c), c + ExtraSlots(answer, c, rp) + 1, rp)
  }

  function DataResponses(answer: nat -> Response, c: nat, rp: nat): (rs: seq<Response>)
    requires c < rp
    ensures |rs| == DataSlots(answer, c, rp)
  {
    ResponsesOf(answer, answer(c), c + ExtraSlots(answer, c, rp), DataSlots(answer, c, rp))
  }

  ghost predicate ExtrasFail(answer: nat -> Response, c: nat, rp: nat)
    requires c < rp
  {
    ExtrasMissing(answer, c, rp) || exists j :: c < j <= c + Extras(answer, c, rp) && BadExtra(answer(j))
  }

  /** Some response is bad, or the packet is cut off, or has too many parts. */
  ghost predicate DataFails(rs: seq<Response>)
    requires rs != []
  {
    || (exists k :: 0 <= k < |rs| && BadData(rs[k]))
    || rs[|rs| - 1].moreData
    || |rs| > MAX_SKB_FRAGS + if rs[0].status <= COPY_THRESHOLD then 1 else 0
  }

  ghost predicate PacketFails(answer: nat -> Response, c: nat, rp: nat)
    requires c < rp
  {
    (answer(c).extraInfo && ExtrasFail(answer, c, rp)) || DataFails(DataResponses(answer, c, rp))
  }

  lemma DataFailsWhen(items: seq<Buffer>, rs: seq<Response>)
    requires |items| == |rs| && rs != []
    ensures DataFails(rs) <==>
              |Delivered(items, rs)| < |items| || rs[|rs| - 1].moreData ||
              |rs| > MAX_SKB_FRAGS + if rs[0].status <= COPY_THRESHOLD then 1 else 0
  {
    AllDelivered(items, rs);
  }

  /** What taking the packet at slot c does to the window q. */
  ghost predicate PacketTaken(answer: nat -> Response, c: nat, rp: nat, q: seq<Buffer>, posted: seq<Buffer>, list: seq<Buffer>)
    requires c < rp
  {
    var e, f, rs := ExtraSlots(answer, c, rp), DataSlots(answer, c, rp), DataResponses(answer, c, rp);
    && e + f <= |q|
    && posted == q[e + f..] + q[1..e + 1] + Returned(ItemsOf(q, e, f), rs)
    && list == Delivered(ItemsOf(q, e, f), rs)
  }

  /** The responses to the packet at slot c as they are read from the window q. */
  ghost function SeenPacket(answer: nat -> Response, c: nat, rp: nat, q: seq<Buffer>): nat -> Response
    requires c < rp
  {
    var e := ExtraSlots(answer, c, rp);
    Seen(answer, answer(c), c + e, q, e)
  }

  lemma SeenSame(answer: nat -> Response, rx: Response, c: nat, q: seq<Buffer>, e: nat)
    ensures SameButMore(answer, Seen(answer, rx, c, q, e))
    ensures forall i: nat :: i <= c ==> Seen(answer, rx, c, q, e)(i) == answer(i)
  {
  }

  /** Overwriting leaves the first response and the number of extra-info slots as they are. */
  lemma SeenStart(answer: nat -> Response, c: nat, rp: nat, q: seq<Buffer>)
    requires c < rp
    ensures SeenPacket(answer, c, rp, q)(c) == answer(c)
    ensures ExtraSlots(SeenPacket(answer, c, rp, q), c, rp) == ExtraSlots(answer, c, rp)
  {
    var e := ExtraSlots(answer, c, rp);
    SeenSame(answer, answer(c), c + e, q, e);
    SameExtras(answer, SeenPacket(answer, c, rp, q), c, rp);
  }

  /** If some data slot is overwritten the first response is bad, and the packet fails either way. */
  lemma FailsAlike(answer: nat -> Response, c: nat, rp: nat, q: seq<Buffer>)
    requires c < rp
    requires ExtraSlots(SeenPacket(answer, c, rp, q), c, rp) == ExtraSlots(answer, c, rp)
    requires SeenPacket(answer, c, rp, q)(c) == answer(c)
    ensures DataFails(DataResponses(SeenPacket(answer, c, rp, q), c, rp)) <==> DataFails(DataResponses(answer, c, rp))
  {
    var seen, e := SeenPacket(answer, c, rp, q), ExtraSlots(answer, c, rp);
    if BadData(answer(c)) {
      assert DataResponses(seen, c, rp)[0] == DataResponses(answer, c, rp)[0] == answer(c);
    } else {
      forall i: nat
        ensures seen(i) == answer(i)
      {
        assert ResponseAt(answer, answer(c), c + e, 0) == answer(c);
      }
      SameMore(answer, seen, answer(c), c + e + 1, rp);
      assert DataResponses(seen, c, rp) == DataResponses(answer, c, rp);
    }
  }

  lemma {:induction false} SameMore(a: nat -> Response, b: nat -> Response, rx: Response, next: nat, rp: nat)
    requires next <= rp && forall i :: next <= i < rp ==> a(i) == b(i)
    ensures More(a, rx, next, rp) == More(b, rx, next, rp)
    decreases rp - next
  {
    if next < rp {
      SameMore(a, b, a(next), next + 1, rp);
    }
  }

  /** The n-th data slot of the packet is overwritten, there are responses behind it, and the grant's bit is not the backend's. */
  ghost predicate Misread(answer: nat -> Response, c: nat, rp: nat, q: seq<Buffer>, n: nat)
    requires c < rp
  {
    var e := ExtraSlots(answer, c, rp);
    && 2 <= n <= DataSlots(answer, c, rp) && c + e + n < rp && |q| == RING && e + n <= |q|
    && AllBad(answer, answer(c), c + e, n) && MoreBit(q[e + n - 1].ref) != answer(c + e + n - 1).moreData
  }

  /** Responses behind it decide that the n-th data slot's flag matters, and two readings of it differ. */
  ghost predicate Differs(a: nat -> Response, b: nat -> Response, rx: Response, c: nat, rp: nat, n: nat) {
    n > 0 && c + n < rp && ResponseAt(a, rx, c, n - 1).moreData != ResponseAt(b, rx, c, n - 1).moreData
  }

  /** Two readings go on from the n-th data slot for equally long exactly if no flag on the way differs. */
  lemma {:induction false} MoreDiffers(a: nat -> Response, b: nat -> Response, rx: Response, c: nat, rp: nat, n: nat)
    requires 1 <= n && c + n <= rp
    ensures var x, y := More(a, ResponseAt(a, rx, c, n - 1), c + n, rp), More(b, ResponseAt(b, rx, c, n - 1), c + n, rp);
            x == y <==> forall k :: n <= k <= n + x ==> !Differs(a, b, rx, c, rp, k)
    decreases rp - n
  {
    if c + n < rp {
      MoreDiffers(a, b, rx, c, rp, n + 1);
    }
    var x, y := More(a, ResponseAt(a, rx, c, n - 1), c + n, rp), More(b, ResponseAt(b, rx, c, n - 1), c + n, rp);
    if x != y && !Differs(a, b, rx, c, rp, n) {
      var k :| n + 1 <= k <= n + x && Differs(a, b, rx, c, rp, k);
    }
    if x == y {
      forall k | n <= k <= n + x
        ensures !Differs(a, b, rx, c, rp, k)
      {
        if k > n {
          assert n + 1 <= k <= n + 1 + More(a, ResponseAt(a, rx, c, n), c + n + 1, rp);
        }
      }
    }
  }

  /** The flag of a data slot is read as the backend wrote it, unless its slot is misread. */
  lemma FlagRead(answer: nat -> Response, c: nat, rp: nat, q: seq<Buffer>, n: nat)
    requires c < rp <= c + |q| && n <= DataSlots(answer, c, rp)
    ensures var e := ExtraSlots(answer, c, rp);
            Differs(answer, SeenPacket(answer, c, rp, q), answer(c), c + e, rp, n) <==> Misread(answer, c, rp, q, n)
  {
    var e := ExtraSlots(answer, c, rp);
    if n > 1 && c + e + n < rp {
      SeenNext(answer, answer(c), c + e, q, e, n);
    }
  }

  ghost predicate Agree(a: nat -> Response, b: nat -> Response, rx: Response, c: nat, rp: nat, f: nat) {
    forall n: nat :: n <= f ==> !Differs(a, b, rx, c, rp, n)
  }

  lemma DataSlotsDiffer(answer: nat -> Response, seen: nat -> Response, c: nat, rp: nat)
    requires c < rp && seen(c) == answer(c) && ExtraSlots(seen, c, rp) == ExtraSlots(answer, c, rp)
    ensures DataSlots(seen, c, rp) == DataSlots(answer, c, rp)
       <==> Agree(answer, seen, answer(c), c + ExtraSlots(answer, c, rp), rp, DataSlots(answer, c, rp))
  {
    MoreDiffers(answer, seen, answer(c), c + ExtraSlots(answer, c, rp), rp, 1);
    hide More, ExtraSlots;
  }

  /** The slots taken are those of the backend's packet exactly if none of them is misread. */
  lemma TakesWholePacket(answer: nat -> Response, c: nat, rp: nat, q: seq<Buffer>)
    requires c < rp <= c + |q|
    ensures DataSlots(SeenPacket(answer, c, rp, q), c, rp) == DataSlots(answer, c, rp)
       <==> forall n: nat :: !Misread(answer, c, rp, q, n)
  {
    SeenStart(answer, c, rp, q);
    hide Seen, SeenPacket, Differs, DataSlots, ExtraSlots, ExtrasFail, DataFails, AllBad, MoreBit;
    var seen, f, d := SeenPacket(answer, c, rp, q), DataSlots(answer, c, rp), c + ExtraSlots(answer, c, rp);
    DataSlotsDiffer(answer, seen, c, rp);
    if n: nat :| Misread(answer, c, rp, q, n) {
      FlagRead(answer, c, rp, q, n);
      assert !Agree(answer, seen, answer(c), d, rp, f);
    } else {
      forall n: nat | n <= f
        ensures !Differs(answer, seen, answer(c), d, rp, n)
      {
        FlagRead(answer, c, rp, q, n);
        assert !Misread(answer, c, rp, q, n);
      }
      assert Agree(answer, seen, answer(c), d, rp, f);
    }
  }

  const BadMore := Response(-1, 0, false, true, 0, false)
  const BadLast := Response(-1, 0, false, false, 0, false)
  const Good := Response(100, 0, false, false, 0, false)

  /** A packet of two bad slots, and a good packet of one slot behind it. */
  function TwoPackets(i: nat): Response {
    if i == 0 then BadMore else if i == 1 then BadLast else Good
  }

  /** On a full ring the second slot is overwritten, with the bit of its grant. */
  lemma SecondSlotOverwritten(q: seq<Buffer>)
    requires |q| == RING && q[1].ref == 4
    ensures var seen := SeenPacket(TwoPackets, 0, 3, q);
            seen(0) == BadMore && seen(1) == BadLast.(moreData := true) && seen(2) == Good
    ensures ExtraSlots(TwoPackets, 0, 3) == 0 && AllBad(TwoPackets, BadMore, 0, 2)
  {
    assert ResponseAt(TwoPackets, BadMore, 0, 0) == BadMore && ResponseAt(TwoPackets, BadMore, 0, 1) == BadLast;
    assert ResponseAt(TwoPackets, BadMore, 0, 2) == Good;
    assert Overwritten(TwoPackets, BadMore, 0, q, 0, 1) && !Overwritten(TwoPackets, BadMore, 0, q, 0, 2);
  }

  lemma TwoPacketsSlots()
    ensures DataSlots(TwoPackets, 0, 3) == 2 && PacketFails(TwoPackets, 0, 3) && !PacketFails(TwoPackets, 2, 3)
  {
    assert More(TwoPackets, BadMore, 1, 3) == 1 + More(TwoPackets, BadLast, 2, 3);
    assert DataResponses(TwoPackets, 0, 3)[0] == BadMore;
    assert DataResponses(TwoPackets, 2, 3) == [Good];
  }

  lemma OnlyThirdDelivered(items: seq<Buffer>, rs: seq<Response>)
    requires |items| == 3 && rs == [BadMore, BadLast.(moreData := true), Good]
    ensures Delivered(items, rs) == [items[2]]
  {
    assert rs[..2][..1] == [BadMore] && rs[..1][..0] == [] && items[..2][..1] == items[..1];
    assert Delivered(items[..1], rs[..1]) == Delivered(items[..1][..0], rs[..1][..0]) == [];
    assert Delivered(items[..2], rs[..2]) == Delivered(items[..2][..1], rs[..2][..1]);
  }

  lemma ThreeSlots(seen: nat -> Response)
    requires seen(0) == BadMore && seen(1) == BadLast.(moreData := true) && seen(2) == Good
    ensures ExtraSlots(seen, 0, 3) == 0 && DataSlots(seen, 0, 3) == 3
    ensures DataResponses(seen, 0, 3) == [BadMore, BadLast.(moreData := true), Good]
  {
    assert More(seen, seen(0), 1, 3) == 1 + More(seen, seen(1), 2, 3) == 2 + More(seen, seen(2), 3, 3);
  }

  /**
   * On a full ring a packet of two bad slots takes a third one, the whole of the next packet, if the
   * second slot's grant has the bit: the next packet's buffer is dropped with it.
   */
  lemma MisreadDropsPacket(q: seq<Buffer>)
    requires |q| == RING && q[1].ref == 4
    ensures var seen := SeenPacket(TwoPackets, 0, 3, q);
            && DataSlots(TwoPackets, 0, 3) == 2 && Misread(TwoPackets, 0, 3, q, 2)
            && ExtraSlots(seen, 0, 3) == 0 && DataSlots(seen, 0, 3) == 3
            && PacketFails(TwoPackets, 0, 3) && !PacketFails(TwoPackets, 2, 3)
            && Delivered(ItemsOf(q, 0, 3), DataResponses(seen, 0, 3)) == [q[2]]
  {
    var seen := SeenPacket(TwoPackets, 0, 3, q);
    SecondSlotOverwritten(q);
    TwoPacketsSlots();
    hide SeenPacket, PacketFails, DataFails, Delivered, AllBad, DataSlots, ExtraSlots, DataResponses;
    ThreeSlots(seen);
    OnlyThirdDelivered(ItemsOf(q, 0, 3), DataResponses(seen, 0, 3));
  }

  /** A packet that does not fail is read as the backend wrote it, and delivered whole. */
  lemma AcceptedWhole(answer: nat -> Response, c: nat, rp: nat, q: seq<Buffer>, posted: seq<Buffer>, list: seq<Buffer>)
    requires c < rp && PacketTaken(SeenPacket(answer, c, rp, q), c, rp, q, posted, list) && !PacketFails(answer, c, rp)
    ensures answer(c).status >= 0 && |list| == DataSlots(answer, c, rp)
    ensures 0 < |list| <= MAX_SKB_FRAGS + if answer(c).status <= COPY_THRESHOLD then 1 else 0
  {
    var seen := SeenPacket(answer, c, rp, q);
    SeenStart(answer, c, rp, q);
    FailsAlike(answer, c, rp, q);
    var f, rs := DataSlots(seen, c, rp), DataResponses(seen, c, rp);
    assert rs[0] == answer(c) && !DataFails(rs);
    AcceptedSlots(answer, c, rp, q);
    hide SeenPacket, DataSlots, DataResponses, Delivered, Returned, ItemsOf;
    AllDelivered(ItemsOf(q, ExtraSlots(seen, c, rp), f), rs);
  }

  lemma AcceptedSlots(answer: nat -> Response, c: nat, rp: nat, q: seq<Buffer>)
    requires c < rp && !BadData(answer(c))
    ensures DataSlots(SeenPacket(answer, c, rp, q), c, rp) == DataSlots(answer, c, rp)
  {
    var seen, e := SeenPacket(answer, c, rp, q), ExtraSlots(answer, c, rp);
    SeenStart(answer, c, rp, q);
    forall i: nat
      ensures seen(i) == answer(i)
    {
      assert ResponseAt(answer, answer(c), c + e, 0) == answer(c);
    }
    SameMore(answer, seen, answer(c), c + e + 1, rp);
  }

  /** A packet of 18 slots whose first response has no bytes. */
  function EmptyHead(i: nat): Response {
    Response(0, 0, false, i < MAX_SKB_FRAGS, 0, false)
  }

  lemma {:induction false} EmptyHeadMore(n: nat)
    requires 1 <= n <= MAX_SKB_FRAGS + 1
    ensures More(EmptyHead, EmptyHead(n - 1), n, MAX_SKB_FRAGS + 1) == MAX_SKB_FRAGS + 1 - n
    decreases MAX_SKB_FRAGS + 1 - n
  {
    if n <= MAX_SKB_FRAGS {
      EmptyHeadMore(n + 1);
    }
  }

  /** It is accepted, and xennet_fill_frags stops at its BUG_ON. */
  lemma EmptyHeadAccepted()
    ensures DataSlots(EmptyHead, 0, MAX_SKB_FRAGS + 1) == MAX_SKB_FRAGS + 1 && EmptyHead(0).status == 0
    ensures !PacketFails(EmptyHead, 0, MAX_SKB_FRAGS + 1)
  {
    EmptyHeadMore(1);
  }

  lemma PacketEndsFor(seen: nat -> Response, c: nat, rp: nat, q: seq<Buffer>, e: nat, frags: nat,
                      posted: seq<Buffer>, list: seq<Buffer>, fragsFailed: bool)
    requires c < rp && e == ExtraSlots(seen, c, rp) && 1 <= frags && e + frags <= |q|
    requires var items, rs := ItemsOf(q, e, frags), ResponsesOf(seen, seen(c), c + e, frags);
             && frags == 1 + More(seen, seen(c), c + e + 1, rp)
             && posted == q[e + frags..] + q[1..e + 1] + Returned(items, rs)
             && list == Delivered(items, rs)
             && (fragsFailed <==> |list| < frags || rs[frags - 1].moreData)
    ensures DataSlots(seen, c, rp) == frags && PacketTaken(seen, c, rp, q, posted, list)
    ensures DataFails(DataResponses(seen, c, rp)) <==>
            fragsFailed || frags > MAX_SKB_FRAGS + if seen(c).status <= COPY_THRESHOLD then 1 else 0
  {
    hide Delivered, Returned, ItemsOf, More, BadData, ExtraSlots, DataFails;
    DataFailsWhen(ItemsOf(q, e, frags), DataResponses(seen, c, rp));
  }

  /** What the loops over the extra info and over the data slots have done is what the packet asks for. */
  lemma PacketEnds(answer: nat -> Response, c: nat, rp: nat, q: seq<Buffer>, e: nat, frags: nat,
                   posted: seq<Buffer>, list: seq<Buffer>, extrasFailed: bool, fragsFailed: bool)
    requires c < rp && e == ExtraSlots(answer, c, rp) && 1 <= frags && e + frags <= |q|
    requires extrasFailed <==> answer(c).extraInfo && ExtrasFail(answer, c, rp)
    requires var seen := SeenPacket(answer, c, rp, q);
             var items, rs := ItemsOf(q, e, frags), ResponsesOf(seen, answer(c), c + e, frags);
             && frags == 1 + More(seen, answer(c), c + e + 1, rp)
             && posted == q[e + frags..] + q[1..e + 1] + Returned(items, rs)
             && list == Delivered(items, rs)
             && (fragsFailed <==> |list| < frags || rs[frags - 1].moreData)
    ensures var seen := SeenPacket(answer, c, rp, q);
            ExtraSlots(seen, c, rp) == e && DataSlots(seen, c, rp) == frags && PacketTaken(seen, c, rp, q, posted, list)
    ensures PacketFails(answer, c, rp) <==>
            extrasFailed || fragsFailed || frags > MAX_SKB_FRAGS + if answer(c).status <= COPY_THRESHOLD then 1 else 0
  {
    SeenStart(answer, c, rp, q);
    FailsAlike(answer, c, rp, q);
    hide Seen, SeenPacket, Delivered, Returned, ItemsOf, ResponsesOf, More, ExtrasFail, DataFails, BadData, DataResponses, PacketTaken, DataSlots, ExtraSlots;
    PacketEndsFor(SeenPacket(answer, c, rp, q), c, rp, q, e, frags, posted, list, fragsFailed);
  }

  /** The window is cut into the packet's first slot, its extra info, its other data slots, and the rest. */
  lemma WindowParts(q: seq<Buffer>, e: nat, f: nat)
    requires f > 0 && e + f <= |q|
    ensures q == (([q[0]] + q[1..e + 1]) + q[e + 1..e + f]) + q[e + f..]
    ensures ItemsOf(q, e, f) == [q[0]] + q[e + 1..e + f]
  {
  }

  lemma Recombine<T>(first: seq<T>, extras: seq<T>, others: seq<T>, rest: seq<T>, delivered: seq<T>, returned: seq<T>)
    requires multiset(delivered) + multiset(returned) == multiset(first + others)
    ensures multiset((rest + extras) + returned) + multiset(delivered) == multiset(((first + extras) + others) + rest)
  {
    var both := multiset(rest) + multiset(extras);
    assert multiset((rest + extras) + returned) + multiset(delivered) == both + (multiset(delivered) + multiset(returned));
    assert multiset(((first + extras) + others) + rest) == both + multiset(first + others);
  }

  lemma RefsOfWindow(first: seq<Buffer>, extras: seq<Buffer>, others: seq<Buffer>, rest: seq<Buffer>, returned: seq<Buffer>)
    ensures Refs((rest + extras) + returned) == (Refs(rest) + Refs(extras)) + Refs(returned)
    ensures Refs(((first + extras) + others) + rest) == ((Refs(first) + Refs(extras)) + Refs(others)) + Refs(rest)
    ensures Refs(first + others) == Refs(first) + Refs(others)
  {
  }

  /** A packet neither loses nor duplicates a buffer or a grant. */
  lemma PacketConserves(answer: nat -> Response, c: nat, rp: nat, q: seq<Buffer>, posted: seq<Buffer>, list: seq<Buffer>)
    requires c < rp && PacketTaken(answer, c, rp, q, posted, list)
    ensures multiset(posted) + multiset(list) == multiset(q)
    ensures multiset(Refs(posted)) + multiset(Refs(list)) == multiset(Refs(q))
    ensures |posted| + |list| == |q| && |list| <= DataSlots(answer, c, rp)
  {
    hide Delivered, Returned, ItemsOf, Refs, DataResponses;
    var e, f, rs := ExtraSlots(answer, c, rp), DataSlots(answer, c, rp), DataResponses(answer, c, rp);
    var items := ItemsOf(q, e, f);
    var first, extras, others, rest, returned := [q[0]], q[1..e + 1], q[e + 1..e + f], q[e + f..], Returned(items, rs);
    WindowParts(q, e, f);
    assert multiset(posted) + multiset(list) == multiset(q) by {
      Split(items, rs);
      Recombine(first, extras, others, rest, list, returned);
    }
    assert multiset(Refs(posted)) + multiset(Refs(list)) == multiset(Refs(q)) by {
      RefsSplit(items, rs);
      Split(Refs(items), rs);
      RefsOfWindow(first, extras, others, rest, returned);
      Recombine(Refs(first), Refs(extras), Refs(others), Refs(rest), Refs(list), Refs(returned));
    }
    AllDelivered(items, rs);
  }

  /** The grants of the ring are on the private chain or in a slot, each exactly once. */
  ghost predicate Grants(owned: set<nat>, head: seq<nat>, q: seq<Buffer>) {
    multiset(head) + multiset(Refs(q)) == multiset(owned)
  }

  lemma GrantsCount(owned: set<nat>, head: seq<nat>, q: seq<Buffer>)
    requires Grants(owned, head, q)
    ensures |head| + |q| == |owned|
    ensures forall k :: 0 <= k < |head| ==> head[k] in owned
  {
    assert |multiset(head) + multiset(Refs(q))| == |multiset(owned)|;
    forall k | 0 <= k < |head|
      ensures head[k] in owned
    {
      assert head[k] in multiset(head) && head[k] in multiset(owned);
    }
  }

  lemma {:induction false} DistinctAsSet(refs: seq<nat>)
    requires forall k, l :: 0 <= k < l < |refs| ==> refs[k] != refs[l]
    ensures multiset(refs) == multiset(AsSet(refs)) && |AsSet(refs)| == |refs|
  {
    if refs != [] {
      var n := |refs| - 1;
      DistinctAsSet(refs[..n]);
      assert refs == refs[..n] + [refs[n]];
      assert AsSet(refs) == AsSet(refs[..n]) + {refs[n]};
    }
  }

  lemma GrantsReleased(owned: set<nat>, was: seq<nat>, head: seq<nat>, q: seq<Buffer>, posted: seq<Buffer>, list: seq<Buffer>)
    requires Grants(owned, was, q) && Released(was, head, list)
    requires multiset(Refs(posted)) + multiset(Refs(list)) == multiset(Refs(q))
    ensures Grants(owned, head, posted)
  {
  }

  lemma GrantClaimed(owned: set<nat>, head: seq<nat>, q: seq<Buffer>, skb: nat)
    requires Grants(owned, head, q) && head != []
    ensures Grants(owned, head[1..], q + [Buffer(skb, head[0])])
  {
    assert head == [head[0]] + head[1..];
    assert Refs(q + [Buffer(skb, head[0])]) == Refs(q) + [head[0]];
  }

  // ----- refilling

  /** The buffers in the slots and then in the batch, in order, are `all`. */
  ghost predicate Line(posted: seq<Buffer>, batch: seq<nat>, all: seq<nat>) {
    Skbs(posted) + batch == all
  }

  lemma LineStarts(posted: seq<Buffer>, batch: seq<nat>)
    ensures Line(posted, batch, Skbs(posted) + batch)
  {
  }

  lemma LineIs(posted: seq<Buffer>, batch: seq<nat>, all: seq<nat>)
    requires Line(posted, batch, all)
    ensures Skbs(posted) + batch == all
  {
  }

  function RemoveAt(q: seq<Buffer>, k: nat): seq<Buffer>
    requires k < |q|
  {
    q[..k] + q[k + 1..]
  }

  lemma RemoveOne(q: seq<Buffer>, k: nat)
    requires k < |q|
    ensures |RemoveAt(q, k)| == |q| - 1
    ensures multiset(RemoveAt(q, k)) == multiset(q) - multiset{q[k]}
  {
    assert q == (q[..k] + [q[k]]) + q[k + 1..];
    assert multiset(q) == multiset(q[..k]) + multiset{q[k]} + multiset(q[k + 1..]);
  }

  lemma SkbsRemove(q: seq<Buffer>, k: nat)
    requires k < |q|
    ensures multiset(Skbs(q)) == multiset(Skbs(RemoveAt(q, k))) + multiset{q[k].skb}
  {
    assert Skbs(q) == (Skbs(q[..k]) + [q[k].skb]) + Skbs(q[k + 1..]);
    assert Skbs(RemoveAt(q, k)) == Skbs(q[..k]) + Skbs(q[k + 1..]);
  }

  lemma {:induction false} SkbsOfSame(a: seq<Buffer>, b: seq<Buffer>)
    requires multiset(a) == multiset(b)
    ensures multiset(Skbs(a)) == multiset(Skbs(b))
    decreases |a|
  {
    hide Skbs, RemoveAt;
    if a == [] {
      assert |multiset(b)| == 0;
    } else {
      assert a[0] in multiset(b);
      var k: nat :| k < |b| && b[k] == a[0];
      RemoveOne(a, 0);
      RemoveOne(b, k);
      SkbsOfSame(RemoveAt(a, 0), RemoveAt(b, k));
      SkbsRemove(a, 0);
      SkbsRemove(b, k);
    }
  }

  /** The buffers posted, queued for refill and gone are those posted and queued before, and the new ones. */
  ghost predicate Conserved(was: seq<Buffer>, wasBatch: seq<nat>, posted: seq<Buffer>, batch: seq<nat>, gone: seq<Buffer>, gained: seq<nat>) {
    multiset(Skbs(posted) + batch) + multiset(Skbs(gone)) == multiset(Skbs(was) + wasBatch) + multiset(gained)
  }

  lemma PollConserves(was: seq<Buffer>, wasBatch: seq<nat>, q: seq<Buffer>, taken: seq<Buffer>,
                      posted: seq<Buffer>, batch: seq<nat>, gained: seq<nat>)
    requires multiset(q) + multiset(taken) == multiset(was)
    requires Line(posted, batch, Skbs(q) + wasBatch + gained)
    ensures Conserved(was, wasBatch, posted, batch, taken, gained)
  {
    SkbsOfSame(q + taken, was);
    assert Skbs(q + taken) == Skbs(q) + Skbs(taken);
    LineIs(posted, batch, Skbs(q) + wasBatch + gained);
    hide Skbs, Line;
    assert multiset(Skbs(q) + Skbs(taken)) == multiset(Skbs(q)) + multiset(Skbs(taken));
    assert multiset((Skbs(q) + wasBatch) + gained) == multiset(Skbs(q)) + multiset(wasBatch) + multiset(gained);
    assert multiset(Skbs(was) + wasBatch) == multiset(Skbs(was)) + multiset(wasBatch);
  }

  lemma LineMoves(posted: seq<Buffer>, batch: seq<nat>, all: seq<nat>, ref: nat)
    requires Line(posted, batch, all) && batch != []
    ensures Line(posted + [Buffer(batch[0], ref)], batch[1..], all)
  {
    assert Skbs(posted + [Buffer(batch[0], ref)]) == Skbs(posted) + [batch[0]];
  }

  lemma NothingPolled(posted: seq<Buffer>, batch: seq<nat>)
    ensures Conserved(posted, batch, posted, batch, ([] + []) + [], [])
  {
    assert Skbs(([] + []) + []) == [];
  }

  // ----- rebuilding the ring after a reconnect

  /** The buffers in the slots below i, in the order of the slots. */
  function Occupied(skbs: seq<nat>, refs: seq<nat>, i: nat): (q: seq<Buffer>)
    requires i <= |skbs| == |refs|
    ensures |q| <= i
  {
    if i == 0 then [] else
      Occupied(skbs, refs, i - 1) + if skbs[i - 1] == 0 then [] else [Buffer(skbs[i - 1], refs[i - 1])]
  }

  /** The slots below i have been moved down, the others are as before. */
  ghost predicate Compacting(skbs0: seq<nat>, refs0: seq<nat>, skbs: seq<nat>, refs: seq<nat>, i: nat, r: nat) {
    && i <= |skbs0| == |refs0| == |skbs| == |refs| == RING
    && var q := Occupied(skbs0, refs0, i);
       && r == |q|
       && (forall k :: 0 <= k < r ==> skbs[k] == q[k].skb && refs[k] == q[k].ref)
       && (forall k :: r <= k < i ==> skbs[k] == 0 && refs[k] == 0)
       && (forall k :: i <= k < RING ==> skbs[k] == skbs0[k] && refs[k] == refs0[k])
  }

  lemma CompactingSkips(skbs0: seq<nat>, refs0: seq<nat>, skbs: seq<nat>, refs: seq<nat>, i: nat, r: nat)
    requires Compacting(skbs0, refs0, skbs, refs, i, r) && i < RING && skbs[i] == 0 && refs[i] == 0
    ensures Compacting(skbs0, refs0, skbs, refs, i + 1, r)
  {
  }

  lemma CompactingMoves(skbs0: seq<nat>, refs0: seq<nat>, skbs: seq<nat>, refs: seq<nat>, i: nat, r: nat)
    requires Compacting(skbs0, refs0, skbs, refs, i, r) && i < RING && skbs[i] != 0
    ensures r <= i
    ensures Compacting(skbs0, refs0, skbs[i := 0][r := skbs[i]], refs[i := 0][r := refs[i]], i + 1, r + 1)
  {
  }

  lemma CompactingStarts(skbs: seq<nat>, refs: seq<nat>)
    requires |skbs| == |refs| == RING
    ensures Compacting(skbs, refs, skbs, refs, 0, 0)
  {
  }

  lemma CompactingStep(skbs0: seq<nat>, refs0: seq<nat>, skbs: seq<nat>, refs: seq<nat>, i: nat, r: nat)
    requires Compacting(skbs0, refs0, skbs, refs, i, r) && i < RING
    requires forall k :: 0 <= k < |skbs0| == |refs0| ==> (skbs0[k] == 0 <==> refs0[k] == 0)
    ensures r <= i < |skbs| == |refs|
    ensures if skbs[i] == 0 then Compacting(skbs0, refs0, skbs, refs, i + 1, r)
            else Compacting(skbs0, refs0, skbs[i := 0][r := skbs[i]], refs[i := 0][r := refs[i]], i + 1, r + 1)
  {
    if skbs[i] == 0 {
      CompactingSkips(skbs0, refs0, skbs, refs, i, r);
    } else {
      CompactingMoves(skbs0, refs0, skbs, refs, i, r);
    }
  }

  lemma {:induction false} OccupiedPositive(skbs: seq<nat>, refs: seq<nat>, i: nat)
    requires i <= |skbs| == |refs|
    requires forall k :: 0 <= k < i ==> (skbs[k] == 0 <==> refs[k] == 0)
    ensures forall b :: b in Occupied(skbs, refs, i) ==> b.skb > 0 && b.ref > 0
  {
    if i > 0 {
      OccupiedPositive(skbs, refs, i - 1);
    }
  }

  lemma CompactingEnds(skbs0: seq<nat>, refs0: seq<nat>, skbs: seq<nat>, refs: seq<nat>, r: nat)
    requires Compacting(skbs0, refs0, skbs, refs, RING, r)
    requires forall k :: 0 <= k < RING ==> (skbs0[k] == 0 <==> refs0[k] == 0)
    ensures Shows(skbs, refs, 0, Occupied(skbs0, refs0, RING))
  {
    OccupiedPositive(skbs0, refs0, RING);
  }

  /** A window that starts at position u, read in the order of the slots. */
  function Rotation(u: nat, q: seq<Buffer>): (r: seq<Buffer>)
    requires |q| <= RING
  {
    var a := u % RING;
    if a + |q| <= RING then q else q[RING - a..] + q[..RING - a]
  }

  function RotationBelow(u: nat, q: seq<Buffer>, i: nat): (r: seq<Buffer>)
    requires |q| <= RING && i <= RING
  {
    var a, n := u % RING, |q|;
    if a + n <= RING then
      if i <= a then [] else if i <= a + n then q[..i - a] else q
    else
      if i <= a + n - RING then q[RING - a..RING - a + i] else if i <= a then q[RING - a..] else q[RING - a..] + q[..i - a]
  }

  lemma SlotContents(skbs: seq<nat>, refs: seq<nat>, u: nat, q: seq<Buffer>, i: nat)
    requires Shows(skbs, refs, u, q) && i < RING
    ensures var a := u % RING;
            var k := if a <= i then i - a else RING - a + i;
            if k < |q| then skbs[i] == q[k].skb > 0 && refs[i] == q[k].ref > 0 else skbs[i] == 0 && refs[i] == 0
  {
    var a := u % RING;
    var p := if a <= i then u + (i - a) else u + (RING - a + i);
    assert p % RING == i;
  }

  lemma {:induction false} OccupiedIsRotation(skbs: seq<nat>, refs: seq<nat>, u: nat, q: seq<Buffer>, i: nat)
    requires Shows(skbs, refs, u, q) && |q| <= RING && i <= RING
    ensures Occupied(skbs, refs, i) == RotationBelow(u, q, i)
  {
    hide RotationBelow, Shows;
    if i == 0 {
      RotationStarts(u, q);
    } else {
      OccupiedIsRotation(skbs, refs, u, q, i - 1);
      SlotContents(skbs, refs, u, q, i - 1);
      RotationNext(u, q, i - 1);
    }
  }

  lemma RotationStarts(u: nat, q: seq<Buffer>)
    requires |q| <= RING
    ensures RotationBelow(u, q, 0) == []
    ensures RotationBelow(u, q, RING) == Rotation(u, q)
  {
  }

  lemma RotationNext(u: nat, q: seq<Buffer>, i: nat)
    requires |q| <= RING && i < RING
    ensures var a := u % RING;
            var k := if a <= i then i - a else RING - a + i;
            RotationBelow(u, q, i + 1) == RotationBelow(u, q, i) + if k < |q| then [q[k]] else []
  {
  }

  lemma OccupiedRing(skbs: seq<nat>, refs: seq<nat>, u: nat, q: seq<Buffer>)
    requires Shows(skbs, refs, u, q)
    ensures Occupied(skbs, refs, RING) == Rotation(u, q)
    ensures forall k :: 0 <= k < RING ==> (skbs[k] == 0 <==> refs[k] == 0)
  {
    OccupiedIsRotation(skbs, refs, u, q, RING);
    RotationStarts(u, q);
    forall k | 0 <= k < RING
      ensures skbs[k] == 0 <==> refs[k] == 0
    {
      SlotContents(skbs, refs, u, q, k);
    }
  }

  lemma CompactingCount(skbs0: seq<nat>, refs0: seq<nat>, skbs: seq<nat>, refs: seq<nat>, r: nat)
    requires Compacting(skbs0, refs0, skbs, refs, RING, r)
    ensures |skbs0| == |refs0| == RING && r == |Occupied(skbs0, refs0, RING)|
  {
  }

  lemma RotationConserves(owned: set<nat>, head: seq<nat>, u: nat, q: seq<Buffer>)
    requires |q| <= RING
    ensures multiset(Rotation(u, q)) == multiset(q) && |Rotation(u, q)| == |q|
    ensures Grants(owned, head, q) ==> Grants(owned, head, Rotation(u, q))
  {
    var a := u % RING;
    if a + |q| > RING {
      assert q == q[..RING - a] + q[RING - a..];
      assert Refs(q) == Refs(q[..RING - a]) + Refs(q[RING - a..]);
      assert Refs(Rotation(u, q)) == Refs(q[RING - a..]) + Refs(q[..RING - a]);
    }
  }

  /** k extra-info slots behind slot c have been taken and their buffers put back, out of Extras(answer, c, rp). */
  ghost predicate ExtrasScanned(answer: nat -> Response, c: nat, rp: nat, k: nat, more: bool, failed: bool,
                                q: seq<Buffer>, posted: seq<Buffer>)
  {
    && c + k < rp <= c + 1 + |q|
    && posted == q[k..] + q[..k]
    && Extras(answer, c, rp) == k + (if more then Extras(answer, c + k, rp) else 0)
    && (more ==> (ExtrasMissing(answer, c, rp) <==> ExtrasMissing(answer, c + k, rp)))
    && (failed <==> (!more && ExtrasMissing(answer, c, rp)) || exists j :: c < j <= c + k && BadExtra(answer(j)))
  }

  lemma ExtrasStep(answer: nat -> Response, c: nat, rp: nat, k: nat, failed: bool, q: seq<Buffer>, posted: seq<Buffer>)
    requires ExtrasScanned(answer, c, rp, k, true, failed, q, posted)
    ensures c + k + 1 == rp ==> ExtrasScanned(answer, c, rp, k, false, true, q, posted)
    ensures c + k + 1 < rp ==> posted != []
    ensures c + k + 1 < rp ==>
              ExtrasScanned(answer, c, rp, k + 1, answer(c + k + 1).extraMore, failed || BadExtra(answer(c + k + 1)),
                            q, posted[1..] + [posted[0]])
  {
    if c + k + 1 < rp {
      assert posted[1..] + [posted[0]] == q[k + 1..] + q[..k + 1];
      assert BadExtra(answer(c + k + 1)) ==> exists j :: c < j <= c + k + 1 && BadExtra(answer(j));
    }
  }

  /** The private chain has gained exactly the grants of the delivered buffers. */
  ghost predicate Released(was: seq<nat>, head: seq<nat>, list: seq<Buffer>) {
    multiset(head) == multiset(was) + multiset(Refs(list))
  }

  lemma ReleaseNone(was: seq<nat>)
    ensures Released(was, was, [])
  {
  }

  lemma ReleaseOne(was: seq<nat>, head: seq<nat>, list: seq<Buffer>, b: Buffer)
    requires Released(was, head, list)
    ensures Released(was, [b.ref] + head, list + [b])
  {
    assert Refs(list + [b]) == Refs(list) + [b.ref];
  }

  // ----- the packets of a poll

  /** A packet that was taken: the slot of its first response, and the buffers delivered. */
  datatype Taken = Taken(at: nat, list: seq<Buffer>)

  /** What a poll takes from slot c on, where it then stands, and what is posted there. */
  datatype Polled = Polled(taken: seq<Taken>, next: nat, window: seq<Buffer>)

  /** A packet that joins rxq: it does not fail, and its GSO info, if it has one, is accepted. */
  ghost predicate Accepted(answer: nat -> Response, gso: nat -> bool, c: nat, rp: nat) {
    c < rp && !PacketFails(answer, c, rp) && gso(c)
  }

  /** One for which a BUG_ON of xennet_fill_frags stops the machine. */
  ghost predicate Stops(answer: nat -> Response, gso: nat -> bool, c: nat, rp: nat) {
    Accepted(answer, gso, c, rp) && answer(c).status == 0 && DataSlots(answer, c, rp) == MAX_SKB_FRAGS + 1
  }

  ghost function SlotsTaken(answer: nat -> Response, c: nat, rp: nat, q: seq<Buffer>): (n: nat)
    requires c < rp
    ensures n > 0
  {
    var seen := SeenPacket(answer, c, rp, q);
    ExtraSlots(seen, c, rp) + DataSlots(seen, c, rp)
  }

  ghost function WindowAfter(answer: nat -> Response, c: nat, rp: nat, q: seq<Buffer>): seq<Buffer>
    requires c < rp <= c + |q|
  {
    var seen := SeenPacket(answer, c, rp, q);
    var e, f, rs := ExtraSlots(seen, c, rp), DataSlots(seen, c, rp), DataResponses(seen, c, rp);
    q[e + f..] + q[1..e + 1] + Returned(ItemsOf(q, e, f), rs)
  }

  ghost function ListOf(answer: nat -> Response, c: nat, rp: nat, q: seq<Buffer>): seq<Buffer>
    requires c < rp <= c + |q|
  {
    var seen := SeenPacket(answer, c, rp, q);
    var e, f, rs := ExtraSlots(seen, c, rp), DataSlots(seen, c, rp), DataResponses(seen, c, rp);
    Delivered(ItemsOf(q, e, f), rs)
  }

  lemma WindowRoom(answer: nat -> Response, c: nat, rp: nat, q: seq<Buffer>)
    requires c < rp <= c + |q|
    ensures c + SlotsTaken(answer, c, rp, q) <= rp <= c + SlotsTaken(answer, c, rp, q) + |WindowAfter(answer, c, rp, q)|
  {
    var seen := SeenPacket(answer, c, rp, q);
    assert PacketTaken(seen, c, rp, q, WindowAfter(answer, c, rp, q), ListOf(answer, c, rp, q));
    PacketConserves(seen, c, rp, q, WindowAfter(answer, c, rp, q), ListOf(answer, c, rp, q));
  }

  /** The packets up to slot rp, until `budget` of them have joined rxq. */
  ghost function PacketsOf(answer: nat -> Response, gso: nat -> bool, c: nat, rp: nat, q: seq<Buffer>, budget: nat): Polled
    requires rp <= c + |q|
    decreases rp - c
  {
    if c >= rp || budget == 0 then Polled([], c, q) else
      WindowRoom(answer, c, rp, q);
      var rest := PacketsOf(answer, gso, c + SlotsTaken(answer, c, rp, q), rp, WindowAfter(answer, c, rp, q),
                            if Accepted(answer, gso, c, rp) then budget - 1 else budget);
      rest.(taken := [Taken(c, ListOf(answer, c, rp, q))] + rest.taken)
  }

  /** The packets that join rxq, in the order of the ring, and the buffers of the others. */
  ghost function QueueOf(answer: nat -> Response, gso: nat -> bool, rp: nat, ts: seq<Taken>): seq<Taken> {
    if ts == [] then [] else
      var n := |ts| - 1;
      QueueOf(answer, gso, rp, ts[..n]) + if Accepted(answer, gso, ts[n].at, rp) then [ts[n]] else []
  }

  ghost function DroppedOf(answer: nat -> Response, gso: nat -> bool, rp: nat, ts: seq<Taken>): seq<Buffer> {
    if ts == [] then [] else
      var n := |ts| - 1;
      DroppedOf(answer, gso, rp, ts[..n]) + if Accepted(answer, gso, ts[n].at, rp) then [] else ts[n].list
  }

  /** Of the packets in rxq, the buffers of those whose checksum can be set up, the buffers of the others, and how many the former are. */
  function PassedOf(queue: seq<Taken>, csum: nat -> bool): seq<Buffer> {
    if queue == [] then [] else
      var n := |queue| - 1;
      PassedOf(queue[..n], csum) + if csum(queue[n].at) then queue[n].list else []
  }

  function RejectedOf(queue: seq<Taken>, csum: nat -> bool): seq<Buffer> {
    if queue == [] then [] else
      var n := |queue| - 1;
      RejectedOf(queue[..n], csum) + if csum(queue[n].at) then [] else queue[n].list
  }

  function CountPassed(queue: seq<Taken>, csum: nat -> bool): nat {
    if queue == [] then 0 else
      var n := |queue| - 1;
      CountPassed(queue[..n], csum) + if csum(queue[n].at) then 1 else 0
  }

  /** All buffers in rxq. */
  function Flat(queue: seq<Taken>): seq<Buffer> {
    PassedOf(queue, (c: nat) => true)
  }

  lemma FlatMore(queue: seq<Taken>, t: Taken)
    ensures Flat(queue + [t]) == Flat(queue) + t.list
  {
    assert (queue + [t])[..|queue|] == queue;
  }

  lemma {:induction false} FlatSplits(queue: seq<Taken>, csum: nat -> bool)
    ensures multiset(PassedOf(queue, csum) + RejectedOf(queue, csum)) == multiset(Flat(queue))
  {
    if queue != [] {
      var n := |queue| - 1;
      FlatSplits(queue[..n], csum);
      assert Flat(queue) == Flat(queue[..n]) + queue[n].list;
      hide Flat;
    }
  }

  /** Every buffer posted at first is posted still, or in rxq, or dropped. */
  ghost predicate Kept(was: seq<Buffer>, posted: seq<Buffer>, rxq: seq<Taken>, dropped: seq<Buffer>) {
    multiset(posted) + multiset(Flat(rxq) + dropped) == multiset(was)
  }

  lemma KeptStarts(was: seq<Buffer>)
    ensures Kept(was, was, [], [])
  {
    assert Flat([]) + [] == [];
  }

  lemma KeptNext(was: seq<Buffer>, q: seq<Buffer>, rxq: seq<Taken>, dropped: seq<Buffer>, posted: seq<Buffer>, t: Taken)
    requires Kept(was, q, rxq, dropped) && multiset(posted) + multiset(t.list) == multiset(q)
    ensures Kept(was, posted, rxq + [t], dropped) && Kept(was, posted, rxq, dropped + t.list)
  {
    FlatMore(rxq, t);
    var flat, list := Flat(rxq), t.list;
    hide Flat;
    assert multiset(flat + dropped) == multiset(flat) + multiset(dropped);
    assert multiset((flat + list) + dropped) == multiset(flat) + multiset(list) + multiset(dropped);
    assert multiset(flat + (dropped + list)) == multiset(flat) + multiset(dropped) + multiset(list);
  }

  lemma KeptPassed(was: seq<Buffer>, posted: seq<Buffer>, rxq: seq<Taken>, dropped: seq<Buffer>, csum: nat -> bool)
    requires Kept(was, posted, rxq, dropped)
    ensures multiset(posted) + multiset((PassedOf(rxq, csum) + RejectedOf(rxq, csum)) + dropped) == multiset(was)
  {
    FlatSplits(rxq, csum);
    var flat, both := Flat(rxq), PassedOf(rxq, csum) + RejectedOf(rxq, csum);
    hide Flat, PassedOf, RejectedOf;
    assert multiset(flat + dropped) == multiset(flat) + multiset(dropped);
    assert multiset(both + dropped) == multiset(both) + multiset(dropped);
  }

  /** The packets `sofar` have been taken, and those to come from here make up the whole. */
  ghost predicate Polling(answer: nat -> Response, gso: nat -> bool, rp: nat, whole: Polled, sofar: seq<Taken>,
                          c: nat, q: seq<Buffer>, budget: nat, queue: seq<Taken>, dropped: seq<Buffer>)
  {
    && rp <= c + |q|
    && (forall k :: 0 <= k < |sofar| ==> !Stops(answer, gso, sofar[k].at, rp))
    && queue == QueueOf(answer, gso, rp, sofar) && dropped == DroppedOf(answer, gso, rp, sofar)
    && var rest := PacketsOf(answer, gso, c, rp, q, budget);
       whole == rest.(taken := sofar + rest.taken)
  }

  lemma PollingStarts(answer: nat -> Response, gso: nat -> bool, c: nat, rp: nat, q: seq<Buffer>, budget: nat)
    requires rp <= c + |q|
    ensures Polling(answer, gso, rp, PacketsOf(answer, gso, c, rp, q, budget), [], c, q, budget, [], [])
  {
    var whole := PacketsOf(answer, gso, c, rp, q, budget);
    assert [] + whole.taken == whole.taken;
  }

  /** One packet further: it is one of the whole, and if it does not stop the machine its buffers go where they belong. */
  lemma PollingNext(answer: nat -> Response, gso: nat -> bool, rp: nat, whole: Polled, sofar: seq<Taken>,
                    c: nat, q: seq<Buffer>, budget: nat, queue: seq<Taken>, dropped: seq<Buffer>,
                    posted: seq<Buffer>, list: seq<Buffer>)
    requires c < rp && budget > 0 && Polling(answer, gso, rp, whole, sofar, c, q, budget, queue, dropped)
    requires PacketTaken(SeenPacket(answer, c, rp, q), c, rp, q, posted, list)
    ensures Taken(c, list) in whole.taken
    ensures var sofar', c' := sofar + [Taken(c, list)], c + SlotsTaken(answer, c, rp, q);
            !Stops(answer, gso, c, rp) ==>
              if Accepted(answer, gso, c, rp) then Polling(answer, gso, rp, whole, sofar', c', posted, budget - 1, queue + [Taken(c, list)], dropped)
              else Polling(answer, gso, rp, whole, sofar', c', posted, budget, queue, dropped + list)
  {
    WindowRoom(answer, c, rp, q);
    assert posted == WindowAfter(answer, c, rp, q) && list == ListOf(answer, c, rp, q);
    hide PacketTaken, SeenPacket, SlotsTaken, WindowAfter, ListOf, Stops, Accepted;
    var t, sofar' := Taken(c, list), sofar + [Taken(c, list)];
    var rest := PacketsOf(answer, gso, c + SlotsTaken(answer, c, rp, q), rp, posted, if Accepted(answer, gso, c, rp) then budget - 1 else budget);
    assert PacketsOf(answer, gso, c, rp, q, budget) == rest.(taken := [t] + rest.taken);
    assert sofar + ([t] + rest.taken) == sofar' + rest.taken;
    assert t in whole.taken by { assert whole.taken[|sofar|] == t; }
    hide PacketsOf;
    assert sofar'[..|sofar|] == sofar;
  }

  /** What the loop of a poll that takes the packets of `whole` does with them. */
  ghost predicate Served(answer: nat -> Response, gso: nat -> bool, rp: nat, whole: Polled, queue: seq<Taken>, dropped: seq<Buffer>, ok: bool) {
    && (ok <==> forall t :: t in whole.taken ==> !Stops(answer, gso, t.at, rp))
    && (ok ==> queue == QueueOf(answer, gso, rp, whole.taken) && dropped == DroppedOf(answer, gso, rp, whole.taken))
  }

  /** What a poll does with the packets of `whole`, none of which stops the machine. */
  ghost predicate Sorted(answer: nat -> Response, gso: nat -> bool, csum: nat -> bool, rp: nat, whole: Polled,
                         work: nat, up: seq<Buffer>, dropped: seq<Buffer>, rejected: seq<Buffer>)
  {
    var rxq := QueueOf(answer, gso, rp, whole.taken);
    && up == PassedOf(rxq, csum) && rejected == RejectedOf(rxq, csum) && work == CountPassed(rxq, csum)
    && dropped == DroppedOf(answer, gso, rp, whole.taken)
  }

  lemma SortedIs(answer: nat -> Response, gso: nat -> bool, csum: nat -> bool, rp: nat, whole: Polled, rxq: seq<Taken>, dropped: seq<Buffer>)
    requires Served(answer, gso, rp, whole, rxq, dropped, true)
    ensures Sorted(answer, gso, csum, rp, whole, CountPassed(rxq, csum), PassedOf(rxq, csum), dropped, RejectedOf(rxq, csum))
    ensures (forall t :: t in whole.taken ==> !Stops(answer, gso, t.at, rp)) && |QueueOf(answer, gso, rp, whole.taken)| == |rxq|
  {
  }

  lemma StoppedIs(answer: nat -> Response, gso: nat -> bool, rp: nat, whole: Polled, rxq: seq<Taken>, dropped: seq<Buffer>)
    requires Served(answer, gso, rp, whole, rxq, dropped, false)
    ensures !forall t :: t in whole.taken ==> !Stops(answer, gso, t.at, rp)
  {
  }

  lemma PollingStops(answer: nat -> Response, gso: nat -> bool, rp: nat, whole: Polled, t: Taken, queue: seq<Taken>, dropped: seq<Buffer>)
    requires t in whole.taken && Stops(answer, gso, t.at, rp)
    ensures Served(answer, gso, rp, whole, queue, dropped, false)
  {
  }

  lemma PollingEnds(answer: nat -> Response, gso: nat -> bool, rp: nat, whole: Polled, sofar: seq<Taken>,
                    c: nat, q: seq<Buffer>, budget: nat, queue: seq<Taken>, dropped: seq<Buffer>)
    requires Polling(answer, gso, rp, whole, sofar, c, q, budget, queue, dropped) && (c >= rp || budget == 0)
    ensures whole == Polled(sofar, c, q) && Served(answer, gso, rp, whole, queue, dropped, true)
  {
    assert sofar + [] == sofar;
  }

  /** What netif_poll needs to know of a packet that was taken. */
  lemma PacketBooks(answer: nat -> Response, gso: nat -> bool, c: nat, rp: nat, owned: set<nat>, was: seq<nat>, head: seq<nat>,
                    q: seq<Buffer>, posted: seq<Buffer>, list: seq<Buffer>, failed: bool, next: nat)
    requires c < rp && PacketTaken(SeenPacket(answer, c, rp, q), c, rp, q, posted, list)
    requires next == c + ExtraSlots(SeenPacket(answer, c, rp, q), c, rp) + DataSlots(SeenPacket(answer, c, rp, q), c, rp)
    requires failed <==> PacketFails(answer, c, rp)
    requires Grants(owned, was, q) && Released(was, head, list)
    ensures multiset(posted) + multiset(list) == multiset(q) && |posted| + |list| == |q|
    ensures next == c + SlotsTaken(answer, c, rp, q) && |list| <= next - c
    ensures Grants(owned, head, posted)
    ensures Accepted(answer, gso, c, rp) <==> !failed && gso(c)
    ensures !failed ==>
              && answer(c).status >= 0
              && 0 < |list| <= MAX_SKB_FRAGS + if answer(c).status <= COPY_THRESHOLD then 1 else 0
    ensures Stops(answer, gso, c, rp) <==> !failed && gso(c) && |list| == MAX_SKB_FRAGS + 1 && answer(c).status == 0
  {
    PacketConserves(SeenPacket(answer, c, rp, q), c, rp, q, posted, list);
    GrantsReleased(owned, was, head, q, posted, list);
    hide Grants, PacketTaken, PacketFails, SeenPacket, Released, DataSlots, ExtraSlots;
    if !failed {
      AcceptedWhole(answer, c, rp, q, posted, list);
    }
  }

  // ----- the fill target

  /** The target at the end of a poll that leaves so many requests unanswered: one less, but not below the minimum, if they are many. */
  function Lowered(target: nat, minimum: nat, unanswered: int): (r: nat)
    requires minimum <= target
    ensures r == if unanswered > 3 * target / 4 && target > minimum then target - 1 else target
  {
    if unanswered > 3 * target / 4 then (if target == 0 || target - 1 < minimum then minimum else target - 1) else target
  }

  /** The target after a refill: twice as high, up to the maximum, if few requests are unanswered. */
  function Raised(target: nat, maximum: nat, unanswered: int): nat {
    if unanswered < target / 4 then (if 2 * target > maximum then maximum else 2 * target) else target
  }

  /**
   * What a refill does: with memory for `supply` buffers the batch grows towards the target; it is
   * posted unless it is smaller than half the target, and the target may be raised. A batch that could
   * not grow to the target is posted at once.
   */
  ghost predicate Refilled(target0: nat, maximum: nat, posted0: nat, batch0: nat, unanswered: int, supply: nat,
                           target: nat, posted: nat, batch: nat, gained: nat)
  {
    var missing := if target0 > posted0 + batch0 then target0 - posted0 - batch0 else 0;
    var whole := missing <= supply || batch0 + supply == 0;
    && gained == (if missing <= supply then missing else supply)
    && if whole && batch0 + gained < target0 / 2 then
         target == target0 && posted == posted0 && batch == batch0 + gained
       else
         && posted == posted0 + batch0 + gained && batch == 0
         && target == if whole then Raised(target0, maximum, unanswered) else target0
  }

  lemma RefillDecided(target0: nat, maximum: nat, posted0: nat, batch0: nat, unanswered: int, supply: nat, gained: nat, complete: bool)
    requires complete <==> target0 - posted0 <= batch0 + supply
    requires gained == if !complete then supply else if target0 - posted0 <= batch0 then 0 else target0 - posted0 - batch0
    ensures var i := batch0 + gained;
            if (complete || i == 0) && i < target0 / 2 then
              Refilled(target0, maximum, posted0, batch0, unanswered, supply, target0, posted0, i, gained)
            else
              Refilled(target0, maximum, posted0, batch0, unanswered, supply,
                       if complete || i == 0 then Raised(target0, maximum, unanswered) else target0, posted0 + i, 0, gained)
  {
  }

  /** The grants reserved for the ring: as many as the highest target, none of them a sign that there is none. */
  ghost predicate Reserved(owned: set<nat>) {
    |owned| == MAX_TARGET && forall r :: r in owned ==> 0 < r < 0x8000
  }

  /** Buffers that wait to be posted. */
  ghost predicate Batched(batch: seq<nat>) {
    forall k :: 0 <= k < |batch| ==> batch[k] > 0
  }

  class Receiver {
    const rxSkbs: array<nat>
    const grantRxRef: array<nat>
    const owned: set<nat>                   // the grants reserved for this ring
    var grefRxHead: seq<nat>                // the private chain of grants not in use
    var reqProdPvt: nat
    var rspCons: nat
    var published: nat                      // req_prod in the shared ring
    var carrier: bool
    var refillTimer: bool                   // rx_refill_timer is set
    var rxBatch: seq<nat>
    var rxTarget: nat
    var rxMinTarget: nat
    var rxMaxTarget: nat
    ghost var next: nat                     // the next slot to be taken
    ghost var posted: seq<Buffer>           // what the slots from `next` on hold

    /** The two arrays hold the posted buffers, from slot `next` on. */
    ghost predicate Slots()
      reads `next, `posted, rxSkbs, grantRxRef
    {
      rxSkbs != grantRxRef && Shows(rxSkbs[..], grantRxRef[..], next, posted)
    }

    /** And the posted buffers reach up to req_prod_pvt. */
    ghost predicate Window()
      reads `next, `posted, `reqProdPvt, rxSkbs, grantRxRef
    {
      Slots() && reqProdPvt == next + |posted| && |posted| <= RING
    }

    constructor (refs: seq<nat>)
      requires |refs| == MAX_TARGET && (forall k :: 0 <= k < |refs| ==> 0 < refs[k] < 0x8000)
      requires forall k, l :: 0 <= k < l < |refs| ==> refs[k] != refs[l]
      ensures Valid() && posted == [] && rxBatch == [] && fresh(rxSkbs) && fresh(grantRxRef)
      ensures grefRxHead == refs && !carrier && !refillTimer && rspCons == published == 0
      ensures rxTarget == rxMinTarget == DEFAULT_MIN_TARGET && rxMaxTarget == MAX_TARGET
    {
      rxSkbs := new nat[RING](_ => 0);
      grantRxRef := new nat[RING](_ => 0);
      owned := AsSet(refs);
      grefRxHead, rxBatch, carrier, refillTimer := refs, [], false, false;
      reqProdPvt, rspCons, published := 0, 0, 0;
      rxTarget, rxMinTarget, rxMaxTarget := DEFAULT_MIN_TARGET, DEFAULT_MIN_TARGET, MAX_TARGET;
      next, posted := 0, [];
      new;
      DistinctAsSet(refs);
      assert Refs(posted) == [];
    }

    /** xennet_get_rx_skb and xennet_get_rx_ref */
    method GetSlot(ri: nat) returns (skb: nat, ref: nat)
      requires Window() && posted != [] && ri == next
      modifies rxSkbs, grantRxRef, `next, `posted
      ensures Window() && next == ri + 1
      ensures Buffer(skb, ref) == old(posted)[0] && posted == old(posted)[1..]
      ensures skb > 0 && ref > 0
    {
      TakeFirst(rxSkbs[..], grantRxRef[..], next, posted);
      var i := ri % RING;
      skb, ref := rxSkbs[i], grantRxRef[i];
      rxSkbs[i] := 0;
      grantRxRef[i] := 0;
      assert rxSkbs[..] == old(rxSkbs[..])[i := 0] && grantRxRef[..] == old(grantRxRef[..])[i := 0];
      next, posted := next + 1, posted[1..];
    }

    /** Stores a buffer in the slot behind the last posted one. */
    method PutSlot(index: nat, skb: nat, ref: nat)
      requires Slots() && |posted| < RING
      requires index == next + |posted| && skb > 0 && ref > 0
      modifies rxSkbs, grantRxRef, `posted
      ensures Slots() && posted == old(posted) + [Buffer(skb, ref)]
    {
      var id := index % RING;
      PutLast(rxSkbs[..], grantRxRef[..], next, posted, Buffer(skb, ref));
      assert rxSkbs[id] == 0;               // BUG_ON(np->rx_skbs[id])
      rxSkbs[id] := skb;
      grantRxRef[id] := ref;
      assert rxSkbs[..] == old(rxSkbs[..])[id := skb] && grantRxRef[..] == old(grantRxRef[..])[id := ref];
      posted := posted + [Buffer(skb, ref)];
    }

    /** xennet_move_rx_slot */
    method MoveSlot(skb: nat, ref: nat)
      requires Window() && |posted| < RING && skb > 0 && ref > 0
      modifies rxSkbs, grantRxRef, `reqProdPvt, `posted
      ensures Window() && posted == old(posted) + [Buffer(skb, ref)]
    {
      PutSlot(reqProdPvt, skb, ref);
      reqProdPvt := reqProdPvt + 1;
    }

    /** xennet_get_extras */
    method GetExtras(answer: nat -> Response, rp: nat) returns (failed: bool)
      requires Window() && next == rspCons + 1 && rspCons < rp <= next + |posted| && |posted| < RING
      modifies rxSkbs, grantRxRef, `reqProdPvt, `rspCons, `next, `posted
      ensures Window() && next == rspCons + 1
      ensures var c, e, q := old(rspCons), Extras(answer, old(rspCons), rp), old(posted);
              && rspCons == c + e && posted == q[e..] + q[..e]
              && (failed <==> ExtrasFail(answer, c, rp))
    {
      hide Slots;
      var cons := rspCons;
      var more := true;
      failed := false;
      ghost var c, q := cons, posted;
      while more
        invariant Window() && next == cons + 1 && c <= cons && c == old(rspCons) && q == old(posted)
        invariant ExtrasScanned(answer, c, rp, cons - c, more, failed, q, posted)
        decreases rp - cons, more
      {
        ExtrasStep(answer, c, rp, cons - c, failed, q, posted);
        if cons + 1 == rp {
          failed := true;
          more := false;
        } else {
          cons := cons + 1;
          var extra := answer(cons);
          if extra.extraType == 0 || extra.extraType >= EXTRA_TYPES {
            failed := true;
          }
          var skb, ref := GetSlot(cons);
          MoveSlot(skb, ref);
          more := extra.extraMore;
        }
      }
      rspCons := cons;
    }

    /**
     * The part of the loop of xennet_get_responses that puts a buffer back or adds it to the list. rx
     * is the response in slot `at`, or a copy of it; rx' is what it reads as afterwards.
     */
    method DealWith(rx: Response, at: nat, copied: bool, skb: nat, ref: nat, list: seq<Buffer>)
      returns (list': seq<Buffer>, rx': Response, bad: bool)
      requires Window() && |posted| < RING && skb > 0 && ref > 0 && next == at + 1
      modifies rxSkbs, grantRxRef, `reqProdPvt, `posted, `grefRxHead
      ensures Window()
      ensures bad <==> BadData(rx)
      ensures BadData(rx) ==> posted == old(posted) + [Buffer(skb, ref)] && list' == list && grefRxHead == old(grefRxHead)
      ensures !BadData(rx) ==> posted == old(posted) && list' == list + [Buffer(skb, ref)] && grefRxHead == [ref] + old(grefRxHead)
      ensures rx' == if BadData(rx) && !copied && old(|posted|) == RING - 1 then rx.(moreData := MoreBit(ref)) else rx
    {
      rx', bad := rx, rx.status < 0 || rx.offset + rx.status > PAGE_SIZE;
      if bad {
        SlotAgain(at, |posted|);
        if !copied && reqProdPvt % RING == at % RING {
          rx' := rx.(moreData := MoreBit(ref));
        }
        MoveSlot(skb, ref);
        list' := list;
      } else {
        assert ref != 0;                    // the branch for GRANT_INVALID_REF is not taken
        grefRxHead := [ref] + grefRxHead;   // gnttab_release_grant_reference
        list' := list + [Buffer(skb, ref)];
      }
    }

    /**
     * The loop of xennet_get_responses over the data slots of a packet whose first response is rx. The
     * first buffer is in hand, c is the slot before the second one.
     */
    method TakeFrags(answer: nat -> Response, rp: nat, rx: Response, c: nat, skb: nat, ref: nat,
                     ghost q: seq<Buffer>, ghost e: nat)
      returns (list: seq<Buffer>, frags: nat, failed: bool)
      requires Window() && next == c + 1 <= rp <= c + |q| - e && 1 + e <= |q| <= RING
      requires q[0] == Buffer(skb, ref) && skb > 0 && ref > 0 && posted == q[1..][e..] + q[1..][..e]
      modifies rxSkbs, grantRxRef, `reqProdPvt, `next, `posted, `grefRxHead
      ensures var seen := Seen(answer, rx, c, q, e);
              && Window() && next == c + frags && frags == 1 + More(seen, rx, c + 1, rp) && e + frags <= |q|
              && var items, rs := ItemsOf(q, e, frags), ResponsesOf(seen, rx, c, frags);
                 && posted == q[e + frags..] + q[1..e + 1] + Returned(items, rs)
                 && list == Delivered(items, rs) && |list| <= frags
                 && (failed <==> |list| < frags || rs[frags - 1].moreData)
      ensures Released(old(grefRxHead), grefRxHead, list)
    {
      hide Slots, Delivered, Returned, Taking, BadData, Released, More, ItemsOf, ResponsesOf, AllBad, Overwritten, MoreBit;
      ghost var seen := Seen(answer, rx, c, q, e);
      var response, s, g := rx, skb, ref;
      TakingStarts(seen, rx, c, rp, q, e);
      ReleaseNone(grefRxHead);
      NoneBad(answer, rx, c);
      frags, list, failed := 1, [], false;
      var going := true;
      while going
        invariant Window() && next == c + frags <= rp && 1 <= frags
        invariant Taking(seen, rx, c, rp, q, e, frags, if going then frags - 1 else frags, posted, list)
        invariant if going then response == ResponseAt(answer, rx, c, frags - 1) else response == ResponseAt(seen, rx, c, frags - 1)
        invariant going ==> e + frags <= |q| && Buffer(s, g) == (if frags == 1 then q[0] else q[e + frags - 1]) && s > 0 && g > 0
        invariant going ==> |posted| == |q| - 1 - |list| && (list == [] <==> AllBad(answer, rx, c, frags - 1))
        invariant !going ==> !response.moreData || c + frags == rp
        invariant |list| <= if going then frags - 1 else frags
        invariant failed <==> |list| < (if going then frags - 1 else frags) || (!going && response.moreData)
        invariant Released(old(grefRxHead), grefRxHead, list)
        decreases going, rp - next
      {
        SeenNext(answer, rx, c, q, e, frags);
        TakingDeals(seen, rx, c, rp, q, e, frags, posted, list);
        ReleaseOne(old(grefRxHead), grefRxHead, list, Buffer(s, g));
        var bad;
        list, response, bad := DealWith(response, c + frags - 1, frags == 1, s, g, list);
        assert response == ResponseAt(seen, rx, c, frags - 1);
        if bad {
          failed := true;
        }
        if !response.moreData {
          going := false;
        } else if c + frags == rp {
          failed := true;
          going := false;
        } else {
          TakingTakes(seen, rx, c, rp, q, e, frags, posted, list);
          response := answer(c + frags);
          s, g := GetSlot(c + frags);
          frags := frags + 1;
        }
      }
      TakingEnds(seen, rx, c, rp, q, e, frags, posted, list);
    }

    /**
     * xennet_get_responses: takes one packet off the ring. `list` are the buffers delivered, each with
     * the grant it was received under, which is back on the private chain.
     */
    method GetResponses(answer: nat -> Response, rp: nat) returns (list: seq<Buffer>, failed: bool)
      requires Window() && next == rspCons < rp <= next + |posted|
      modifies rxSkbs, grantRxRef, `reqProdPvt, `rspCons, `next, `posted, `grefRxHead
      ensures var c, seen := old(rspCons), SeenPacket(answer, old(rspCons), rp, old(posted));
              && Window() && next == c + ExtraSlots(seen, c, rp) + DataSlots(seen, c, rp) <= rp
              && PacketTaken(seen, c, rp, old(posted), posted, list)
      ensures failed <==> PacketFails(answer, old(rspCons), rp)
      ensures rspCons == if failed then next else next - |list|
      ensures Released(old(grefRxHead), grefRxHead, list)
    {
      hide Slots, Delivered, Returned, BadExtra, Released, Extras, More, ExtrasFail, Seen, ItemsOf, ResponsesOf;
      hide PacketTaken, PacketFails, DataSlots;
      ghost var c0, q := rspCons, posted;
      var rx := answer(rspCons);
      var maxFrags := MAX_SKB_FRAGS + if rx.status <= COPY_THRESHOLD then 1 else 0;
      var skb, ref := GetSlot(rspCons);
      var extrasFailed := false;
      if rx.extraInfo {
        extrasFailed := GetExtras(answer, rp);
      }
      ghost var e := rspCons - c0;
      var fragments, fragsFailed;
      list, fragments, fragsFailed := TakeFrags(answer, rp, rx, rspCons, skb, ref, q, e);
      PacketEnds(answer, c0, rp, q, e, fragments, posted, list, extrasFailed, fragsFailed);
      failed := extrasFailed || fragsFailed || fragments > maxFrags;
      if failed {
        rspCons := rspCons + fragments;
      }
    }

    /**
     * xennet_fill_frags and what it rests on: the first of `count` buffers is the packet's, with
     * `status` bytes in its one fragment; a buffer more than fits makes room by pulling the head out
     * of that fragment. `ok` is false where a BUG_ON stops the machine.
     */
    static method FillFrags(count: nat, status: nat) returns (ok: bool)
      requires 0 < count <= MAX_SKB_FRAGS + if status <= COPY_THRESHOLD then 1 else 0
      ensures ok <==> !(count == MAX_SKB_FRAGS + 1 && status == 0)
    {
      var pullTo := if status > COPY_THRESHOLD then COPY_THRESHOLD else status;
      var headlen, nrFrags, i := 0, 1, 1;
      while i < count
        invariant 1 <= i <= count
        invariant if i <= MAX_SKB_FRAGS then headlen == 0 && nrFrags == i else nrFrags == MAX_SKB_FRAGS && status > 0
      {
        if nrFrags == MAX_SKB_FRAGS {
          if pullTo <= headlen {
            return false;                   // BUG_ON(pull_to <= skb_headlen(skb))
          }
          headlen := pullTo;                // __pskb_pull_tail
          if status == pullTo {
            nrFrags := nrFrags - 1;
          }
        }
        assert nrFrags < MAX_SKB_FRAGS;     // BUG_ON(shinfo->nr_frags >= MAX_SKB_FRAGS)
        nrFrags, i := nrFrags + 1, i + 1;
      }
      ok := true;
    }

    /** Between two polls. */
    ghost predicate Valid()
      reads this, rxSkbs, grantRxRef
    {
      && Window() && rspCons == next && published <= reqProdPvt
      && Grants(owned, grefRxHead, posted) && Reserved(owned)
      && |posted| + |rxBatch| <= MAX_TARGET && Batched(rxBatch)
      && MIN_TARGET <= rxMinTarget <= rxTarget <= rxMaxTarget <= MAX_TARGET
    }

    /**
     * One round of the loop of netif_poll: a packet is taken and, if it has not failed and gso finds
     * its GSO info acceptable, turned into one to be passed up. `ok` is false where a BUG_ON stops the
     * machine.
     */
    method TakePacket(answer: nat -> Response, gso: nat -> bool, rp: nat) returns (list: seq<Buffer>, passed: bool, ok: bool)
      requires Window() && next == rspCons < rp <= next + |posted| && Grants(owned, grefRxHead, posted)
      modifies rxSkbs, grantRxRef, `reqProdPvt, `rspCons, `next, `posted, `grefRxHead
      ensures PacketTaken(SeenPacket(answer, old(rspCons), rp, old(posted)), old(rspCons), rp, old(posted), posted, list)
      ensures passed <==> Accepted(answer, gso, old(rspCons), rp)
      ensures ok <==> !Stops(answer, gso, old(rspCons), rp)
      ensures next == old(rspCons) + SlotsTaken(answer, old(rspCons), rp, old(posted)) <= rp
      ensures Window() && Grants(owned, grefRxHead, posted) && (ok ==> rspCons == next)
      ensures multiset(posted) + multiset(list) == old(multiset(posted)) && |posted| + |list| == old(|posted|)
      ensures reqProdPvt >= old(reqProdPvt)
    {
      hide Slots, Grants, PacketTaken, PacketFails, Released, ExtraSlots, DataSlots, SeenPacket, SlotsTaken, Accepted, Stops;
      var c := rspCons;
      ghost var q, head := posted, grefRxHead;
      var failed;
      list, failed := GetResponses(answer, rp);
      PacketBooks(answer, gso, c, rp, owned, head, grefRxHead, q, posted, list, failed, next);
      passed, ok := !failed && gso(c), true;
      if passed {
        ok := FillFrags(|list|, answer(c).status);
      }
      if ok && !failed {
        rspCons := rspCons + |list|;        // where xennet_fill_frags ends, and one more
      }
    }

    /**
     * The loop of netif_poll over the responses up to rp; gso(c) is whether the packet at slot c has no
     * GSO info or one that xennet_set_skb_gso accepts. `rxq` are the packets that go on, `dropped` the
     * buffers of the others. `ok` is false where a BUG_ON stops the machine.
     */
    method TakePackets(budget: nat, answer: nat -> Response, gso: nat -> bool, rp: nat)
      returns (rxq: seq<Taken>, dropped: seq<Buffer>, ok: bool)
      requires Window() && next == rspCons <= rp <= next + |posted| && Grants(owned, grefRxHead, posted)
      modifies rxSkbs, grantRxRef, `reqProdPvt, `rspCons, `next, `posted, `grefRxHead
      ensures var whole := PacketsOf(answer, gso, old(rspCons), rp, old(posted), budget);
              && Served(answer, gso, rp, whole, rxq, dropped, ok)
              && (ok ==> rspCons == whole.next && posted == whole.window)
      ensures ok ==>
                && Window() && next == rspCons <= rp && Grants(owned, grefRxHead, posted)
                && |rxq| <= budget && (rspCons == rp || |rxq| == budget)
                && Kept(old(posted), posted, rxq, dropped)
                && |posted| <= old(|posted|) && reqProdPvt >= old(reqProdPvt)
    {
      hide Slots, Grants, PacketTaken, SeenPacket, Polling, PacketsOf, SlotsTaken, Accepted, Stops, Served, Kept;
      rxq, dropped, ok := [], [], true;
      var workDone: nat := 0;
      ghost var whole, sofar: seq<Taken> := PacketsOf(answer, gso, rspCons, rp, posted, budget), [];
      PollingStarts(answer, gso, rspCons, rp, posted, budget);
      KeptStarts(posted);
      while rspCons != rp && workDone < budget
        invariant ok && Window() && next == rspCons <= rp <= next + |posted| && Grants(owned, grefRxHead, posted)
        invariant workDone == |rxq| <= budget
        invariant Polling(answer, gso, rp, whole, sofar, rspCons, posted, budget - workDone, rxq, dropped)
        invariant Kept(old(posted), posted, rxq, dropped)
        invariant |posted| <= old(|posted|) && reqProdPvt >= old(reqProdPvt)
        decreases rp - rspCons
      {
        ghost var c, q := rspCons, posted;
        var first := rspCons;
        var list, passed;
        list, passed, ok := TakePacket(answer, gso, rp);
        KeptNext(old(posted), q, rxq, dropped, posted, Taken(c, list));
        PollingNext(answer, gso, rp, whole, sofar, c, q, budget - workDone, rxq, dropped, posted, list);
        if !ok {
          PollingStops(answer, gso, rp, whole, Taken(c, list), rxq, dropped);
          return;
        }
        sofar := sofar + [Taken(c, list)];
        if passed {
          rxq := rxq + [Taken(first, list)];
          workDone := workDone + 1;
        } else {
          dropped := dropped + list;
        }
      }
      PollingEnds(answer, gso, rp, whole, sofar, rspCons, posted, budget - workDone, rxq, dropped);
    }

    /** The loop of netif_poll over rxq; csum(c) is whether the checksum of the packet at slot c can be set up. */
    static method PassUp(rxq: seq<Taken>, csum: nat -> bool) returns (workDone: nat, up: seq<Buffer>, rejected: seq<Buffer>)
      ensures up == PassedOf(rxq, csum) && rejected == RejectedOf(rxq, csum) && workDone == CountPassed(rxq, csum)
    {
      workDone, up, rejected := |rxq|, [], [];
      var i: nat := 0;
      assert rxq[..0] == [];
      while i < |rxq|
        invariant i <= |rxq| && workDone == CountPassed(rxq[..i], csum) + |rxq| - i
        invariant up == PassedOf(rxq[..i], csum) && rejected == RejectedOf(rxq[..i], csum)
      {
        assert rxq[..i + 1][..i] == rxq[..i];
        if !csum(rxq[i].at) {
          rejected := rejected + rxq[i].list;
          workDone := workDone - 1;
        } else {
          up := up + rxq[i].list;
        }
        i := i + 1;
      }
      assert rxq[..i] == rxq;
    }

    /** The part of network_alloc_rx_buffers behind the label refill: posts the whole batch. */
    method Refill()
      requires Valid()
      modifies rxSkbs, grantRxRef, `reqProdPvt, `posted, `rxBatch, `grefRxHead
      ensures Valid() && rxBatch == [] && old(posted) <= posted && |posted| == old(|posted| + |rxBatch|)
      ensures Line(posted, rxBatch, old(Skbs(posted) + rxBatch))
    {
      hide Slots, Grants, Line;
      ghost var all := Skbs(posted) + rxBatch;
      assert Line(posted, rxBatch, all) by { LineStarts(posted, rxBatch); }
      var reqProd := reqProdPvt;
      var i: nat := 0;
      while rxBatch != []
        invariant Slots() && Grants(owned, grefRxHead, posted)
        invariant reqProd + i == next + |posted| && reqProd == old(reqProdPvt) == reqProdPvt
        invariant |posted| + |rxBatch| == old(|posted| + |rxBatch|) && Batched(rxBatch)
        invariant Line(posted, rxBatch, all) && old(posted) <= posted
        decreases |rxBatch|
      {
        GrantsCount(owned, grefRxHead, posted);
        GrantClaimed(owned, grefRxHead, posted, rxBatch[0]);
        LineMoves(posted, rxBatch, all, grefRxHead[0]);
        var skb, ref := rxBatch[0], grefRxHead[0];
        assert ref < 0x8000;                // BUG_ON((signed short)ref < 0)
        rxBatch, grefRxHead := rxBatch[1..], grefRxHead[1..];
        PutSlot(reqProd + i, skb, ref);
        i := i + 1;
      }
      reqProdPvt := reqProd + i;
    }

    /**
     * The loop at the head of network_alloc_rx_buffers, with memory for `supply` buffers. `complete`
     * says that no allocation failed.
     */
    method GrowBatch(batchTarget: int, supply: nat) returns (gained: seq<nat>, complete: bool)
      requires Batched(rxBatch)
      modifies `rxBatch
      ensures rxBatch == old(rxBatch) + gained && Batched(rxBatch)
      ensures complete <==> batchTarget <= |old(rxBatch)| + supply
      ensures |gained| == if !complete then supply else if batchTarget <= |old(rxBatch)| then 0 else batchTarget - |old(rxBatch)|
    {
      gained, complete := [], true;
      var i := |rxBatch|;
      while i < batchTarget && complete
        invariant i == |rxBatch| && rxBatch == old(rxBatch) + gained
        invariant |gained| <= supply && (|gained| == 0 || i <= batchTarget) && (complete || (|gained| == supply && i < batchTarget))
        invariant Batched(rxBatch)
        decreases batchTarget - i, complete
      {
        if |gained| < supply {
          var skb: nat :| skb > 0 by { assert 1 > 0; }
          rxBatch, gained := rxBatch + [skb], gained + [skb];
          i := i + 1;
        } else {
          complete := false;
        }
      }
    }

    /**
     * network_alloc_rx_buffers, with rspProd as read from the shared ring and memory for `supply`
     * buffers. `gained` are the new buffers; the timer for another attempt is set where an allocation
     * failed.
     */
    method AllocRxBuffers(rspProd: nat, supply: nat) returns (gained: seq<nat>, complete: bool)
      requires Valid() && rspCons <= rspProd <= published
      modifies rxSkbs, grantRxRef, `reqProdPvt, `posted, `rxBatch, `grefRxHead, `rxTarget, `published, `refillTimer
      ensures Valid() && old(posted) <= posted
      ensures Line(posted, rxBatch, old(Skbs(posted) + rxBatch) + gained)
      ensures !carrier ==> gained == [] && posted == old(posted) && published == old(published) && rxTarget == old(rxTarget)
      ensures carrier ==> Refilled(old(rxTarget), rxMaxTarget, |old(posted)|, |old(rxBatch)|, old(reqProdPvt) - rspProd, supply,
                                   rxTarget, |posted|, |rxBatch|, |gained|)
      ensures carrier ==> (complete <==> |posted| + |rxBatch| >= old(rxTarget))
      ensures refillTimer == (old(refillTimer) || (carrier && !complete))
      ensures carrier && complete ==> |posted| >= old(rxTarget) - old(rxTarget) / 2
      ensures carrier ==> published == if posted != old(posted) || SeesUnpublished(reqProdPvt, old(published)) then reqProdPvt else old(published)
    {
      hide Slots, Grants, Line, Skbs, Refilled, Raised, SeesUnpublished, Reserved, Batched;
      gained, complete := [], true;
      LineStarts(posted, rxBatch);
      assert (Skbs(posted) + rxBatch) + [] == Skbs(posted) + rxBatch;
      if !carrier {
        return;
      }
      var reqProd := reqProdPvt;
      gained, complete := GrowBatch(rxTarget - (reqProd - rspCons), supply);
      assert Skbs(posted) + (old(rxBatch) + gained) == (Skbs(posted) + old(rxBatch)) + gained;
      LineStarts(posted, rxBatch);
      RefillDecided(old(rxTarget), rxMaxTarget, |posted|, |old(rxBatch)|, reqProd - rspProd, supply, |gained|, complete);
      if !complete {
        refillTimer := true;                // mod_timer
      }
      var goOn := Worthwhile(rspProd, complete || rxBatch == []);
      if !goOn {
        if SeesUnpublished(reqProd, published) {
          published := reqProdPvt;
        }
        return;
      }
      Refill();
      published := reqProdPvt;
    }

    /** Whether the batch is large enough to be posted, and how far the fill target is raised if it is; `whole` is false for a refill at once. */
    method Worthwhile(rspProd: nat, whole: bool) returns (goOn: bool)
      requires rxTarget <= rxMaxTarget
      modifies `rxTarget
      ensures goOn <==> !whole || |rxBatch| >= old(rxTarget) / 2
      ensures rxTarget == if goOn && whole then Raised(old(rxTarget), rxMaxTarget, reqProdPvt - rspProd) else old(rxTarget)
      ensures old(rxTarget) <= rxTarget <= rxMaxTarget
    {
      if whole {
        if |rxBatch| < rxTarget / 2 {
          return false;
        }
        if reqProdPvt - rspProd < rxTarget / 4 {
          rxTarget := 2 * rxTarget;
          if rxTarget > rxMaxTarget {
            rxTarget := rxMaxTarget;
          }
        }
      }
      goOn := true;
    }

    /** Few responses lower the target. */
    method LowerTarget(rspProd: nat)
      requires rxMinTarget <= rxTarget
      modifies `rxTarget
      ensures rxTarget == Lowered(old(rxTarget), rxMinTarget, reqProdPvt - rspProd)
    {
      if reqProdPvt - rspProd > 3 * rxTarget / 4 {
        if rxTarget == 0 || rxTarget - 1 < rxMinTarget {
          rxTarget := rxMinTarget;
        } else {
          rxTarget := rxTarget - 1;
        }
      }
    }

    /** The end of netif_poll: the target is lowered if there were few responses, and the ring is refilled. */
    method Restock(rspProd: nat, supply: nat) returns (gained: seq<nat>)
      requires Valid() && carrier && rspCons <= rspProd <= published
      modifies rxSkbs, grantRxRef, `reqProdPvt, `posted, `rxBatch, `grefRxHead, `rxTarget, `published, `refillTimer
      ensures Valid() && old(posted) <= posted
      ensures Line(posted, rxBatch, old(Skbs(posted) + rxBatch) + gained)
      ensures var unanswered: int := old(reqProdPvt) - rspProd;
              Refilled(Lowered(old(rxTarget), rxMinTarget, unanswered), rxMaxTarget, |old(posted)|, |old(rxBatch)|, unanswered, supply,
                       rxTarget, |posted|, |rxBatch|, |gained|)
    {
      hide Slots, Grants, Line, Skbs, Refilled, Lowered, Reserved, Batched;
      LowerTarget(rspProd);
      ghost var complete;
      gained, complete := AllocRxBuffers(rspProd, supply);
    }

    /**
     * netif_poll; rspProd and rspProdLater are the two values read from the shared ring. `up` are the
     * buffers of the packets passed up, `dropped` and `rejected` those of the others.
     */
    method Poll(budget: nat, answer: nat -> Response, gso: nat -> bool, csum: nat -> bool, rspProd: nat, rspProdLater: nat, supply: nat)
      returns (workDone: nat, up: seq<Buffer>, dropped: seq<Buffer>, rejected: seq<Buffer>, gained: seq<nat>, ok: bool)
      requires Valid() && rspCons <= rspProd <= rspProdLater <= published
      modifies rxSkbs, grantRxRef, `reqProdPvt, `rspCons, `next, `posted, `rxBatch, `grefRxHead, `rxTarget, `published, `refillTimer
      ensures !carrier ==> ok && workDone == 0 && up == dropped == rejected == [] && gained == [] && posted == old(posted) && rspCons == old(rspCons)
      ensures carrier ==>
                var whole := PacketsOf(answer, gso, old(rspCons), rspProd, old(posted), budget);
                && (ok <==> forall t :: t in whole.taken ==> !Stops(answer, gso, t.at, rspProd))
                && (ok ==>
                      && Sorted(answer, gso, csum, rspProd, whole, workDone, up, dropped, rejected)
                      && rspCons == whole.next && (rspCons == rspProd || |QueueOf(answer, gso, rspProd, whole.taken)| == budget)
                      && whole.window <= posted
                      && var unanswered: int := whole.next + |whole.window| - rspProdLater;
                         Refilled(Lowered(old(rxTarget), rxMinTarget, unanswered), rxMaxTarget, |whole.window|, |old(rxBatch)|, unanswered, supply,
                                  rxTarget, |posted|, |rxBatch|, |gained|))
      ensures ok ==> Valid() && rspCons <= rspProd
      ensures ok ==> Conserved(old(posted), old(rxBatch), posted, rxBatch, (up + rejected) + dropped, gained)
    {
      hide Slots, Grants, Line, Skbs, Refilled, Raised, Lowered, PacketsOf, QueueOf, Served, Sorted, Stops, Reserved, Batched, Kept, Conserved;
      hide PassedOf, RejectedOf, CountPassed;
      workDone, up, dropped, rejected, gained, ok := 0, [], [], [], [], true;
      if !carrier {
        NothingPolled(posted, rxBatch);
        return;
      }
      var rxq;
      rxq, dropped, ok := TakePackets(budget, answer, gso, rspProd);
      ghost var whole := PacketsOf(answer, gso, old(rspCons), rspProd, old(posted), budget);
      if !ok {
        StoppedIs(answer, gso, rspProd, whole, rxq, dropped);
        return;
      }
      SortedIs(answer, gso, csum, rspProd, whole, rxq, dropped);
      workDone, up, rejected := PassUp(rxq, csum);
      KeptPassed(old(posted), posted, rxq, dropped, csum);
      ghost var q := posted;
      gained := Restock(rspProdLater, supply);
      PollConserves(old(posted), old(rxBatch), q, (up + rejected) + dropped, posted, rxBatch, gained);
    }

    /** Moves the buffer in slot i to slot r. */
    method MoveDown(i: nat, r: nat)
      requires rxSkbs != grantRxRef && r <= i < rxSkbs.Length == grantRxRef.Length
      modifies rxSkbs, grantRxRef
      ensures rxSkbs[..] == old(rxSkbs[..][i := 0][r := rxSkbs[i]])
      ensures grantRxRef[..] == old(grantRxRef[..][i := 0][r := grantRxRef[i]])
    {
      var skb := rxSkbs[i];
      rxSkbs[i] := 0;
      rxSkbs[r] := skb;
      var ref := grantRxRef[i];
      grantRxRef[i] := 0;
      grantRxRef[r] := ref;
    }

    /** The loop of step 2 of network_connect. */
    method Compact() returns (requeue: nat)
      requires rxSkbs != grantRxRef && rxSkbs.Length == grantRxRef.Length == RING
      requires forall k :: 0 <= k < RING ==> (rxSkbs[k] == 0 <==> grantRxRef[k] == 0)
      modifies rxSkbs, grantRxRef
      ensures Compacting(old(rxSkbs[..]), old(grantRxRef[..]), rxSkbs[..], grantRxRef[..], RING, requeue)
    {
      ghost var skbs0, refs0 := rxSkbs[..], grantRxRef[..];
      hide Compacting;
      var i: nat := 0;
      requeue := 0;
      CompactingStarts(skbs0, refs0);
      while i < RING
        invariant i <= RING && Compacting(skbs0, refs0, rxSkbs[..], grantRxRef[..], i, requeue)
      {
        CompactingStep(skbs0, refs0, rxSkbs[..], grantRxRef[..], i, requeue);
        if rxSkbs[i] != 0 {
          MoveDown(i, requeue);
          requeue := requeue + 1;
        }
        i := i + 1;
      }
    }

    method MoveAll() returns (requeue: nat)
      requires Slots() && |posted| <= RING
      modifies rxSkbs, grantRxRef
      ensures Shows(rxSkbs[..], grantRxRef[..], 0, Rotation(next, posted)) && requeue == |posted|
    {
      ghost var skbs0, refs0 := rxSkbs[..], grantRxRef[..];
      OccupiedRing(skbs0, refs0, next, posted);
      hide Compacting, Shows, Occupied;
      requeue := Compact();
      CompactingEnds(skbs0, refs0, rxSkbs[..], grantRxRef[..], requeue);
      CompactingCount(skbs0, refs0, rxSkbs[..], grantRxRef[..], requeue);
    }

    /** Step 2 of network_connect: the rings are new and empty, the buffers are moved to the first slots. */
    method Rebuild()
      requires Valid()
      modifies rxSkbs, grantRxRef, `reqProdPvt, `rspCons, `published, `next, `posted
      ensures Valid() && rspCons == next == published == 0
      ensures posted == Rotation(old(next), old(posted)) && multiset(posted) == multiset(old(posted))
    {
      hide Shows, Grants, Rotation;
      RotationConserves(owned, grefRxHead, next, posted);
      ghost var q := Rotation(next, posted);
      var requeue := MoveAll();
      rspCons, published, reqProdPvt := 0, 0, requeue;
      next, posted := 0, q;
    }

    /** The sysfs attribute rxbuf_min. */
    method StoreRxbufMin(value: nat, rspProd: nat, supply: nat) returns (gained: seq<nat>)
      requires Valid() && rspCons <= rspProd <= published
      modifies rxSkbs, grantRxRef, `reqProdPvt, `posted, `rxBatch, `grefRxHead, `rxTarget, `rxMinTarget, `rxMaxTarget, `published, `refillTimer
      ensures Valid()
      ensures rxMinTarget == (if value < MIN_TARGET then MIN_TARGET else if value > MAX_TARGET then MAX_TARGET else value)
      ensures rxMaxTarget == (if rxMinTarget > old(rxMaxTarget) then rxMinTarget else old(rxMaxTarget))
      ensures carrier ==> Refilled(if rxMinTarget > old(rxTarget) then rxMinTarget else old(rxTarget), rxMaxTarget, |old(posted)|, |old(rxBatch)|,
                                   old(reqProdPvt) - rspProd, supply, rxTarget, |posted|, |rxBatch|, |gained|)
    {
      hide Slots, Grants, Line, Skbs, Refilled, Raised, Reserved, Batched;
      var target := if value < MIN_TARGET then MIN_TARGET else if value > MAX_TARGET then MAX_TARGET else value;
      if target > rxMaxTarget {
        rxMaxTarget := target;
      }
      rxMinTarget := target;
      if target > rxTarget {
        rxTarget := target;
      }
      var complete;
      gained, complete := AllocRxBuffers(rspProd, supply);
    }

    /** The sysfs attribute rxbuf_max. */
    method StoreRxbufMax(value: nat, rspProd: nat, supply: nat) returns (gained: seq<nat>)
      requires Valid() && rspCons <= rspProd <= published
      modifies rxSkbs, grantRxRef, `reqProdPvt, `posted, `rxBatch, `grefRxHead, `rxTarget, `rxMinTarget, `rxMaxTarget, `published, `refillTimer
      ensures Valid()
      ensures rxMaxTarget == (if value < MIN_TARGET then MIN_TARGET else if value > MAX_TARGET then MAX_TARGET else value)
      ensures rxMinTarget == (if rxMaxTarget < old(rxMinTarget) then rxMaxTarget else old(rxMinTarget))
      ensures carrier ==> Refilled(if rxMaxTarget < old(rxTarget) then rxMaxTarget else old(rxTarget), rxMaxTarget, |old(posted)|, |old(rxBatch)|,
                                   old(reqProdPvt) - rspProd, supply, rxTarget, |posted|, |rxBatch|, |gained|)
    {
      hide Slots, Grants, Line, Skbs, Refilled, Raised, Reserved, Batched;
      var target := if value < MIN_TARGET then MIN_TARGET else if value > MAX_TARGET then MAX_TARGET else value;
      if target < rxMinTarget {
        rxMinTarget := target;
      }
      rxMaxTarget := target;
      if target < rxTarget {
        rxTarget := target;
      }
      var complete;
      gained, complete := AllocRxBuffers(rspProd, supply);
    }
  }
}
