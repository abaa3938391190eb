/**
 * The transmit side of the network front-end: how a packet is cut into ring slots, and why neither
 * the list of free ids nor the private chain of grants can run out.
 */
module NetfrontTx {

  import opened Common

  const RING: nat := 256
  const MAX_TARGET: nat := 256
  const MAX_SKB_FRAGS: nat := 17
  const MAX_TX_SIZE: nat := 65535

  // ----- cutting a buffer at page boundaries

  /** `size` bytes from address `base` on; the address is page * PAGE + offset. */
  datatype Piece = Piece(base: nat, size: nat)

  /** How much of `len` bytes at `base` lies in the first page. */
  function FirstBytes(base: nat, len: nat): nat {
    if PAGE - base % PAGE > len then len else PAGE - base % PAGE
  }

  function Pieces(base: nat, len: nat): seq<Piece>
    decreases len
  {
    if len == 0 then [] else
      [Piece(base, FirstBytes(base, len))] + Pieces(base + FirstBytes(base, len), len - FirstBytes(base, len))
  }

  /** The linear part has a slot even when it is empty. */
  function LinearPieces(base: nat, len: nat): seq<Piece> {
    if len == 0 then [Piece(base, 0)] else Pieces(base, len)
  }

  function FragPieces(frags: seq<Piece>): seq<Piece> {
    if frags == [] then [] else FragPieces(frags[..|frags| - 1]) + Pieces(frags[|frags| - 1].base, frags[|frags| - 1].size)
  }

  function PacketPieces(base: nat, len: nat, frags: seq<Piece>): seq<Piece> {
    LinearPieces(base, len) + FragPieces(frags)
  }

  function AddressesOf(p: Piece): seq<nat> {
    seq(p.size, k requires 0 <= k => p.base + k)
  }

  /** The addresses of the bytes of a packet, in order. */
  function Addresses(ps: seq<Piece>): seq<nat> {
    if ps == [] then [] else Addresses(ps[..|ps| - 1]) + AddressesOf(ps[|ps| - 1])
  }

  lemma {:induction false} AddressesAppend(a: seq<Piece>, b: seq<Piece>)
    ensures Addresses(a + b) == Addresses(a) + Addresses(b)
  {
    hide AddressesOf;
    if b == [] {
      assert a + b == a;
    } else {
      var n := |b| - 1;
      assert (a + b)[..|a| + n] == a + b[..n] && (a + b)[|a| + n] == b[n] by { hide *; }
      AddressesAppend(a, b[..n]);
    }
  }

  lemma AddressesOne(p: Piece)
    ensures Addresses([p]) == AddressesOf(p)
  {
    assert [p][..0] == [];
  }

  lemma {:induction false} PiecesPartition(base: nat, len: nat)
    ensures Addresses(Pieces(base, len)) == AddressesOf(Piece(base, len))
    decreases len
  {
    if len > 0 {
      var bytes := FirstBytes(base, len);
      PiecesPartition(base + bytes, len - bytes);
      hide Addresses, AddressesOf, FirstBytes;
      assert Pieces(base, len) == [Piece(base, bytes)] + Pieces(base + bytes, len - bytes);
      AddressesAppend([Piece(base, bytes)], Pieces(base + bytes, len - bytes));
      AddressesOne(Piece(base, bytes));
      AddressesSplit(base, len, bytes);
    } else {
      assert AddressesOf(Piece(base, len)) == [];
    }
  }

  lemma AddressesSplit(base: nat, len: nat, bytes: nat)
    requires bytes <= len
    ensures AddressesOf(Piece(base, len)) == AddressesOf(Piece(base, bytes)) + AddressesOf(Piece(base + bytes, len - bytes))
  {
  }

  ghost predicate InPages(ps: seq<Piece>) {
    forall k :: 0 <= k < |ps| ==> ps[k].base % PAGE + ps[k].size <= PAGE
  }

  lemma {:induction false} PiecesInPages(base: nat, len: nat)
    ensures InPages(Pieces(base, len))
    decreases len
  {
    if len > 0 {
      var bytes := FirstBytes(base, len);
      PiecesInPages(base + bytes, len - bytes);
    }
  }

  lemma {:induction false} PiecesCount(base: nat, len: nat)
    ensures |Pieces(base, len)| == if len == 0 then 0 else PfnUp(base % PAGE + len)
    decreases len
  {
    if len > PAGE - base % PAGE {
      var first := PAGE - base % PAGE;
      assert (base + first) % PAGE == 0;
      PiecesCount(base + first, len - first);
      assert PfnUp(base % PAGE + len) == PfnUp(len - first) + 1;
    }
  }

  /** xennet_count_skb_frag_slots */
  function CountFragSlots(frags: seq<Piece>): nat {
    if frags == [] then 0 else
      var last := frags[|frags| - 1];
      CountFragSlots(frags[..|frags| - 1]) + if last.size == 0 then 0 else PfnUp(last.base % PAGE + last.size)
  }

  function CountSlots(base: nat, len: nat, frags: seq<Piece>): nat {
    PfnUp(base % PAGE + len) + CountFragSlots(frags)
  }

  lemma {:induction false} FragPiecesPartition(frags: seq<Piece>)
    ensures Addresses(FragPieces(frags)) == Addresses(frags)
    ensures InPages(FragPieces(frags))
    ensures |FragPieces(frags)| == CountFragSlots(frags)
  {
    if frags != [] {
      var n := |frags| - 1;
      FragPiecesPartition(frags[..n]);
      PiecesPartition(frags[n].base, frags[n].size);
      PiecesInPages(frags[n].base, frags[n].size);
      hide Pieces, PfnUp;
      PiecesCount(frags[n].base, frags[n].size);
      AddressesAppend(FragPieces(frags[..n]), Pieces(frags[n].base, frags[n].size));
    }
  }

  /** The pieces are the packet's bytes, each once and in order, and no piece crosses a page. */
  lemma PacketPartition(base: nat, len: nat, frags: seq<Piece>)
    ensures Addresses(PacketPieces(base, len, frags)) == Addresses([Piece(base, len)] + frags)
    ensures InPages(PacketPieces(base, len, frags))
  {
    FragPiecesPartition(frags);
    PiecesInPages(base, len);
    PiecesPartition(base, len);
    AddressesAppend(LinearPieces(base, len), FragPieces(frags));
    AddressesAppend([Piece(base, len)], frags);
    AddressesOne(Piece(base, len));
  }

  /** As many slots are used as were counted, except when there is no linear part and it starts on a page boundary. */
  lemma CountIsExact(base: nat, len: nat, frags: seq<Piece>)
    ensures |PacketPieces(base, len, frags)| == CountSlots(base, len, frags) <==> base % PAGE + len > 0
    ensures |PacketPieces(base, len, frags)| <= CountSlots(base, len, frags) + 1
  {
    PiecesCount(base, len);
    FragPiecesPartition(frags);
  }

  /** A packet without a linear part, starting on a page boundary: a slot is posted that was not counted. */
  lemma EmptyLinearMiscounted()
    ensures CountSlots(PAGE, 0, [Piece(0, 1)]) == 1
    ensures |PacketPieces(PAGE, 0, [Piece(0, 1)])| == 2
  {
    var frags := [Piece(0, 1)];
    assert CountFragSlots(frags[..0]) == 0;
    FragPiecesPartition(frags);
  }

  // ----- the list of free ids inside tx_skbs

  /** A free entry holds the next free id, a used one its packet. Entry 0 is the head; RING + 1 ends the list. */
  datatype Entry = Free(next: nat) | Used(skb: nat)

  function NextOf(free: seq<nat>, k: nat): nat {
    if k < |free| then free[k] else RING + 1
  }

  /** `free` is the list, `used` the ids that are not on it. */
  ghost predicate Chain(list: seq<Entry>, free: seq<nat>, used: set<nat>) {
    && |list| == RING + 1 && list[0] == Free(NextOf(free, 0))
    && (forall k :: 0 <= k < |free| ==> 1 <= free[k] <= RING && list[free[k]] == Free(NextOf(free, k + 1)))
    && (forall k, l :: 0 <= k < l < |free| ==> free[k] != free[l])
    && (forall id :: 1 <= id <= RING ==> (list[id].Used? <==> id in used))
    && (forall id :: id in used ==> 1 <= id <= RING)
    && |free| + |used| == RING
  }

  function FirstIds(): (free: seq<nat>)
    ensures |free| == RING && forall k :: 0 <= k < RING ==> free[k] == k + 1
  {
    seq(RING, k requires 0 <= k => k + 1)
  }

  lemma ChainInitial(list: seq<Entry>, free: seq<nat>)
    requires |list| == RING + 1 && forall i :: 0 <= i < |list| ==> list[i] == Free(i + 1)
    requires |free| == RING && forall k :: 0 <= k < RING ==> free[k] == k + 1
    ensures Chain(list, free, {})
  {
  }

  lemma ChainGet(list: seq<Entry>, free: seq<nat>, used: set<nat>, skb: nat)
    requires Chain(list, free, used) && free != []
    ensures list[0] == Free(free[0]) && 1 <= free[0] < |list| && list[free[0]].Free? && free[0] !in used
    ensures Chain(list[0 := list[free[0]]][free[0] := Used(skb)], free[1..], used + {free[0]})
  {
    assert |used + {free[0]}| == |used| + 1;
  }

  lemma ChainAdd(list: seq<Entry>, free: seq<nat>, used: set<nat>, id: nat)
    requires Chain(list, free, used) && id in used
    ensures 1 <= id < |list| && list[id].Used?
    ensures Chain(list[id := list[0]][0 := Free(id)], [id] + free, used - {id})
  {
    assert used == (used - {id}) + {id};
    assert |used - {id}| == |used| - 1;
  }

  // ----- grants

  /** Every owned grant is on the private chain or belongs to a used id, once; 0 is GRANT_INVALID_REF. */
  ghost predicate Grants(owned: set<nat>, head: seq<nat>, refs: seq<nat>) {
    && (forall r: nat :: r > 0 ==> (multiset(head) + multiset(refs))[r] == if r in owned then 1 else 0)
    && (forall k :: 0 <= k < |head| ==> head[k] in owned)
  }

  lemma GrantClaimed(owned: set<nat>, head: seq<nat>, refs: seq<nat>, id: nat)
    requires Grants(owned, head, refs) && head != [] && id < |refs| && refs[id] == 0
    ensures head[0] in owned && Grants(owned, head[1..], refs[id := head[0]])
  {
    assert head == [head[0]] + head[1..];
    assert multiset(head) == multiset{head[0]} + multiset(head[1..]);
  }

  lemma GrantReleased(owned: set<nat>, head: seq<nat>, refs: seq<nat>, id: nat)
    requires Grants(owned, head, refs) && id < |refs| && refs[id] != 0
    ensures refs[id] in owned && Grants(owned, [refs[id]] + head, refs[id := 0])
  {
    assert refs[id] in multiset(refs);
    assert multiset([refs[id]] + head) == multiset{refs[id]} + multiset(head);
  }

  lemma {:induction false} OneOfEach(refs: seq<nat>, r: nat)
    requires forall k, l :: 0 <= k < l < |refs| ==> refs[k] != refs[l]
    ensures multiset(refs)[r] == if r in refs then 1 else 0
  {
    if refs != [] {
      var n := |refs| - 1;
      OneOfEach(refs[..n], r);
      assert refs == refs[..n] + [refs[n]];
    }
  }

  lemma GrantsInitial(head: seq<nat>, refs: seq<nat>, owned: set<nat>)
    requires forall k, l :: 0 <= k < l < |head| ==> head[k] != head[l]
    requires (forall k :: 0 <= k < |refs| ==> refs[k] == 0) && forall r :: r in owned <==> r in head
    ensures Grants(owned, head, refs)
  {
    forall r: nat | r > 0
      ensures (multiset(head) + multiset(refs))[r] == if r in owned then 1 else 0
    {
      OneOfEach(head, r);
      assert r !in multiset(refs);
    }
  }

  // ----- ring slots

  datatype Slot =
    | Request(id: nat, gref: nat, frame: nat, offset: nat, size: nat, moreData: bool, extraInfo: bool)
    | Extra

  /** What the backend puts on the ring: the id of a request it is done with, or XEN_NETIF_RSP_NULL. */
  datatype Answer = Done(id: nat) | Null

  /** Each used id is answered at most once, and NULL only stands for an extra-info slot. */
  ghost predicate Honest(answers: seq<Answer>, used: set<nat>, extras: nat) {
    answers == [] ||
    match answers[0]
    case Done(id) => id in used && Honest(answers[1..], used - {id}, extras)
    case Null => extras > 0 && Honest(answers[1..], used, extras - 1)
  }

  function DoneIds(answers: seq<Answer>): set<nat> {
    if answers == [] then {} else
      DoneIds(answers[..|answers| - 1]) + match answers[|answers| - 1] case Done(id) => {id} case Null => {}
  }

  lemma HonestStep(answers: seq<Answer>, i: nat, used: set<nat>, extras: nat)
    requires i < |answers| && Honest(answers[i..], used, extras)
    ensures answers[i].Done? ==> answers[i].id in used && Honest(answers[i + 1..], used - {answers[i].id}, extras)
    ensures answers[i].Null? ==> extras > 0 && Honest(answers[i + 1..], used, extras - 1)
  {
    assert answers[i..][1..] == answers[i + 1..];
  }

  lemma DoneNone(answers: seq<Answer>)
    ensures DoneIds(answers[..0]) == {}
  {
  }

  lemma DoneNext(answers: seq<Answer>, i: nat)
    requires i < |answers|
    ensures DoneIds(answers[..i + 1]) == DoneIds(answers[..i]) + match answers[i] case Done(id) => {id} case Null => {}
  {
    assert answers[..i + 1][..i] == answers[..i];
  }

  /** Whether a packet is on the ring, was dropped, or met an empty list of free ids. */
  datatype Fate = Sent | Dropped | RanOut

  /** The slot of the k-th piece of a packet whose first slot is `first`, with `gap` extra-info slots behind it. */
  function Position(first: nat, gap: nat, k: nat): nat {
    if k == 0 then first else first + gap + k
  }

  ghost predicate Matches(slot: Slot, p: Piece, more: bool, info: bool) {
    && slot.Request? && slot.frame == p.base / PAGE && slot.offset == p.base % PAGE && slot.size == p.size
    && slot.moreData == more && slot.extraInfo == info
  }

  /** The ring is `pre` and then the pieces of a packet, each but the last with more_data, with the extra info behind the first. */
  ghost predicate Shown(pre: seq<Slot>, ring: seq<Slot>, gap: nat, ps: seq<Piece>) {
    && ps != [] && |ring| == |pre| + gap + |ps| && pre == ring[..|pre|]
    && (forall k :: 0 <= k < |ps| ==> Matches(ring[Position(|pre|, gap, k)], ps[k], k < |ps| - 1, k == 0 && gap > 0))
    && forall k :: |pre| < k <= |pre| + gap ==> ring[k] == Extra
  }

  lemma ShownCut(pre: seq<Slot>, ring: seq<Slot>, gap: nat, ps: seq<Piece>, bytes: nat, next: Slot)
    requires Shown(pre, ring, gap, ps) && bytes <= ps[|ps| - 1].size
    requires Matches(next, Piece(ps[|ps| - 1].base + bytes, ps[|ps| - 1].size - bytes), false, false)
    ensures var last := Position(|pre|, gap, |ps| - 1);
            && last < |ring| && ring[last].Request?
            && Shown(pre, ring[last := ring[last].(size := bytes, moreData := true)] + [next], gap, Cut(ps, bytes))
  {
  }

  /** Posting a further piece. */
  lemma ShownMore(pre: seq<Slot>, ring: seq<Slot>, gap: nat, ps: seq<Piece>, p: Piece, next: Slot)
    requires Shown(pre, ring, gap, ps) && Matches(next, p, false, false)
    ensures var last := Position(|pre|, gap, |ps| - 1);
            && last < |ring| && ring[last].Request?
            && Shown(pre, ring[last := ring[last].(moreData := true)] + [next], gap, ps + [p])
  {
  }

  /** The last piece cut after `bytes`. */
  function Cut(ps: seq<Piece>, bytes: nat): (r: seq<Piece>)
    requires ps != [] && bytes <= ps[|ps| - 1].size
    ensures |r| == |ps| + 1
  {
    var n := |ps| - 1;
    ps[..n] + [Piece(ps[n].base, bytes), Piece(ps[n].base + bytes, ps[n].size - bytes)]
  }

  lemma {:induction false} FragPiecesPrefix(frags: seq<Piece>, i: nat)
    requires i <= |frags|
    ensures |FragPieces(frags[..i])| <= |FragPieces(frags)|
    decreases |frags| - i
  {
    if i == |frags| {
      assert frags[..i] == frags;
    } else {
      assert frags[..i + 1][..i] == frags[..i];
      FragPiecesPrefix(frags, i + 1);
    }
  }

  lemma LinearStep(ps: seq<Piece>, data: nat, len: nat)
    requires len > PAGE - data % PAGE && ps != [] && ps[|ps| - 1] == Piece(data, len)
    ensures var bytes, n := PAGE - data % PAGE, |ps| - 1;
            && (data + bytes) % PAGE == 0 && |LinearPieces(data, len)| > 1
            && Cut(ps, bytes)[n + 1] == Piece(data + bytes, len - bytes)
            && ps[..n] + LinearPieces(data, len) == Cut(ps, bytes)[..n + 1] + LinearPieces(data + bytes, len - bytes)
  {
    var bytes, n := PAGE - data % PAGE, |ps| - 1;
    var rest := LinearPieces(data + bytes, len - bytes);
    assert LinearPieces(data, len) == [Piece(data, bytes)] + rest;
    hide LinearPieces;
    assert Cut(ps, bytes)[..n + 1] == ps[..n] + [Piece(data, bytes)];
    assert (ps[..n] + [Piece(data, bytes)]) + rest == ps[..n] + ([Piece(data, bytes)] + rest);
    assert |rest| > 0 by { LinearNotEmpty(data + bytes, len - bytes); }
  }

  lemma LinearNotEmpty(base: nat, len: nat)
    ensures LinearPieces(base, len) != []
  {
  }

  lemma LinearEnd(ps: seq<Piece>, data: nat, len: nat)
    requires len <= PAGE - data % PAGE && ps != [] && ps[|ps| - 1] == Piece(data, len)
    ensures ps[..|ps| - 1] + LinearPieces(data, len) == ps
  {
    assert FirstBytes(data, len) == len && Pieces(data + len, 0) == [];
    assert LinearPieces(data, len) == [Piece(data, len)];
  }

  function TotalLength(headlen: nat, frags: seq<Piece>): nat {
    if frags == [] then headlen else TotalLength(headlen, frags[..|frags| - 1]) + frags[|frags| - 1].size
  }

  /** A round of the second loop: the pieces so far and those to come make up the packet. */
  lemma FragStep(sofar: seq<Piece>, addr: nat, len: nat)
    requires len > 0
    ensures var bytes := FirstBytes(addr, len);
            sofar + Pieces(addr, len) == (sofar + [Piece(addr, bytes)]) + Pieces(addr + bytes, len - bytes)
    ensures |Pieces(addr, len)| > 0
  {
    hide FirstBytes;
  }

  lemma ShownSize(pre: seq<Slot>, ring: seq<Slot>, gap: nat, ps: seq<Piece>, total: nat)
    requires Shown(pre, ring, gap, ps)
    ensures |ring| == |pre| + gap + |ps| && ps != [] && ring[|pre|].Request?
    ensures var ring' := ring[|pre| := ring[|pre|].(size := total)];
            ring'[|pre| := ring'[|pre|].(size := ps[0].size)] == ring
  {
    assert Matches(ring[Position(|pre|, gap, 0)], ps[0], 0 < |ps| - 1, gap > 0);
  }

  lemma NoPieces(addr: nat)
    ensures Pieces(addr, 0) == []
  {
  }

  lemma NoFrags(frags: seq<Piece>)
    ensures FragPieces(frags[..0]) == []
  {
  }

  lemma FragNext(frags: seq<Piece>, i: nat)
    requires i < |frags|
    ensures FragPieces(frags[..i + 1]) == FragPieces(frags[..i]) + Pieces(frags[i].base, frags[i].size)
  {
    hide Pieces;
    assert frags[..i + 1][..i] == frags[..i];
  }

  class Transmitter {
    const txSkbs: array<Entry>
    const grantTxRef: array<nat>
    const owned: set<nat>                   // the grants reserved for this ring
    var grefTxHead: seq<nat>                // the private chain of grants not in use
    var ring: seq<Slot>                     // every slot written so far; req_prod_pvt is its length
    var rspCons: nat
    var stopped: bool                       // the transmit queue is stopped
    ghost var free: seq<nat>
    ghost var used: set<nat>
    ghost var extrasOut: nat                // extra-info slots not answered yet

    /** The id list and the grants agree. */
    ghost predicate Pools()
      reads `grefTxHead, `free, `used, txSkbs, grantTxRef
    {
      && Chain(txSkbs[..], free, used) && grantTxRef.Length == RING + 1
      && Grants(owned, grefTxHead, grantTxRef[..]) && |grefTxHead| == |free|
      && (forall id :: 1 <= id <= RING ==> (grantTxRef[id] != 0 <==> id in used))
      && forall r :: r in owned ==> 0 < r < 0x8000
    }

    ghost function Outstanding(): int
      reads `ring, `rspCons
    {
      |ring| - rspCons
    }

    /** netfront_tx_slot_available */
    predicate SlotAvailable()
      reads `ring, `rspCons
    {
      |ring| - rspCons < MAX_TARGET - MAX_SKB_FRAGS - 2
    }

    /** Every slot not answered is a used id or an extra-info slot, and they fit the ring. */
    ghost predicate Balanced()
      reads this, txSkbs, grantTxRef
    {
      Pools() && Outstanding() == |used| + extrasOut && Outstanding() <= RING
    }

    /** The queue runs only where there is room. Opening the interface does not see to this. */
    ghost predicate Valid()
      reads this, txSkbs, grantTxRef
    {
      Balanced() && (!stopped ==> SlotAvailable())
    }

    /**
     * Takes an id and a grant, and writes the next ring slot. At the end of the id list
     * get_id_from_freelist would go on behind the array; the method stops there.
     */
    method Post(skb: nat, frame: nat, offset: nat, size: nat) returns (ok: bool)
      requires Pools()
      modifies txSkbs, grantTxRef, `grefTxHead, `ring, `free, `used
      ensures ok <==> old(free) != []
      ensures ok ==>
                && Pools() && free == old(free)[1..] && used == old(used) + {old(free)[0]}
                && old(free)[0] !in old(used) && txSkbs[old(free)[0]] == Used(skb)
                && ring == old(ring) + [Request(old(free)[0], old(grefTxHead)[0], frame, offset, size, false, false)]
    {
      var id := txSkbs[0].next;             // get_id_from_freelist
      if id >= txSkbs.Length {
        return false;
      }
      ChainGet(txSkbs[..], free, used, skb);
      txSkbs[0] := txSkbs[id];
      txSkbs[id] := Used(skb);
      assert txSkbs[..] == old(txSkbs[..][0 := txSkbs[id]][id := Used(skb)]);
      GrantClaimed(owned, grefTxHead, grantTxRef[..], id);
      var ref := grefTxHead[0];
      assert ref < 0x8000;                  // BUG_ON((signed short)ref < 0)
      grefTxHead := grefTxHead[1..];
      grantTxRef[id] := ref;
      assert grantTxRef[..] == old(grantTxRef[..])[id := ref];
      free, used := free[1..], used + {id};
      ring := ring + [Request(id, ref, frame, offset, size, false, false)];
      ok := true;
    }

    /** One round of the first loop of xennet_make_frags: ends the current slot after `bytes` and posts the rest. */
    method CutSlot(skb: nat, tx: nat, bytes: nat, data: nat, size: nat, ghost pre: seq<Slot>, ghost gap: nat, ghost ps: seq<Piece>)
      returns (tx': nat, ok: bool)
      requires Pools() && Shown(pre, ring, gap, ps) && tx == Position(|pre|, gap, |ps| - 1)
      requires bytes <= data && ps[|ps| - 1] == Piece(data - bytes, bytes + size)
      modifies txSkbs, grantTxRef, `grefTxHead, `ring, `free, `used
      ensures ok <==> old(free) != []
      ensures ok ==> Pools() && |free| == old(|free|) - 1
      ensures ok ==> Shown(pre, ring, gap, Cut(ps, bytes)) && tx' == Position(|pre|, gap, |ps|)
    {
      ghost var next := if free == [] then Request(0, 0, data / PAGE, data % PAGE, size, false, false)
                        else Request(free[0], grefTxHead[0], data / PAGE, data % PAGE, size, false, false);
      ShownCut(pre, ring, gap, ps, bytes, next);
      ring := ring[tx := ring[tx].(size := bytes, moreData := true)];
      tx' := tx;
      ok := Post(skb, data / PAGE, data % PAGE, size);
      if !ok {
        return;
      }
      tx' := |ring| - 1;
    }

    /** The first loop of xennet_make_frags: the linear part, whose first slot is ring[first]. */
    method MakeLinear(skb: nat, first: nat, base: nat, headlen: nat, ghost pre: seq<Slot>, ghost gap: nat)
      returns (tx: nat, ok: bool)
      requires Pools() && Shown(pre, ring, gap, [Piece(base, headlen)]) && first == |pre|
      modifies txSkbs, grantTxRef, `grefTxHead, `ring, `free, `used
      ensures ok <==> |LinearPieces(base, headlen)| <= old(|free|) + 1
      ensures ok ==> Pools() && |free| + |LinearPieces(base, headlen)| == old(|free|) + 1
      ensures ok ==> Shown(pre, ring, gap, LinearPieces(base, headlen))
      ensures ok ==> tx == Position(|pre|, gap, |LinearPieces(base, headlen)| - 1)
    {
      hide Pools, Shown, LinearPieces;
      tx, ok := first, true;
      var data: nat, len: nat, offset: nat := base, headlen, base % PAGE;
      ghost var ps := [Piece(base, headlen)];
      while len > PAGE - offset
        invariant ok && Pools() && |free| + |ps| == old(|free|) + 1
        invariant offset == data % PAGE && ps != [] && ps[|ps| - 1] == Piece(data, len)
        invariant LinearPieces(base, headlen) == ps[..|ps| - 1] + LinearPieces(data, len)
        invariant Shown(pre, ring, gap, ps) && tx == Position(|pre|, gap, |ps| - 1)
        decreases len
      {
        var bytes: nat := PAGE - offset;
        LinearStep(ps, data, len);
        tx, ok := CutSlot(skb, tx, bytes, data + bytes, len - bytes, pre, gap, ps);
        if !ok {
          return;
        }
        ps := Cut(ps, bytes);
        len, data, offset := len - bytes, data + bytes, 0;
      }
      LinearEnd(ps, data, len);
    }

    /** One round of the second loop of xennet_make_frags: posts a piece behind the current slot. */
    method AppendSlot(skb: nat, tx: nat, addr: nat, bytes: nat, ghost pre: seq<Slot>, ghost gap: nat, ghost ps: seq<Piece>)
      returns (tx': nat, ok: bool)
      requires Pools() && Shown(pre, ring, gap, ps) && tx == Position(|pre|, gap, |ps| - 1)
      modifies txSkbs, grantTxRef, `grefTxHead, `ring, `free, `used
      ensures ok <==> old(free) != []
      ensures ok ==> Pools() && |free| == old(|free|) - 1
      ensures ok ==> Shown(pre, ring, gap, ps + [Piece(addr, bytes)]) && tx' == Position(|pre|, gap, |ps|)
    {
      ghost var next := if free == [] then Request(0, 0, addr / PAGE, addr % PAGE, bytes, false, false)
                        else Request(free[0], grefTxHead[0], addr / PAGE, addr % PAGE, bytes, false, false);
      ShownMore(pre, ring, gap, ps, Piece(addr, bytes), next);
      ring := ring[tx := ring[tx].(moreData := true)];
      tx' := tx;
      ok := Post(skb, addr / PAGE, addr % PAGE, bytes);
      if !ok {
        return;
      }
      tx' := |ring| - 1;
    }

    /** The inner part of the second loop of xennet_make_frags: one fragment. */
    method MakeFragment(skb: nat, tx: nat, frag: Piece, ghost pre: seq<Slot>, ghost gap: nat, ghost ps: seq<Piece>)
      returns (tx': nat, ok: bool)
      requires Pools() && Shown(pre, ring, gap, ps) && ps != [] && tx == Position(|pre|, gap, |ps| - 1)
      modifies txSkbs, grantTxRef, `grefTxHead, `ring, `free, `used
      ensures ok <==> |Pieces(frag.base, frag.size)| <= old(|free|)
      ensures ok ==> Pools() && |free| + |Pieces(frag.base, frag.size)| == old(|free|)
      ensures ok ==> Shown(pre, ring, gap, ps + Pieces(frag.base, frag.size))
      ensures ok ==> tx' == Position(|pre|, gap, |ps + Pieces(frag.base, frag.size)| - 1)
    {
      hide Pools, Shown, Pieces;
      tx', ok := tx, true;
      var addr: nat, len: nat := frag.base, frag.size;
      ghost var sofar := ps;
      while len > 0
        invariant ok && Pools() && |free| + |sofar| == old(|free|) + |ps|
        invariant sofar + Pieces(addr, len) == ps + Pieces(frag.base, frag.size)
        invariant Shown(pre, ring, gap, sofar) && sofar != [] && tx' == Position(|pre|, gap, |sofar| - 1)
      {
        var bytes: nat := PAGE - addr % PAGE;
        if bytes > len {
          bytes := len;
        }
        FragStep(sofar, addr, len);
        tx', ok := AppendSlot(skb, tx', addr, bytes, pre, gap, sofar);
        if !ok {
          return;
        }
        sofar := sofar + [Piece(addr, bytes)];
        addr, len := addr + bytes, len - bytes;
      }
      NoPieces(addr);
      assert sofar + [] == sofar;
    }

    /** xennet_make_frags: the first slot of the packet is ring[first]. */
    method MakeFrags(skb: nat, first: nat, base: nat, headlen: nat, frags: seq<Piece>, ghost pre: seq<Slot>, ghost gap: nat)
      returns (ok: bool)
      requires Pools() && Shown(pre, ring, gap, [Piece(base, headlen)]) && first == |pre|
      modifies txSkbs, grantTxRef, `grefTxHead, `ring, `free, `used
      ensures ok <==> |PacketPieces(base, headlen, frags)| <= old(|free|) + 1
      ensures ok ==> Pools() && |free| + |PacketPieces(base, headlen, frags)| == old(|free|) + 1
      ensures ok ==> Shown(pre, ring, gap, PacketPieces(base, headlen, frags))
    {
      LinearNotEmpty(base, headlen);
      hide Pools, Shown, Pieces, LinearPieces, FragPieces;
      ghost var linear := LinearPieces(base, headlen);
      var tx;
      tx, ok := MakeLinear(skb, first, base, headlen, pre, gap);
      if !ok {
        return;
      }
      var i: nat := 0;
      NoFrags(frags);
      assert linear + [] == linear;
      while i < |frags|
        invariant i <= |frags| && linear != []
        invariant ok && Pools() && |free| + |linear + FragPieces(frags[..i])| == old(|free|) + 1
        invariant Shown(pre, ring, gap, linear + FragPieces(frags[..i]))
        invariant tx == Position(|pre|, gap, |linear + FragPieces(frags[..i])| - 1)
      {
        FragNext(frags, i);
        FragPiecesPrefix(frags, i + 1);
        ghost var ps, more := linear + FragPieces(frags[..i]), Pieces(frags[i].base, frags[i].size);
        tx, ok := MakeFragment(skb, tx, frags[i], pre, gap, ps);
        if !ok {
          return;
        }
        assert ps + more == linear + FragPieces(frags[..i + 1]);
        i := i + 1;
      }
      assert frags[..i] == frags;
    }

    /** xennet_count_skb_frag_slots */
    static method CountFrags(frags: seq<Piece>) returns (pages: nat)
      ensures pages == |FragPieces(frags)|
    {
      FragPiecesPartition(frags);
      hide PfnUp;
      pages := 0;
      var i: nat := 0;
      while i < |frags|
        invariant i <= |frags| && pages == CountFragSlots(frags[..i])
      {
        assert frags[..i + 1][..i] == frags[..i];
        if frags[i].size != 0 {
          pages := pages + PfnUp(frags[i].base % PAGE + frags[i].size);
        }
        i := i + 1;
      }
      assert frags[..i] == frags;
    }

    /** Where netfront_tx_slot_available holds, any packet that passes the tests fits the ids and the ring. */
    lemma EnoughRoom(base: nat, headlen: nat, frags: seq<Piece>)
      requires Balanced() && SlotAvailable() && CountSlots(base, headlen, frags) <= MAX_SKB_FRAGS + 1
      ensures |PacketPieces(base, headlen, frags)| <= |free| && Outstanding() + |PacketPieces(base, headlen, frags)| + 1 <= RING
    {
      CountIsExact(base, headlen, frags);
      hide PacketPieces, CountSlots;
    }

    /** Writes the first slot of a packet, and its extra info. */
    method PostFirst(skb: nat, base: nat, headlen: nat, gso: bool) returns (ok: bool)
      requires Pools()
      modifies txSkbs, grantTxRef, `grefTxHead, `ring, `free, `used, `extrasOut
      ensures ok <==> old(free) != []
      ensures ok ==> Pools() && extrasOut == old(extrasOut) + (if gso then 1 else 0) && |free| == old(|free|) - 1
      ensures ok ==> Shown(old(ring), ring, if gso then 1 else 0, [Piece(base, headlen)])
    {
      hide Pools;
      var first := |ring|;
      ok := Post(skb, base / PAGE, base % PAGE, headlen);
      if !ok {
        return;
      }
      if gso {
        ring := ring[first := ring[first].(extraInfo := true)] + [Extra];
        extrasOut := extrasOut + 1;
      }
    }

    /** The part of network_start_xmit that writes the ring. */
    method WritePacket(skb: nat, base: nat, headlen: nat, frags: seq<Piece>, gso: bool) returns (ok: bool)
      requires Pools()
      modifies txSkbs, grantTxRef, `grefTxHead, `ring, `free, `used, `extrasOut
      ensures ok <==> |PacketPieces(base, headlen, frags)| <= old(|free|)
      ensures ok ==> Pools() && extrasOut == old(extrasOut) + (if gso then 1 else 0)
      ensures ok ==> |free| + |PacketPieces(base, headlen, frags)| == old(|free|)
      ensures ok ==>
              var first, gap, ps := old(|ring|), if gso then 1 else 0, PacketPieces(base, headlen, frags);
              && ps != [] && |ring| == first + gap + |ps|
              && ring[first].Request? && ring[first].size == TotalLength(headlen, frags)
              && Shown(old(ring), ring[first := ring[first].(size := ps[0].size)], gap, ps)
    {
      LinearNotEmpty(base, headlen);
      hide Shown, LinearPieces, FragPieces, TotalLength, Pools;
      ghost var pre, gap := ring, if gso then 1 else 0;
      var first := |ring|;
      ok := PostFirst(skb, base, headlen, gso);
      if !ok {
        return;
      }
      ok := MakeFrags(skb, first, base, headlen, frags, pre, gap);
      if !ok {
        return;
      }
      ShownSize(pre, ring, gap, PacketPieces(base, headlen, frags), TotalLength(headlen, frags));
      ring := ring[first := ring[first].(size := TotalLength(headlen, frags))];
    }

    /**
     * network_start_xmit up to the notification of the backend. `gso` asks for an extra-info slot;
     * `refuse` is the test of the carrier and of what the device can do. Where the list of free ids
     * ends, get_id_from_freelist goes on behind tx_skbs; the method stops there.
     */
    method StartXmit(skb: nat, base: nat, headlen: nat, frags: seq<Piece>, gso: bool, refuse: bool) returns (fate: Fate)
      requires Balanced() && !stopped
      modifies txSkbs, grantTxRef, `grefTxHead, `ring, `free, `used, `extrasOut
      ensures var posted, gap := |PacketPieces(base, headlen, frags)|, if gso then 1 else 0;
              var accepted := !refuse && TotalLength(headlen, frags) <= MAX_TX_SIZE && CountSlots(base, headlen, frags) <= MAX_SKB_FRAGS + 1;
              && (fate.Dropped? <==> !accepted)
              && (fate.RanOut? <==> accepted && posted > old(|free|))
              && (old(SlotAvailable()) ==> !fate.RanOut?)
              && (fate.Sent? ==>
                    && Pools() && |free| + posted == old(|free|)
                    && extrasOut == old(extrasOut) + gap
                    && Outstanding() == old(Outstanding()) + posted + gap
                    && (Balanced() <==> old(Outstanding()) + posted + gap <= RING)
                    && (old(SlotAvailable()) ==> Balanced()))
      ensures fate.Dropped? ==> Balanced() && ring == old(ring) && used == old(used) && free == old(free) && extrasOut == old(extrasOut)
      ensures fate.Sent? ==>
                var first, gap, ps := old(|ring|), if gso then 1 else 0, PacketPieces(base, headlen, frags);
                && ps != [] && |ring| == first + gap + |ps|
                && ring[first].Request? && ring[first].size == TotalLength(headlen, frags)
                && Shown(old(ring), ring[first := ring[first].(size := ps[0].size)], gap, ps)
    {
      var pages := CountFrags(frags);
      FragPiecesPartition(frags);
      hide Shown, PacketPieces, CountFragSlots, FragPieces, TotalLength, PfnUp;
      if TotalLength(headlen, frags) > MAX_TX_SIZE || PfnUp(base % PAGE + headlen) + pages > MAX_SKB_FRAGS + 1 || refuse {
        return Dropped;
      }
      if SlotAvailable() {
        EnoughRoom(base, headlen, frags);
      }
      var ok := WritePacket(skb, base, headlen, frags, gso);
      fate := if ok then Sent else RanOut;
    }

    /** What network_start_xmit does after network_tx_buf_gc. */
    method StopWhenFull()
      requires Balanced()
      modifies `stopped
      ensures Valid() && (stopped <==> old(stopped) || Outstanding() + MAX_SKB_FRAGS + 2 >= MAX_TARGET)
    {
      if !SlotAvailable() {
        stopped := true;
      }
    }

    /** network_close */
    method Close()
      requires Balanced()
      modifies `stopped
      ensures Valid() && stopped
    {
      stopped := true;
    }

    /** network_open starts the queue whether there is room or not. */
    method Open()
      requires Balanced()
      modifies `stopped
      ensures Balanced() && !stopped && (Valid() <==> Outstanding() + MAX_SKB_FRAGS + 2 < MAX_TARGET)
    {
      stopped := false;
    }

    /** Gives an id and its grant back. */
    method Release(id: nat)
      requires Pools() && id in used
      modifies txSkbs, grantTxRef, `grefTxHead, `free, `used
      ensures Pools() && free == [id] + old(free) && used == old(used) - {id} && |used| == old(|used|) - 1
      ensures grefTxHead == [old(grantTxRef[id])] + old(grefTxHead)
    {
      ChainAdd(txSkbs[..], free, used, id);
      GrantReleased(owned, grefTxHead, grantTxRef[..], id);
      grefTxHead := [grantTxRef[id]] + grefTxHead;
      grantTxRef[id] := 0;
      assert grantTxRef[..] == old(grantTxRef[..])[id := 0];
      txSkbs[id] := txSkbs[0];              // add_id_to_freelist
      txSkbs[0] := Free(id);
      assert txSkbs[..] == old(txSkbs[..][id := txSkbs[0]][0 := Free(id)]);
      free, used := [id] + free, used - {id};
    }

    /** network_tx_buf_gc, with the responses found on the ring. */
    method TxBufGc(answers: seq<Answer>, running: bool)
      requires Balanced() && Honest(answers, used, extrasOut)
      modifies txSkbs, grantTxRef, `grefTxHead, `free, `used, `extrasOut, `rspCons, `stopped
      ensures Balanced() && rspCons == old(rspCons) + |answers| && used == old(used) - DoneIds(answers)
      ensures stopped <==> old(stopped) && !(Outstanding() + MAX_SKB_FRAGS + 2 < MAX_TARGET && running)
    {
      hide Pools, Honest, DoneIds;
      var i: nat := 0;
      DoneNone(answers);
      assert answers[0..] == answers;
      while i < |answers|
        invariant i <= |answers| && Pools() && Honest(answers[i..], used, extrasOut)
        invariant |used| + extrasOut == old(|used| + extrasOut) - i
        invariant used == old(used) - DoneIds(answers[..i])
        modifies txSkbs, grantTxRef, `grefTxHead, `free, `used, `extrasOut
      {
        HonestStep(answers, i, used, extrasOut);
        DoneNext(answers, i);
        if answers[i].Null? {
          extrasOut := extrasOut - 1;
        } else {
          Release(answers[i].id);
        }
        i := i + 1;
      }
      assert answers[..i] == answers;
      rspCons := rspCons + |answers|;
      if stopped && SlotAvailable() && running {
        stopped := false;
      }
    }

    /** netif_release_tx_bufs, and the new ring after a reconnect. */
    method ReleaseAll()
      requires Pools()
      modifies txSkbs, grantTxRef, `grefTxHead, `free, `used, `ring, `rspCons, `extrasOut
      ensures Balanced() && SlotAvailable() && used == {} && |free| == RING && ring == []
    {
      hide Grants;
      var i: nat := 1;
      while i <= RING
        invariant 1 <= i <= RING + 1 && Pools() && forall id :: id in used ==> i <= id
      {
        if txSkbs[i].Used? {
          Release(i);
        }
        i := i + 1;
      }
      assert used == {};
      ring, rspCons, extrasOut := [], 0, 0;
    }

    constructor (refs: seq<nat>)
      requires |refs| == MAX_TARGET && (forall k :: 0 <= k < |refs| ==> 0 < refs[k] < 0x8000)
      requires forall k, l :: 0 <= k < l < |refs| ==> refs[k] != refs[l]
      ensures Valid() && fresh(txSkbs) && fresh(grantTxRef) && used == {} && ring == [] && !stopped
    {
      txSkbs := new Entry[RING + 1](i => Free(i + 1));
      grantTxRef := new nat[RING + 1](_ => 0);
      owned := AsSet(refs);
      grefTxHead, ring, rspCons, stopped := refs, [], 0, false;
      free, used, extrasOut := FirstIds(), {}, 0;
      new;
      hide Chain, Grants;
      ChainInitial(txSkbs[..], free);
      GrantsInitial(refs, grantTxRef[..], owned);
    }
  }

  /** Sends a packet of one byte n times, from a new ring; the backend answers none of them. */
  method SendMany(refs: seq<nat>, n: nat) returns (t: Transmitter)
    requires |refs| == MAX_TARGET && (forall k :: 0 <= k < |refs| ==> 0 < refs[k] < 0x8000)
    requires forall k, l :: 0 <= k < l < |refs| ==> refs[k] != refs[l]
    requires n < MAX_TARGET - MAX_SKB_FRAGS - 2
    ensures fresh(t) && fresh(t.txSkbs) && fresh(t.grantTxRef)
    ensures t.Valid() && !t.stopped && t.Outstanding() == n && t.extrasOut == 0
  {
    t := new Transmitter(refs);
    var i := 0;
    while i < n
      invariant 0 <= i <= n
      invariant fresh(t) && fresh(t.txSkbs) && fresh(t.grantTxRef)
      invariant t.Valid() && !t.stopped && t.Outstanding() == i && t.extrasOut == 0
    {
      OnePiece();
      var fate := t.StartXmit(1, 0, 1, [], false, false);
      t.StopWhenFull();
      i := i + 1;
    }
  }

  lemma OnePiece()
    ensures TotalLength(1, []) == 1 && CountSlots(0, 1, []) == 1 && |PacketPieces(0, 1, [])| == 1
  {
  }

  lemma FifteenPieces()
    ensures TotalLength(15 * PAGE, []) <= MAX_TX_SIZE && CountSlots(0, 15 * PAGE, []) == 15
    ensures |PacketPieces(0, 15 * PAGE, [])| == 15
  {
    CountIsExact(0, 15 * PAGE, []);
  }

  /**
   * Sending, closing and opening the interface leaves the queue running on a ring without room: five
   * ids are free, and a packet of fifteen pieces (FifteenPieces) runs out of them.
   */
  method ReopenedFull(refs: seq<nat>) returns (t: Transmitter)
    requires |refs| == MAX_TARGET && (forall k :: 0 <= k < |refs| ==> 0 < refs[k] < 0x8000)
    requires forall k, l :: 0 <= k < l < |refs| ==> refs[k] != refs[l]
    ensures fresh(t) && fresh(t.txSkbs) && fresh(t.grantTxRef)
    ensures t.Balanced() && !t.stopped && !t.SlotAvailable() && |t.free| == 5
  {
    t := SendMany(refs, 236);
    FifteenPieces();
    var fate := t.StartXmit(1, 0, 15 * PAGE, [], false, false);
    t.StopWhenFull();
    t.Close();
    t.Open();
  }

  /** In that state: the packet is refused nothing, and the id list ends under it. */
  method RunsOutAfterReopening(refs: seq<nat>) returns (t: Transmitter, fate: Fate)
    requires |refs| == MAX_TARGET && (forall k :: 0 <= k < |refs| ==> 0 < refs[k] < 0x8000)
    requires forall k, l :: 0 <= k < l < |refs| ==> refs[k] != refs[l]
    ensures fate.RanOut?
  {
    t := ReopenedFull(refs);
    FifteenPieces();
    fate := t.StartXmit(1, 0, 15 * PAGE, [], false, false);
  }
}
