/**
 * The grant-table allocator: a free list threaded through an array of entries, cut into private chains
 * and spliced together again, grown frame by frame, and a list of callbacks waiting for free entries.
 */
module GrantTable {

  import opened Common

  const END: nat := 0xffffffff
  const RESERVED: nat := 8
  const PER_FRAME: nat := 512               // ENTRIES_PER_GRANT_FRAME
  const PER_PAGE: nat := 1024               // RPP

  /** nr_freelist_frames: the fewest pages that hold the list for that many grant frames. */
  function ListPages(frames: nat): (pages: nat)
    ensures PER_FRAME * frames <= PER_PAGE * pages < PER_FRAME * frames + PER_PAGE
  {
    (frames * PER_FRAME + PER_PAGE - 1) / PER_PAGE
  }

  /** The frames gnttab_expand adds: the fewest that hold that many entries. */
  function ExtraFrames(required: nat): (frames: nat)
    ensures required <= PER_FRAME * frames < required + PER_FRAME
  {
    (required + (PER_FRAME - 1)) / PER_FRAME
  }

  // ----- chains of entries

  /** History: what an entry is used for. Private chains have a number for as long as they exist. */
  datatype Place = Reserved | Free | Private(k: nat) | Claimed

  function NextOf(s: seq<nat>, j: nat): nat {
    if j < |s| then s[j] else END
  }

  /** The entries link s together, up to END. */
  ghost predicate Links(entries: seq<nat>, s: seq<nat>) {
    forall j :: 0 <= j < |s| ==> s[j] < |entries| && entries[s[j]] == NextOf(s, j + 1)
  }

  ghost predicate Members(where: seq<Place>, s: seq<nat>, place: Place) {
    forall j :: 0 <= j < |s| ==> s[j] < |where| && where[s[j]] == place
  }

  ghost predicate Complete(where: seq<Place>, s: seq<nat>, place: Place) {
    forall i :: 0 <= i < |where| && where[i] == place ==> i in s
  }

  /** s is a chain that ends with END and holds exactly the entries of one place, each once. */
  ghost predicate Chain(entries: seq<nat>, where: seq<Place>, s: seq<nat>, place: Place) {
    && |where| == |entries| <= END
    && Links(entries, s) && Distinct(s) && Members(where, s, place) && Complete(where, s, place)
  }

  /** Some entries change their place. */
  function Move(where: seq<Place>, s: seq<nat>, place: Place): (r: seq<Place>)
    ensures |r| == |where| && forall i :: 0 <= i < |r| ==> r[i] == if i in s then place else where[i]
  {
    seq(|where|, i requires 0 <= i < |where| => if i in s then place else where[i])
  }

  /** A chain does not notice what happens to entries of other places. */
  lemma ChainUntouched(entries: seq<nat>, where: seq<Place>, entries': seq<nat>, where': seq<Place>, s: seq<nat>, place: Place)
    requires Chain(entries, where, s, place) && |entries| <= |entries'| == |where'| <= END
    requires forall i :: 0 <= i < |entries| && where[i] == place ==> entries'[i] == entries[i] && where'[i] == place
    requires forall i :: 0 <= i < |where'| && where'[i] == place ==> i < |where| && where[i] == place
    ensures Chain(entries', where', s, place)
  {
    hide Distinct;
  }

  lemma DistinctParts(s: seq<nat>, n: nat)
    requires Distinct(s) && n <= |s|
    ensures Distinct(s[..n]) && Distinct(s[n..])
    ensures forall j :: n <= j < |s| ==> s[j] !in s[..n]
  {
  }

  lemma LinksPrefix(entries: seq<nat>, s: seq<nat>, n: nat)
    requires n <= |s|
    requires forall j :: 0 <= j < n ==> s[j] < |entries| && entries[s[j]] == NextOf(s[..n], j + 1)
    ensures Links(entries, s[..n])
  {
    var a := s[..n];
    forall j | 0 <= j < |a|
      ensures a[j] < |entries| && entries[a[j]] == NextOf(a, j + 1)
    {
      assert a[j] == s[j];
    }
  }

  lemma LinksSuffix(entries: seq<nat>, s: seq<nat>, n: nat)
    requires n <= |s|
    requires forall j :: n <= j < |s| ==> s[j] < |entries| && entries[s[j]] == NextOf(s, j + 1)
    ensures Links(entries, s[n..]) && NextOf(s[n..], 0) == NextOf(s, n)
  {
    var b := s[n..];
    forall j | 0 <= j < |b|
      ensures b[j] < |entries| && entries[b[j]] == NextOf(b, j + 1)
    {
      assert b[j] == s[n + j];
    }
  }

  lemma CutBefore(entries: seq<nat>, s: seq<nat>, n: nat, j: nat)
    requires Links(entries, s) && Distinct(s) && 1 <= n <= |s| && j < n
    ensures s[n - 1] < |entries| && s[j] < |entries|
    ensures entries[s[n - 1] := END][s[j]] == NextOf(s[..n], j + 1)
  {
    if j + 1 < n {
      assert s[j] != s[n - 1] && entries[s[j]] == s[j + 1];
      hide Links, Distinct;
    }
  }

  lemma CutBehind(entries: seq<nat>, s: seq<nat>, n: nat, j: nat)
    requires Links(entries, s) && Distinct(s) && 1 <= n <= j < |s|
    ensures s[n - 1] < |entries| && s[j] < |entries|
    ensures entries[s[n - 1] := END][s[j]] == NextOf(s, j + 1)
  {
  }

  /** Cutting the links behind the n-th entry. */
  lemma LinksCut(entries: seq<nat>, s: seq<nat>, n: nat)
    requires Links(entries, s) && Distinct(s) && 1 <= n <= |s|
    ensures s[n - 1] < |entries| && entries[s[n - 1]] == NextOf(s[n..], 0)
    ensures Links(entries[s[n - 1] := END], s[..n]) && Links(entries[s[n - 1] := END], s[n..])
  {
    assert s[n - 1] < |entries| && entries[s[n - 1]] == NextOf(s, n);
    hide Links, Distinct;
    forall j | 0 <= j < n
      ensures s[j] < |entries| && entries[s[n - 1] := END][s[j]] == NextOf(s[..n], j + 1)
    {
      CutBefore(entries, s, n, j);
    }
    forall j | n <= j < |s|
      ensures s[j] < |entries| && entries[s[n - 1] := END][s[j]] == NextOf(s, j + 1)
    {
      CutBehind(entries, s, n, j);
    }
    LinksPrefix(entries[s[n - 1] := END], s, n);
    LinksSuffix(entries[s[n - 1] := END], s, n);
  }

  /** Cutting the places behind the n-th entry. */
  lemma PlacesCut(where: seq<Place>, s: seq<nat>, n: nat, place: Place, place': Place)
    requires Members(where, s, place) && Complete(where, s, place) && n <= |s| && place != place'
    requires forall i :: 0 <= i < |where| ==> where[i] != place'
    requires forall j :: n <= j < |s| ==> s[j] !in s[..n]
    ensures var where' := Move(where, s[..n], place');
            && Members(where', s[..n], place') && Complete(where', s[..n], place')
            && Members(where', s[n..], place) && Complete(where', s[n..], place)
  {
    assert s == s[..n] + s[n..];
  }

  /** Cutting a chain in two: the first n entries get a place of their own. */
  lemma ChainCut(entries: seq<nat>, where: seq<Place>, s: seq<nat>, n: nat, place: Place, place': Place)
    requires Chain(entries, where, s, place) && 1 <= n <= |s| && place != place'
    requires forall i :: 0 <= i < |where| ==> where[i] != place'
    ensures s[n - 1] < |entries| && entries[s[n - 1]] == NextOf(s[n..], 0)
    ensures var entries', where' := entries[s[n - 1] := END], Move(where, s[..n], place');
            Chain(entries', where', s[..n], place') && Chain(entries', where', s[n..], place)
  {
    hide Links, Distinct, Members, Complete;
    LinksCut(entries, s, n);
    DistinctParts(s, n);
    PlacesCut(where, s, n, place, place');
  }

  lemma PlacesPop(where: seq<Place>, s: seq<nat>, place: Place, place': Place)
    requires Members(where, s, place) && Complete(where, s, place) && Distinct(s) && s != [] && place != place'
    ensures s[0] < |where| && Members(where[s[0] := place'], s[1..], place) && Complete(where[s[0] := place'], s[1..], place)
  {
    assert s == [s[0]] + s[1..];
  }

  /** Taking the first entry off a chain. */
  lemma ChainPop(entries: seq<nat>, where: seq<Place>, s: seq<nat>, place: Place, place': Place)
    requires Chain(entries, where, s, place) && s != [] && place != place'
    ensures s[0] < |entries| && entries[s[0]] == NextOf(s[1..], 0)
    ensures Chain(entries, where[s[0] := place'], s[1..], place)
  {
    LinksSuffix(entries, s, 1);
    PlacesPop(where, s, place, place');
    DistinctParts(s, 1);
    hide Distinct, Members, Complete;
  }

  lemma LinksPush(entries: seq<nat>, s: seq<nat>, i: nat)
    requires Links(entries, s) && i < |entries| && forall j :: 0 <= j < |s| ==> s[j] != i
    ensures Links(entries[i := NextOf(s, 0)], [i] + s)
  {
  }

  lemma PlacesPush(where: seq<Place>, s: seq<nat>, i: nat, place: Place)
    requires Members(where, s, place) && Complete(where, s, place) && i < |where|
    ensures Members(where[i := place], [i] + s, place) && Complete(where[i := place], [i] + s, place)
  {
  }

  lemma DistinctPush(s: seq<nat>, i: nat)
    requires Distinct(s) && forall j :: 0 <= j < |s| ==> s[j] != i
    ensures Distinct([i] + s)
  {
  }

  /** Putting an entry in front of a chain. */
  lemma ChainPush(entries: seq<nat>, where: seq<Place>, s: seq<nat>, i: nat, place: Place)
    requires Chain(entries, where, s, place) && i < |entries| && where[i] != place
    ensures Chain(entries[i := NextOf(s, 0)], where[i := place], [i] + s, place)
  {
    LinksPush(entries, s, i);
    PlacesPush(where, s, i, place);
    DistinctPush(s, i);
    hide Links, Distinct, Members, Complete;
  }

  /** Splicing one chain in front of another. */
  lemma ChainSplice(entries: seq<nat>, where: seq<Place>, s: seq<nat>, place: Place, t: seq<nat>, place': Place)
    requires Chain(entries, where, s, place) && Chain(entries, where, t, place') && s != [] && place != place'
    ensures s[|s| - 1] < |entries|
    ensures Chain(entries[s[|s| - 1] := NextOf(t, 0)], Move(where, s, place'), s + t, place')
  {
    var entries', where' := entries[s[|s| - 1] := NextOf(t, 0)], Move(where, s, place');
    assert Links(entries', s + t) by { hide Complete; }
    assert Distinct(s + t) by { hide Complete, Links; }
    assert Members(where', s + t, place') by { hide Complete, Links; }
    assert Complete(where', s + t, place') by { hide Links, Distinct, Members; }
  }

  // ----- the whole table

  type Chains = map<nat, seq<nat>>

  ghost predicate EachChain(entries: seq<nat>, where: seq<Place>, chains: Chains) {
    forall k :: k in chains ==> Chain(entries, where, chains[k], Private(k))
  }

  ghost predicate Known(where: seq<Place>, chains: Chains) {
    forall i :: 0 <= i < |where| && where[i].Private? ==> where[i].k in chains
  }

  ghost predicate ReservedOk(where: seq<Place>) {
    |where| >= RESERVED && forall i :: 0 <= i < |where| ==> (where[i] == Reserved <==> i < RESERVED)
  }

  /**
   * Every entry is reserved, on the free chain, on one private chain, or claimed; all chains end with
   * END, and none holds a reserved entry.
   */
  ghost predicate Partition(entries: seq<nat>, where: seq<Place>, free: seq<nat>, chains: Chains) {
    Chain(entries, where, free, Free) && EachChain(entries, where, chains) && Known(where, chains) && ReservedOk(where)
  }

  /** The entries of the private chains in `chains` keep their places and their links. */
  ghost predicate Kept(entries: seq<nat>, where: seq<Place>, entries': seq<nat>, where': seq<Place>, chains: Chains) {
    && |where| == |entries| <= |entries'| == |where'| <= END
    && (forall i :: 0 <= i < |where| && where[i].Private? && where[i].k in chains ==> where'[i] == where[i] && entries'[i] == entries[i])
    && (forall i :: 0 <= i < |where'| && where'[i].Private? && where'[i].k in chains ==> i < |where| && where[i] == where'[i])
  }

  lemma EachUntouched(entries: seq<nat>, where: seq<Place>, entries': seq<nat>, where': seq<Place>, chains: Chains)
    requires EachChain(entries, where, chains) && Kept(entries, where, entries', where', chains)
    ensures EachChain(entries', where', chains)
  {
    forall k | k in chains
      ensures Chain(entries', where', chains[k], Private(k))
    {
      ChainUntouched(entries, where, entries', where', chains[k], Private(k));
    }
  }

  // ----- the operations on a partition

  lemma HasPlace(entries: seq<nat>, where: seq<Place>, s: seq<nat>, place: Place)
    requires Chain(entries, where, s, place)
    ensures |where| == |entries| <= END && forall i :: i in s ==> i < |where| && where[i] == place
    ensures forall j :: 0 <= j < |s| ==> s[j] < |entries| && where[s[j]] == place
  {
  }

  lemma EachAdd(entries: seq<nat>, where: seq<Place>, chains: Chains, k: nat, s: seq<nat>)
    requires EachChain(entries, where, chains - {k}) && Chain(entries, where, s, Private(k))
    ensures EachChain(entries, where, chains[k := s])
  {
  }

  lemma EachRemove(entries: seq<nat>, where: seq<Place>, chains: Chains, k: nat)
    requires EachChain(entries, where, chains)
    ensures EachChain(entries, where, chains - {k})
    ensures k in chains ==> Chain(entries, where, chains[k], Private(k))
  {
  }

  /** One entry changes its place. */
  lemma PlaceChanges(where: seq<Place>, chains: Chains, g: nat, place: Place, k: nat, s: seq<nat>)
    requires Known(where, chains) && ReservedOk(where) && g < |where| && where[g] != Reserved && place != Reserved
    requires place.Private? ==> place.k == k
    ensures Known(where[g := place], chains[k := s]) && ReservedOk(where[g := place])
  {
  }

  /** get_free_entries: n free entries become private chain k. */
  lemma PartitionGet(entries: seq<nat>, where: seq<Place>, free: seq<nat>, chains: Chains, n: nat, k: nat)
    requires Partition(entries, where, free, chains) && 1 <= n <= |free| && k !in chains
    ensures free[n - 1] < |entries| && entries[free[n - 1]] == NextOf(free[n..], 0)
    ensures Partition(entries[free[n - 1] := END], Move(where, free[..n], Private(k)), free[n..], chains[k := free[..n]])
  {
    HasPlace(entries, where, free, Free);
    var entries', where' := entries[free[n - 1] := END], Move(where, free[..n], Private(k));
    ChainCut(entries, where, free, n, Free, Private(k));
    PlacesMoved(where, chains, free, n, k);
    KeptByGet(entries, where, free, chains, n, k);
    hide Chain, EachChain, Known, ReservedOk, Kept, Move;
    EachUntouched(entries, where, entries', where', chains);
    assert chains - {k} == chains;
    EachAdd(entries', where', chains, k, free[..n]);
  }

  /** Free entries become private chain k: every private entry still has a chain, and reserved ones stay. */
  lemma PlacesMoved(where: seq<Place>, chains: Chains, free: seq<nat>, n: nat, k: nat)
    requires Known(where, chains) && ReservedOk(where) && n <= |free| && forall j :: 0 <= j < |free| ==> free[j] < |where| && where[free[j]] == Free
    ensures Known(Move(where, free[..n], Private(k)), chains[k := free[..n]]) && ReservedOk(Move(where, free[..n], Private(k)))
  {
  }

  lemma KeptByGet(entries: seq<nat>, where: seq<Place>, free: seq<nat>, chains: Chains, n: nat, k: nat)
    requires |where| == |entries| <= END && 1 <= n <= |free| && k !in chains
    requires forall j :: 0 <= j < |free| ==> free[j] < |entries| && where[free[j]] == Free
    ensures Kept(entries, where, entries[free[n - 1] := END], Move(where, free[..n], Private(k)), chains)
  {
  }

  /** gnttab_claim_grant_reference */
  lemma PartitionClaim(entries: seq<nat>, where: seq<Place>, free: seq<nat>, chains: Chains, k: nat)
    requires Partition(entries, where, free, chains) && k in chains && chains[k] != []
    ensures var g := chains[k][0];
            && g < |entries| && entries[g] == NextOf(chains[k][1..], 0)
            && Partition(entries, where[g := Claimed], free, chains[k := chains[k][1..]])
  {
    var s := chains[k];
    EachRemove(entries, where, chains, k);
    HasPlace(entries, where, s, Private(k));
    PlaceChanges(where, chains, s[0], Claimed, k, s[1..]);
    hide Chain, EachChain, Known, ReservedOk;
    ChainPop(entries, where, s, Private(k), Claimed);
    var where' := where[s[0] := Claimed];
    ChainUntouched(entries, where, entries, where', free, Free);
    EachUntouched(entries, where, entries, where', chains - {k});
    EachAdd(entries, where', chains, k, s[1..]);
  }

  /** gnttab_release_grant_reference */
  lemma PartitionRelease(entries: seq<nat>, where: seq<Place>, free: seq<nat>, chains: Chains, k: nat, g: nat)
    requires Partition(entries, where, free, chains) && k in chains && g < |where| && where[g] == Claimed
    ensures |where| == |entries|
    ensures Partition(entries[g := NextOf(chains[k], 0)], where[g := Private(k)], free, chains[k := [g] + chains[k]])
  {
    var entries', where' := entries[g := NextOf(chains[k], 0)], where[g := Private(k)];
    EachRemove(entries, where, chains, k);
    HasPlace(entries, where, chains[k], Private(k));
    PlaceChanges(where, chains, g, Private(k), k, [g] + chains[k]);
    hide Chain, EachChain, Known, ReservedOk;
    ChainPush(entries, where, chains[k], g, Private(k));
    ChainUntouched(entries, where, entries', where', free, Free);
    EachUntouched(entries, where, entries', where', chains - {k});
    EachAdd(entries', where', chains, k, [g] + chains[k]);
  }

  /** put_free_entry */
  lemma PartitionPut(entries: seq<nat>, where: seq<Place>, free: seq<nat>, chains: Chains, g: nat)
    requires Partition(entries, where, free, chains) && g < |where| && where[g] == Claimed
    ensures |where| == |entries|
    ensures Partition(entries[g := NextOf(free, 0)], where[g := Free], [g] + free, chains)
  {
    ChainPush(entries, where, free, g, Free);
    hide Chain;
    EachUntouched(entries, where, entries[g := NextOf(free, 0)], where[g := Free], chains);
  }

  /** gnttab_free_grant_references */
  lemma PartitionSplice(entries: seq<nat>, where: seq<Place>, free: seq<nat>, chains: Chains, k: nat)
    requires Partition(entries, where, free, chains) && k in chains && chains[k] != []
    ensures var s := chains[k];
            && s[|s| - 1] < |entries|
            && Partition(entries[s[|s| - 1] := NextOf(free, 0)], Move(where, s, Free), s + free, chains - {k})
  {
    var s := chains[k];
    HasPlace(entries, where, s, Private(k));
    hide Chain;
    ChainSplice(entries, where, s, Private(k), free, Free);
    EachUntouched(entries, where, entries[s[|s| - 1] := NextOf(free, 0)], Move(where, s, Free), chains - {k});
  }

  /** The entries from `from` up to `to`, in order. */
  function Range(from: nat, to: nat): (r: seq<nat>)
    requires from <= to
    ensures |r| == to - from && forall j :: 0 <= j < |r| ==> r[j] == from + j
  {
    seq(to - from, j requires 0 <= j < to - from => from + j)
  }

  /** The entries of the frames from f to f'. */
  function FrameEntries(f: nat, f': nat): (r: seq<nat>)
    requires f <= f'
    ensures |r| == PER_FRAME * (f' - f)
  {
    Range(PER_FRAME * f, PER_FRAME * f')
  }

  lemma InRange(from: nat, to: nat, x: nat)
    requires from <= x < to
    ensures x in Range(from, to)
  {
    assert Range(from, to)[x - from] == x;
  }

  /** The links of new entries: each to the next, the last to the old head. */
  ghost predicate Grown(entries: seq<nat>, entries': seq<nat>, head: nat) {
    && |entries| < |entries'| && entries'[..|entries|] == entries
    && (forall i :: |entries| <= i < |entries'| - 1 ==> entries'[i] == i + 1)
    && entries'[|entries'| - 1] == head
  }

  function AllFree(n: nat): (r: seq<Place>)
    ensures |r| == n && forall i :: 0 <= i < n ==> r[i] == Free
  {
    seq(n, _ => Free)
  }

  lemma GrownLinks(entries: seq<nat>, entries': seq<nat>, free: seq<nat>)
    requires Links(entries, free) && Grown(entries, entries', NextOf(free, 0))
    ensures Links(entries', Range(|entries|, |entries'|) + free)
  {
    var new_ := Range(|entries|, |entries'|);
    var all := new_ + free;
    forall j | 0 <= j < |all|
      ensures all[j] < |entries'| && entries'[all[j]] == NextOf(all, j + 1)
    {
      if j >= |new_| {
        assert all[j] == free[j - |new_|];
        assert entries[all[j]] == entries'[..|entries|][all[j]];
      }
    }
  }

  lemma GrownPlaces(where: seq<Place>, n: nat, free: seq<nat>)
    requires Members(where, free, Free) && Complete(where, free, Free) && Distinct(free)
    ensures var where', all := where + AllFree(n), Range(|where|, |where| + n) + free;
            Members(where', all, Free) && Complete(where', all, Free) && Distinct(all)
  {
    var where', all := where + AllFree(n), Range(|where|, |where| + n) + free;
    forall i | 0 <= i < |where'| && where'[i] == Free
      ensures i in all
    {
      if i >= |where| {
        InRange(|where|, |where| + n, i);
      }
    }
  }

  lemma ChainGrow(entries: seq<nat>, entries': seq<nat>, where: seq<Place>, free: seq<nat>)
    requires Chain(entries, where, free, Free) && Grown(entries, entries', NextOf(free, 0)) && |entries'| <= END
    ensures Chain(entries', where + AllFree(|entries'| - |entries|), Range(|entries|, |entries'|) + free, Free)
  {
    assert |entries| < |entries'|;
    hide Links, Members, Complete, Distinct, Grown, Range, AllFree;
    var n := |entries'| - |entries|;
    assert |where| == |entries| && |entries| + n == |entries'|;
    var where', all := where + AllFree(n), Range(|entries|, |entries'|) + free;
    assert Links(entries', all) by { GrownLinks(entries, entries', free); }
    assert Members(where', all, Free) && Complete(where', all, Free) && Distinct(all) by { GrownPlaces(where, n, free); }
    assert |where'| == |entries'|;
  }

  lemma KeptGrow(entries: seq<nat>, entries': seq<nat>, where: seq<Place>, head: nat, chains: Chains)
    requires Grown(entries, entries', head) && |where| == |entries| && |entries'| <= END
    ensures Kept(entries, where, entries', where + AllFree(|entries'| - |entries|), chains)
  {
    assert forall i :: 0 <= i < |entries| ==> entries'[i] == entries'[..|entries|][i];
  }

  /** grow_gnttab_list */
  lemma PartitionGrow(entries: seq<nat>, entries': seq<nat>, where: seq<Place>, free: seq<nat>, chains: Chains)
    requires Partition(entries, where, free, chains) && Grown(entries, entries', NextOf(free, 0)) && |entries'| <= END
    ensures Partition(entries', where + AllFree(|entries'| - |entries|), Range(|entries|, |entries'|) + free, chains)
  {
    HasPlace(entries, where, free, Free);
    hide Chain, EachChain, Kept, Grown;
    ChainGrow(entries, entries', where, free);
    KeptGrow(entries, entries', where, NextOf(free, 0), chains);
    EachUntouched(entries, where, entries', where + AllFree(|entries'| - |entries|), chains);
  }

  /** An entry is on the one chain its place names, and on no other; the reserved ones are on none. */
  lemma EntryOnOneChain(entries: seq<nat>, where: seq<Place>, free: seq<nat>, chains: Chains, i: nat)
    requires Partition(entries, where, free, chains) && i < |where|
    ensures i in free <==> where[i] == Free
    ensures forall k :: k in chains ==> (i in chains[k] <==> where[i] == Private(k))
    ensures i < RESERVED ==> i !in free && forall k :: k in chains ==> i !in chains[k]
  {
    HasPlace(entries, where, free, Free);
    forall k | k in chains
      ensures i in chains[k] <==> where[i] == Private(k)
    {
      HasPlace(entries, where, chains[k], Private(k));
      assert Complete(where, chains[k], Private(k));
    }
  }


  /** No two chains share an entry, and every entry that is not reserved or claimed is on one of them. */
  lemma ChainsDisjoint(entries: seq<nat>, where: seq<Place>, free: seq<nat>, chains: Chains)
    requires Partition(entries, where, free, chains)
    ensures forall i, k :: i in free && k in chains ==> i !in chains[k]
    ensures forall i, k, l :: k in chains && l in chains && k != l && i in chains[k] ==> i !in chains[l]
    ensures forall i :: RESERVED <= i < |where| && where[i] != Claimed ==> i in free || exists k :: k in chains && i in chains[k]
  {
    forall i: nat | i < |where|
      ensures i in free <==> where[i] == Free
      ensures forall k :: k in chains ==> (i in chains[k] <==> where[i] == Private(k))
    {
      EntryOnOneChain(entries, where, free, chains, i);
    }
    HasPlace(entries, where, free, Free);
    forall i: nat, k | k in chains && i in chains[k]
      ensures i < |where| && where[i] == Private(k)
    {
      HasPlace(entries, where, chains[k], Private(k));
    }
  }
  /** gnttab_init: everything behind the reserved entries is free. */
  function FirstPlaces(): (r: seq<Place>)
    ensures |r| == PER_FRAME && forall i :: 0 <= i < |r| ==> r[i] == if i < RESERVED then Reserved else Free
  {
    seq(PER_FRAME, i requires 0 <= i => if i < RESERVED then Reserved else Free)
  }

  lemma PartitionInitial(entries: seq<nat>)
    requires |entries| == PER_FRAME && entries[PER_FRAME - 1] == END
    requires forall i :: RESERVED <= i < PER_FRAME - 1 ==> entries[i] == i + 1
    ensures Partition(entries, FirstPlaces(), Range(RESERVED, PER_FRAME), map[])
  {
    forall i | RESERVED <= i < PER_FRAME
      ensures i in Range(RESERVED, PER_FRAME)
    {
      InRange(RESERVED, PER_FRAME, i);
    }
  }

  // ----- callbacks waiting for free entries

  /** Callback c needs more free entries than there are. */
  predicate Waits(counts: map<nat, nat>, c: nat, free: nat) {
    c in counts && counts[c] > free
  }

  /** The callbacks that do_free_callbacks runs, and those it keeps, in reverse order. */
  function Ready(list: seq<nat>, counts: map<nat, nat>, free: nat): seq<nat> {
    if list == [] then [] else
      var n := |list| - 1;
      Ready(list[..n], counts, free) + if Waits(counts, list[n], free) then [] else [list[n]]
  }

  function StillWaiting(list: seq<nat>, counts: map<nat, nat>, free: nat): seq<nat> {
    if list == [] then [] else
      var n := |list| - 1;
      (if Waits(counts, list[n], free) then [list[n]] else []) + StillWaiting(list[..n], counts, free)
  }

  lemma SplitStep(ready: seq<nat>, kept: seq<nat>, list: seq<nat>, c: nat)
    requires multiset(ready) + multiset(kept) == multiset(list)
    ensures multiset(ready + [c]) + multiset(kept) == multiset(list + [c])
    ensures multiset(ready) + multiset([c] + kept) == multiset(list + [c])
  {
  }

  /** Each callback on the list is run or kept, once. */
  lemma {:induction false} CallbacksSplit(list: seq<nat>, counts: map<nat, nat>, free: nat)
    ensures multiset(Ready(list, counts, free)) + multiset(StillWaiting(list, counts, free)) == multiset(list)
  {
    hide Waits;
    if list != [] {
      var n := |list| - 1;
      CallbacksSplit(list[..n], counts, free);
      SplitStep(Ready(list[..n], counts, free), StillWaiting(list[..n], counts, free), list[..n], list[n]);
      assert list == list[..n] + [list[n]];
      if Waits(counts, list[n], free) {
        assert Ready(list, counts, free) == Ready(list[..n], counts, free);
      } else {
        assert StillWaiting(list, counts, free) == StillWaiting(list[..n], counts, free);
      }
    }
  }

  /** It is kept exactly if it still waits. */
  lemma {:induction false} KeptIffWaiting(list: seq<nat>, counts: map<nat, nat>, free: nat, c: nat)
    ensures c in StillWaiting(list, counts, free) <==> c in list && c in counts && counts[c] > free
    ensures c in Ready(list, counts, free) <==> c in list && (c in counts ==> counts[c] <= free)
  {
    if list != [] {
      var n := |list| - 1;
      KeptIffWaiting(list[..n], counts, free, c);
      assert list == list[..n] + [list[n]];
    }
  }

  lemma {:induction false} KeptDistinct(list: seq<nat>, counts: map<nat, nat>, free: nat)
    requires Distinct(list)
    ensures Distinct(StillWaiting(list, counts, free)) && Distinct(Ready(list, counts, free))
  {
    hide Waits;
    if list != [] {
      var n := |list| - 1;
      KeptDistinct(list[..n], counts, free);
      KeptIffWaiting(list[..n], counts, free, list[n]);
      assert list[n] !in list[..n];
    }
  }

  /** No callback is on the list twice, and `queued` says which are on it. */
  ghost predicate Listed(list: seq<nat>, queued: set<nat>, counts: map<nat, nat>) {
    && Distinct(list)
    && (forall c :: c in queued <==> c in list)
    && (forall k :: 0 <= k < |list| ==> list[k] in counts)
  }

  /** And every callback on the list waits for more free entries than there are. */
  ghost predicate WaitersOk(list: seq<nat>, queued: set<nat>, counts: map<nat, nat>, free: nat) {
    Listed(list, queued, counts) && forall k :: 0 <= k < |list| ==> list[k] in counts && counts[list[k]] > free
  }

  lemma {:induction false} ReadyAndKept(list: seq<nat>, queued: set<nat>, counts: map<nat, nat>, free: nat)
    requires Listed(list, queued, counts)
    ensures WaitersOk(StillWaiting(list, counts, free), queued - Elements(Ready(list, counts, free)), counts, free)
  {
    KeptDistinct(list, counts, free);
    forall c
      ensures c in StillWaiting(list, counts, free) <==> c in list && Waits(counts, c, free)
      ensures c in Ready(list, counts, free) <==> c in list && !Waits(counts, c, free)
    {
      KeptIffWaiting(list, counts, free, c);
    }
    hide StillWaiting, Ready;
    var kept := StillWaiting(list, counts, free);
    forall k | 0 <= k < |kept|
      ensures Waits(counts, kept[k], free)
    {
      assert kept[k] in kept;
    }
  }

  function Elements(s: seq<nat>): (r: set<nat>)
    ensures forall x :: x in r <==> x in s
  {
    set x | x in s
  }

  /** The loop of do_free_callbacks after m callbacks. */
  ghost predicate Running(list: seq<nat>, m: nat, counts: map<nat, nat>, free: nat, queued0: set<nat>, fired0: seq<nat>,
                          kept: seq<nat>, queued: set<nat>, fired: seq<nat>)
  {
    && m <= |list| && kept == StillWaiting(list[..m], counts, free)
    && fired == fired0 + Ready(list[..m], counts, free)
    && queued == queued0 - Elements(Ready(list[..m], counts, free))
  }

  lemma RunningStarts(list: seq<nat>, counts: map<nat, nat>, free: nat, queued: set<nat>, fired: seq<nat>)
    ensures Running(list, 0, counts, free, queued, fired, [], queued, fired)
  {
  }

  lemma RunningNext(list: seq<nat>, m: nat, counts: map<nat, nat>, free: nat, queued0: set<nat>, fired0: seq<nat>,
                    kept: seq<nat>, queued: set<nat>, fired: seq<nat>)
    requires Running(list, m, counts, free, queued0, fired0, kept, queued, fired) && m < |list|
    ensures Waits(counts, list[m], free) ==>
              Running(list, m + 1, counts, free, queued0, fired0, [list[m]] + kept, queued, fired)
    ensures !Waits(counts, list[m], free) ==>
              Running(list, m + 1, counts, free, queued0, fired0, kept, queued - {list[m]}, fired + [list[m]])
  {
    assert list[..m + 1][..m] == list[..m];
    var ready := Ready(list[..m], counts, free);
    assert Elements(ready + [list[m]]) == Elements(ready) + {list[m]};
  }

  lemma RunningEnds(list: seq<nat>, counts: map<nat, nat>, free: nat, queued0: set<nat>, fired0: seq<nat>,
                    kept: seq<nat>, queued: set<nat>, fired: seq<nat>)
    requires Running(list, |list|, counts, free, queued0, fired0, kept, queued, fired)
    ensures kept == StillWaiting(list, counts, free) && fired == fired0 + Ready(list, counts, free)
    ensures queued == queued0 - Elements(Ready(list, counts, free))
  {
    assert list[..|list|] == list;
  }

  /** Every request is answered by running or by cancelling the callback, or it still waits. */
  ghost predicate Logged(requests: seq<nat>, fired: seq<nat>, cancelled: seq<nat>, list: seq<nat>) {
    multiset(requests) == multiset(fired) + multiset(cancelled) + multiset(list)
  }

  lemma LoggedAfter(requests: seq<nat>, fired: seq<nat>, cancelled: seq<nat>, list: seq<nat>, counts: map<nat, nat>, free: nat)
    requires Logged(requests, fired, cancelled, list)
    ensures Logged(requests, fired + Ready(list, counts, free), cancelled, StillWaiting(list, counts, free))
  {
    CallbacksSplit(list, counts, free);
    hide Ready, StillWaiting;
    var ready := Ready(list, counts, free);
    assert multiset(fired + ready) == multiset(fired) + multiset(ready);
  }

  lemma RequestListed(list: seq<nat>, queued: set<nat>, counts: map<nat, nat>, c: nat, count: nat)
    requires Listed(list, queued, counts) && c !in queued
    ensures Listed([c] + list, queued + {c}, counts[c := count])
  {
  }

  lemma LoggedRequest(requests: seq<nat>, fired: seq<nat>, cancelled: seq<nat>, list: seq<nat>, c: nat)
    requires Logged(requests, fired, cancelled, list)
    ensures Logged(requests + [c], fired, cancelled, [c] + list)
  {
  }

  lemma CancelListed(list: seq<nat>, queued: set<nat>, counts: map<nat, nat>, free: nat, i: nat)
    requires WaitersOk(list, queued, counts, free) && i < |list|
    ensures WaitersOk(list[..i] + list[i + 1..], queued - {list[i]}, counts, free)
    ensures list[i] in queued && forall c :: c in list[..i] + list[i + 1..] <==> c in list && c != list[i]
  {
    var rest := list[..i] + list[i + 1..];
    assert list == list[..i] + ([list[i]] + list[i + 1..]);
    DistinctParts(list, i);
    DistinctParts(list, i + 1);
    forall k | 0 <= k < |rest|
      ensures Waits(counts, rest[k], free) && rest[k] != list[i]
    {
      assert rest[k] == if k < i then list[k] else list[k + 1];
    }
  }

  lemma CancelEffect(list: seq<nat>, queued: set<nat>, counts: map<nat, nat>, free: nat, c: nat, i: nat)
    requires WaitersOk(list, queued, counts, free) && i <= |list|
    requires (i < |list| ==> list[i] == c) && (i == |list| ==> c !in list)
    ensures i == |list| ==> c !in queued && queued - {c} == queued
    ensures i < |list| ==>
              && c in queued && WaitersOk(list[..i] + list[i + 1..], queued - {c}, counts, free)
              && forall x :: x in list[..i] + list[i + 1..] <==> x in list && x != c
  {
    if i < |list| {
      CancelListed(list, queued, counts, free, i);
    }
  }

  lemma LoggedCancel(requests: seq<nat>, fired: seq<nat>, cancelled: seq<nat>, list: seq<nat>, i: nat)
    requires Logged(requests, fired, cancelled, list) && i < |list|
    ensures Logged(requests, fired, cancelled + [list[i]], list[..i] + list[i + 1..])
  {
    assert list == list[..i] + ([list[i]] + list[i + 1..]);
    assert multiset(list) == multiset(list[..i]) + multiset{list[i]} + multiset(list[i + 1..]);
  }

  /** A chain of a private place that is empty is forgotten. */
  lemma PartitionDrop(entries: seq<nat>, where: seq<Place>, free: seq<nat>, chains: Chains, k: nat)
    requires Partition(entries, where, free, chains) && k in chains && chains[k] == []
    ensures Partition(entries, where, free, chains - {k})
  {
    assert Complete(where, chains[k], Private(k));
  }

  /** The lists and the head and count of the free chain. */
  ghost predicate ListsOk(entries: seq<nat>, frames: nat, head: nat, count: nat, where: seq<Place>, free: seq<nat>, chains: Chains) {
    && Partition(entries, where, free, chains) && frames > 0 && |entries| == PER_FRAME * frames
    && head == NextOf(free, 0) && count == |free|
  }

  lemma ListsPut(entries: seq<nat>, frames: nat, head: nat, count: nat, where: seq<Place>, free: seq<nat>, chains: Chains, g: nat)
    requires ListsOk(entries, frames, head, count, where, free, chains) && g < |where| && where[g] == Claimed
    ensures g < |entries|
    ensures ListsOk(entries[g := head], frames, g, count + 1, where[g := Free], [g] + free, chains)
  {
    PartitionPut(entries, where, free, chains, g);
    hide Partition;
  }

  lemma ListsClaim(entries: seq<nat>, frames: nat, head: nat, count: nat, where: seq<Place>, free: seq<nat>, chains: Chains, k: nat)
    requires ListsOk(entries, frames, head, count, where, free, chains) && k in chains
    ensures NextOf(chains[k], 0) == END <==> chains[k] == []
    ensures chains[k] != [] ==>
              var g := chains[k][0];
              && g < |entries| == |where| && entries[g] == NextOf(chains[k][1..], 0)
              && ListsOk(entries, frames, head, count, where[g := Claimed], free, chains[k := chains[k][1..]])
  {
    if chains[k] != [] {
      PartitionClaim(entries, where, free, chains, k);
    }
  }

  lemma ListsRelease(entries: seq<nat>, frames: nat, head: nat, count: nat, where: seq<Place>, free: seq<nat>, chains: Chains, k: nat, g: nat)
    requires ListsOk(entries, frames, head, count, where, free, chains) && k in chains && g < |where| && where[g] == Claimed
    ensures g < |entries|
    ensures ListsOk(entries[g := NextOf(chains[k], 0)], frames, head, count, where[g := Private(k)], free, chains[k := [g] + chains[k]])
  {
    PartitionRelease(entries, where, free, chains, k, g);
    hide Partition;
  }

  lemma ListsSplice(entries: seq<nat>, frames: nat, head: nat, count: nat, where: seq<Place>, free: seq<nat>, chains: Chains, k: nat)
    requires ListsOk(entries, frames, head, count, where, free, chains) && k in chains
    ensures |entries| <= END && Links(entries, chains[k])
    ensures chains[k] == [] ==> ListsOk(entries, frames, head, count, where, free, chains - {k})
    ensures chains[k] != [] ==>
              var s := chains[k];
              && s[|s| - 1] < |entries|
              && ListsOk(entries[s[|s| - 1] := head], frames, s[0], count + |s|, Move(where, s, Free), s + free, chains - {k})
  {
    if chains[k] == [] {
      PartitionDrop(entries, where, free, chains, k);
    } else {
      PartitionSplice(entries, where, free, chains, k);
    }
    assert Chain(entries, where, chains[k], Private(k));
    hide Partition, Chain;
  }

  lemma ListsGrow(entries: seq<nat>, frames: nat, head: nat, count: nat, where: seq<Place>, free: seq<nat>, chains: Chains,
                  entries': seq<nat>, more: nat)
    requires ListsOk(entries, frames, head, count, where, free, chains) && more > 0
    requires Grown(entries, entries', head) && |entries'| == PER_FRAME * (frames + more) <= END
    ensures ListsOk(entries', frames + more, PER_FRAME * frames, count + PER_FRAME * more,
                    where + AllFree(PER_FRAME * more), FrameEntries(frames, frames + more) + free, chains)
  {
    hide Partition, Grown, Range, AllFree;
    PartitionGrow(entries, entries', where, free, chains);
    assert FrameEntries(frames, frames + more) == Range(|entries|, |entries'|);
  }

  lemma ListsSize(entries: seq<nat>, frames: nat, head: nat, count: nat, where: seq<Place>, free: seq<nat>, chains: Chains)
    requires ListsOk(entries, frames, head, count, where, free, chains)
    ensures |entries| == PER_FRAME * frames && count == |free| && head == NextOf(free, 0)
  {
  }

  lemma EmptyChain(entries: seq<nat>, frames: nat, head: nat, count: nat, where: seq<Place>, free: seq<nat>, chains: Chains)
    requires ListsOk(entries, frames, head, count, where, free, chains)
    ensures head == END <==> count == 0
  {
    HasPlace(entries, where, free, Free);
    assert free != [] ==> free[0] in free;
  }

  /** get_free_entries: the count ends up right exactly when it was not zero. */
  lemma ListsGet(entries: seq<nat>, frames: nat, head: nat, count: nat, where: seq<Place>, free: seq<nat>, chains: Chains,
                 n: nat, wanted: nat, k: nat)
    requires ListsOk(entries, frames, head, count, where, free, chains) && k !in chains
    requires 1 <= n <= |free| && wanted <= count && n == if wanted == 0 then 1 else wanted
    ensures |entries| <= END && Links(entries, free) && free[n - 1] < |entries|
    ensures var entries', where', chains' := entries[free[n - 1] := END], Move(where, free[..n], Private(k)), chains[k := free[..n]];
            && Partition(entries', where', free[n..], chains')
            && (ListsOk(entries', frames, entries[free[n - 1]], count - wanted, where', free[n..], chains') <==> wanted > 0)
  {
    PartitionGet(entries, where, free, chains, n, k);
    assert Chain(entries, where, free, Free);
    hide Partition, Chain;
  }

  /** The first table of all, asked for no entries: the count stays at 504 while the free chain loses its head. */
  lemma ZeroCountBreaks(entries: seq<nat>)
    requires |entries| == PER_FRAME && entries[PER_FRAME - 1] == END
    requires forall i :: RESERVED <= i < PER_FRAME - 1 ==> entries[i] == i + 1
    ensures var free, where := Range(RESERVED, PER_FRAME), FirstPlaces();
            && ListsOk(entries, 1, 8, 504, where, free, map[]) && free[0] == 8
            && !ListsOk(entries[8 := END], 1, entries[8], 504, Move(where, free[..1], Private(0)), free[1..], map[][0 := free[..1]])
  {
    PartitionInitial(entries);
    hide Partition;
    ListsGet(entries, 1, 8, 504, FirstPlaces(), Range(RESERVED, PER_FRAME), map[], 1, 0, 0);
  }

  /** Everything about the callbacks, while there are `free` entries. */
  ghost predicate Waiting(list: seq<nat>, queued: set<nat>, counts: map<nat, nat>, free: nat,
                          requests: seq<nat>, fired: seq<nat>, cancelled: seq<nat>)
  {
    WaitersOk(list, queued, counts, free) && Logged(requests, fired, cancelled, list)
  }

  /** Everything but that they have to wait. */
  ghost predicate Queued(list: seq<nat>, queued: set<nat>, counts: map<nat, nat>,
                         requests: seq<nat>, fired: seq<nat>, cancelled: seq<nat>)
  {
    Listed(list, queued, counts) && Logged(requests, fired, cancelled, list)
  }

  lemma WaitingInitial(free: nat)
    ensures Waiting([], {}, map[], free, [], [], [])
  {
  }

  lemma WaitingIsQueued(list: seq<nat>, queued: set<nat>, counts: map<nat, nat>, free: nat,
                        requests: seq<nat>, fired: seq<nat>, cancelled: seq<nat>)
    requires Waiting(list, queued, counts, free, requests, fired, cancelled)
    ensures Queued(list, queued, counts, requests, fired, cancelled)
    ensures forall free': nat :: free' <= free ==> Waiting(list, queued, counts, free', requests, fired, cancelled)
  {
    hide Logged;
  }

  lemma QueuedRun(list: seq<nat>, queued: set<nat>, counts: map<nat, nat>, free: nat,
                  requests: seq<nat>, fired: seq<nat>, cancelled: seq<nat>)
    requires Queued(list, queued, counts, requests, fired, cancelled)
    ensures forall k :: 0 <= k < |list| ==> list[k] in counts
    ensures var ready := Ready(list, counts, free);
            Waiting(StillWaiting(list, counts, free), queued - Elements(ready), counts, free, requests, fired + ready, cancelled)
  {
    ReadyAndKept(list, queued, counts, free);
    LoggedAfter(requests, fired, cancelled, list, counts, free);
    hide Ready, StillWaiting, WaitersOk, Logged;
  }

  lemma QueuedMore(list: seq<nat>, queued: set<nat>, counts: map<nat, nat>,
                   requests: seq<nat>, fired: seq<nat>, cancelled: seq<nat>, c: nat, count: nat)
    requires Queued(list, queued, counts, requests, fired, cancelled) && c !in queued
    ensures Queued([c] + list, queued + {c}, counts[c := count], requests + [c], fired, cancelled)
  {
    RequestListed(list, queued, counts, c, count);
    LoggedRequest(requests, fired, cancelled, list, c);
    hide Listed, Logged;
  }

  lemma WaitingCancel(list: seq<nat>, queued: set<nat>, counts: map<nat, nat>, free: nat,
                      requests: seq<nat>, fired: seq<nat>, cancelled: seq<nat>, c: nat, i: nat)
    requires Waiting(list, queued, counts, free, requests, fired, cancelled) && i <= |list|
    requires (i < |list| ==> list[i] == c) && (i == |list| ==> c !in list)
    ensures i == |list| ==> c !in queued && queued - {c} == queued
    ensures i < |list| ==>
              && c in queued && Waiting(list[..i] + list[i + 1..], queued - {c}, counts, free, requests, fired, cancelled + [c])
              && forall x :: x in list[..i] + list[i + 1..] <==> x in list && x != c
  {
    CancelEffect(list, queued, counts, free, c, i);
    if i < |list| {
      LoggedCancel(requests, fired, cancelled, list, i);
    }
    hide WaitersOk, Logged;
  }

  class Table {
    var entries: seq<nat>                   // gnttab_list
    var nrFrames: nat                       // nr_grant_frames
    var freeHead: nat
    var freeCount: nat
    var callbacks: seq<nat>                 // gnttab_free_callback_list
    var counts: map<nat, nat>               // callback->count
    var queued: set<nat>                    // the callbacks with callback->queued set
    var fired: seq<nat>                     // history: the callbacks run
    ghost var requests: seq<nat>            // history: the callbacks put on the list
    ghost var cancelled: seq<nat>           // history: the callbacks cancelled
    ghost var where: seq<Place>
    ghost var free: seq<nat>
    ghost var chains: Chains

    /** The free chain and the private chains. */
    ghost predicate Lists()
      reads `entries, `nrFrames, `freeHead, `freeCount, `where, `free, `chains
    {
      ListsOk(entries, nrFrames, freeHead, freeCount, where, free, chains)
    }

    /** The callbacks: each on the list waits for more than there is, once, and every queueing is accounted for. */
    ghost predicate Waiters()
      reads `callbacks, `counts, `queued, `freeCount, `fired, `requests, `cancelled
    {
      Waiting(callbacks, queued, counts, freeCount, requests, fired, cancelled)
    }

    /** Whenever gnttab_list_lock is free. */
    ghost predicate Valid()
      reads this
    {
      Lists() && Waiters()
    }

    /** No wake-up is lost: whoever is on the list is queued, is on it once, and asks for more than there is. */
    lemma NoWakeUpLost()
      requires Valid()
      ensures Distinct(callbacks) && forall c :: c in callbacks <==> c in queued
      ensures forall c :: c in callbacks ==> c in counts && counts[c] > freeCount
    {
      hide Lists;
      forall c | c in callbacks
        ensures c in counts && counts[c] > freeCount
      {
        var k :| 0 <= k < |callbacks| && callbacks[k] == c;
      }
    }

    /** The list is in order, but some callbacks may not have to wait any more. */
    ghost predicate WaitersQueued()
      reads `callbacks, `counts, `queued, `fired, `requests, `cancelled
    {
      Queued(callbacks, queued, counts, requests, fired, cancelled)
    }

    /** The loop of do_free_callbacks over the callbacks taken off the list. */
    method RunCallbacks(list: seq<nat>)
      requires callbacks == [] && forall k :: 0 <= k < |list| ==> list[k] in counts
      modifies `callbacks, `queued, `fired
      ensures callbacks == StillWaiting(list, counts, freeCount)
      ensures fired == old(fired) + Ready(list, counts, freeCount)
      ensures queued == old(queued) - Elements(Ready(list, counts, freeCount))
    {
      hide Running, Ready, StillWaiting, Elements;
      RunningStarts(list, counts, freeCount, queued, fired);
      var m: nat := 0;
      while m < |list|
        invariant m <= |list|
        invariant Running(list, m, counts, freeCount, old(queued), old(fired), callbacks, queued, fired)
      {
        RunningNext(list, m, counts, freeCount, old(queued), old(fired), callbacks, queued, fired);
        var c := list[m];
        if freeCount >= counts[c] {
          queued := queued - {c};
          fired := fired + [c];
        } else {
          callbacks := [c] + callbacks;
        }
        m := m + 1;
      }
      RunningEnds(list, counts, freeCount, old(queued), old(fired), callbacks, queued, fired);
    }

    /** do_free_callbacks */
    method DoFreeCallbacks()
      requires WaitersQueued()
      modifies `callbacks, `queued, `fired
      ensures Waiters()
      ensures callbacks == StillWaiting(old(callbacks), counts, freeCount)
      ensures fired == old(fired) + Ready(old(callbacks), counts, freeCount)
    {
      hide Ready, StillWaiting, Queued, Waiting, Elements;
      QueuedRun(callbacks, queued, counts, freeCount, requests, fired, cancelled);
      var list := callbacks;
      callbacks := [];
      RunCallbacks(list);
    }

    /** check_free_callbacks */
    method CheckFreeCallbacks()
      requires WaitersQueued()
      modifies `callbacks, `queued, `fired
      ensures Waiters()
      ensures callbacks == StillWaiting(old(callbacks), counts, freeCount)
      ensures fired == old(fired) + Ready(old(callbacks), counts, freeCount)
    {
      if callbacks != [] {
        DoFreeCallbacks();
      } else {
        QueuedRun(callbacks, queued, counts, freeCount, requests, fired, cancelled);
        assert Elements([]) == {};
        hide Queued, Waiting;
      }
    }

    /** put_free_entry */
    method PutFreeEntry(ref: nat)
      requires Valid() && ref < |where| && where[ref] == Claimed
      modifies `entries, `freeHead, `freeCount, `callbacks, `queued, `fired, `where, `free
      ensures Valid() && free == [ref] + old(free) && where == old(where)[ref := Free]
      ensures fired == old(fired) + Ready(old(callbacks), counts, freeCount)
    {
      hide ListsOk, Waiting, Queued, StillWaiting, Ready;
      WaitingIsQueued(callbacks, queued, counts, freeCount, requests, fired, cancelled);
      ListsPut(entries, nrFrames, freeHead, freeCount, where, free, chains, ref);
      entries := entries[ref := freeHead];
      freeHead := ref;
      freeCount := freeCount + 1;
      where, free := where[ref := Free], [ref] + free;
      CheckFreeCallbacks();
    }

    /** gnttab_claim_grant_reference */
    method Claim(head: nat, ghost k: nat) returns (g: int, head': nat)
      requires Lists() && k in chains && head == NextOf(chains[k], 0)
      modifies `where, `chains
      ensures Lists() && k in chains && head' == NextOf(chains[k], 0)
      ensures old(chains[k]) == [] ==> g == -28 && chains == old(chains) && where == old(where)
      ensures old(chains[k]) != [] ==>
                && g == old(chains[k])[0] && 0 <= g < |old(where)|
                && chains == old(chains)[k := old(chains[k])[1..]] && where == old(where)[g := Claimed]
    {
      hide ListsOk;
      ListsClaim(entries, nrFrames, freeHead, freeCount, where, free, chains, k);
      if head == END {
        return -28, head;                   // -ENOSPC
      }
      where, chains := where[head := Claimed], chains[k := chains[k][1..]];
      return head, entries[head];
    }

    /** gnttab_release_grant_reference */
    method Release(head: nat, release: nat, ghost k: nat) returns (head': nat)
      requires Lists() && k in chains && head == NextOf(chains[k], 0) && release < |where| && where[release] == Claimed
      modifies `entries, `where, `chains
      ensures Lists() && k in chains && head' == NextOf(chains[k], 0)
      ensures chains == old(chains)[k := [release] + old(chains[k])] && where == old(where)[release := Private(k)]
    {
      hide ListsOk;
      ListsRelease(entries, nrFrames, freeHead, freeCount, where, free, chains, k, release);
      entries := entries[release := head];
      where, chains := where[release := Private(k)], chains[k := [release] + chains[k]];
      return release;
    }

    /** The last entry of a private chain, and its length: the loop of gnttab_free_grant_references. */
    method LastOf(head: nat, ghost s: seq<nat>) returns (ref: nat, count: nat)
      requires Links(entries, s) && |entries| <= END && s != [] && head == s[0]
      ensures ref == s[|s| - 1] && count == |s|
    {
      ref, count := head, 1;
      while entries[ref] != END
        invariant 1 <= count <= |s| && ref == s[count - 1]
        decreases |s| - count
      {
        assert entries[s[count - 1]] == NextOf(s, count);
        ref := entries[ref];
        count := count + 1;
      }
      assert entries[s[count - 1]] == NextOf(s, count);
    }

    /** The part of gnttab_free_grant_references that splices a chain that is not empty. */
    method SpliceBack(head: nat, ghost k: nat)
      requires Lists() && k in chains && chains[k] != [] && head == chains[k][0]
      modifies `entries, `freeHead, `freeCount, `where, `free, `chains
      ensures Lists() && free == old(chains[k]) + old(free) && chains == old(chains) - {k}
    {
      hide ListsOk, Links, Move;
      ListsSplice(entries, nrFrames, freeHead, freeCount, where, free, chains, k);
      ghost var s := chains[k];
      var ref, count := LastOf(head, s);
      entries := entries[ref := freeHead];
      freeHead := head;
      freeCount := freeCount + count;
      where, free, chains := Move(where, s, Free), s + free, chains - {k};
    }

    /** gnttab_free_grant_references */
    method FreeGrantReferences(head: nat, ghost k: nat)
      requires Valid() && k in chains && head == NextOf(chains[k], 0)
      modifies `entries, `freeHead, `freeCount, `callbacks, `queued, `fired, `where, `free, `chains
      ensures Valid() && free == old(chains[k]) + old(free) && chains == old(chains) - {k}
      ensures old(chains[k]) == [] ==> fired == old(fired)
      ensures old(chains[k]) != [] ==> fired == old(fired) + Ready(old(callbacks), counts, freeCount)
    {
      hide ListsOk, Waiting, Queued, StillWaiting, Ready;
      ListsClaim(entries, nrFrames, freeHead, freeCount, where, free, chains, k);
      if head == END {
        ListsSplice(entries, nrFrames, freeHead, freeCount, where, free, chains, k);
        chains := chains - {k};
        return;
      }
      WaitingIsQueued(callbacks, queued, counts, freeCount, requests, fired, cancelled);
      SpliceBack(head, k);
      CheckFreeCallbacks();
    }

    /** gnttab_request_free_callback */
    method RequestFreeCallback(callback: nat, count: nat)
      requires Valid()
      modifies `callbacks, `counts, `queued, `fired, `requests
      ensures Valid()
      ensures callback in old(queued) ==> callbacks == old(callbacks) && counts == old(counts) && fired == old(fired)
      ensures callback !in old(queued) ==>
                && counts == old(counts)[callback := count] && requests == old(requests) + [callback]
                && callbacks == StillWaiting([callback] + old(callbacks), counts, freeCount)
                && fired == old(fired) + Ready([callback] + old(callbacks), counts, freeCount)
    {
      hide ListsOk, Waiting, Queued, StillWaiting, Ready;
      if callback in queued {
        return;
      }
      WaitingIsQueued(callbacks, queued, counts, freeCount, requests, fired, cancelled);
      QueuedMore(callbacks, queued, counts, requests, fired, cancelled, callback, count);
      counts := counts[callback := count];
      queued := queued + {callback};
      callbacks := [callback] + callbacks;
      requests := requests + [callback];
      CheckFreeCallbacks();
    }

    /** The walk of gnttab_cancel_free_callback along the list; the list's length if the callback is not on it. */
    method FindCallback(callback: nat) returns (i: nat)
      ensures i <= |callbacks| && (i < |callbacks| ==> callbacks[i] == callback)
      ensures i == |callbacks| ==> callback !in callbacks
    {
      i := 0;
      while i < |callbacks| && callbacks[i] != callback
        invariant i <= |callbacks| && forall k :: 0 <= k < i ==> callbacks[k] != callback
      {
        i := i + 1;
      }
    }

    /** gnttab_cancel_free_callback */
    method CancelFreeCallback(callback: nat)
      requires Valid()
      modifies `callbacks, `queued, `cancelled
      ensures Valid() && queued == old(queued) - {callback}
      ensures forall c :: c in callbacks <==> c in old(callbacks) && c != callback
      ensures cancelled == old(cancelled) + if callback in old(queued) then [callback] else []
    {
      hide ListsOk, Waiting;
      var i := FindCallback(callback);
      WaitingCancel(callbacks, queued, counts, freeCount, requests, fired, cancelled, callback, i);
      if i < |callbacks| {
        callbacks := callbacks[..i] + callbacks[i + 1..];
        queued := queued - {callback};
        cancelled := cancelled + [callback];
      }
    }

    /** The list part of grow_gnttab_list. */
    method GrowLists(more: nat)
      requires Lists() && more > 0 && PER_FRAME * (nrFrames + more) <= END
      modifies `entries, `nrFrames, `freeHead, `freeCount, `where, `free
      ensures Lists() && nrFrames == old(nrFrames) + more && freeCount == old(freeCount) + PER_FRAME * more
      ensures free == FrameEntries(old(nrFrames), nrFrames) + old(free)
    {
      hide ListsOk, AllFree, FrameEntries, Grown;
      ListsSize(entries, nrFrames, freeHead, freeCount, where, free, chains);
      ghost var entries0 := entries;
      LinkNew(more);
      ListsGrow(entries0, nrFrames, freeHead, freeCount, where, free, chains, entries, more);
      where, free := where + AllFree(PER_FRAME * more), FrameEntries(nrFrames, nrFrames + more) + free;
      freeHead := PER_FRAME * nrFrames;
      freeCount := freeCount + PER_FRAME * more;
      nrFrames := nrFrames + more;
    }

    /** grow_gnttab_list: `more` frames of new entries become free, if `pages` list pages are enough for them. */
    method GrowList(more: nat, pages: nat) returns (rc: int)
      requires Valid() && more > 0 && PER_FRAME * (nrFrames + more) <= END
      modifies `entries, `nrFrames, `freeHead, `freeCount, `callbacks, `queued, `fired, `where, `free
      ensures Valid() && rc == if PER_PAGE * (ListPages(old(nrFrames)) + pages) < PER_FRAME * (old(nrFrames) + more) then -12 else 0
      ensures rc < 0 ==> free == old(free) && freeCount == old(freeCount) && entries == old(entries) && fired == old(fired) && nrFrames == old(nrFrames)
      ensures rc == 0 ==>
                && nrFrames == old(nrFrames) + more && freeCount == old(freeCount) + PER_FRAME * more
                && free == FrameEntries(old(nrFrames), nrFrames) + old(free)
                && fired == old(fired) + Ready(old(callbacks), counts, freeCount)
    {
      hide ListsOk, Waiting, Queued, StillWaiting, Ready, FrameEntries;
      var first, last := ListPages(nrFrames), ListPages(nrFrames + more);
      var i := first;
      while i < last
        invariant first <= i && (i <= last || i == first) && i - first <= pages
      {
        if i - first == pages {
          return -12;                       // -ENOMEM
        }
        i := i + 1;
      }
      WaitingIsQueued(callbacks, queued, counts, freeCount, requests, fired, cancelled);
      GrowLists(more);
      CheckFreeCallbacks();
      rc := 0;
    }

    /** The loop of grow_gnttab_list over the new entries, whose contents were arbitrary. */
    method LinkNew(more: nat)
      requires more > 0 && |entries| == PER_FRAME * nrFrames
      modifies `entries
      ensures Grown(old(entries), entries, freeHead) && |entries| == PER_FRAME * (nrFrames + more)
    {
      var first, last := PER_FRAME * nrFrames, PER_FRAME * (nrFrames + more) - 1;
      var page: seq<nat> :| |page| == PER_FRAME * more by { assert |seq(PER_FRAME * more, _ => 0)| == PER_FRAME * more; }
      entries := entries + page;
      var i := first;
      while i < last
        invariant first <= i <= last && |entries| == last + 1 && entries[..first] == old(entries)
        invariant forall j :: first <= j < i ==> entries[j] == j + 1
      {
        entries := entries[i := i + 1];
        i := i + 1;
      }
      entries := entries[i := freeHead];
    }

    /**
     * gnttab_expand, where the hypervisor allows `limit` frames, mapping the new ones gives `mapping`,
     * and `pages` list pages can be had.
     */
    method Expand(required: nat, limit: nat, mapping: int, pages: nat) returns (rc: int)
      requires Valid() && required > 0 && PER_FRAME * limit <= END && mapping <= 0
      modifies `entries, `nrFrames, `freeHead, `freeCount, `callbacks, `queued, `fired, `where, `free
      ensures Valid() && rc <= 0
      ensures PER_FRAME * limit < PER_FRAME * old(nrFrames) + required ==> rc == -28
      ensures PER_FRAME * limit >= PER_FRAME * old(nrFrames) + required && mapping != 0 ==> rc == mapping
      ensures PER_FRAME * limit >= PER_FRAME * old(nrFrames) + required && mapping == 0 ==>
                rc == if PER_PAGE * (ListPages(old(nrFrames)) + pages) < PER_FRAME * (old(nrFrames) + ExtraFrames(required)) then -12 else 0
      ensures rc < 0 ==> free == old(free) && freeCount == old(freeCount) && entries == old(entries) && fired == old(fired) && nrFrames == old(nrFrames)
      ensures rc == 0 ==>
                && nrFrames > old(nrFrames)
                && required <= PER_FRAME * (nrFrames - old(nrFrames)) < required + PER_FRAME
                && freeCount == old(freeCount) + PER_FRAME * (nrFrames - old(nrFrames))
                && free == FrameEntries(old(nrFrames), nrFrames) + old(free)
                && fired == old(fired) + Ready(old(callbacks), counts, freeCount)
    {
      hide ListsOk, Waiting, Queued, StillWaiting, Ready, FrameEntries, ListPages;
      var extra := ExtraFrames(required);
      if nrFrames + extra > limit {
        return -28;                         // -ENOSPC
      }
      if mapping != 0 {
        return mapping;
      }
      rc := GrowList(extra, pages);
    }

    /** The loop of get_free_entries: the last entry to be taken off. */
    method LastTaken(head: nat, count: nat, ghost s: seq<nat>) returns (last: nat)
      requires Links(entries, s) && 0 < |s| && count <= |s| && head == s[0]
      ensures last == s[if count == 0 then 0 else count - 1]
    {
      last := head;
      var c := count;
      while c > 1
        invariant c <= count && (count == 0 ==> last == s[0])
        invariant count > 0 ==> c > 0 && last == s[count - c]
      {
        assert entries[s[count - c]] == NextOf(s, count - c + 1);
        last := entries[last];
        c := c - 1;
      }
    }

    /** get_free_entries, once there are enough. */
    method TakeEntries(count: nat, ghost k: nat) returns (ref: nat)
      requires Lists() && k !in chains && count <= freeCount && freeCount > 0
      modifies `entries, `freeHead, `freeCount, `where, `free, `chains
      ensures Partition(entries, where, free, chains) && (Lists() <==> count > 0)
      ensures freeCount == old(freeCount) - count && ref == old(free)[0]
      ensures var n := if count == 0 then 1 else count;
              |old(free)| >= n && chains == old(chains)[k := old(free)[..n]] && free == old(free)[n..]
    {
      hide ListsOk, Partition, Links, Move;
      ListsSize(entries, nrFrames, freeHead, freeCount, where, free, chains);
      ghost var n := if count == 0 then 1 else count;
      ListsGet(entries, nrFrames, freeHead, freeCount, where, free, chains, n, count, k);
      ref := freeHead;
      freeCount := freeCount - count;
      var head := LastTaken(ref, count, free);
      freeHead := entries[head];
      entries := entries[head := END];
      where, chains, free := Move(where, free[..n], Private(k)), chains[k := free[..n]], free[n..];
    }

    /**
     * get_free_entries. On success the first entries of the free chain free0, grown if it was too
     * short, become private chain k; the free count is right again exactly when the count was not zero.
     * A count of 0 on an empty chain follows a link outside the table; the method stops there.
     */
    method GetFreeEntries(count: nat, limit: nat, mapping: int, pages: nat, ghost k: nat) returns (ref: int, outside: bool, ghost free0: seq<nat>)
      requires Valid() && k !in chains && PER_FRAME * limit <= END && mapping <= 0
      modifies `entries, `nrFrames, `freeHead, `freeCount, `callbacks, `queued, `fired, `where, `free, `chains
      ensures nrFrames >= old(nrFrames)
      ensures outside <==> count == 0 && old(freeCount) == 0
      ensures ref < 0 <==>
              var missing: int := count - old(freeCount);
              && missing > 0
              && (|| PER_FRAME * limit < PER_FRAME * old(nrFrames) + missing
                  || mapping != 0
                  || PER_PAGE * (ListPages(old(nrFrames)) + pages) < PER_FRAME * (old(nrFrames) + ExtraFrames(missing)))
      ensures ref < 0 || outside ==> Valid() && free == old(free) && chains == old(chains) && entries == old(entries)
      ensures ref >= 0 && count > old(freeCount) ==> nrFrames == old(nrFrames) + ExtraFrames(count - old(freeCount))
      ensures ref < 0 ==>
                ref == if PER_FRAME * limit < PER_FRAME * old(nrFrames) + (count - old(freeCount)) then -28 else if mapping != 0 then mapping else -12
      ensures ref >= 0 && !outside ==>
                var n := if count == 0 then 1 else count;
                && |free0| >= n && ref == free0[0] && chains == old(chains)[k := free0[..n]] && free == free0[n..]
                && free0 == (if old(freeCount) < count then FrameEntries(old(nrFrames), nrFrames) + old(free) else old(free))
                && Partition(entries, where, free, chains) && (Valid() <==> count > 0)
    {
      hide ListsOk, Waiting, Partition, FrameEntries, ListPages;
      free0, outside := free, false;
      if freeCount < count {
        var rc := Expand(count - freeCount, limit, mapping, pages);
        if rc < 0 {
          return rc, false, free;
        }
        free0 := free;
      }
      EmptyChain(entries, nrFrames, freeHead, freeCount, where, free, chains);
      if freeHead == END {
        return freeHead, true, free;        // gnttab_entry(GNTTAB_LIST_END)
      }
      WaitingIsQueued(callbacks, queued, counts, freeCount, requests, fired, cancelled);
      ref := TakeEntries(count, k);
    }

    /** The loop of gnttab_init. */
    static method LinkFirst() returns (list: seq<nat>)
      ensures |list| == PER_FRAME && list[PER_FRAME - 1] == END
      ensures forall i :: RESERVED <= i < PER_FRAME - 1 ==> list[i] == i + 1
    {
      list :| |list| == PER_FRAME by { assert |seq(PER_FRAME, _ => 0)| == PER_FRAME; }
      var i := RESERVED;
      while i < PER_FRAME - 1
        invariant RESERVED <= i <= PER_FRAME - 1 && |list| == PER_FRAME
        invariant forall j :: RESERVED <= j < i ==> list[j] == j + 1
      {
        list := list[i := i + 1];
        i := i + 1;
      }
      list := list[PER_FRAME - 1 := END];
    }

    /** The free list part of gnttab_init. */
    constructor ()
      ensures Valid() && free == Range(RESERVED, PER_FRAME) && chains == map[] && callbacks == []
    {
      var list := LinkFirst();
      PartitionInitial(list);
      WaitingInitial(PER_FRAME - RESERVED);
      hide Partition, Waiting, FirstPlaces;
      entries, nrFrames := list, 1;
      freeCount, freeHead := PER_FRAME - RESERVED, RESERVED;
      callbacks, counts, queued, fired := [], map[], {}, [];
      requests, cancelled := [], [];
      where, free, chains := FirstPlaces(), Range(RESERVED, PER_FRAME), map[];
    }
  }
}
