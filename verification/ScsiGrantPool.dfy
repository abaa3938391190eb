/**
 * The grant pool of the SCSI front-end: a list of grants, those the backend keeps mapped first, from
 * which each request takes one grant per segment and per indirect page, and to which they return.
 */
module ScsiGrantPool {

  import opened Arithmetic
  import opened Common

  const SG_TABLESIZE: nat := 26

  // ----- cutting a scatterlist into segments

  /** An entry of the scatterlist: `length` bytes from `offset` on, starting in page `page`. */
  datatype Sg = Sg(page: nat, offset: nat, length: nat)

  /** A segment: part of page entry.page + index. */
  datatype Segment = Segment(first: nat, index: nat, offset: nat, length: nat)

  function Cut(first: nat, index: nat, offset: nat, length: nat): seq<Segment>
    requires offset < PAGE
    decreases length
  {
    if length == 0 then [] else
      var bytes := Min(length, PAGE - offset);
      [Segment(first, index, offset, bytes)] + Cut(first, index + 1, 0, length - bytes)
  }

  /** Entries start within a page, and page 0 is never given out. */
  ghost predicate InPages(sgl: seq<Sg>) {
    forall i :: 0 <= i < |sgl| ==> sgl[i].offset < PAGE && sgl[i].page > 0
  }

  /** The segments of the first dataLen bytes of a scatterlist. */
  function Segments(sgl: seq<Sg>, dataLen: nat): seq<Segment>
    requires InPages(sgl)
  {
    if sgl == [] then [] else
      var l := Min(sgl[0].length, dataLen);
      Cut(sgl[0].page, 0, sgl[0].offset, l) + Segments(sgl[1..], dataLen - l)
  }

  function SumOf(ss: seq<Segment>): nat {
    if ss == [] then 0 else ss[0].length + SumOf(ss[1..])
  }

  lemma {:induction false} SumAppend(a: seq<Segment>, b: seq<Segment>)
    ensures SumOf(a + b) == SumOf(a) + SumOf(b)
  {
    if a == [] {
      assert a + b == b;
    } else {
      assert (a + b)[0] == a[0] && (a + b)[1..] == a[1..] + b by { hide *; }
      SumAppend(a[1..], b);
    }
  }

  /** One entry: as many segments as pages it touches, adding up to its length, none crossing a page. */
  lemma {:induction false} CutCovers(first: nat, index: nat, offset: nat, length: nat)
    requires offset < PAGE
    ensures SumOf(Cut(first, index, offset, length)) == length
    ensures |Cut(first, index, offset, length)| == if length == 0 then 0 else PfnUp(offset + length)
    ensures forall k :: 0 <= k < |Cut(first, index, offset, length)| ==>
              var s := Cut(first, index, offset, length)[k];
              s.first == first && s.index == index + k && 0 < s.length && s.offset + s.length <= PAGE && (k > 0 ==> s.offset == 0)
    decreases length
  {
    if length > PAGE - offset {
      CutCovers(first, index + 1, 0, length - (PAGE - offset));
    } else if length > 0 {
      assert Cut(first, index + 1, 0, 0) == [];
      assert SumOf([Segment(first, index, offset, length)][1..]) == 0;
    }
  }

  function TotalOf(sgl: seq<Sg>): nat {
    if sgl == [] then 0 else sgl[0].length + TotalOf(sgl[1..])
  }

  /** The segments carry the data: all of it, if the scatterlist is long enough. */
  lemma {:induction false} SegmentsCover(sgl: seq<Sg>, dataLen: nat)
    requires InPages(sgl)
    ensures SumOf(Segments(sgl, dataLen)) == Min(dataLen, TotalOf(sgl))
  {
    if sgl != [] {
      var l := Min(sgl[0].length, dataLen);
      assert SumOf(Cut(sgl[0].page, 0, sgl[0].offset, l)) == l by { CutCovers(sgl[0].page, 0, sgl[0].offset, l); }
      SegmentsCover(sgl[1..], dataLen - l);
      hide SumOf, Cut;
      SumAppend(Cut(sgl[0].page, 0, sgl[0].offset, l), Segments(sgl[1..], dataLen - l));
    }
  }

  /** No entry reaches into a second page within the first dataLen bytes. */
  predicate SinglePages(sgl: seq<Sg>, dataLen: nat) {
    sgl == [] ||
    var l := Min(sgl[0].length, dataLen);
    (l == 0 || sgl[0].offset + l <= PAGE) && SinglePages(sgl[1..], dataLen - l)
  }

  predicate AllFirst(ss: seq<Segment>) {
    forall k :: 0 <= k < |ss| ==> ss[k].index == 0
  }

  /**
   * Without persistent grants every segment of an entry is granted the entry's first page: this is
   * the segment's own page exactly when no entry reaches into a second page.
   */
  lemma {:induction false} GrantedPages(sgl: seq<Sg>, dataLen: nat)
    requires InPages(sgl)
    ensures AllFirst(Segments(sgl, dataLen)) <==> SinglePages(sgl, dataLen)
  {
    if sgl != [] {
      var l := Min(sgl[0].length, dataLen);
      CutFirst(sgl[0].page, sgl[0].offset, l);
      GrantedPages(sgl[1..], dataLen - l);
      AllFirstAppend(Cut(sgl[0].page, 0, sgl[0].offset, l), Segments(sgl[1..], dataLen - l));
      hide Cut;
    }
  }

  /** The smallest such case: two bytes across a page boundary. */
  lemma SecondPageNotGranted()
    ensures InPages([Sg(1, PAGE - 1, 2)])
    ensures Segments([Sg(1, PAGE - 1, 2)], 2) == [Segment(1, 0, PAGE - 1, 1), Segment(1, 1, 0, 1)]
    ensures !AllFirst(Segments([Sg(1, PAGE - 1, 2)], 2))
  {
    assert Cut(1, 1, 0, 1) == [Segment(1, 1, 0, 1)] + Cut(1, 2, 0, 0);
    assert Cut(1, 0, PAGE - 1, 2) == [Segment(1, 0, PAGE - 1, 1)] + Cut(1, 1, 0, 1);
    assert Segments([Sg(1, PAGE - 1, 2)], 2) == Cut(1, 0, PAGE - 1, 2) + Segments([], 0);
    assert Segments([Sg(1, PAGE - 1, 2)], 2)[1].index == 1;
  }

  /** No entry that carries some of the first dataLen bytes leaves its page. */
  predicate WholePages(sgl: seq<Sg>, dataLen: nat) {
    sgl == [] ||
    var l := Min(sgl[0].length, dataLen);
    (l == 0 || sgl[0].offset + sgl[0].length <= PAGE) && WholePages(sgl[1..], dataLen - l)
  }

  /** The entries up to i keep to their pages exactly as far as all do. */
  ghost predicate WholeSoFar(sgl: seq<Sg>, dataLen: nat, i: nat, left: nat) {
    i <= |sgl| && (WholePages(sgl, dataLen) <==> WholePages(sgl[i..], left))
  }

  lemma WholeStarts(sgl: seq<Sg>, dataLen: nat)
    ensures WholeSoFar(sgl, dataLen, 0, dataLen)
  {
    assert sgl[0..] == sgl;
  }

  lemma WholeNext(sgl: seq<Sg>, dataLen: nat, i: nat, left: nat)
    requires WholeSoFar(sgl, dataLen, i, left) && i < |sgl|
    ensures var l := Min(sgl[i].length, left);
            && (l == 0 || sgl[i].offset + sgl[i].length <= PAGE ==> WholeSoFar(sgl, dataLen, i + 1, left - l))
            && (l > 0 && sgl[i].offset + sgl[i].length > PAGE ==> !WholePages(sgl, dataLen))
  {
    assert sgl[i..][1..] == sgl[i + 1..];
  }

  lemma WholeEnds(sgl: seq<Sg>, dataLen: nat, left: nat)
    requires WholeSoFar(sgl, dataLen, |sgl|, left)
    ensures WholePages(sgl, dataLen)
  {
  }

  lemma CutFirst(first: nat, offset: nat, length: nat)
    requires offset < PAGE
    ensures AllFirst(Cut(first, 0, offset, length)) <==> length == 0 || offset + length <= PAGE
  {
    CutCovers(first, 0, offset, length);
    if length > 0 && offset + length > PAGE {
      assert Cut(first, 0, offset, length)[1].index == 1;
    }
  }

  lemma AllFirstAppend(a: seq<Segment>, b: seq<Segment>)
    ensures AllFirst(a + b) <==> AllFirst(a) && AllFirst(b)
  {
    assert forall k :: 0 <= k < |a| ==> a[k] == (a + b)[k];
    assert forall k :: 0 <= k < |b| ==> b[k] == (a + b)[|a| + k];
  }

  // ----- indirect pages

  /** VSCSI_INDIRECT_PAGES(n), with `per` segments to a page. */
  function IndirectPages(n: nat, per: nat): (p: nat)
    requires per > 0
  {
    DivideShrinks(n + per - 1, per);
    (n + per - 1) / per
  }

  /** A further page is needed exactly when the segment count is a multiple of the page's capacity. */
  lemma IndirectPagesNext(n: nat, per: nat)
    requires per > 0
    ensures IndirectPages(n + 1, per) == IndirectPages(n, per) + if n % per == 0 then 1 else 0
    ensures IndirectPages(0, per) == 0
    ensures n % per == 0 ==> IndirectPages(n, per) == n / per
  {
    var q, r := n / per, n % per;
    assert n == q * per + r;
    DivModUnique(n + per, per, q + 1, r);
    if r == 0 {
      DivModUnique(n + per - 1, per, q, per - 1);
    } else {
      DivModUnique(n + per - 1, per, q + 1, r - 1);
    }
    DivModUnique(per - 1, per, 0, per - 1);
  }

  lemma {:induction false} IndirectPagesMonotone(a: nat, b: nat, per: nat)
    requires per > 0 && a <= b
    ensures IndirectPages(a, per) <= IndirectPages(b, per)
  {
    if a < b {
      IndirectPagesMonotone(a, b - 1, per);
      IndirectPagesNext(b - 1, per);
    }
  }

  /** The grants a request with n segments takes. */
  function Need(n: nat, per: nat): nat
    requires per > 0
  {
    if n > SG_TABLESIZE then n + IndirectPages(n, per) else n
  }

  /** While k of n segments are mapped, the next one's grants are within the need of all n. */
  lemma NeedNext(k: nat, n: nat, per: nat)
    requires per > 0 && k < n
    ensures k + 1 + IndirectPages(k + 1, per) <= n + IndirectPages(n, per)
    ensures IndirectPages(k + 1, per) == IndirectPages(k, per) + if k % per == 0 then 1 else 0
    ensures k % per == 0 ==> IndirectPages(k, per) == k / per
  {
    IndirectPagesNext(k, per);
    IndirectPagesMonotone(k + 1, n, per);
  }

  /** A page that begins at segment k is one of the pages of all n segments, and one more than before. */
  lemma NeedWhole(k: nat, n: nat, per: nat)
    requires per > 0 && k < n && k % per == 0
    ensures IndirectPages(k, per) < IndirectPages(n, per)
  {
    IndirectPagesNext(k, per);
    IndirectPagesMonotone(k + 1, n, per);
  }

  // ----- the list of grants

  /** An entry of the pool. gref 0 is GRANT_INVALID_REF. */
  datatype Grant = Grant(node: nat, gref: nat, pfn: nat)

  /** What a request holds. */
  datatype Shadow = Shadow(used: seq<Grant>, indirect: seq<Grant>)

  /** The first c entries, and no others, have a grant. */
  ghost predicate ListOk(grants: seq<Grant>, c: nat) {
    c <= |grants| && forall i :: 0 <= i < |grants| ==> (grants[i].gref != 0 <==> i < c)
  }

  function Nodes(grants: seq<Grant>): (r: seq<nat>)
    ensures |r| == |grants| && forall i :: 0 <= i < |r| ==> r[i] == grants[i].node
  {
    seq(|grants|, i requires 0 <= i < |grants| => grants[i].node)
  }

  /**
   * t grants have been taken off the list g0, of which the first c0 were valid, with `reserved` grants
   * claimed beforehand: what is left of the list, of the count and of the reserve.
   */
  ghost predicate Taken(g0: seq<Grant>, c0: nat, reserved: nat, t: nat, grants: seq<Grant>, c: nat, chain: seq<nat>) {
    && ListOk(g0, c0) && t <= |g0| && grants == g0[t..]
    && c == (if t < c0 then c0 - t else 0)
    && |chain| + (if t < c0 then 0 else t - c0) == reserved
    && forall i :: 0 <= i < |chain| ==> chain[i] != 0
  }

  lemma TakeNext(g0: seq<Grant>, c0: nat, reserved: nat, t: nat, grants: seq<Grant>, c: nat, chain: seq<nat>)
    requires Taken(g0, c0, reserved, t, grants, c, chain) && grants != []
    ensures t < |g0| && grants[0] == g0[t] && (grants[0].gref != 0 <==> t < c0)
    ensures t < c0 ==> c > 0 && Taken(g0, c0, reserved, t + 1, grants[1..], c - 1, chain)
    ensures t >= c0 ==> c == 0 && (chain != [] <==> t < c0 + reserved)
    ensures t >= c0 && chain != [] ==> Taken(g0, c0, reserved, t + 1, grants[1..], c, chain[1..])
  {
  }

  lemma TakenList(g0: seq<Grant>, c0: nat, reserved: nat, t: nat, grants: seq<Grant>, c: nat, chain: seq<nat>)
    requires Taken(g0, c0, reserved, t, grants, c, chain)
    ensures ListOk(grants, c) && t <= c0 + reserved
  {
  }

  // ----- one request

  /** A segment as it goes to the backend. */
  datatype Wire = Wire(gref: nat, offset: nat, length: nat)

  /** How a request takes its grants: the first `valid` of the list have one, and the rest is given one. */
  datatype Mode = Mode(persistent: bool, valid: nat, indirect: bool, per: nat)

  /** Where on the list the grant of the k-th segment stands: behind those of the indirect pages begun so far. */
  function Position(x: Mode, k: nat): nat {
    k + if x.indirect && x.per > 0 then IndirectPages(k + 1, x.per) else 0
  }

  /** The page the k-th segment's grant is for: its own, unless the entry of the list has kept one or is bound to one. */
  predicate KeepsPage(x: Mode, k: nat) {
    x.persistent || Position(x, k) < x.valid
  }

  /** The grants of the first n segments come from their places on the list, with the pages KeepsPage says. */
  ghost predicate InPlace(g0: seq<Grant>, segs: seq<Segment>, x: Mode, used: seq<Grant>) {
    && |used| <= |segs|
    && forall k :: 0 <= k < |used| ==>
         && Position(x, k) < |g0| && used[k].node == g0[Position(x, k)].node
         && used[k].pfn == if KeepsPage(x, k) then g0[Position(x, k)].pfn else segs[k].first
  }

  /** Some segments are mapped: the grants they took, in whatever order, and what the backend is told. */
  ghost predicate Mapping(g0: seq<Grant>, segs: seq<Segment>, x: Mode, s: Shadow, wire: seq<Wire>) {
    && |s.used| == |wire| <= |segs| && |s.used| + |s.indirect| <= |g0|
    && multiset(Nodes(s.used)) + multiset(Nodes(s.indirect)) == multiset(Nodes(g0[..|s.used| + |s.indirect|]))
    && (forall k :: 0 <= k < |wire| ==> s.used[k].gref != 0 && wire[k] == Wire(s.used[k].gref, segs[k].offset, segs[k].length))
    && (forall k :: 0 <= k < |s.indirect| ==> s.indirect[k].gref != 0)
    && InPlace(g0, segs, x, s.used)
  }

  /**
   * Without persistent grants every segment is granted its own page exactly if no valid grant at the
   * head of the list, kept from an indirect page, goes to a segment of another page.
   */
  lemma OwnPagesGranted(g0: seq<Grant>, segs: seq<Segment>, x: Mode, used: seq<Grant>)
    requires InPlace(g0, segs, x, used) && !x.persistent
    ensures (forall k :: 0 <= k < |used| ==> used[k].pfn == segs[k].first)
       <==> forall k :: 0 <= k < |used| && Position(x, k) < x.valid ==> g0[Position(x, k)].pfn == segs[k].first
  {
    hide Position;
  }

  lemma MappingStarts(g0: seq<Grant>, segs: seq<Segment>, x: Mode)
    ensures Mapping(g0, segs, x, Shadow([], []), [])
  {
    assert Nodes([]) == [] == Nodes(g0[..0]);
  }

  lemma MappingPage(g0: seq<Grant>, segs: seq<Segment>, x: Mode, s: Shadow, wire: seq<Wire>, g: Grant)
    requires Mapping(g0, segs, x, s, wire) && |s.used| + |s.indirect| < |g0|
    requires g.node == g0[|s.used| + |s.indirect|].node && g.gref != 0
    ensures Mapping(g0, segs, x, s.(indirect := s.indirect + [g]), wire)
  {
    NodesNext(g0, s.used, s.indirect, |s.used| + |s.indirect|, g);
  }

  lemma MappingSegment(g0: seq<Grant>, segs: seq<Segment>, x: Mode, s: Shadow, wire: seq<Wire>, g: Grant)
    requires Mapping(g0, segs, x, s, wire) && |s.used| + |s.indirect| < |g0| && |wire| < |segs|
    requires g.node == g0[|s.used| + |s.indirect|].node && g.gref != 0
    requires |s.used| + |s.indirect| == Position(x, |wire|)
    requires g.pfn == if KeepsPage(x, |wire|) then g0[Position(x, |wire|)].pfn else segs[|wire|].first
    ensures Mapping(g0, segs, x, s.(used := s.used + [g]), wire + [Wire(g.gref, segs[|wire|].offset, segs[|wire|].length)])
  {
    hide Nodes;
    NodesNext(g0, s.used, s.indirect, |s.used| + |s.indirect|, g);
  }

  lemma NodesNext(g0: seq<Grant>, a: seq<Grant>, b: seq<Grant>, t: nat, g: Grant)
    requires t < |g0| && g.node == g0[t].node
    requires multiset(Nodes(a)) + multiset(Nodes(b)) == multiset(Nodes(g0[..t]))
    ensures multiset(Nodes(a + [g])) + multiset(Nodes(b)) == multiset(Nodes(g0[..t + 1]))
    ensures multiset(Nodes(a)) + multiset(Nodes(b + [g])) == multiset(Nodes(g0[..t + 1]))
  {
    assert Nodes(a + [g]) == Nodes(a) + [g.node] && Nodes(b + [g]) == Nodes(b) + [g.node];
    assert Nodes(g0[..t + 1]) == Nodes(g0[..t]) + [g.node];
  }

  // ----- walking the scatterlist

  /** n segments are done, and the next one begins entry i. */
  ghost predicate AtEntry(segs: seq<Segment>, n: nat, sgl: seq<Sg>, i: nat, left: nat) {
    n <= |segs| && i <= |sgl| && InPages(sgl) && segs[n..] == Segments(sgl[i..], left)
  }

  /** n segments are done, and the next one is part `index` of entry i. */
  ghost predicate Within(segs: seq<Segment>, n: nat, sgl: seq<Sg>, i: nat, index: nat, off: nat, len: nat, left: nat) {
    && n <= |segs| && i < |sgl| && off < PAGE && InPages(sgl)
    && segs[n..] == Cut(sgl[i].page, index, off, Min(len, left)) + Segments(sgl[i + 1..], left - Min(len, left))
  }

  lemma MinIs(a: nat, b: nat)
    ensures Min(a, b) == (if a < b then a else b)
  {
  }

  function BytesInPage(len: nat, off: nat, left: nat): (bytes: nat)
    requires off < PAGE
    ensures bytes == Min(Min(len, PAGE - off), left) && bytes <= len && bytes <= left
    ensures len > 0 && left > 0 ==> bytes > 0
  {
    Min(Min(len, PAGE - off), left)
  }

  lemma WalkStarts(sgl: seq<Sg>, dataLen: nat)
    requires InPages(sgl)
    ensures AtEntry(Segments(sgl, dataLen), 0, sgl, 0, dataLen)
  {
    assert sgl[0..] == sgl;
  }

  lemma EntryOpens(segs: seq<Segment>, n: nat, sgl: seq<Sg>, i: nat, left: nat)
    requires AtEntry(segs, n, sgl, i, left) && i < |sgl|
    ensures Within(segs, n, sgl, i, 0, sgl[i].offset, sgl[i].length, left)
  {
    assert sgl[i..][1..] == sgl[i + 1..];
  }

  lemma SegmentNext(segs: seq<Segment>, n: nat, sgl: seq<Sg>, i: nat, index: nat, off: nat, len: nat, left: nat)
    requires Within(segs, n, sgl, i, index, off, len, left) && len > 0 && left > 0
    ensures var bytes := Min(Min(len, PAGE - off), left);
            && n < |segs| && segs[n] == Segment(sgl[i].page, index, off, bytes)
            && Within(segs, n + 1, sgl, i, index + 1, 0, len - bytes, left - bytes)
  {
    var bytes := Min(Min(len, PAGE - off), left);
    var cut := Cut(sgl[i].page, index, off, Min(len, left));
    assert cut == [Segment(sgl[i].page, index, off, bytes)] + Cut(sgl[i].page, index + 1, 0, Min(len, left) - bytes);
    assert segs[n] == segs[n..][0] && segs[n + 1..] == segs[n..][1..];
    hide Cut, Segments;
    assert (cut + Segments(sgl[i + 1..], left - Min(len, left)))[1..] == cut[1..] + Segments(sgl[i + 1..], left - Min(len, left));
  }

  lemma EntryCloses(segs: seq<Segment>, n: nat, sgl: seq<Sg>, i: nat, index: nat, off: nat, len: nat, left: nat)
    requires Within(segs, n, sgl, i, index, off, len, left) && (len == 0 || left == 0)
    ensures AtEntry(segs, n, sgl, i + 1, left)
  {
  }

  lemma WalkEnds(segs: seq<Segment>, n: nat, sgl: seq<Sg>, left: nat)
    requires AtEntry(segs, n, sgl, |sgl|, left)
    ensures n == |segs|
  {
    assert |segs[n..]| == 0;
  }

  /** scsifront_calculate_segs */
  method CalculateSegs(sgl: seq<Sg>, dataLength: nat) returns (refCount: nat)
    requires InPages(sgl)
    ensures refCount == |Segments(sgl, dataLength)|
  {
    hide AtEntry, Within, Segments;
    ghost var segs := Segments(sgl, dataLength);
    WalkStarts(sgl, dataLength);
    var dataLen := dataLength;
    refCount := 0;
    var i: nat := 0;
    while i < |sgl|
      invariant i <= |sgl| && AtEntry(segs, refCount, sgl, i, dataLen)
    {
      EntryOpens(segs, refCount, sgl, i, dataLen);
      var off: nat, len: nat := sgl[i].offset, sgl[i].length;
      ghost var index: nat := 0;
      while len > 0 && dataLen > 0
        invariant off < PAGE && Within(segs, refCount, sgl, i, index, off, len, dataLen)
        decreases len
      {
        SegmentNext(segs, refCount, sgl, i, index, off, len, dataLen);
        var bytes := BytesInPage(len, off, dataLen);
        len, dataLen, off := len - bytes, dataLen - bytes, 0;
        refCount, index := refCount + 1, index + 1;
      }
      EntryCloses(segs, refCount, sgl, i, index, off, len, dataLen);
      i := i + 1;
    }
    WalkEnds(segs, refCount, sgl, dataLen);
  }

  // ----- the pool and the requests

  function Held(s: Shadow): nat {
    |s.used| + |s.indirect|
  }

  /** The grants held by all requests. */
  function Lent(shadows: seq<Shadow>): nat {
    if shadows == [] then 0 else Lent(shadows[..|shadows| - 1]) + Held(shadows[|shadows| - 1])
  }

  /** n requests of at most p grants each. */
  function Room(n: nat, p: nat): nat {
    if n == 0 then 0 else Room(n - 1, p) + p
  }

  lemma {:induction false} LentUpdate(shadows: seq<Shadow>, id: nat, s: Shadow)
    requires id < |shadows|
    ensures Lent(shadows[id := s]) + Held(shadows[id]) == Lent(shadows) + Held(s)
  {
    var n := |shadows| - 1;
    if id == n {
      assert shadows[id := s][..n] == shadows[..n];
    } else {
      assert shadows[id := s][..n] == shadows[..n][id := s];
      LentUpdate(shadows[..n], id, s);
    }
  }

  ghost predicate Bounded(shadows: seq<Shadow>, p: nat) {
    forall i :: 0 <= i < |shadows| ==> Held(shadows[i]) <= p
  }

  lemma {:induction false} LentBound(shadows: seq<Shadow>, p: nat)
    requires Bounded(shadows, p)
    ensures Lent(shadows) <= Room(|shadows|, p)
  {
    if shadows != [] {
      LentBound(shadows[..|shadows| - 1], p);
    }
  }

  /** A request that holds nothing leaves room for one more. */
  lemma {:induction false} RoomForOne(shadows: seq<Shadow>, id: nat, p: nat)
    requires Bounded(shadows, p) && id < |shadows| && Held(shadows[id]) == 0
    ensures Lent(shadows) + p <= Room(|shadows|, p)
  {
    var n := |shadows| - 1;
    if id == n {
      LentBound(shadows[..n], p);
    } else {
      RoomForOne(shadows[..n], id, p);
    }
  }

  ghost predicate Assigned(grants: seq<Grant>) {
    forall k :: 0 <= k < |grants| ==> grants[k].gref != 0
  }

  /** The pool: the list with its valid prefix, and the requests, hold as many grants as n requests of p grants need. */
  ghost predicate PoolOk(grants: seq<Grant>, c: nat, shadows: seq<Shadow>, p: nat) {
    && ListOk(grants, c) && Bounded(shadows, p)
    && (forall i :: 0 <= i < |shadows| ==> Assigned(shadows[i].used) && Assigned(shadows[i].indirect))
    && |grants| + Lent(shadows) == Room(|shadows|, p)
  }

  /** `need` grants have gone from the head of the list to a request that now holds them and maps all segments. */
  ghost predicate Took(g0: seq<Grant>, c0: nat, need: nat, segs: seq<Segment>, x: Mode,
                       grants: seq<Grant>, c: nat, s: Shadow, wire: seq<Wire>)
  {
    && need <= |g0| && grants == g0[need..] && c == (if need < c0 then c0 - need else 0)
    && |wire| == |segs| && Held(s) == need && Mapping(g0, segs, x, s, wire)
  }

  lemma PoolAfterMap(g0: seq<Grant>, c0: nat, shadows: seq<Shadow>, p: nat, id: nat, need: nat, segs: seq<Segment>, x: Mode,
                     grants: seq<Grant>, c: nat, s: Shadow, wire: seq<Wire>)
    requires PoolOk(g0, c0, shadows, p) && id < |shadows| && Held(shadows[id]) == 0 && need <= p
    requires Took(g0, c0, need, segs, x, grants, c, s, wire)
    ensures PoolOk(grants, c, shadows[id := s], p)
  {
    LentUpdate(shadows, id, s);
    hide Lent, Room, Nodes;
  }

  lemma PoolList(grants: seq<Grant>, c: nat, shadows: seq<Shadow>, p: nat)
    requires PoolOk(grants, c, shadows, p)
    ensures ListOk(grants, c)
  {
  }

  lemma TakenStarts(grants: seq<Grant>, c: nat, chain: seq<nat>)
    requires ListOk(grants, c) && forall k :: 0 <= k < |chain| ==> chain[k] != 0
    ensures Taken(grants, c, |chain|, 0, grants, c, chain)
  {
  }

  lemma PoolHasRoom(grants: seq<Grant>, c: nat, shadows: seq<Shadow>, p: nat, id: nat)
    requires PoolOk(grants, c, shadows, p) && id < |shadows| && Held(shadows[id]) == 0
    ensures |grants| >= p && c <= |grants|
  {
    RoomForOne(shadows, id, p);
  }

  /** The entries `done` have gone back to the list, which is in order again. */
  ghost predicate GaveBack(g0: seq<Grant>, done: seq<Grant>, grants: seq<Grant>, c: nat) {
    && ListOk(grants, c) && |grants| == |g0| + |done|
    && multiset(Nodes(grants)) == multiset(Nodes(g0)) + multiset(Nodes(done))
  }

  lemma GaveBackNone(g0: seq<Grant>, c: nat)
    requires ListOk(g0, c)
    ensures GaveBack(g0, [], g0, c)
  {
    assert Nodes([]) == [];
  }

  lemma GiveBack(g0: seq<Grant>, done: seq<Grant>, grants: seq<Grant>, c: nat, g: Grant)
    requires GaveBack(g0, done, grants, c) && g.gref != 0
    ensures GaveBack(g0, done + [g], [g] + grants, c + 1)
    ensures GaveBack(g0, done + [g], grants + [g.(gref := 0)], c)
  {
    assert Nodes(done + [g]) == Nodes(done) + [g.node];
    assert Nodes([g] + grants) == [g.node] + Nodes(grants);
    assert Nodes(grants + [g.(gref := 0)]) == Nodes(grants) + [g.node];
  }

  lemma PoolAfterDone(g0: seq<Grant>, c0: nat, shadows: seq<Shadow>, p: nat, id: nat, grants: seq<Grant>, c: nat)
    requires PoolOk(g0, c0, shadows, p) && id < |shadows|
    requires GaveBack(g0, shadows[id].used + shadows[id].indirect, grants, c)
    ensures PoolOk(grants, c, shadows[id := Shadow([], [])], p)
  {
    LentUpdate(shadows, id, Shadow([], []));
    hide Lent, Room, Nodes;
  }

  lemma PoolHolds(grants: seq<Grant>, c: nat, shadows: seq<Shadow>, p: nat, id: nat)
    requires PoolOk(grants, c, shadows, p) && id < |shadows|
    ensures ListOk(grants, c) && Assigned(shadows[id].used) && Assigned(shadows[id].indirect)
  {
  }

  /** How many entries of a list have a grant. */
  function CountValid(grants: seq<Grant>): nat {
    if grants == [] then 0 else (if grants[0].gref != 0 then 1 else 0) + CountValid(grants[1..])
  }

  lemma {:induction false} CountIsPrefix(grants: seq<Grant>, c: nat)
    requires ListOk(grants, c)
    ensures CountValid(grants) == c
  {
    if grants != [] {
      CountIsPrefix(grants[1..], if c > 0 then c - 1 else 0);
    }
  }

  lemma RoomNone(n: nat)
    ensures Room(n, 0) == 0
  {
  }

  lemma {:induction false} LentNone(shadows: seq<Shadow>)
    requires forall i :: 0 <= i < |shadows| ==> shadows[i] == Shadow([], [])
    ensures Lent(shadows) == 0
  {
    if shadows != [] {
      LentNone(shadows[..|shadows| - 1]);
    }
  }

  // ----- the indirect pages

  /** What the requests hold for indirect pages alone. */
  function IndirectOnly(shadows: seq<Shadow>): (r: seq<Shadow>)
    ensures |r| == |shadows| && forall i :: 0 <= i < |r| ==> r[i] == Shadow([], shadows[i].indirect)
  {
    seq(|shadows|, i requires 0 <= i < |shadows| => Shadow([], shadows[i].indirect))
  }

  /**
   * Without persistent grants every page set up for indirect segments is on the list, in use by a
   * request, or was kept by the backend; with them there are none.
   */
  ghost predicate PagesOk(pages: nat, kept: nat, shadows: seq<Shadow>, q: nat, persistent: bool) {
    if persistent then pages == 0 && kept == 0 else
      Bounded(IndirectOnly(shadows), q) && pages + Lent(IndirectOnly(shadows)) + kept == Room(|shadows|, q)
  }

  lemma PagesAfterMap(pages: nat, kept: nat, shadows: seq<Shadow>, q: nat, persistent: bool, id: nat, s: Shadow)
    requires PagesOk(pages, kept, shadows, q, persistent) && id < |shadows| && Held(shadows[id]) == 0
    requires !persistent ==> |s.indirect| <= q && |s.indirect| <= pages
    ensures PagesOk(if persistent then pages else pages - |s.indirect|, kept, shadows[id := s], q, persistent)
  {
    assert IndirectOnly(shadows[id := s]) == IndirectOnly(shadows)[id := Shadow([], s.indirect)];
    LentUpdate(IndirectOnly(shadows), id, Shadow([], s.indirect));
    hide Lent, Room;
  }

  /** Of a request's indirect pages `lost` were kept by the backend. */
  lemma PagesAfterDone(pages: nat, kept: nat, shadows: seq<Shadow>, q: nat, persistent: bool, id: nat, lost: nat)
    requires PagesOk(pages, kept, shadows, q, persistent) && id < |shadows| && lost <= |shadows[id].indirect|
    ensures PagesOk(if persistent then pages else pages + |shadows[id].indirect| - lost, if persistent then kept else kept + lost,
                    shadows[id := Shadow([], [])], q, persistent)
  {
    assert IndirectOnly(shadows[id := Shadow([], [])]) == IndirectOnly(shadows)[id := Shadow([], [])];
    LentUpdate(IndirectOnly(shadows), id, Shadow([], []));
    hide Lent, Room;
  }

  /** As long as the backend has kept none, an idle request finds the pages it can need. */
  lemma PagesLeft(pages: nat, kept: nat, shadows: seq<Shadow>, q: nat, id: nat)
    requires PagesOk(pages, kept, shadows, q, false) && id < |shadows| && Held(shadows[id]) == 0
    ensures pages + kept >= q
  {
    RoomForOne(IndirectOnly(shadows), id, q);
    hide Lent, Room;
  }

  /** How many of the first n grants the backend is found to have mapped still. */
  function CountMapped(n: nat, mapped: nat -> bool): (c: nat)
    ensures c <= n
    ensures c == 0 <==> forall k: nat :: k < n ==> !mapped(k)
  {
    if n == 0 then 0 else CountMapped(n - 1, mapped) + if mapped(n - 1) then 1 else 0
  }

  /** The first n grants that are still mapped, the last one first, and those that are not, without their reference. */
  function KeptOf(gs: seq<Grant>, mapped: nat -> bool, n: nat): seq<Grant>
    requires n <= |gs|
  {
    if n == 0 then [] else (if mapped(n - 1) then [gs[n - 1]] else []) + KeptOf(gs, mapped, n - 1)
  }

  function EndedOf(gs: seq<Grant>, mapped: nat -> bool, n: nat): seq<Grant>
    requires n <= |gs|
  {
    if n == 0 then [] else EndedOf(gs, mapped, n - 1) + if mapped(n - 1) then [] else [gs[n - 1].(gref := 0)]
  }

  /** The list around `was` once the first n grants have gone back to it. */
  function PutBack(gs: seq<Grant>, mapped: nat -> bool, n: nat, was: seq<Grant>): seq<Grant>
    requires n <= |gs|
  {
    KeptOf(gs, mapped, n) + was + EndedOf(gs, mapped, n)
  }

  lemma PutBackNext(gs: seq<Grant>, mapped: nat -> bool, n: nat, was: seq<Grant>)
    requires n < |gs|
    ensures PutBack(gs, mapped, n + 1, was) ==
            if mapped(n) then [gs[n]] + PutBack(gs, mapped, n, was) else PutBack(gs, mapped, n, was) + [gs[n].(gref := 0)]
  {
    var kept, ended := KeptOf(gs, mapped, n), EndedOf(gs, mapped, n);
    var g, e := [gs[n]], [gs[n].(gref := 0)];
    assert KeptOf(gs, mapped, n + 1) == if mapped(n) then g + kept else kept by { assert [] + kept == kept; }
    assert EndedOf(gs, mapped, n + 1) == if mapped(n) then ended else ended + e by { assert ended + [] == ended; }
    hide KeptOf, EndedOf;
    assert (g + kept) + was + ended == g + (kept + was + ended);
    assert kept + was + (ended + e) == (kept + was + ended) + e;
  }

  lemma PutBackNone(gs: seq<Grant>, mapped: nat -> bool, was: seq<Grant>)
    ensures PutBack(gs, mapped, 0, was) == was
  {
  }

  // ----- requests the driver does not count on

  /** A request of 28 segments in 14 entries, each across a page boundary, on a ring without indirect segments. */
  function Straddling(n: nat): (sgl: seq<Sg>)
    ensures |sgl| == n && forall i :: 0 <= i < n ==> sgl[i] == Sg(i + 1, PAGE - 1, 2)
  {
    seq(n, i requires 0 <= i => Sg(i + 1, PAGE - 1, 2))
  }

  lemma {:induction false} StraddlingSegments(sgl: seq<Sg>)
    requires InPages(sgl) && forall i :: 0 <= i < |sgl| ==> sgl[i].offset == PAGE - 1 && sgl[i].length == 2
    ensures |Segments(sgl, 2 * |sgl|)| == 2 * |sgl|
  {
    if sgl != [] {
      CutCovers(sgl[0].page, 0, sgl[0].offset, 2);
      StraddlingSegments(sgl[1..]);
    }
  }

  /**
   * The test of the page count before the mapping does not bound the grants needed: 28 bytes in 14
   * entries pass it as two pages, and need more than the 26 grants reserved.
   */
  lemma PageTestTooWeak(per: nat)
    requires per > 0
    ensures var sgl := Straddling(14);
            && InPages(sgl) && PfnUp(28 + sgl[0].offset) == 2
            && |Segments(sgl, 28)| == 28 > SG_TABLESIZE && Need(28, per) > SG_TABLESIZE
  {
    StraddlingSegments(Straddling(14));
  }

  lemma PagesAbove(n: nat, m: nat)
    ensures PfnUp(n) > m <==> n > m * PAGE
  {
  }

  /**
   * How map_data_for_request ends: Stopped where a BUG_ON stops the machine, or where a segment has no
   * place in the arrays of its request.
   */
  datatype Status = Mapped | NoMemory | TooBig | Stopped

  class Frontend {
    const per: nat                          // SEGS_PER_VSCSI_INDIRECT_FRAME
    const shadow: array<Shadow>             // one per ring slot, empty while its id is free
    const persistent: bool                  // feature_persistent
    var grants: seq<Grant>
    var persistentGnts: nat                 // persistent_gnts_c
    var maxIndirect: nat                    // max_indirect_segments, or 0
    var indirectPages: nat                  // the length of indirect_pages
    ghost var kept: nat                     // indirect pages whose grant was found still mapped

    function MaxGrefs(): nat
      requires per > 0
      reads `maxIndirect
    {
      if maxIndirect > 0 then maxIndirect + IndirectPages(maxIndirect, per) else SG_TABLESIZE
    }

    /** The size of grants_used in each request. */
    function MaxSegs(): nat
      reads `maxIndirect
    {
      if maxIndirect > 0 then maxIndirect else SG_TABLESIZE
    }

    /** How a request of n segments takes its grants from a list with so many valid ones. */
    function ModeOf(n: nat, valid: nat): Mode {
      Mode(persistent, valid, n > SG_TABLESIZE, per)
    }

    /** get_grant. `ok` is false where one of its BUG_ONs stops the machine. */
    method GetGrant(chain: seq<nat>, pfn: nat, ghost g0: seq<Grant>, ghost c0: nat, ghost reserved: nat, ghost t: nat)
      returns (g: Grant, chain': seq<nat>, ok: bool)
      requires Taken(g0, c0, reserved, t, grants, persistentGnts, chain)
      requires c0 + reserved <= |g0| && (!persistent ==> pfn > 0)
      modifies `grants, `persistentGnts
      ensures ok <==> t < c0 + reserved
      ensures ok ==> t < |g0| && Taken(g0, c0, reserved, t + 1, grants, persistentGnts, chain')
      ensures ok ==> g.node == g0[t].node && g.gref != 0
      ensures ok ==> g.pfn == if persistent || t < c0 then g0[t].pfn else pfn
    {
      hide ListOk;
      if grants == [] {
        return Grant(0, 0, 0), chain, false; // BUG_ON(list_empty)
      }
      TakeNext(g0, c0, reserved, t, grants, persistentGnts, chain);
      g, chain', ok := grants[0], chain, true;
      if g.gref != 0 {
        grants, persistentGnts := grants[1..], persistentGnts - 1;
        return;
      }
      if chain == [] {
        return g, chain, false;             // BUG_ON(gref == -ENOSPC), or no chain was reserved
      }
      grants, chain' := grants[1..], chain[1..];
      g := g.(gref := chain[0]);
      if !persistent {
        assert pfn > 0;                     // BUG_ON(!pfn)
        g := g.(pfn := pfn);
      }
    }

    /**
     * The mapping of one segment in map_data_for_request; the k-th, and its indirect page where one
     * begins. `crosses` says that the segment's entry leaves its page.
     */
    method MapSegment(chain: seq<nat>, k: nat, page: nat, off: nat, bytes: nat, write: bool, crosses: bool, indirect: bool,
                      s: Shadow, wire: seq<Wire>, ghost segs: seq<Segment>,
                      ghost g0: seq<Grant>, ghost c0: nat, ghost reserved: nat, ghost pages0: nat)
      returns (chain': seq<nat>, s': Shadow, wire': seq<Wire>, ok: bool)
      requires per > 0 && k == |wire| == |s.used| < |segs| && |s.indirect| == if indirect then IndirectPages(k, per) else 0
      requires Mapping(g0, segs, Mode(persistent, c0, indirect, per), s, wire) && page > 0
      requires Taken(g0, c0, reserved, |s.used| + |s.indirect|, grants, persistentGnts, chain) && c0 + reserved <= |g0|
      requires page == segs[k].first && off == segs[k].offset && bytes == segs[k].length
      requires indirectPages == pages0 - (if persistent then 0 else |s.indirect|) && |s.used| <= MaxSegs()
      modifies `grants, `persistentGnts, `indirectPages
      ensures !ok ==>
                || c0 + reserved < |segs| + (if indirect then IndirectPages(|segs|, per) else 0)
                || MaxSegs() < |segs|
                || (indirect && !persistent && pages0 < IndirectPages(|segs|, per))
                || (write && persistent && crosses)
      ensures ok ==> !(write && persistent && crosses)
      ensures ok ==> |wire'| == |s'.used| == k + 1 <= MaxSegs() && |s'.indirect| == if indirect then IndirectPages(k + 1, per) else 0
      ensures ok ==> indirectPages == pages0 - (if persistent then 0 else |s'.indirect|)
      ensures ok ==> Mapping(g0, segs, Mode(persistent, c0, indirect, per), s', wire')
      ensures ok ==> Taken(g0, c0, reserved, |s'.used| + |s'.indirect|, grants, persistentGnts, chain')
    {
      hide Taken, Mapping, IndirectPages;
      NeedNext(k, |segs|, per);
      s', wire', chain', ok := s, wire, chain, true;
      if indirect && k % per == 0 {
        var pfn: nat := 0;
        if !persistent {
          if indirectPages == 0 {
            NeedWhole(k, |segs|, per);
            ok := false;                    // BUG_ON(list_empty(&info->indirect_pages))
            return;
          }
          indirectPages := indirectPages - 1;
          pfn := SomePage();
        }
        var gi;
        gi, chain', ok := GetGrant(chain, pfn, g0, c0, reserved, |s.used| + |s.indirect|);
        if !ok {
          return;
        }
        MappingPage(g0, segs, Mode(persistent, c0, indirect, per), s, wire, gi);
        s' := s.(indirect := s.indirect + [gi]);
      }
      var g;
      g, chain', ok := GetGrant(chain', page, g0, c0, reserved, |s'.used| + |s'.indirect|);
      if !ok {
        return;
      }
      if k >= MaxSegs() {
        ok := false;                        // grants_used ends here
        return;
      }
      MappingSegment(g0, segs, Mode(persistent, c0, indirect, per), s', wire, g);
      s' := s'.(used := s'.used + [g]);
      if write && persistent && crosses {
        ok := false;                        // BUG_ON(sg->offset + sg->length > PAGE_SIZE)
        return;
      }
      wire' := wire + [Wire(g.gref, off, bytes)];
    }

    /** The page frame of a page taken off indirect_pages. */
    method SomePage() returns (pfn: nat)
      ensures pfn > 0
    {
      pfn :| pfn > 0 by { assert 1 > 0; }
    }

    /** The loops of map_data_for_request over the scatterlist. */
    method MapSegments(sgl: seq<Sg>, dataLength: nat, write: bool, reservedChain: seq<nat>, indirect: bool,
                       ghost g0: seq<Grant>, ghost c0: nat)
      returns (chain: seq<nat>, s: Shadow, wire: seq<Wire>, ok: bool)
      requires per > 0 && InPages(sgl)
      requires Taken(g0, c0, |reservedChain|, 0, grants, persistentGnts, reservedChain) && c0 + |reservedChain| <= |g0|
      modifies `grants, `persistentGnts, `indirectPages
      ensures var segs := Segments(sgl, dataLength);
              var pages := if indirect then IndirectPages(|segs|, per) else 0;
              var need := |segs| + pages;
              && (ok <==>
                   && need <= c0 + |reservedChain| && |segs| <= MaxSegs()
                   && (persistent || pages <= old(indirectPages))
                   && (write && persistent ==> WholePages(sgl, dataLength)))
              && (ok ==> |s.used| + |s.indirect| == need && |s.used| == |wire| == |segs|
                         && indirectPages == old(indirectPages) - (if persistent then 0 else pages)
                         && Mapping(g0, segs, Mode(persistent, c0, indirect, per), s, wire)
                         && Taken(g0, c0, |reservedChain|, need, grants, persistentGnts, chain))
    {
      hide AtEntry, Within, Segments, Taken, Mapping, IndirectPages, Min, WholePages, WholeSoFar;
      ghost var segs := Segments(sgl, dataLength);
      ghost var x, pages0 := Mode(persistent, c0, indirect, per), indirectPages;
      WalkStarts(sgl, dataLength);
      WholeStarts(sgl, dataLength);
      MappingStarts(g0, segs, x);
      IndirectPagesNext(0, per);
      chain, s, wire, ok := reservedChain, Shadow([], []), [], true;
      var dataLen := dataLength;
      var i: nat := 0;
      while i < |sgl|
        invariant i <= |sgl| && ok && AtEntry(segs, |wire|, sgl, i, dataLen)
        invariant write && persistent ==> WholeSoFar(sgl, dataLength, i, dataLen)
        invariant |wire| == |s.used| <= MaxSegs() && |s.indirect| == if indirect then IndirectPages(|wire|, per) else 0
        invariant indirectPages == pages0 - (if persistent then 0 else |s.indirect|)
        invariant Mapping(g0, segs, x, s, wire)
        invariant Taken(g0, c0, |reservedChain|, |s.used| + |s.indirect|, grants, persistentGnts, chain)
      {
        EntryOpens(segs, |wire|, sgl, i, dataLen);
        var off: nat, len: nat := sgl[i].offset, sgl[i].length;
        var crosses := sgl[i].offset + sgl[i].length > PAGE;
        ghost var index: nat, left := 0, dataLen;
        if write && persistent {
          WholeNext(sgl, dataLength, i, left);
        }
        while len > 0 && dataLen > 0
          invariant off < PAGE && ok && Within(segs, |wire|, sgl, i, index, off, len, dataLen)
          invariant dataLen <= left && len <= sgl[i].length && left - dataLen == sgl[i].length - len
          invariant left == dataLen || !(write && persistent && crosses)
          invariant |wire| == |s.used| <= MaxSegs() && |s.indirect| == if indirect then IndirectPages(|wire|, per) else 0
          invariant indirectPages == pages0 - (if persistent then 0 else |s.indirect|)
          invariant Mapping(g0, segs, x, s, wire)
          invariant Taken(g0, c0, |reservedChain|, |s.used| + |s.indirect|, grants, persistentGnts, chain)
          decreases len
        {
          SegmentNext(segs, |wire|, sgl, i, index, off, len, dataLen);
          var bytes := BytesInPage(len, off, dataLen);
          MinIs(sgl[i].length, left);
          chain, s, wire, ok := MapSegment(chain, |wire|, sgl[i].page, off, bytes, write, crosses, indirect, s, wire, segs,
                                           g0, c0, |reservedChain|, pages0);
          if !ok {
            return;
          }
          len, dataLen, off, index := len - bytes, dataLen - bytes, 0, index + 1;
        }
        MinIs(sgl[i].length, left);
        EntryCloses(segs, |wire|, sgl, i, index, off, len, dataLen);
        i := i + 1;
      }
      if write && persistent {
        WholeEnds(sgl, dataLength, dataLen);
      }
      WalkEnds(segs, |wire|, sgl, dataLen);
      TakenList(g0, c0, |reservedChain|, |s.used| + |s.indirect|, grants, persistentGnts, chain);
    }

    /** The size of a request the pool is made for. */
    function PerRequest(): nat
      requires per > 0
      reads `maxIndirect
    {
      MaxSegs() + IndirectPages(MaxSegs(), per)
    }

    /** The indirect pages of a request the pool is made for. */
    function PagesPerRequest(): nat
      requires per > 0
      reads `maxIndirect
    {
      if maxIndirect > 0 then IndirectPages(maxIndirect, per) else 0
    }

    ghost predicate Valid()
      reads this, shadow
    {
      && per > 0 && PoolOk(grants, persistentGnts, shadow[..], PerRequest())
      && PagesOk(indirectPages, kept, shadow[..], PagesPerRequest(), persistent)
    }

    /** The request's segments have their places, indirect pages are left for it, and no entry to be copied leaves its page. */
    ghost predicate Fits(sgl: seq<Sg>, dataLength: nat, write: bool)
      requires per > 0 && InPages(sgl)
      reads `maxIndirect, `indirectPages
    {
      var n := |Segments(sgl, dataLength)|;
      && n <= MaxSegs()
      && (persistent || n <= SG_TABLESIZE || IndirectPages(n, per) <= indirectPages)
      && (write && persistent ==> WholePages(sgl, dataLength))
    }

    lemma FitsBounds(sgl: seq<Sg>, dataLength: nat, write: bool)
      requires per > 0 && InPages(sgl)
      ensures var n := |Segments(sgl, dataLength)|;
              Fits(sgl, dataLength, write) ==> n <= MaxSegs() && (persistent || n <= SG_TABLESIZE || IndirectPages(n, per) <= indirectPages)
    {
    }

    /** A request whose segments have their places needs no more grants than are reserved. */
    lemma NeedBounded(n: nat)
      requires per > 0
      ensures n <= MaxSegs() ==> Need(n, per) <= MaxGrefs() <= PerRequest()
      ensures n == MaxSegs() && (maxIndirect == 0 || maxIndirect > SG_TABLESIZE) ==> Need(n, per) == MaxGrefs()
      ensures n <= MaxSegs() && n > SG_TABLESIZE ==> IndirectPages(n, per) <= PagesPerRequest()
    {
      if n <= MaxSegs() {
        IndirectPagesMonotone(n, MaxSegs(), per);
      }
      hide IndirectPages;
    }

    /** map_data_for_request once the request has data and the grants are reserved. */
    method MapReserved(sgl: seq<Sg>, dataLength: nat, write: bool, chain: seq<nat>) returns (s: Shadow, wire: seq<Wire>, ok: bool)
      requires per > 0 && InPages(sgl) && ListOk(grants, persistentGnts)
      requires |chain| == (if persistentGnts < MaxGrefs() then MaxGrefs() - persistentGnts else 0)
      requires (forall k :: 0 <= k < |chain| ==> chain[k] != 0) && persistentGnts <= |grants| && MaxGrefs() <= |grants|
      modifies `grants, `persistentGnts, `indirectPages
      ensures var n := |Segments(sgl, dataLength)|;
              && (ok <==> old(Fits(sgl, dataLength, write)))
              && (ok ==>
                    && Took(old(grants), old(persistentGnts), Need(n, per), Segments(sgl, dataLength),
                            ModeOf(n, old(persistentGnts)), grants, persistentGnts, s, wire)
                    && |s.indirect| == (if n > SG_TABLESIZE then IndirectPages(n, per) else 0)
                    && indirectPages == old(indirectPages) - (if persistent then 0 else |s.indirect|))
    {
      hide Segments, ListOk, Mapping, IndirectPages, WholePages;
      var nseg := CalculateSegs(sgl, dataLength);
      ghost var g0, c0 := grants, persistentGnts;
      TakenStarts(g0, c0, chain);
      NeedBounded(nseg);
      var rest;
      rest, s, wire, ok := MapSegments(sgl, dataLength, write, chain, nseg > SG_TABLESIZE, g0, c0);
    }

    /** map_data_for_request; `write` is DMA_TO_DEVICE, and `none` DMA_NONE; `memory` says that a reserve of grants can be had. */
    method MapData(sgl: seq<Sg>, dataLength: nat, none: bool, write: bool, id: nat, memory: bool)
      returns (status: Status, wire: seq<Wire>)
      requires Valid() && InPages(sgl) && (dataLength > 0 ==> sgl != [])
      requires id < shadow.Length && shadow[id] == Shadow([], [])
      modifies `grants, `persistentGnts, `indirectPages, shadow
      ensures status.NoMemory? <==> !none && dataLength > 0 && old(persistentGnts) < MaxGrefs() && !memory
      ensures status.TooBig? <==>
                && !none && dataLength > 0 && (old(persistentGnts) < MaxGrefs() ==> memory)
                && dataLength + sgl[0].offset > MaxGrefs() * PAGE
      ensures status.Stopped? <==>
                && !none && dataLength > 0 && (old(persistentGnts) < MaxGrefs() ==> memory)
                && dataLength + sgl[0].offset <= MaxGrefs() * PAGE && !old(Fits(sgl, dataLength, write))
      ensures !status.Stopped? ==> Valid()
      ensures !status.Mapped? || none || dataLength == 0 ==> shadow[..] == old(shadow[..])
      ensures status.NoMemory? || status.TooBig? || none || dataLength == 0 ==>
                grants == old(grants) && persistentGnts == old(persistentGnts) && indirectPages == old(indirectPages) && wire == []
      ensures status.Mapped? && !none && dataLength > 0 ==>
                var segs, c := Segments(sgl, dataLength), old(persistentGnts);
                && Took(old(grants), c, Need(|segs|, per), segs, ModeOf(|segs|, c), grants, persistentGnts, shadow[id], wire)
                && shadow[..] == old(shadow[..])[id := shadow[id]]
                && indirectPages == old(indirectPages) - (if persistent then 0 else |shadow[id].indirect|)
    {
      hide Segments, PoolOk, PagesOk, Took, PfnUp, IndirectPages, Need, Fits;
      wire := [];
      if none || dataLength == 0 {
        return Mapped, wire;
      }
      PoolHasRoom(grants, persistentGnts, shadow[..], PerRequest(), id);
      PoolList(grants, persistentGnts, shadow[..], PerRequest());
      NeedBounded(0);
      var maxGrefs := MaxGrefs();
      var chain: seq<nat> := [];
      if persistentGnts < maxGrefs {
        if !memory {
          return NoMemory, wire;
        }
        chain := ReserveGrants(maxGrefs - persistentGnts);
      }
      PagesAbove(dataLength + sgl[0].offset, maxGrefs);
      if PfnUp(dataLength + sgl[0].offset) > maxGrefs {
        return TooBig, wire;
      }
      ghost var g0, c0, pages0 := grants, persistentGnts, indirectPages;
      FitsBounds(sgl, dataLength, write);
      var s, w, ok := MapReserved(sgl, dataLength, write, chain);
      if !ok {
        return Stopped, wire;
      }
      shadow[id] := s;
      assert shadow[..] == old(shadow[..])[id := s];
      ghost var n := |Segments(sgl, dataLength)|;
      NeedBounded(n);
      PoolAfterMap(g0, c0, old(shadow[..]), PerRequest(), id, Need(n, per), Segments(sgl, dataLength), ModeOf(n, c0),
                   grants, persistentGnts, s, w);
      PagesAfterMap(pages0, kept, old(shadow[..]), PagesPerRequest(), persistent, id, s);
      return Mapped, w;
    }

    /**
     * Where the backend has kept no indirect page, only a request with more segments than advertised,
     * or a write to be copied from an entry that leaves its page, stops the machine.
     */
    lemma FitsWhenNoneKept(sgl: seq<Sg>, dataLength: nat, write: bool, id: nat)
      requires Valid() && InPages(sgl) && id < shadow.Length && shadow[id] == Shadow([], []) && kept == 0
      ensures Fits(sgl, dataLength, write) <==>
              |Segments(sgl, dataLength)| <= MaxSegs() && (write && persistent ==> WholePages(sgl, dataLength))
    {
      NeedBounded(|Segments(sgl, dataLength)|);
      if !persistent {
        PagesLeft(indirectPages, kept, shadow[..], PagesPerRequest(), id);
      }
      hide Segments, PoolOk, PagesOk, WholePages, IndirectPages;
    }

    /** gnttab_alloc_grant_references where it does not fail. */
    method ReserveGrants(n: nat) returns (refs: seq<nat>)
      ensures |refs| == n && forall k :: 0 <= k < n ==> refs[k] != 0
    {
      refs := seq(n, k => 1);
      var other: seq<nat> := *;
      if |other| == n && forall k :: 0 <= k < n ==> other[k] != 0 {
        refs := other;
      }
    }

    /** Puts one grant back: to the head of the list while the backend has it mapped, else to the tail, ended. */
    method ReturnGrant(g: Grant, mapped: bool, ghost g0: seq<Grant>, ghost done: seq<Grant>)
      requires g.gref != 0 && GaveBack(g0, done, grants, persistentGnts)
      modifies `grants, `persistentGnts
      ensures GaveBack(g0, done + [g], grants, persistentGnts)
      ensures grants == if mapped then [g] + old(grants) else old(grants) + [g.(gref := 0)]
      ensures persistentGnts == old(persistentGnts) + if mapped then 1 else 0
    {
      GiveBack(g0, done, grants, persistentGnts, g);
      if mapped {
        grants, persistentGnts := [g] + grants, persistentGnts + 1;
      } else {
        grants := grants + [g.(gref := 0)];
      }
    }

    /** The loop of scsifront_gnttab_done over the segments. `mapped` answers gnttab_query_foreign_access. */
    method ReturnUsed(gs: seq<Grant>, mapped: nat -> bool, ghost g0: seq<Grant>) returns (ok: bool)
      requires Assigned(gs) && GaveBack(g0, [], grants, persistentGnts)
      modifies `grants, `persistentGnts
      ensures ok <==> persistent || CountMapped(|gs|, mapped) == 0
      ensures ok ==> GaveBack(g0, gs, grants, persistentGnts) && persistentGnts == old(persistentGnts) + CountMapped(|gs|, mapped)
      ensures ok ==> grants == PutBack(gs, mapped, |gs|, old(grants))
    {
      hide GaveBack, PutBack;
      ghost var was := grants;
      PutBackNone(gs, mapped, was);
      var i: nat := 0;
      assert gs[..0] == [];
      while i < |gs|
        invariant i <= |gs| && GaveBack(g0, gs[..i], grants, persistentGnts)
        invariant persistent || CountMapped(i, mapped) == 0
        invariant persistentGnts == old(persistentGnts) + CountMapped(i, mapped)
        invariant grants == PutBack(gs, mapped, i, was)
      {
        PutBackNext(gs, mapped, i, was);
        if mapped(i) && !persistent {
          return false;                     // BUG()
        }
        assert gs[..i + 1] == gs[..i] + [gs[i]];
        ReturnGrant(gs[i], mapped(i), g0, gs[..i]);
        i := i + 1;
      }
      assert gs[..i] == gs;
      ok := true;
    }

    /** Its loop over the indirect pages: the page of a grant still mapped does not go back to the list of pages. */
    method ReturnIndirect(gs: seq<Grant>, mapped: nat -> bool, ghost g0: seq<Grant>, ghost done: seq<Grant>)
      requires Assigned(gs) && GaveBack(g0, done, grants, persistentGnts)
      modifies `grants, `persistentGnts, `indirectPages, `kept
      ensures GaveBack(g0, done + gs, grants, persistentGnts)
      ensures persistentGnts == old(persistentGnts) + CountMapped(|gs|, mapped)
      ensures indirectPages == if persistent then old(indirectPages) else old(indirectPages) + |gs| - CountMapped(|gs|, mapped)
      ensures kept == if persistent then old(kept) else old(kept) + CountMapped(|gs|, mapped)
      ensures grants == PutBack(gs, mapped, |gs|, old(grants))
    {
      hide GaveBack, PutBack;
      ghost var was := grants;
      PutBackNone(gs, mapped, was);
      var i: nat := 0;
      assert done + gs[..0] == done;
      while i < |gs|
        invariant i <= |gs| && GaveBack(g0, done + gs[..i], grants, persistentGnts)
        invariant persistentGnts == old(persistentGnts) + CountMapped(i, mapped)
        invariant indirectPages == if persistent then old(indirectPages) else old(indirectPages) + i - CountMapped(i, mapped)
        invariant kept == if persistent then old(kept) else old(kept) + CountMapped(i, mapped)
        invariant grants == PutBack(gs, mapped, i, was)
      {
        PutBackNext(gs, mapped, i, was);
        assert done + gs[..i + 1] == (done + gs[..i]) + [gs[i]];
        if !persistent {
          if mapped(i) {
            kept := kept + 1;
          } else {
            indirectPages := indirectPages + 1;
          }
        }
        ReturnGrant(gs[i], mapped(i), g0, done + gs[..i]);
        i := i + 1;
      }
      assert gs[..i] == gs;
    }

    /** The test in the copying loop of scsifront_gnttab_done. */
    method CheckPages(sgl: seq<Sg>, dataLength: nat) returns (ok: bool)
      requires InPages(sgl)
      ensures ok <==> WholePages(sgl, dataLength)
    {
      hide Min, WholePages, WholeSoFar;
      WholeStarts(sgl, dataLength);
      var dataLen := dataLength;
      var i: nat := 0;
      while i < |sgl|
        invariant i <= |sgl| && WholeSoFar(sgl, dataLength, i, dataLen)
      {
        var off: nat, len: nat := sgl[i].offset, sgl[i].length;
        ghost var left := dataLen;
        WholeNext(sgl, dataLength, i, left);
        while len > 0 && dataLen > 0
          invariant off < PAGE && dataLen <= left && len <= sgl[i].length && left - dataLen == sgl[i].length - len
          invariant left == dataLen || sgl[i].offset + sgl[i].length <= PAGE
          decreases len
        {
          var bytes := BytesInPage(len, off, dataLen);
          MinIs(sgl[i].length, left);
          if sgl[i].offset + sgl[i].length > PAGE {
            return false;                   // BUG_ON(sg->offset + sg->length > PAGE_SIZE)
          }
          len, dataLen, off := len - bytes, dataLen - bytes, 0;
        }
        MinIs(sgl[i].length, left);
        i := i + 1;
      }
      WholeEnds(sgl, dataLength, dataLen);
      ok := true;
    }

    /** scsifront_gnttab_done for a request with data; `ok` is false where a BUG stops the machine. */
    method GnttabDone(id: nat, sgl: seq<Sg>, dataLength: nat, read: bool, mapped: nat -> bool, pageMapped: nat -> bool) returns (ok: bool)
      requires Valid() && id < shadow.Length && InPages(sgl)
      modifies `grants, `persistentGnts, `indirectPages, `kept, shadow
      ensures ok <==> if persistent then read ==> WholePages(sgl, dataLength) else CountMapped(|old(shadow[id]).used|, mapped) == 0
      ensures ok ==>
                var s := old(shadow[id]);
                var lost := CountMapped(|s.indirect|, pageMapped);
                && Valid() && shadow[..] == old(shadow[..])[id := Shadow([], [])]
                && GaveBack(old(grants), s.used + s.indirect, grants, persistentGnts)
                && grants == PutBack(s.indirect, pageMapped, |s.indirect|, PutBack(s.used, mapped, |s.used|, old(grants)))
                && persistentGnts == old(persistentGnts) + CountMapped(|s.used|, mapped) + lost
                && indirectPages == (if persistent then old(indirectPages) else old(indirectPages) + |s.indirect| - lost)
                && kept == if persistent then old(kept) else old(kept) + lost
    {
      hide PoolOk, PagesOk, GaveBack, ListOk, IndirectPages, Assigned, WholePages, PutBack;
      ok := true;
      if read && persistent {
        ok := CheckPages(sgl, dataLength);
        if !ok {
          return;
        }
      }
      ghost var g0, c0, shadows := grants, persistentGnts, shadow[..];
      ghost var pages0, kept0 := indirectPages, kept;
      PoolHolds(g0, c0, shadows, PerRequest(), id);
      GaveBackNone(g0, c0);
      ok := ReturnUsed(shadow[id].used, mapped, g0);
      if !ok {
        return;
      }
      ReturnIndirect(shadow[id].indirect, pageMapped, g0, shadow[id].used);
      PoolAfterDone(g0, c0, shadows, PerRequest(), id, grants, persistentGnts);
      PagesAfterDone(pages0, kept0, shadows, PagesPerRequest(), persistent, id, CountMapped(|shadow[id].indirect|, pageMapped));
      shadow[id] := Shadow([], []);
      assert shadow[..] == shadows[id := Shadow([], [])];
    }

    /** The parts of scsifront_resume_free that empty the two lists; their BUG_ONs test the count and the feature. */
    method Drain()
      requires ListOk(grants, persistentGnts) && (persistent ==> indirectPages == 0)
      modifies `grants, `persistentGnts, `indirectPages
      ensures grants == [] && persistentGnts == 0 && indirectPages == 0
    {
      CountIsPrefix(grants, persistentGnts);
      while grants != []
        invariant CountValid(grants) == persistentGnts
        decreases |grants|
        modifies `grants, `persistentGnts
      {
        if grants[0].gref != 0 {
          persistentGnts := persistentGnts - 1;
        }
        grants := grants[1..];
      }
      assert persistentGnts == 0;           // BUG_ON(info->persistent_gnts_c != 0)
      if indirectPages != 0 {
        assert !persistent;                 // BUG_ON(info->feature_persistent)
        while indirectPages != 0
          decreases indirectPages
          modifies `indirectPages
        {
          indirectPages := indirectPages - 1;
        }
      }
    }

    /**
     * fill_grant_buffer, where `memory` allocations succeed. Out of memory it empties the list and
     * stops the machine unless it freed as many as it added.
     */
    method FillGrantBuffer(num: nat, memory: nat) returns (status: Status)
      modifies `grants
      ensures status == if num <= memory then Mapped else if old(grants) != [] then Stopped else NoMemory
      ensures status.Mapped? ==> |grants| == old(|grants|) + num && grants[num..] == old(grants) && forall k :: 0 <= k < num ==> grants[k].gref == 0
      ensures !status.Mapped? ==> grants == []
    {
      var i: int := 0;
      while i < num && i < memory
        invariant 0 <= i <= num && i <= memory && |grants| == old(|grants|) + i && grants[i..] == old(grants)
        invariant forall k :: 0 <= k < i ==> grants[k].gref == 0
      {
        var node: nat, pfn: nat := *, *;
        grants := [Grant(node, 0, pfn)] + grants;
        i := i + 1;
      }
      if i == num {
        return Mapped;
      }
      while grants != []
        invariant i == |grants| - old(|grants|)
        decreases |grants|
      {
        grants := grants[1..];
        i := i - 1;
      }
      if i != 0 {
        return Stopped;                     // BUG_ON(i != 0)
      }
      return NoMemory;
    }

    /**
     * scsifront_setup_indirect with the number of segments the backend offers, where `memory` and
     * `pageMemory` allocations succeed, and `arrays` those of the arrays of the requests.
     */
    method SetupIndirect(offered: nat, limit: nat, memory: nat, pageMemory: nat, arrays: bool) returns (status: Status)
      requires per > 0 && grants == [] && persistentGnts == 0 && indirectPages == 0
      requires forall i :: 0 <= i < shadow.Length ==> shadow[i] == Shadow([], [])
      modifies `grants, `maxIndirect, `indirectPages, `kept
      ensures !status.Stopped? && !status.TooBig? && (status.Mapped? ==> Valid() && kept == 0)
      ensures indirectPages == if status.Mapped? && !persistent then Room(shadow.Length, PagesPerRequest()) else 0
      ensures maxIndirect == if offered > SG_TABLESIZE then Min(offered, limit) else 0
      ensures status.Mapped? <==>
              && Room(shadow.Length, PerRequest()) <= memory && arrays
              && (persistent || Room(shadow.Length, PagesPerRequest()) <= pageMemory)
    {
      maxIndirect := 0;
      if offered > SG_TABLESIZE {
        maxIndirect := Min(offered, limit);
      }
      kept := 0;
      LentNone(shadow[..]);
      LentNone(IndirectOnly(shadow[..]));
      status := FillGrantBuffer(Room(shadow.Length, PerRequest()), memory);
      if !status.Mapped? {
        return;
      }
      if !persistent && maxIndirect > 0 {
        var num := Room(shadow.Length, PagesPerRequest());
        while indirectPages < num && indirectPages < pageMemory
          invariant indirectPages <= num && indirectPages <= pageMemory
          modifies `indirectPages
        {
          indirectPages := indirectPages + 1;
        }
        if indirectPages < num {
          indirectPages := 0;
          return NoMemory;
        }
      }
      RoomNone(shadow.Length);
      if !arrays {
        indirectPages := 0;
        return NoMemory;
      }
    }

    constructor (n: nat, per: nat, persistent: bool)
      ensures fresh(shadow) && shadow.Length == n && this.per == per && this.persistent == persistent
      ensures grants == [] && persistentGnts == 0 && maxIndirect == 0 && indirectPages == 0 && kept == 0
      ensures forall i :: 0 <= i < n ==> shadow[i] == Shadow([], [])
    {
      this.per, this.persistent := per, persistent;
      shadow := new Shadow[n](_ => Shadow([], []));
      grants, persistentGnts, maxIndirect, indirectPages, kept := [], 0, 0, 0, 0;
    }
  }

  // ----- concrete runs

  /** Memory runs out in the second filling: the list had one entry, and the BUG_ON fires. */
  method FillingStops() returns (status: Status)
    ensures status.Stopped?
  {
    var f := new Frontend(1, 1, false);
    status := f.FillGrantBuffer(1, 1);
    status := f.FillGrantBuffer(1, 0);
  }

  /** A write of two bytes across a page boundary, with persistent grants and all memory there is. */
  method CrossingWriteStops() returns (status: Status)
    ensures status.Stopped?
  {
    var f := new Frontend(1, 512, true);
    status := f.SetupIndirect(0, 0, Room(1, f.PerRequest()), 0, true);
    SecondPageNotGranted();
    var wire;
    status, wire := f.MapData([Sg(1, PAGE - 1, 2)], 2, false, true, 0, true);
  }

  /** A request of thirty segments is mapped and done, and the backend keeps the only indirect page mapped. */
  method KeepPage() returns (f: Frontend, first: Status)
    ensures fresh(f) && fresh(f.shadow) && first.Mapped?
    ensures f.Valid() && f.shadow.Length == 1 && f.shadow[0] == Shadow([], [])
    ensures f.per == 512 && f.maxIndirect == 30 && !f.persistent
    ensures f.persistentGnts == 1 && f.indirectPages == 0
  {
    f := new Frontend(1, 512, false);
    var sgl := [Sg(1, 0, 30 * PAGE)];
    ThirtySegments(sgl);
    first := f.SetupIndirect(30, 512, 31, 1, true);
    assert f.PerRequest() == 31;
    assert f.PagesPerRequest() == 1;
    assert f.Fits(sgl, 30 * PAGE, false);
    var wire;
    first, wire := f.MapData(sgl, 30 * PAGE, false, false, 0, true);
    var ok := f.GnttabDone(0, sgl, 30 * PAGE, false, _ => false, _ => true);
  }

  /** Then the same request stops the machine. */
  method KeptPageStops() returns (first: Status, second: Status)
    ensures first.Mapped? && second.Stopped?
  {
    var f;
    f, first := KeepPage();
    var sgl := [Sg(1, 0, 30 * PAGE)];
    ThirtySegments(sgl);
    var wire;
    second, wire := f.MapData(sgl, 30 * PAGE, false, false, 0, true);
  }

  /** Or the grant of the kept page goes to a data segment, whose own page is not granted. */
  method KeptGrantMisused() returns (status: Status, page: nat, granted: nat)
    ensures status.Mapped? && granted != page
  {
    var f;
    f, status := KeepPage();
    PoolList(f.grants, f.persistentGnts, f.shadow[..], f.PerRequest());
    page := f.grants[0].pfn + 1;
    OneSegment([Sg(page, 0, 1)]);
    hide Segments, Cut, IndirectPages, PfnUp, PoolOk, PagesOk;
    var wire;
    status, wire := f.MapData([Sg(page, 0, 1)], 1, false, false, 0, true);
    granted := f.shadow[0].used[0].pfn;
  }

  lemma {:induction false} OneSegment(sgl: seq<Sg>)
    requires |sgl| == 1 && sgl[0].page > 0 && sgl[0].offset == 0 && sgl[0].length == 1
    ensures InPages(sgl) && Segments(sgl, 1) == [Segment(sgl[0].page, 0, 0, 1)] && PfnUp(1) == 1
  {
    assert Cut(sgl[0].page, 1, 0, 0) == [];
    assert Segments(sgl, 1) == Cut(sgl[0].page, 0, 0, 1) + Segments([], 0);
  }

  lemma ThirtySegments(sgl: seq<Sg>)
    requires sgl == [Sg(1, 0, 30 * PAGE)]
    ensures InPages(sgl) && |Segments(sgl, 30 * PAGE)| == 30 && PfnUp(30 * PAGE) == 30
    ensures IndirectPages(30, 512) == 1 && Room(1, 31) == 31 && Room(1, 1) == 1
  {
    CutCovers(1, 0, 0, 30 * PAGE);
    assert Segments(sgl, 30 * PAGE) == Cut(1, 0, 0, 30 * PAGE) + Segments([], 0);
    assert Room(0, 31) == 0 && Room(0, 1) == 0;
  }
}
