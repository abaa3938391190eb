/**
 * One direction of the xenstore ring: a 1024-byte buffer between a producer and a consumer, with
 * free-running 32-bit indices. First the chunk arithmetic, then every interleaving of a producer and
 * a consumer that copy byte by byte, then the driver's own two loops.
 */
module XenstoreRing {

  import opened Arithmetic
  import opened Common

  type Byte = x: int | 0 <= x < 256

  const SIZE: nat := 1024
  const WRAP: nat := 0x1_0000_0000

  /** XENSTORE_RING_IDX */
  type Index = x: nat | x < WRAP

  function Distance(cons: Index, prod: Index): Index {
    (prod - cons) % WRAP
  }

  predicate CheckIndexes(cons: Index, prod: Index) {
    Distance(cons, prod) <= SIZE
  }

  /** get_output_chunk: how many bytes may be stored from offset prod % SIZE on. */
  function OutputLength(cons: Index, prod: Index): nat
    requires CheckIndexes(cons, prod)
  {
    if SIZE - Distance(cons, prod) < SIZE - prod % SIZE then SIZE - Distance(cons, prod) else SIZE - prod % SIZE
  }

  /** get_input_chunk: how many bytes may be fetched from offset cons % SIZE on. */
  function InputLength(cons: Index, prod: Index): nat
    requires CheckIndexes(cons, prod)
  {
    if Distance(cons, prod) < SIZE - cons % SIZE then Distance(cons, prod) else SIZE - cons % SIZE
  }

  // ----- the indices as the low words of two counters

  /** `written` bytes have been published and `read` of them taken since the start. */
  ghost predicate Counts(cons: Index, prod: Index, read: nat, written: nat) {
    && cons == read % WRAP && prod == written % WRAP
    && read <= written <= read + SIZE
  }

  lemma DistanceIsFill(cons: Index, prod: Index, read: nat, written: nat)
    requires Counts(cons, prod, read, written)
    ensures Distance(cons, prod) == written - read && CheckIndexes(cons, prod)
    ensures cons % SIZE == read % SIZE && prod % SIZE == written % SIZE
  {
    DivModUnique(prod - cons, WRAP, read / WRAP - written / WRAP, written - read);
    LowBits(read);
    LowBits(written);
  }

  lemma LowBits(n: nat)
    ensures (n % WRAP) % SIZE == n % SIZE
  {
    DivModUnique(n % WRAP, SIZE, n / SIZE - n / WRAP * (WRAP / SIZE), n % SIZE);
  }

  /**
   * The output chunk is contiguous: its offsets are those of the next positions of the stream, in
   * order and without a wrap. It holds free space only, and all of it up to the end of the buffer.
   */
  lemma OutputChunk(cons: Index, prod: Index, read: nat, written: nat)
    requires Counts(cons, prod, read, written)
    ensures CheckIndexes(cons, prod)
    ensures var n := OutputLength(cons, prod);
            && prod % SIZE + n <= SIZE && written + n <= read + SIZE
            && (prod % SIZE + n == SIZE || written + n == read + SIZE)
            && (n == 0 <==> Distance(cons, prod) == SIZE)
            && forall p :: written <= p < written + n ==> p % SIZE == prod % SIZE + (p - written)
  {
    DistanceIsFill(cons, prod, read, written);
    forall p | written <= p < written + OutputLength(cons, prod)
      ensures p % SIZE == prod % SIZE + (p - written)
    {
      Offset(written, p);
    }
  }

  /** The input chunk likewise holds unread bytes only, and all of them up to the end of the buffer. */
  lemma InputChunk(cons: Index, prod: Index, read: nat, written: nat)
    requires Counts(cons, prod, read, written)
    ensures CheckIndexes(cons, prod)
    ensures var n := InputLength(cons, prod);
            && cons % SIZE + n <= SIZE && read + n <= written
            && (cons % SIZE + n == SIZE || read + n == written)
            && (n == 0 <==> cons == prod)
            && forall p :: read <= p < read + n ==> p % SIZE == cons % SIZE + (p - read)
  {
    DistanceIsFill(cons, prod, read, written);
    forall p | read <= p < read + InputLength(cons, prod)
      ensures p % SIZE == cons % SIZE + (p - read)
    {
      Offset(read, p);
    }
  }

  lemma Offset(a: nat, p: nat)
    requires a <= p < a + SIZE - a % SIZE
    ensures p % SIZE == a % SIZE + (p - a)
  {
  }

  /** Whatever the indices are, a chunk they pass is inside the buffer, and not empty unless the ring is full (empty). */
  lemma ChunksInside(cons: Index, prod: Index)
    requires CheckIndexes(cons, prod)
    ensures prod % SIZE + OutputLength(cons, prod) <= SIZE
    ensures cons % SIZE + InputLength(cons, prod) <= SIZE
    ensures OutputLength(cons, prod) == 0 <==> Distance(cons, prod) == SIZE
    ensures InputLength(cons, prod) == 0 <==> cons == prod
  {
  }

  // ----- the stream in the buffer

  /** The buffer holds the bytes of `sent` that have not been received. */
  ghost predicate Holds(buf: seq<Byte>, sent: seq<Byte>, read: nat) {
    |buf| == SIZE && forall p :: read <= p < |sent| ==> buf[p % SIZE] == sent[p]
  }

  ghost predicate Consistent(buf: seq<Byte>, cons: Index, prod: Index, sent: seq<Byte>, received: seq<Byte>) {
    && Counts(cons, prod, |received|, |sent|)
    && received == sent[..|received|]
    && Holds(buf, sent, |received|)
  }

  // ----- all interleavings of a producer and a consumer

  datatype Producer = ProducerIdle | Storing(bytes: seq<Byte>, stored: nat)
  datatype Consumer = ConsumerIdle | Fetching(length: nat, fetched: seq<Byte>)

  datatype State = State(
    buf: seq<Byte>, cons: Index, prod: Index,
    producer: Producer, consumer: Consumer,
    sent: seq<Byte>,                        // history: every byte published
    received: seq<Byte>)                    // history: every byte taken

  datatype Step =
    | StoreBegin(data: seq<Byte>)           // read both indices, with `data` still to be written
    | StoreByte
    | Publish
    | FetchBegin(wanted: nat)               // read both indices, with `wanted` bytes still to be read
    | FetchByte
    | Release

  ghost predicate Initial(s: State) {
    s == State(s.buf, 0, 0, ProducerIdle, ConsumerIdle, [], []) && |s.buf| == SIZE
  }

  ghost predicate Next(s: State, a: Step, s': State) {
    match a
    case StoreBegin(data) =>
      && s.producer.ProducerIdle? && CheckIndexes(s.cons, s.prod)
      && s' == s.(producer := Storing(data[..Min(OutputLength(s.cons, s.prod), |data|)], 0))
    case StoreByte =>
      && s.producer.Storing? && s.producer.stored < |s.producer.bytes| && s.prod % SIZE + s.producer.stored < |s.buf|
      && s' == s.(buf := s.buf[s.prod % SIZE + s.producer.stored := s.producer.bytes[s.producer.stored]],
                  producer := Storing(s.producer.bytes, s.producer.stored + 1))
    case Publish =>
      && s.producer.Storing? && s.producer.stored == |s.producer.bytes|
      && s' == s.(prod := (s.prod + |s.producer.bytes|) % WRAP, producer := ProducerIdle, sent := s.sent + s.producer.bytes)
    case FetchBegin(wanted) =>
      && s.consumer.ConsumerIdle? && CheckIndexes(s.cons, s.prod)
      && s' == s.(consumer := Fetching(Min(InputLength(s.cons, s.prod), wanted), []))
    case FetchByte =>
      && s.consumer.Fetching? && |s.consumer.fetched| < s.consumer.length && s.cons % SIZE + |s.consumer.fetched| < |s.buf|
      && s' == s.(consumer := Fetching(s.consumer.length, s.consumer.fetched + [s.buf[s.cons % SIZE + |s.consumer.fetched|]]))
    case Release =>
      && s.consumer.Fetching? && |s.consumer.fetched| == s.consumer.length
      && s' == s.(cons := (s.cons + s.consumer.length) % WRAP, consumer := ConsumerIdle, received := s.received + s.consumer.fetched)
  }

  /** What the producer has stored so far lies in free space, right behind the published bytes. */
  ghost predicate StoringOk(buf: seq<Byte>, prod: Index, producer: Producer, written: nat, read: nat) {
    producer.Storing? ==>
      && producer.stored <= |producer.bytes| && written + |producer.bytes| <= read + SIZE
      && prod % SIZE == written % SIZE && prod % SIZE + |producer.bytes| <= SIZE == |buf|
      && forall k :: prod % SIZE <= k < prod % SIZE + producer.stored ==> buf[k] == producer.bytes[k - prod % SIZE]
  }

  /** What the consumer has fetched so far is the next part of the published bytes. */
  ghost predicate FetchingOk(cons: Index, consumer: Consumer, sent: seq<Byte>, read: nat) {
    consumer.Fetching? ==>
      && |consumer.fetched| <= consumer.length && read + consumer.length <= |sent|
      && cons % SIZE == read % SIZE && cons % SIZE + consumer.length <= SIZE
      && consumer.fetched == sent[read..read + |consumer.fetched|]
  }

  ghost predicate Invariant(s: State) {
    && Consistent(s.buf, s.cons, s.prod, s.sent, s.received)
    && StoringOk(s.buf, s.prod, s.producer, |s.sent|, |s.received|)
    && FetchingOk(s.cons, s.consumer, s.sent, |s.received|)
  }

  lemma StoreBeginKeeps(s: State, data: seq<Byte>, s': State)
    requires Invariant(s) && Next(s, StoreBegin(data), s')
    ensures Invariant(s')
  {
    OutputChunk(s.cons, s.prod, |s.received|, |s.sent|);
    DistanceIsFill(s.cons, s.prod, |s.received|, |s.sent|);
  }

  lemma StoreByteKeeps(s: State, s': State)
    requires Invariant(s) && Next(s, StoreByte, s')
    ensures Invariant(s')
  {
    var w := |s.sent|;
    Offset(w, w + s.producer.stored);
    forall p | |s.received| <= p < w
      ensures s'.buf[p % SIZE] == s.sent[p]
    {
      DistinctRemainders(p, w + s.producer.stored, SIZE);
    }
  }

  lemma PublishKeeps(s: State, s': State)
    requires Invariant(s) && Next(s, Publish, s')
    ensures Invariant(s')
  {
    var w := |s.sent|;
    AddWraps(w, |s.producer.bytes|);
    forall p | |s.received| <= p < |s'.sent|
      ensures s'.buf[p % SIZE] == s'.sent[p]
    {
      if w <= p {
        Offset(w, p);
      }
    }
  }

  lemma AddWraps(a: nat, n: nat)
    ensures (a % WRAP + n) % WRAP == (a + n) % WRAP
  {
  }

  lemma FetchBeginKeeps(s: State, wanted: nat, s': State)
    requires Invariant(s) && Next(s, FetchBegin(wanted), s')
    ensures Invariant(s')
  {
    InputChunk(s.cons, s.prod, |s.received|, |s.sent|);
    DistanceIsFill(s.cons, s.prod, |s.received|, |s.sent|);
  }

  lemma FetchByteKeeps(s: State, s': State)
    requires Invariant(s) && Next(s, FetchByte, s')
    ensures Invariant(s')
  {
    Offset(|s.received|, |s.received| + |s.consumer.fetched|);
  }

  lemma ReleaseKeeps(s: State, s': State)
    requires Invariant(s) && Next(s, Release, s')
    ensures Invariant(s')
  {
    AddWraps(|s.received|, s.consumer.length);
  }

  lemma InvariantKept(s: State, a: Step, s': State)
    requires Invariant(s) && Next(s, a, s')
    ensures Invariant(s')
  {
    hide Invariant, Next;
    match a
    case StoreBegin(data) => StoreBeginKeeps(s, data, s');
    case StoreByte => StoreByteKeeps(s, s');
    case Publish => PublishKeeps(s, s');
    case FetchBegin(wanted) => FetchBeginKeeps(s, wanted, s');
    case FetchByte => FetchByteKeeps(s, s');
    case Release => ReleaseKeeps(s, s');
  }

  ghost predicate IsRun(states: seq<State>, steps: seq<Step>) {
    && |states| == |steps| + 1
    && Initial(states[0])
    && forall i :: 0 <= i < |steps| ==> Next(states[i], steps[i], states[i + 1])
  }

  lemma {:induction false} InvariantAlways(states: seq<State>, steps: seq<Step>, i: nat)
    requires IsRun(states, steps) && i < |states|
    ensures Invariant(states[i])
  {
    if i > 0 {
      InvariantAlways(states, steps, i - 1);
      hide Invariant;
      InvariantKept(states[i - 1], steps[i - 1], states[i]);
    }
  }

  /**
   * In every state of every interleaving the bytes received are a prefix of the bytes sent, at most
   * the ring's size behind, and equal indices mean that everything has been received.
   */
  lemma ReceivedIsPrefix(states: seq<State>, steps: seq<Step>, i: nat)
    requires IsRun(states, steps) && i < |states|
    ensures states[i].received <= states[i].sent
    ensures |states[i].sent| - |states[i].received| <= SIZE
    ensures states[i].cons == states[i].prod <==> states[i].received == states[i].sent
  {
    InvariantAlways(states, steps, i);
    var s := states[i];
    InputChunk(s.cons, s.prod, |s.received|, |s.sent|);
  }

  /** Neither side ever sees indices that fail the check, so neither ever resets the ring. */
  lemma CheckAlwaysPasses(states: seq<State>, steps: seq<Step>, i: nat)
    requires IsRun(states, steps) && i < |states|
    ensures CheckIndexes(states[i].cons, states[i].prod)
  {
    InvariantAlways(states, steps, i);
    var s := states[i];
    DistanceIsFill(s.cons, s.prod, |s.received|, |s.sent|);
  }

  lemma FillKept(s: State, a: Step, s': State)
    requires Invariant(s) && Next(s, a, s')
    ensures !a.Publish? && Distance(s.cons, s.prod) < SIZE ==> Distance(s'.cons, s'.prod) < SIZE
    ensures !a.Release? && s.cons != s.prod ==> s'.cons != s'.prod
  {
    InvariantKept(s, a, s');
    DistanceIsFill(s.cons, s.prod, |s.received|, |s.sent|);
    DistanceIsFill(s'.cons, s'.prod, |s'.received|, |s'.sent|);
    InputChunk(s.cons, s.prod, |s.received|, |s.sent|);
    InputChunk(s'.cons, s'.prod, |s'.received|, |s'.sent|);
    hide Invariant;
  }

  /** Room that the producer has seen stays until it publishes, and data that the consumer has seen until it releases. */
  lemma {:induction false} SeenStays(states: seq<State>, steps: seq<Step>, seen: nat, i: nat)
    requires IsRun(states, steps) && seen <= i < |states|
    ensures (forall k :: seen <= k < i ==> !steps[k].Publish?) && Distance(states[seen].cons, states[seen].prod) != SIZE ==>
              Distance(states[i].cons, states[i].prod) != SIZE
    ensures (forall k :: seen <= k < i ==> !steps[k].Release?) && states[seen].cons != states[seen].prod ==>
              states[i].cons != states[i].prod
  {
    if seen < i {
      SeenStays(states, steps, seen, i - 1);
      InvariantAlways(states, steps, i - 1);
      CheckAlwaysPasses(states, steps, i - 1);
      hide Invariant, Next;
      FillKept(states[i - 1], steps[i - 1], states[i]);
    }
  }

  /**
   * A producer that saw room when it waited, and a consumer that saw data, get a chunk that is not
   * empty, however far the other side has come since.
   */
  lemma WaitYieldsChunk(states: seq<State>, steps: seq<Step>, seen: nat, i: nat)
    requires IsRun(states, steps) && seen <= i < |steps|
    ensures var s, a, s' := states[seen], steps[i], states[i + 1];
            && (a.StoreBegin? && a.data != [] && Distance(s.cons, s.prod) != SIZE && (forall k :: seen <= k < i ==> !steps[k].Publish?)
                ==> s'.producer.bytes != [])
            && (a.FetchBegin? && a.wanted > 0 && s.cons != s.prod && (forall k :: seen <= k < i ==> !steps[k].Release?)
                ==> s'.consumer.length > 0)
  {
    SeenStays(states, steps, seen, i);
    CheckAlwaysPasses(states, steps, i);
    assert Next(states[i], steps[i], states[i + 1]);
    ChunksInside(states[i].cons, states[i].prod);
  }

  /** How many steps a side needs to finish the chunk it has begun. */
  function ProducerLeft(p: Producer): int {
    if p.Storing? then |p.bytes| - p.stored + 1 else 0
  }

  function ConsumerLeft(c: Consumer): int {
    if c.Fetching? then c.length - |c.fetched| + 1 else 0
  }

  /** Neither side ever waits inside a chunk: whatever the other has done, it can take its next step, one of as many as the chunk still needs. */
  lemma ProducerFinishes(states: seq<State>, steps: seq<Step>, i: nat) returns (a: Step, s': State)
    requires IsRun(states, steps) && i < |states| && states[i].producer.Storing?
    ensures (a == StoreByte || a == Publish) && Next(states[i], a, s')
    ensures 0 <= ProducerLeft(s'.producer) == ProducerLeft(states[i].producer) - 1
  {
    var s := states[i];
    InvariantAlways(states, steps, i);
    if s.producer.stored < |s.producer.bytes| {
      a := StoreByte;
      s' := s.(buf := s.buf[s.prod % SIZE + s.producer.stored := s.producer.bytes[s.producer.stored]],
               producer := Storing(s.producer.bytes, s.producer.stored + 1));
    } else {
      a := Publish;
      s' := s.(prod := (s.prod + |s.producer.bytes|) % WRAP, producer := ProducerIdle, sent := s.sent + s.producer.bytes);
    }
  }

  lemma ConsumerFinishes(states: seq<State>, steps: seq<Step>, i: nat) returns (a: Step, s': State)
    requires IsRun(states, steps) && i < |states| && states[i].consumer.Fetching?
    ensures (a == FetchByte || a == Release) && Next(states[i], a, s')
    ensures 0 <= ConsumerLeft(s'.consumer) == ConsumerLeft(states[i].consumer) - 1
  {
    var s := states[i];
    InvariantAlways(states, steps, i);
    if |s.consumer.fetched| < s.consumer.length {
      a := FetchByte;
      s' := s.(consumer := Fetching(s.consumer.length, s.consumer.fetched + [s.buf[s.cons % SIZE + |s.consumer.fetched|]]));
    } else {
      a := Release;
      s' := s.(cons := (s.cons + s.consumer.length) % WRAP, consumer := ConsumerIdle, received := s.received + s.consumer.fetched);
    }
  }

  // ----- xb_write and xb_read

  datatype Status = Done | Interrupted | IoError

  lemma PublishChunk(buf: seq<Byte>, buf': seq<Byte>, cons: Index, prod: Index, sent: seq<Byte>, received: seq<Byte>, bytes: seq<Byte>)
    requires Consistent(buf, cons, prod, sent, received) && CheckIndexes(cons, prod)
    requires |bytes| <= OutputLength(cons, prod) && prod % SIZE + |bytes| <= SIZE == |buf'|
    requires buf' == buf[..prod % SIZE] + bytes + buf[prod % SIZE + |bytes|..]
    ensures Consistent(buf', cons, (prod + |bytes|) % WRAP, sent + bytes, received)
  {
    var w := |sent|;
    OutputChunk(cons, prod, |received|, w);
    DistanceIsFill(cons, prod, |received|, w);
    AddWraps(w, |bytes|);
    forall p | |received| <= p < w + |bytes|
      ensures buf'[p % SIZE] == (sent + bytes)[p]
    {
      if p < w {
        if prod % SIZE <= p % SIZE < prod % SIZE + |bytes| {
          var q := w + (p % SIZE - prod % SIZE);
          Offset(w, q);
          DistinctRemainders(p, q, SIZE);
        }
      } else {
        Offset(w, p);
      }
    }
  }

  lemma TakeChunk(buf: seq<Byte>, cons: Index, prod: Index, sent: seq<Byte>, received: seq<Byte>, n: nat)
    requires Consistent(buf, cons, prod, sent, received)
    requires n <= Distance(cons, prod)
    ensures |received| + n <= |sent|
    ensures Consistent(buf, (cons + n) % WRAP, prod, sent, sent[..|received| + n])
    ensures CheckIndexes(cons, prod)
    ensures n <= InputLength(cons, prod) ==>
              cons % SIZE + n <= SIZE && received + buf[cons % SIZE..cons % SIZE + n] == sent[..|received| + n]
  {
    DistanceIsFill(cons, prod, |received|, |sent|);
    AddWraps(|received|, n);
    if n <= InputLength(cons, prod) {
      InputChunk(cons, prod, |received|, |sent|);
      forall p | |received| <= p < |received| + n
        ensures buf[cons % SIZE + (p - |received|)] == sent[p]
      {
        Offset(|received|, p);
      }
    }
  }

  lemma TakenDistance(cons: Index, prod: Index, n: nat)
    requires n <= Distance(cons, prod)
    ensures Distance((cons + n) % WRAP, prod) == Distance(cons, prod) - n
  {
  }

  lemma GivenDistance(cons: Index, prod: Index, n: nat)
    requires Distance(cons, prod) + n < WRAP
    ensures Distance(cons, (prod + n) % WRAP) == Distance(cons, prod) + n
  {
  }

  /** The first n answers are all yes. */
  ghost predicate AllFirst(answers: nat -> bool, n: nat) {
    forall k: nat :: k < n ==> answers(k)
  }

  lemma FirstNone(yes: nat -> bool, no: nat -> bool)
    ensures AllFirst(yes, 0) && NoneFirst(no, 0)
  {
  }

  lemma AllFirstNext(answers: nat -> bool, n: nat)
    ensures AllFirst(answers, n + 1) <==> AllFirst(answers, n) && answers(n)
  {
  }

  ghost predicate NoneFirst(answers: nat -> bool, n: nat) {
    forall k: nat :: k < n ==> !answers(k)
  }

  lemma NoneFirstNext(answers: nat -> bool, n: nat)
    ensures NoneFirst(answers, n + 1) <==> NoneFirst(answers, n) && !answers(n)
  {
  }

  lemma SentMore(was: seq<Byte>, data: seq<Byte>, done: nat, n: nat)
    requires done + n <= |data|
    ensures (was + data[..done]) + data[done..][..n] == was + data[..done + n]
  {
  }

  /** One direction of the shared page. The peer keeps to the protocol as long as `honest` holds. */
  class Ring {
    const buf: array<Byte>
    var cons: Index
    var prod: Index
    ghost var sent: seq<Byte>
    ghost var received: seq<Byte>
    ghost var honest: bool

    ghost predicate Valid()
      reads this, buf
    {
      buf.Length == SIZE && (honest ==> Consistent(buf[..], cons, prod, sent, received))
    }

    constructor ()
      ensures Valid() && fresh(buf) && honest && sent == received == []
    {
      buf := new Byte[SIZE];
      cons, prod := 0, 0;
      sent, received, honest := [], [], true;
    }

    /**
     * Waits until the ring is not full, or for a signal. Meanwhile the peer takes bytes, or, if it does
     * not obey, stores any indices it likes.
     */
    method WaitForSpace(signal: bool, obeys: bool) returns (interrupted: bool)
      requires Valid()
      modifies `cons, `prod, `received, `honest
      ensures Valid() && honest == (old(honest) && obeys)
      ensures honest ==> old(received) <= received && prod == old(prod)
      ensures interrupted <==> signal
      ensures !interrupted ==> Distance(cons, prod) != SIZE
    {
      interrupted := signal;
      if honest {
        DistanceIsFill(cons, prod, |received|, |sent|);
      }
      if obeys && CheckIndexes(cons, prod) {
        var fill: nat := Distance(cons, prod);
        var n: nat :| n <= fill && fill - n != SIZE by { assert fill - fill != SIZE; }
        TakenDistance(cons, prod, n);
        if honest {
          TakeChunk(buf[..], cons, prod, sent, received, n);
          received := sent[..|received| + n];
        }
        cons := (cons + n) % WRAP;
      } else {
        honest := false;
        var c: Index, p: Index :| Distance(c, p) != SIZE by { assert Distance(0, 0) == 0; }
        cons, prod := c, p;
      }
    }

    /** Copies a chunk into the buffer. */
    method Store(start: nat, bytes: seq<Byte>)
      requires start + |bytes| <= buf.Length
      modifies buf
      ensures buf[..] == old(buf[..start]) + bytes + old(buf[start + |bytes|..])
    {
      forall k | start <= k < start + |bytes| {
        buf[k] := bytes[k - start];
      }
    }

    /** Stores `avail` bytes from offset `start` on and publishes them. */
    method StoreAndPublish(start: nat, bytes: seq<Byte>)
      requires Valid() && CheckIndexes(cons, prod)
      requires start == prod % SIZE && |bytes| <= OutputLength(cons, prod)
      modifies `prod, `sent, buf
      ensures Valid() && prod == (old(prod) + |bytes|) % WRAP
      ensures honest ==> sent == old(sent) + bytes
    {
      ChunksInside(cons, prod);
      ghost var before := buf[..];
      Store(start, bytes);
      if honest {
        PublishChunk(before, buf[..], cons, prod, sent, received, bytes);
        sent := sent + bytes;
      }
      prod := (prod + |bytes|) % WRAP;
    }

    /** A peer that keeps to no protocol moves the indices. */
    method Meddle()
      requires Valid()
      modifies `cons, `prod, `honest
      ensures Valid() && !honest
    {
      honest := false;
      var c: Index, p: Index := *, *;
      cons, prod := c, p;
    }

    /**
     * xb_write. signals(k) is whether a signal ends the k-th wait, and obeys(k) whether the peer keeps
     * to the protocol meanwhile; if not, it may also move the indices between the wait and their
     * reading, some number of times. There are `waits` waits, each but the last followed by a chunk.
     */
    method Write(data: seq<Byte>, signals: nat -> bool, obeys: nat -> bool) returns (status: Status, ghost waits: nat)
      requires Valid()
      modifies `cons, `prod, `sent, `received, `honest, buf
      ensures Valid() && (honest <==> old(honest) && AllFirst(obeys, waits))
      ensures honest ==> old(received) <= received
      ensures status.Interrupted? <==> waits > 0 && signals(waits - 1)
      ensures waits > 0 ==> NoneFirst(signals, waits - 1)
      ensures status.Done? && honest ==> waits <= |data| && sent == old(sent) + data
      ensures status.Interrupted? && honest ==> exists k: nat :: waits - 1 <= k < |data| && sent == old(sent) + data[..k]
      ensures status.IoError? ==> !honest && cons == prod == 0
    {
      hide Consistent, CheckIndexes, Distance, AllFirst, NoneFirst;
      var done: nat, times: nat, round: nat := 0, *, 0;
      waits := 0;
      assert AllFirst(obeys, 0) && NoneFirst(signals, 0) by { FirstNone(obeys, signals); }
      assert data[..0] == [];
      while done < |data|
        invariant done <= |data| && Valid() && waits == round
        invariant (honest <==> old(honest) && AllFirst(obeys, waits)) && NoneFirst(signals, waits)
        invariant honest ==> old(received) <= received && sent == old(sent) + data[..done] && waits <= done
        decreases |data| - done, times
      {
        AllFirstNext(obeys, round);
        NoneFirstNext(signals, round);
        var interrupted := WaitForSpace(signals(round), obeys(round));
        round, waits := round + 1, waits + 1;
        if interrupted {
          return Interrupted, waits;
        }
        if !obeys(round - 1) && times > 0 {
          times := times - 1;
          Meddle();
        }
        var n, ok := SendChunk(data[done..]);
        if !ok {
          return IoError, waits;
        }
        SentMore(old(sent), data, done, n);
        done := done + n;
      }
      assert data[..done] == data;
      if waits > 0 {
        NoneFirstNext(signals, waits - 1);
      }
      return Done, waits;
    }

    /** What follows a wait: a chunk of n bytes is written, unless the indices are wrong. */
    method SendChunk(data: seq<Byte>) returns (n: nat, ok: bool)
      requires Valid() && data != []
      modifies `cons, `prod, `sent, buf
      ensures Valid() && n <= |data|
      ensures !ok ==> !honest && cons == prod == 0
      ensures ok && honest ==> sent == old(sent) + data[..n]
      ensures ok && old(Distance(cons, prod)) != SIZE ==> n > 0
    {
      if honest {
        DistanceIsFill(cons, prod, |received|, |sent|);
      }
      hide Consistent;
      if !CheckIndexes(cons, prod) {
        cons, prod := 0, 0;
        return 0, false;
      }
      ChunksInside(cons, prod);
      var start, avail: nat := prod % SIZE, OutputLength(cons, prod);
      n, ok := if avail > |data| then |data| else avail, true;
      StoreAndPublish(start, data[..n]);
    }

    /** Waits until there is something to read, or for a signal. Meanwhile the peer sends bytes, or stores any indices and bytes it likes. */
    method WaitForData(signal: bool, obeys: bool) returns (interrupted: bool)
      requires Valid()
      modifies `cons, `prod, `sent, `honest, buf
      ensures Valid() && honest == (old(honest) && obeys)
      ensures honest ==> old(sent) <= sent && cons == old(cons)
      ensures interrupted <==> signal
      ensures !interrupted ==> cons != prod
    {
      interrupted := signal;
      if honest {
        DistanceIsFill(cons, prod, |received|, |sent|);
      }
      if obeys && CheckIndexes(cons, prod) {
        var more := *;
        more := prod == cons || (more && Distance(cons, prod) < SIZE);
        while more
          invariant Valid() && CheckIndexes(cons, prod) && cons == old(cons) && honest == old(honest)
          invariant honest ==> old(sent) <= sent
          invariant more ==> Distance(cons, prod) < SIZE
          invariant !more ==> cons != prod
          decreases SIZE - Distance(cons, prod), more
        {
          var b: Byte := *;
          ChunksInside(cons, prod);
          GivenDistance(cons, prod, 1);
          StoreAndPublish(prod % SIZE, [b]);
          more := *;
          more := more && Distance(cons, prod) < SIZE;
        }
      } else {
        honest := false;
        var c: Index, p: Index :| c != p by { assert 0 != 1; }
        var bytes: seq<Byte> :| |bytes| == buf.Length by { assert |buf[..]| == buf.Length; }
        Store(0, bytes);
        cons, prod := c, p;
      }
    }

    /** Copies a chunk out of the buffer and releases it. */
    method Fetch(start: nat, avail: nat) returns (bytes: seq<Byte>)
      requires Valid() && CheckIndexes(cons, prod)
      requires start == cons % SIZE && avail <= InputLength(cons, prod)
      modifies `cons, `received
      ensures Valid() && cons == (old(cons) + avail) % WRAP
      ensures |bytes| == avail && (honest ==> received == old(received) + bytes)
    {
      ChunksInside(cons, prod);
      bytes := buf[start..start + avail];
      if honest {
        TakeChunk(buf[..], cons, prod, sent, received, avail);
        received := received + bytes;
      }
      cons := (cons + avail) % WRAP;
    }

    /** xb_read, with such a peer as well: `data` is what was copied out, `length` bytes unless it failed. */
    method Read(length: nat, signals: nat -> bool, obeys: nat -> bool) returns (status: Status, data: seq<Byte>, ghost waits: nat)
      requires Valid()
      modifies `cons, `prod, `sent, `received, `honest, buf
      ensures Valid() && (honest <==> old(honest) && AllFirst(obeys, waits))
      ensures honest ==> old(sent) <= sent && received == old(received) + data
      ensures |data| <= length && (status.Done? <==> |data| == length)
      ensures status.Interrupted? <==> waits > 0 && signals(waits - 1)
      ensures waits > 0 ==> NoneFirst(signals, waits - 1)
      ensures honest ==> |data| >= if status.Done? then waits else waits - 1
      ensures status.IoError? ==> !honest && cons == prod == 0
    {
      hide Consistent, CheckIndexes, Distance, AllFirst, NoneFirst;
      data, waits := [], 0;
      var times: nat, round: nat := *, 0;
      assert AllFirst(obeys, 0) && NoneFirst(signals, 0) by { FirstNone(obeys, signals); }
      while |data| < length
        invariant |data| <= length && Valid() && waits == round
        invariant (honest <==> old(honest) && AllFirst(obeys, waits)) && NoneFirst(signals, waits)
        invariant honest ==> old(sent) <= sent && received == old(received) + data && waits <= |data|
        decreases length - |data|, times
      {
        AllFirstNext(obeys, round);
        NoneFirstNext(signals, round);
        var interrupted := WaitForData(signals(round), obeys(round));
        round, waits := round + 1, waits + 1;
        if interrupted {
          return Interrupted, data, waits;
        }
        if !obeys(round - 1) && times > 0 {
          times := times - 1;
          Meddle();
        }
        var bytes, ok := ReceiveChunk(length - |data|);
        if !ok {
          return IoError, data, waits;
        }
        data := data + bytes;
      }
      if waits > 0 {
        NoneFirstNext(signals, waits - 1);
      }
      return Done, data, waits;
    }

    method ReceiveChunk(length: nat) returns (bytes: seq<Byte>, ok: bool)
      requires Valid() && length > 0
      modifies `cons, `prod, `received
      ensures Valid() && |bytes| <= length
      ensures !ok ==> !honest && cons == prod == 0
      ensures ok && honest ==> received == old(received) + bytes
      ensures ok && old(cons != prod) ==> bytes != []
    {
      if honest {
        DistanceIsFill(cons, prod, |received|, |sent|);
      }
      hide Consistent;
      if !CheckIndexes(cons, prod) {
        cons, prod := 0, 0;
        return [], false;
      }
      ChunksInside(cons, prod);
      var start, avail: nat := cons % SIZE, InputLength(cons, prod);
      bytes := Fetch(start, if avail > length then length else avail);
      ok := true;
    }
  }
}
