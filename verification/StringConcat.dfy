/**
 * strncat_s and strcat_s on one memory, where destination and source may overlap in any way.
 *
 * A memory is a sequence of bytes and a pointer is an address in it, or null. The functions give the
 * meaning of the two calls on a memory value; the methods run the original loops on an array and are
 * proved to compute exactly those functions.
 */
module StringConcat {

  const STRING_MAX_LEN := 0x7fff_ffff

  datatype Code = EOK | EINVAL | EINVAL_AND_RESET | ERANGE | ERANGE_AND_RESET | EOVERLAP_AND_RESET

  datatype Pointer = Null | At(address: nat)

  datatype Outcome = Outcome(code: Code, mem: seq<int>)

  // ----- meaning of the calls

  function Peek(m: seq<int>, a: nat): int {
    if a < |m| then m[a] else 0
  }

  function Poke(m: seq<int>, a: nat, v: int): (m': seq<int>)
    ensures |m'| == |m|
  {
    if a < |m| then m[a := v] else m
  }

  datatype Seek = Found(at: nat, avail: nat) | Unterminated | Collided

  /** Looks for the destination's terminator; with a guard it also stops on the guarded address. */
  function SeekEnd(m: seq<int>, d: nat, avail: nat, guarded: bool, guard: nat): Seek
    decreases avail
  {
    if avail == 0 then Unterminated
    else if Peek(m, d) == 0 then Found(d, avail)
    else if guarded && d == guard then Collided
    else SeekEnd(m, d + 1, avail - 1, guarded, guard)
  }

  datatype Copied = Copied(mem: seq<int>, d: nat, avail: nat, count: nat, collided: bool)

  /** The copy loop of strncat_s. The guard watches the source pointer or the destination pointer. */
  function Copy(m: seq<int>, d: nat, s: nat, avail: nat, count: nat, onSource: bool, guard: nat): Copied
    decreases count
  {
    if count == 0 then Copied(m, d, avail, 0, false)
    else
      var c := Peek(m, s);
      var m' := Poke(m, d, c);
      if c == 0 then Copied(m', d + 1, avail, count, false)
      else if avail <= 1 then Copied(m', d + 1, 0, count, false)
      else if (if onSource then s + 1 else d + 1) == guard then Copied(m', d + 1, avail - 1, count, true)
      else Copy(m', d + 1, s + 1, avail - 1, count - 1, onSource, guard)
  }

  /** The copy loop of strcat_s: no count, so it goes on until a terminator, a full buffer or a collision. */
  function CopyAll(m: seq<int>, d: nat, s: nat, avail: nat, onSource: bool, guard: nat): Copied
    decreases avail
  {
    var c := Peek(m, s);
    var m' := Poke(m, d, c);
    if c == 0 then Copied(m', d + 1, avail, 0, false)
    else if avail <= 1 then Copied(m', d + 1, 0, 0, false)
    else if (if onSource then s + 1 else d + 1) == guard then Copied(m', d + 1, avail - 1, 0, true)
    else CopyAll(m', d + 1, s + 1, avail - 1, onSource, guard)
  }

  function Reset(m: seq<int>, header: nat, code: Code): Outcome {
    Outcome(code, Poke(m, header, 0))
  }

  function Finish(header: nat, r: Copied): Outcome {
    if r.collided then Reset(r.mem, header, EOVERLAP_AND_RESET)
    else if r.avail == 0 then Reset(r.mem, header, ERANGE_AND_RESET)
    else Outcome(EOK, r.mem)
  }

  function Terminated(r: Copied): Copied {
    if !r.collided && r.count == 0 then r.(mem := Poke(r.mem, r.d, 0)) else r
  }

  function Strncat(m: seq<int>, dest: Pointer, destMax: nat, src: Pointer, count: nat): Outcome {
    if destMax == 0 || destMax > STRING_MAX_LEN then Outcome(ERANGE, m)
    else if dest.Null? then Outcome(EINVAL, m)
    else if src.Null? then Reset(m, dest.address, EINVAL_AND_RESET)
    else if count > STRING_MAX_LEN then Reset(m, dest.address, ERANGE_AND_RESET)
    else
      var before := dest.address < src.address;
      var guard := if before then src.address else dest.address;
      match SeekEnd(m, dest.address, destMax, before, guard)
      case Collided => Reset(m, dest.address, EOVERLAP_AND_RESET)
      case Unterminated => Reset(m, dest.address, EINVAL_AND_RESET)
      case Found(end, avail) =>
        Finish(dest.address, Terminated(Copy(m, end, src.address, avail, count, !before, guard)))
  }

  function Strcat(m: seq<int>, dest: Pointer, destMax: nat, src: Pointer): Outcome {
    if destMax == 0 || destMax > STRING_MAX_LEN then Outcome(ERANGE, m)
    else if dest.Null? then Outcome(EINVAL, m)
    else if src.Null? then Reset(m, dest.address, EINVAL_AND_RESET)
    else
      var before := dest.address < src.address;
      var guard := if before then src.address else dest.address;
      match SeekEnd(m, dest.address, destMax, before, guard)
      case Collided => Reset(m, dest.address, EOVERLAP_AND_RESET)
      case Unterminated => Reset(m, dest.address, EINVAL_AND_RESET)
      case Found(end, avail) =>
        Finish(dest.address, CopyAll(m, end, src.address, avail, !before, guard))
  }

  // ----- agreement of the two functions

  lemma SeekBounds(m: seq<int>, d: nat, avail: nat, guarded: bool, guard: nat)
    ensures var k := SeekEnd(m, d, avail, guarded, guard);
            k.Found? ==> d <= k.at && k.at + k.avail == d + avail && k.avail > 0 && Peek(m, k.at) == 0
    decreases avail
  {
  }

  /** A count that the buffer cannot outlast changes nothing: the loops differ only in the unused count. */
  lemma {:induction false} CopyAgrees(m: seq<int>, d: nat, s: nat, avail: nat, count: nat, onSource: bool, guard: nat)
    requires 0 < avail <= count
    ensures var r := Copy(m, d, s, avail, count, onSource, guard);
            var all := CopyAll(m, d, s, avail, onSource, guard);
            && r.mem == all.mem && r.avail == all.avail && r.collided == all.collided
            && r.count > 0
    decreases avail
  {
    var c := Peek(m, s);
    if c != 0 && avail > 1 && (if onSource then s + 1 else d + 1) != guard {
      CopyAgrees(Poke(m, d, c), d + 1, s + 1, avail - 1, count - 1, onSource, guard);
    }
  }

  /** For every layout, null or not: strncat_s with a large count is strcat_s, in code and in memory. */
  lemma StrcatIsStrncat(m: seq<int>, dest: Pointer, destMax: nat, src: Pointer, count: nat)
    requires destMax <= count <= STRING_MAX_LEN
    ensures Strncat(m, dest, destMax, src, count) == Strcat(m, dest, destMax, src)
  {
    if 0 < destMax && dest.At? && src.At? {
      var before := dest.address < src.address;
      var guard := if before then src.address else dest.address;
      var k := SeekEnd(m, dest.address, destMax, before, guard);
      SeekBounds(m, dest.address, destMax, before, guard);
      if k.Found? {
        CopyAgrees(m, k.at, src.address, k.avail, count, !before, guard);
      }
    }
  }

  // ----- nothing outside the destination buffer is written

  ghost predicate SameOutside(m: seq<int>, m': seq<int>, lo: nat, hi: nat) {
    && |m'| == |m|
    && forall a :: 0 <= a < |m| && !(lo <= a < hi) ==> m'[a] == m[a]
  }

  lemma {:induction false} CopyFrame(m: seq<int>, d: nat, s: nat, avail: nat, count: nat, onSource: bool, guard: nat)
    requires avail > 0
    ensures SameOutside(m, Terminated(Copy(m, d, s, avail, count, onSource, guard)).mem, d, d + avail)
    decreases avail
  {
    var c := Peek(m, s);
    if count > 0 && c != 0 && avail > 1 && (if onSource then s + 1 else d + 1) != guard {
      CopyFrame(Poke(m, d, c), d + 1, s + 1, avail - 1, count - 1, onSource, guard);
    }
  }

  /** For every layout, terminated or not, only the destMax bytes at the destination can change. */
  lemma StrncatWritesOnlyDestination(m: seq<int>, dest: Pointer, destMax: nat, src: Pointer, count: nat)
    ensures var m' := Strncat(m, dest, destMax, src, count).mem;
            if dest.Null? then m' == m else SameOutside(m, m', dest.address, dest.address + destMax)
  {
    if 0 < destMax && dest.At? && src.At? && count <= STRING_MAX_LEN {
      var before := dest.address < src.address;
      var guard := if before then src.address else dest.address;
      var k := SeekEnd(m, dest.address, destMax, before, guard);
      SeekBounds(m, dest.address, destMax, before, guard);
      if k.Found? {
        CopyFrame(m, k.at, src.address, k.avail, count, !before, guard);
      }
    }
  }

  /** Whatever error is reported with a reset, the destination then holds the empty string. */
  lemma ResetEmptiesDestination(m: seq<int>, dest: Pointer, destMax: nat, src: Pointer, count: nat)
    requires dest.At? && dest.address < |m|
    ensures var r := Strncat(m, dest, destMax, src, count);
            && |r.mem| == |m|
            && (r.code in {EINVAL_AND_RESET, ERANGE_AND_RESET, EOVERLAP_AND_RESET} ==> r.mem[dest.address] == 0)
  {
    StrncatWritesOnlyDestination(m, dest, destMax, src, count);
  }

  // ----- disjoint buffers

  /** `n` characters in a row that are not terminators. */
  ghost predicate NoTerminator(m: seq<int>, a: nat, n: nat) {
    && a + n <= |m|
    && forall p :: a <= p < a + n ==> m[p] != 0
  }

  /** At address `a` there is a string of `n` characters and its terminator. */
  ghost predicate IsString(m: seq<int>, a: nat, n: nat) {
    NoTerminator(m, a, n) && a + n < |m| && m[a + n] == 0
  }

  /** `len` is the lesser of `count` and the length of the string at `a`. */
  ghost predicate IsPrefixLength(m: seq<int>, a: nat, count: nat, len: nat) {
    && len <= count && NoTerminator(m, a, len)
    && (len < count ==> a + len < |m| && m[a + len] == 0)
  }

  lemma {:induction false} SeekFinds(m: seq<int>, d: nat, n: nat, avail: nat, guarded: bool, guard: nat)
    requires IsString(m, d, n) && n < avail
    requires guarded ==> guard < d || d + n <= guard
    ensures SeekEnd(m, d, avail, guarded, guard) == Found(d + n, avail - n)
    decreases n
  {
    if n > 0 {
      SeekFinds(m, d + 1, n - 1, avail - 1, guarded, guard);
    }
  }

  /** The watched pointer does not meet the guard in its first `n` steps. */
  ghost predicate Clear(d: nat, s: nat, n: nat, onSource: bool, guard: nat) {
    var start := if onSource then s else d;
    !(start < guard <= start + n)
  }

  /** The memory with `len` characters of the string at `s`, and a terminator, put at `d`. */
  ghost function Appended(m: seq<int>, d: nat, s: nat, len: nat): seq<int>
    requires s + len <= |m| && d + len < |m|
  {
    m[..d] + m[s..s + len] + [0] + m[d + len + 1..]
  }

  /** The appended characters fit, stay clear of the guard and are not overwritten before they are read. */
  ghost predicate FitsClear(m: seq<int>, d: nat, s: nat, avail: nat, count: nat, len: nat, onSource: bool, guard: nat) {
    && IsPrefixLength(m, s, count, len)
    && len < avail && d + avail <= |m|
    && (s + len < d || d + avail <= s || (s + len == d && (len == count || len == 0)))
    && Clear(d, s, len, onSource, guard)
  }

  lemma FitsClearStep(m: seq<int>, d: nat, s: nat, avail: nat, count: nat, len: nat, onSource: bool, guard: nat)
    requires FitsClear(m, d, s, avail, count, len, onSource, guard) && len > 0
    ensures count > 0 && s < |m| && d + len < |m| && s + len <= |m| && (s + len <= d || d < s)
    ensures FitsClear(Poke(m, d, m[s]), d + 1, s + 1, avail - 1, count - 1, len - 1, onSource, guard)
    ensures Copy(m, d, s, avail, count, onSource, guard)
         == Copy(Poke(m, d, m[s]), d + 1, s + 1, avail - 1, count - 1, onSource, guard)
  {
  }

  lemma FitsClearEnd(m: seq<int>, d: nat, s: nat, avail: nat, count: nat, onSource: bool, guard: nat)
    requires FitsClear(m, d, s, avail, count, 0, onSource, guard)
    ensures d < |m| && s <= |m|
    ensures var r := Terminated(Copy(m, d, s, avail, count, onSource, guard));
            !r.collided && r.avail == avail && r.mem == m[d := 0]
  {
  }

  lemma {:induction false} CopyFits(m: seq<int>, d: nat, s: nat, avail: nat, count: nat, len: nat, onSource: bool, guard: nat)
    requires FitsClear(m, d, s, avail, count, len, onSource, guard)
    ensures d + len < |m| && s + len <= |m|
    ensures var r := Terminated(Copy(m, d, s, avail, count, onSource, guard));
            && !r.collided && r.avail == avail - len
            && r.mem == Appended(m, d, s, len)
    decreases len
  {
    hide *;
    if len > 0 {
      FitsClearStep(m, d, s, avail, count, len, onSource, guard);
      CopyFits(Poke(m, d, m[s]), d + 1, s + 1, avail - 1, count - 1, len - 1, onSource, guard);
      AppendedStep(m, d, s, len);
    } else {
      FitsClearEnd(m, d, s, avail, count, onSource, guard);
      AppendedNothing(m, d, s);
    }
  }

  lemma AppendedStep(m: seq<int>, d: nat, s: nat, len: nat)
    requires 0 < len && s + len <= |m| && d + len < |m|
    requires s + len <= d || d < s
    ensures Appended(Poke(m, d, m[s]), d + 1, s + 1, len - 1) == Appended(m, d, s, len)
  {
    var m' := Poke(m, d, m[s]);
    var a, b, z, z' := m[..d], m[s + 1..s + len], [0] + m[d + len + 1..], [0] + m'[d + len + 1..];
    assert m'[..d + 1] == a + [m[s]];
    assert m'[s + 1..s + len] == b;
    assert m[s..s + len] == [m[s]] + b;
    assert z == z';
    assert Appended(m, d, s, len) == a + ([m[s]] + b) + z;
    assert (a + [m[s]]) + b == a + ([m[s]] + b);
  }

  lemma AppendedNothing(m: seq<int>, d: nat, s: nat)
    requires s <= |m| && d < |m|
    ensures Appended(m, d, s, 0) == m[d := 0]
  {
  }

  lemma {:induction false} CopyRunsOut(m: seq<int>, d: nat, s: nat, avail: nat, count: nat, onSource: bool, guard: nat)
    requires NoTerminator(m, s, avail)
    requires 0 < avail <= count && d + avail <= |m|
    requires s + avail <= d || d + avail <= s
    requires Clear(d, s, avail - 1, onSource, guard)
    ensures var r := Copy(m, d, s, avail, count, onSource, guard);
            !r.collided && r.avail == 0 && r.count > 0
    decreases avail
  {
    if avail > 1 {
      CopyRunsOut(Poke(m, d, m[s]), d + 1, s + 1, avail - 1, count - 1, onSource, guard);
    }
  }

  /** A source that ends exactly where the destination starts runs its pointer into the guard. */
  lemma {:induction false} CopyCollides(m: seq<int>, d: nat, s: nat, avail: nat, count: nat, len: nat)
    requires NoTerminator(m, s, len)
    requires 0 < len <= count && len < avail && s + len <= d && d + avail <= |m|
    ensures Copy(m, d, s, avail, count, true, s + len).collided
    decreases len
  {
    if len > 1 {
      CopyCollides(Poke(m, d, m[s]), d + 1, s + 1, avail - 1, count - 1, len - 1);
    }
  }

  /**
   * Buffers that do not share a byte: the appended characters end before the destination, or start
   * behind it. The call succeeds exactly when the result fits, except that a source whose last
   * character to append touches the destination from below is reported as an overlap. On success the
   * memory is the exact concatenation; otherwise the code says which of the two went wrong.
   */
  lemma DisjointConcatenation(m: seq<int>, d: nat, destMax: nat, s: nat, count: nat, n: nat, len: nat)
    requires 0 < destMax <= STRING_MAX_LEN && count <= STRING_MAX_LEN
    requires IsString(m, d, n) && n < destMax && d + destMax <= |m|
    requires IsPrefixLength(m, s, count, len)
    requires s + len <= d || d + destMax <= s
    ensures var r := Strncat(m, At(d), destMax, At(s), count);
            && |r.mem| == |m|
            && (r.code == EOK <==> n + len + 1 <= destMax && !(s + len == d && len > 0))
            && (r.code == EOK ==> r.mem == Appended(m, d + n, s, len))
            && (r.code != EOK ==>
                  && r.mem[d] == 0
                  && r.code == if n + len + 1 > destMax then ERANGE_AND_RESET else EOVERLAP_AND_RESET)
  {
    var before := d < s;
    var guard := if before then s else d;
    var avail := destMax - n;
    StrncatWritesOnlyDestination(m, At(d), destMax, At(s), count);
    SeekFinds(m, d, n, destMax, before, guard);
    if avail <= len {
      CopyRunsOut(m, d + n, s, avail, count, !before, guard);
    } else if s + len == d && len > 0 {
      CopyCollides(m, d + n, s, avail, count, len);
    } else {
      CopyFits(m, d + n, s, avail, count, len, !before, guard);
    }
  }

  /** Read as strings: the destination then holds its old characters followed by the appended ones. */
  lemma AppendedIsConcatenation(m: seq<int>, d: nat, n: nat, s: nat, len: nat)
    requires IsString(m, d, n) && NoTerminator(m, s, len) && d + n + len < |m|
    ensures var m' := Appended(m, d + n, s, len);
            && IsString(m', d, n + len)
            && m'[d..d + n + len] == m[d..d + n] + m[s..s + len]
  {
    var m' := Appended(m, d + n, s, len);
    assert m'[d..d + n + len] == m[d..d + n] + m[s..s + len];
    forall p | d <= p < d + n + len
      ensures m'[p] != 0
    {
      if p >= d + n {
        assert m'[p] == m[s + (p - d - n)];
      }
    }
  }

  /**
   * The documentation promises EOVERLAP_AND_RESET for overlapping buffers. A string appended to
   * itself by strcat_s runs over its own terminator until the buffer is full instead.
   */
  lemma SelfAppendFillsBuffer(m: seq<int>, d: nat, destMax: nat, n: nat)
    requires 0 < destMax <= STRING_MAX_LEN && d + destMax <= |m|
    requires IsString(m, d, n) && 0 < n < destMax
    ensures Strcat(m, At(d), destMax, At(d)).code == ERANGE_AND_RESET
  {
    SeekFinds(m, d, n, destMax, false, d);
    SelfCopyFills(m, d + n, d, destMax - n, n, d);
  }

  lemma {:induction false} SelfCopyFills(m: seq<int>, d: nat, s: nat, avail: nat, n: nat, guard: nat)
    requires d == s + n && 0 < n && 0 < avail && d + avail <= |m| && guard <= s
    requires NoTerminator(m, s, n)
    ensures var r := CopyAll(m, d, s, avail, true, guard);
            !r.collided && r.avail == 0
    decreases avail
  {
    if avail > 1 {
      SelfCopyFills(Poke(m, d, m[s]), d + 1, s + 1, avail - 1, n, guard);
    }
  }

  // ----- when an overlap is reported

  lemma {:induction false} SeekCollides(m: seq<int>, d: nat, n: nat, avail: nat, guard: nat)
    requires NoTerminator(m, d, n) && n < avail && d <= guard < d + n
    ensures SeekEnd(m, d, avail, true, guard).Collided?
    decreases n
  {
    if d != guard {
      SeekCollides(m, d + 1, n - 1, avail - 1, guard);
    }
  }

  /** The copying loop gets through `k` characters of the source and still has room. */
  ghost predicate Reaches(m: seq<int>, s: nat, count: nat, k: nat, avail: nat) {
    k <= count && k < avail && NoTerminator(m, s, k)
  }

  /** A guard `k` steps ahead of the watched pointer is met exactly if the loop gets that far. */
  lemma {:induction false} CollidesIffReached(m: seq<int>, d: nat, s: nat, avail: nat, count: nat, onSource: bool, k: nat)
    requires 0 < avail && 0 < k && (if onSource then s + k <= d else d + k <= s)
    ensures Copy(m, d, s, avail, count, onSource, (if onSource then s else d) + k).collided <==> Reaches(m, s, count, k, avail)
    decreases k
  {
    if count > 0 && Peek(m, s) != 0 && avail > 1 && k > 1 {
      var m' := Poke(m, d, Peek(m, s));
      CollidesIffReached(m', d + 1, s + 1, avail - 1, count - 1, onSource, k - 1);
      assert forall p :: s + 1 <= p < s + k && p < |m| ==> m'[p] == m[p];
      assert NoTerminator(m', s + 1, k - 1) <==> NoTerminator(m, s + 1, k - 1);
    }
  }

  /** A guard that is not ahead of the watched pointer is never met. */
  lemma {:induction false} NeverCollides(m: seq<int>, d: nat, s: nat, avail: nat, count: nat, onSource: bool, guard: nat)
    requires guard <= if onSource then s else d
    ensures !Copy(m, d, s, avail, count, onSource, guard).collided
    decreases count
  {
    if count > 0 && Peek(m, s) != 0 && avail > 1 {
      NeverCollides(Poke(m, d, Peek(m, s)), d + 1, s + 1, avail - 1, count - 1, onSource, guard);
    }
  }

  /**
   * An overlap is found in three ways: the source pointer runs into the destination, the search for
   * the end of the destination runs into the source, or the destination pointer does.
   */
  ghost predicate RunsInto(m: seq<int>, d: nat, destMax: nat, s: nat, count: nat, n: nat)
    requires n <= destMax
  {
    || (s < d && Reaches(m, s, count, d - s, destMax - n))
    || d < s < d + n
    || (d + n < s && Reaches(m, s, count, s - (d + n), destMax - n))
  }

  /** For every layout: strncat_s reports an overlap exactly if one pointer runs into the other buffer. */
  lemma OverlapReportedIff(m: seq<int>, d: nat, destMax: nat, s: nat, count: nat, n: nat)
    requires 0 < destMax <= STRING_MAX_LEN && count <= STRING_MAX_LEN
    requires IsString(m, d, n) && n < destMax && d + destMax <= |m|
    ensures Strncat(m, At(d), destMax, At(s), count).code == EOVERLAP_AND_RESET <==> RunsInto(m, d, destMax, s, count, n)
  {
    var end, avail := d + n, destMax - n;
    if d < s < end {
      SeekCollides(m, d, n, destMax, s);
    } else {
      var before := d < s;
      var guard := if before then s else d;
      SeekFinds(m, d, n, destMax, before, guard);
      if s < d {
        CollidesIffReached(m, end, s, avail, count, true, d - s);
      } else if end < s {
        CollidesIffReached(m, end, s, avail, count, false, s - end);
      } else {
        NeverCollides(m, end, s, avail, count, !before, guard);
      }
    }
  }

  /** The source string, with its terminator, and the destination buffer share a byte. */
  predicate Overlap(d: nat, destMax: nat, s: nat, len: nat) {
    d <= s + len && s < d + destMax
  }

  /**
   * The documentation promises EOVERLAP_AND_RESET for overlapping buffers. strcat_s reports nothing
   * else as an overlap, and meets the promise exactly if the source does not start at the
   * destination or at its terminator, a source from below gets to the destination before the buffer
   * is full, and a source behind the string is long enough for the appended characters to reach it.
   */
  lemma StrcatOverlapPromise(m: seq<int>, d: nat, destMax: nat, s: nat, n: nat, len: nat)
    requires 0 < destMax <= STRING_MAX_LEN
    requires IsString(m, d, n) && n < destMax && d + destMax <= |m|
    requires IsString(m, s, len)
    ensures var reported := Strcat(m, At(d), destMax, At(s)).code == EOVERLAP_AND_RESET;
            && (reported <==> RunsInto(m, d, destMax, s, destMax, n))
            && (reported ==> Overlap(d, destMax, s, len))
            && (Overlap(d, destMax, s, len) ==>
                  (reported <==>
                    && s != d && s != d + n
                    && (s < d ==> d - s < destMax - n)
                    && (d + n < s ==> s - (d + n) <= len)))
  {
    StrcatIsStrncat(m, At(d), destMax, At(s), destMax);
    OverlapReportedIff(m, d, destMax, s, destMax, n);
    assert forall k: nat :: NoTerminator(m, s, k) ==> k <= len by {
      assert m[s + len] == 0;
    }
    assert forall k: nat :: k <= len ==> NoTerminator(m, s, k);
  }

  /** A one-letter source inside the destination buffer, behind its string: appended without a report. */
  lemma OverlapUnreported()
    ensures var m := [1, 0, 7, 7, 2, 0];
            && IsString(m, 0, 1) && IsString(m, 4, 1) && Overlap(0, 6, 4, 1)
            && Strcat(m, At(0), 6, At(4)) == Outcome(EOK, [1, 2, 0, 7, 2, 0])
  {
    var m := [1, 0, 7, 7, 2, 0];
    SeekFinds(m, 0, 1, 6, true, 4);
    var m1 := Poke(m, 1, 2);
    var m2 := Poke(m1, 2, 0);
    assert m2 == [1, 2, 0, 7, 2, 0];
    assert CopyAll(m1, 2, 5, 4, false, 4) == Copied(m2, 3, 4, 0, false);
    assert CopyAll(m, 1, 4, 5, false, 4) == Copied(m2, 3, 4, 0, false);
  }

  /** Two buffers without a common byte: the last letter to append touches the destination from below. */
  lemma TouchingReported()
    ensures var m := [5, 6, 1, 0, 7, 7, 7];
            && IsString(m, 2, 1) && IsPrefixLength(m, 0, 2, 2)
            && Strncat(m, At(2), 5, At(0), 2).code == EOVERLAP_AND_RESET
            && Strncat(m, At(2), 5, At(0), 1).code == EOK
  {
    var m := [5, 6, 1, 0, 7, 7, 7];
    DisjointConcatenation(m, 2, 5, 0, 2, 1, 2);
    DisjointConcatenation(m, 2, 5, 0, 1, 1, 1);
  }

  // ----- the loops

  /**
   * What the caller owes: the destination's bytes are memory, and from the source on there is a
   * terminator or at least as many bytes as the call may read.
   */
  ghost predicate Readable(m: seq<int>, s: nat, limit: nat) {
    s + limit <= |m| || exists p :: s <= p < |m| && m[p] == 0
  }

  ghost predicate ValidArguments(m: seq<int>, dest: Pointer, destMax: nat, src: Pointer, limit: nat) {
    && (dest.At? ==> dest.address + destMax <= |m|)
    && (dest.At? && src.At? ==> Readable(m, src.address, limit))
  }

  /** Where the next source byte is memory: behind the writing position it is inside the destination. */
  lemma SourceInMemory(m: seq<int>, d: nat, s: nat, avail: nat, limit: nat)
    requires d + avail <= |m| && 0 < avail && 0 < limit
    requires s <= d || Readable(m, s, limit)
    ensures s < |m|
    ensures m[s] != 0 ==> s + 1 <= d + 1 || Readable(m[d := m[s]], s + 1, limit - 1)
  {
    if m[s] != 0 && s > d && s + limit > |m| {
      var p :| s <= p < |m| && m[p] == 0;
      assert m[d := m[s]][p] == 0;
    }
  }

  /** The first loop of either branch: both calls look for the end of the destination in the same way. */
  method SeekLoop(mem: array<int>, header: nat, destMax: nat, guarded: bool, guard: nat) returns (k: Seek)
    requires header + destMax <= mem.Length
    ensures k == SeekEnd(mem[..], header, destMax, guarded, guard)
  {
    var d: nat, avail: nat := header, destMax;
    while avail > 0 && mem[d] != 0
      invariant d + avail == header + destMax
      invariant SeekEnd(mem[..], d, avail, guarded, guard) == SeekEnd(mem[..], header, destMax, guarded, guard)
      decreases avail
    {
      if guarded && d == guard {
        return Collided;
      }
      d, avail := d + 1, avail - 1;
    }
    k := if avail == 0 then Unterminated else Found(d, avail);
  }

  /** The second loop of either branch of strncat_s, with the terminator stored behind it. */
  method CopyLoop(mem: array<int>, d0: nat, s0: nat, avail0: nat, count: nat, onSource: bool, guard: nat)
    returns (avail: nat, collided: bool)
    requires 0 < avail0 && d0 + avail0 <= mem.Length
    requires s0 <= d0 || Readable(mem[..], s0, if count < avail0 then count else avail0)
    modifies mem
    ensures var r := Terminated(Copy(old(mem[..]), d0, s0, avail0, count, onSource, guard));
            mem[..] == r.mem && avail == r.avail && collided == r.collided
  {
    var d: nat, s: nat, left: nat := d0, s0, count;
    avail, collided := avail0, false;
    ghost var expected := Copy(mem[..], d, s, avail, left, onSource, guard);
    while left > 0
      invariant 0 < avail && d + avail == d0 + avail0
      invariant s <= d || Readable(mem[..], s, if left < avail then left else avail)
      invariant Copy(mem[..], d, s, avail, left, onSource, guard) == expected
      decreases left
    {
      SourceInMemory(mem[..], d, s, avail, if left < avail then left else avail);
      ghost var m := mem[..];
      var c := mem[s];
      mem[d] := c;
      assert mem[..] == Poke(m, d, c);
      d, s := d + 1, s + 1;
      if c == 0 {
        return;
      }
      avail := avail - 1;
      if avail == 0 {
        return;
      }
      if (if onSource then s else d) == guard {
        collided := true;
        return;
      }
      left := left - 1;
    }
    mem[d] := 0;
  }

  method StrncatS(mem: array<int>, dest: Pointer, destMax: nat, src: Pointer, count: nat) returns (code: Code)
    requires ValidArguments(mem[..], dest, destMax, src, if count < destMax then count else destMax)
    modifies mem
    ensures Outcome(code, mem[..]) == Strncat(old(mem[..]), dest, destMax, src, count)
  {
    if destMax == 0 || destMax > STRING_MAX_LEN {
      return ERANGE;
    }
    if dest.Null? || src.Null? {
      if dest.At? {
        mem[dest.address] := 0;
        return EINVAL_AND_RESET;
      }
      return EINVAL;
    }
    var header := dest.address;
    if count > STRING_MAX_LEN {
      mem[header] := 0;
      return ERANGE_AND_RESET;
    }
    var before := header < src.address;
    var guard := if before then src.address else header;
    var k := SeekLoop(mem, header, destMax, before, guard);
    SeekBounds(mem[..], header, destMax, before, guard);
    if k.Collided? {
      mem[header] := 0;
      return EOVERLAP_AND_RESET;
    }
    if k.Unterminated? {
      mem[header] := 0;
      return EINVAL_AND_RESET;
    }
    ReadLess(mem[..], src.address, count, k.avail, destMax);
    var avail, collided := CopyLoop(mem, k.at, src.address, k.avail, count, !before, guard);
    if collided {
      mem[header] := 0;
      return EOVERLAP_AND_RESET;
    }
    if avail == 0 {
      mem[header] := 0;
      return ERANGE_AND_RESET;
    }
    return EOK;
  }

  lemma ReadLess(m: seq<int>, s: nat, count: nat, avail: nat, destMax: nat)
    requires avail <= destMax && Readable(m, s, if count < destMax then count else destMax)
    ensures Readable(m, s, if count < avail then count else avail)
    ensures count >= destMax ==> Readable(m, s, avail)
  {
  }

  /** The second loop of either branch of strcat_s. */
  method CopyAllLoop(mem: array<int>, d0: nat, s0: nat, avail0: nat, onSource: bool, guard: nat)
    returns (avail: nat, collided: bool)
    requires 0 < avail0 && d0 + avail0 <= mem.Length
    requires s0 <= d0 || Readable(mem[..], s0, avail0)
    modifies mem
    ensures var r := CopyAll(old(mem[..]), d0, s0, avail0, onSource, guard);
            mem[..] == r.mem && avail == r.avail && collided == r.collided
  {
    var d: nat, s: nat := d0, s0;
    avail, collided := avail0, false;
    ghost var expected := CopyAll(mem[..], d, s, avail, onSource, guard);
    while true
      invariant 0 < avail && d + avail == d0 + avail0
      invariant s <= d || Readable(mem[..], s, avail)
      invariant CopyAll(mem[..], d, s, avail, onSource, guard) == expected
      decreases avail
    {
      SourceInMemory(mem[..], d, s, avail, avail);
      ghost var m := mem[..];
      var c := mem[s];
      mem[d] := c;
      assert mem[..] == Poke(m, d, c);
      d, s := d + 1, s + 1;
      if c == 0 {
        return;
      }
      avail := avail - 1;
      if avail == 0 {
        return;
      }
      if (if onSource then s else d) == guard {
        collided := true;
        return;
      }
    }
  }

  method StrcatS(mem: array<int>, dest: Pointer, destMax: nat, src: Pointer) returns (code: Code)
    requires ValidArguments(mem[..], dest, destMax, src, destMax)
    modifies mem
    ensures Outcome(code, mem[..]) == Strcat(old(mem[..]), dest, destMax, src)
  {
    if destMax == 0 || destMax > STRING_MAX_LEN {
      return ERANGE;
    }
    if dest.Null? || src.Null? {
      if dest.At? {
        mem[dest.address] := 0;
        return EINVAL_AND_RESET;
      }
      return EINVAL;
    }
    var header := dest.address;
    var before := header < src.address;
    var guard := if before then src.address else header;
    var k := SeekLoop(mem, header, destMax, before, guard);
    SeekBounds(mem[..], header, destMax, before, guard);
    if k.Collided? {
      mem[header] := 0;
      return EOVERLAP_AND_RESET;
    }
    if k.Unterminated? {
      mem[header] := 0;
      return EINVAL_AND_RESET;
    }
    ReadLess(mem[..], src.address, destMax, k.avail, destMax);
    var avail, collided := CopyAllLoop(mem, k.at, src.address, k.avail, !before, guard);
    if collided {
      mem[header] := 0;
      return EOVERLAP_AND_RESET;
    }
    if avail == 0 {
      mem[header] := 0;
      return ERANGE_AND_RESET;
    }
    return EOK;
  }
}
