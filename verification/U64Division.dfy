/**
 * 64-by-64 and 64-by-32 bit division on pairs of 32-bit words, by shift and subtract.
 *
 * A C `UINT32T` is an integer below 2^32. The C operators are written out: `<<` drops what leaves
 * the word, `>>` drops what leaves it on the right, `|` works bit by bit and `-` wraps around.
 */
module U64Division {

  import opened Arithmetic
  import opened Common

  const WORD := 0x1_0000_0000
  const TOP_BIT := 0x8000_0000

  type u32 = x: int | 0 <= x < 0x1_0000_0000

  /** The 64-bit number that a pair of words stands for. */
  function Value(hi: u32, lo: u32): nat {
    hi * WORD + lo
  }

  function Pow2(n: nat): (p: nat)
    ensures p >= 1
  {
    if n == 0 then 1 else 2 * Pow2(n - 1)
  }

  // ----- word operators

  function ShiftLeft(x: u32, n: nat): u32 {
    (x * Pow2(n)) % WORD
  }

  function ShiftRight(x: u32, n: nat): u32 {
    DivideShrinks(x, Pow2(n));
    x / Pow2(n)
  }

  function BitOr(x: nat, y: nat): nat {
    if x == 0 && y == 0 then 0
    else 2 * BitOr(x / 2, y / 2) + (if x % 2 == 1 || y % 2 == 1 then 1 else 0)
  }

  datatype Order = Greater | Equal | Less

  /** SEC_BIT64_COMPARE */
  function Compare64(aHi: u32, aLo: u32, bHi: u32, bLo: u32): (o: Order)
    ensures o == if Value(aHi, aLo) > Value(bHi, bLo) then Greater
                 else if Value(aHi, aLo) == Value(bHi, bLo) then Equal else Less
  {
    if aHi > bHi then Greater
    else if aHi == bHi && aLo > bLo then Greater
    else if aHi == bHi && aLo == bLo then Equal
    else Less
  }

  /** SEC_BIT64_SUB: both words wrap on their own, yet the pair is the 64-bit difference when it is not negative. */
  function Sub64(aHi: u32, aLo: u32, bHi: u32, bLo: u32): (r: (u32, u32))
    ensures Value(aHi, aLo) >= Value(bHi, bLo) ==> Value(r.0, r.1) == Value(aHi, aLo) - Value(bHi, bLo)
  {
    var hi := if aLo < bLo then (aHi - (bHi + 1) % WORD) % WORD else (aHi - bHi) % WORD;
    (hi, (aLo - bLo) % WORD)
  }

  // ----- arithmetic lemmas

  lemma {:induction false} Pow2Add(a: nat, b: nat)
    ensures Pow2(a + b) == Pow2(a) * Pow2(b)
  {
    if a == 0 {
    } else {
      Pow2Add(a - 1, b);
      assert Pow2(a + b) == 2 * Pow2(a - 1 + b);
      MulAssociate(2, Pow2(a - 1), Pow2(b));
    }
  }

  lemma Pow2Word()
    ensures Pow2(31) == TOP_BIT
    ensures Pow2(32) == WORD
  {
    assert Pow2(8) == 256;
    Pow2Add(8, 8);
    Pow2Add(16, 16);
    assert Pow2(32) == 2 * Pow2(31);
  }

  lemma {:induction false} BitOrZero(x: nat)
    ensures BitOr(x, 0) == x
  {
    if x > 0 {
      BitOrZero(x / 2);
    }
  }

  /** Where no bit is set in both operands, `|` is addition. */
  lemma {:induction false} BitOrDisjoint(x: nat, y: nat, k: nat)
    requires x % Pow2(k) == 0
    requires y < Pow2(k)
    ensures BitOr(x, y) == x + y
  {
    if k == 0 {
      BitOrZero(x);
    } else {
      HalfOfMultiple(x, Pow2(k - 1));
      BitOrDisjoint(x / 2, y / 2, k - 1);
    }
  }

  lemma HalfOfMultiple(x: nat, p: nat)
    requires p >= 1 && x % (2 * p) == 0
    ensures x % 2 == 0 && (x / 2) % p == 0
  {
    var m := x / (2 * p);
    assert x == 2 * (m * p);
    ModOfMultiple(m, p);
  }

  lemma HalfModulus(x: int, p: int)
    requires p >= 1 && x % (2 * p) == 0
    ensures x % p == 0 && (x + p) % p == 0
  {
    var m := x / (2 * p);
    assert x == m * (2 * p);
    assert m * (2 * p) == (2 * m) * p;
    assert (2 * m + 1) * p == (2 * m) * p + p;
    DivModUnique(x, p, 2 * m, 0);
    DivModUnique(x + p, p, 2 * m + 1, 0);
  }

  lemma MultipleWeaken(x: nat, s: nat)
    requires x % Pow2(s + 1) == 0
    ensures x % Pow2(s) == 0
    ensures (x + Pow2(s)) % Pow2(s) == 0
  {
    assert Pow2(s + 1) == 2 * Pow2(s);
    HalfModulus(x, Pow2(s));
  }

  /** Setting bit `s` of a word whose lower bits are still clear adds Pow2(s) and stays in the word. */
  lemma SetBit(q: u32, s: nat)
    requires s < 32 && q % Pow2(s + 1) == 0
    ensures BitOr(q, Pow2(s)) == q + Pow2(s) < WORD
    ensures (q + Pow2(s)) % Pow2(s) == 0
  {
    BitOrDisjoint(q, Pow2(s), s + 1);
    MultipleWeaken(q, s);
    Pow2Word();
    Pow2Add(s + 1, 31 - s);
    RoomAbove(q, Pow2(s + 1), Pow2(31 - s));
  }

  lemma RoomAbove(q: nat, p: nat, c: nat)
    requires p >= 1 && q % p == 0 && q < p * c
    ensures q + p <= p * c
  {
    var m := q / p;
    assert q == m * p;
    MulCancelLess(m, c, p) by { assert c * p == p * c; }
    MulMonotone(m + 1, c, p);
    assert (m + 1) * p == q + p && c * p == p * c;
  }

  lemma WordSplit(x: nat, p: nat, r: nat)
    requires p >= 1 && r >= 1
    ensures x * p == (x / r) * (p * r) + (x % r) * p
    ensures 0 <= (x % r) * p < p * r
  {
    var c, b := x / r, x % r;
    assert x == c * r + b;
    assert (c * r + b) * p == c * (p * r) + b * p;
    MulMonotone(0, b, p);
    MulMonotone(b, r - 1, p);
    assert (r - 1) * p == p * r - p;
  }

  lemma CarryFits(vHi: nat, vLo: nat, p: nat, r: nat)
    requires p >= 1 && r >= 1 && vHi * p < p * r && vLo < p * r
    ensures 0 <= vLo / r < p
    ensures vHi * p + vLo / r < p * r
  {
    var c := vLo / r;
    assert vLo == c * r + vLo % r;
    DivideShrinks(vLo, r);
    MulCancelLess(c, p, r);
    MulCancelLess(vHi, r, p) by { assert r * p == p * r; }
    MulMonotone(vHi + 1, r, p);
    assert (vHi + 1) * p == vHi * p + p && r * p == p * r;
  }

  lemma ShiftLeftSplit(vLo: u32, s: nat)
    requires 0 < s < 32
    ensures vLo * Pow2(s) == (vLo / Pow2(32 - s)) * WORD + ShiftLeft(vLo, s)
  {
    var p, r := Pow2(s), Pow2(32 - s);
    Pow2Add(s, 32 - s);
    Pow2Word();
    WordSplit(vLo, p, r);
    DivModUnique(vLo * p, WORD, vLo / r, (vLo % r) * p);
  }

  lemma ShiftOr(vHi: u32, vLo: u32, s: nat)
    requires 0 < s < 32
    requires vHi * Pow2(s) < WORD
    ensures BitOr(ShiftLeft(vHi, s), ShiftRight(vLo, 32 - s)) == vHi * Pow2(s) + vLo / Pow2(32 - s) < WORD
  {
    var p, r := Pow2(s), Pow2(32 - s);
    Pow2Add(s, 32 - s);
    Pow2Word();
    CarryFits(vHi, vLo, p, r);
    ModOfMultiple(vHi, p);
    ShiftLeftExact(vHi, s);
    BitOrDisjoint(vHi * p, vLo / r, s);
  }

  lemma ShiftLeftExact(x: u32, s: nat)
    requires x * Pow2(s) < WORD
    ensures ShiftLeft(x, s) == x * Pow2(s)
  {
    DivModUnique(x * Pow2(s), WORD, 0, x * Pow2(s));
  }

  /** A divisor shifted over both words is the 64-bit shift, when nothing leaves the upper word. */
  lemma ShiftPair(vHi: u32, vLo: u32, s: nat)
    requires 0 < s < 32
    requires vHi * Pow2(s) < WORD
    ensures BitOr(ShiftLeft(vHi, s), ShiftRight(vLo, 32 - s)) < WORD
    ensures Value(BitOr(ShiftLeft(vHi, s), ShiftRight(vLo, 32 - s)), ShiftLeft(vLo, s)) == Value(vHi, vLo) * Pow2(s)
  {
    ShiftOr(vHi, vLo, s);
    ShiftLeftSplit(vLo, s);
    Distribute(vHi, vLo, Pow2(s));
  }

  lemma Distribute(vHi: u32, vLo: u32, p: nat)
    ensures Value(vHi, vLo) * p == vHi * p * WORD + vLo * p
  {
    assert (vHi * WORD + vLo) * p == vHi * WORD * p + vLo * p;
  }

  // ----- shift and subtract

  /** The divisor moved up by `s` bits. */
  ghost function Shifted(divisor: nat, s: nat): nat {
    divisor * Pow2(s)
  }

  ghost predicate Fits(word: nat, s: nat) {
    Shifted(word, s) < WORD
  }

  ghost predicate LowBitsClear(word: nat, s: nat) {
    word % Pow2(s) == 0
  }

  /** The quotient bits from `s` upwards are settled: what is left is below the divisor shifted by `s`. */
  ghost predicate Settled(dividend: nat, divisor: nat, quotient: nat, rest: nat, s: nat) {
    && dividend == quotient * divisor + rest
    && rest < Shifted(divisor, s)
  }

  lemma SettleBit(dividend: nat, divisor: nat, quotient: nat, rest: nat, s: nat)
    requires Settled(dividend, divisor, quotient, rest, s + 1)
    ensures rest < Shifted(divisor, s) ==> Settled(dividend, divisor, quotient, rest, s)
    ensures rest >= Shifted(divisor, s) ==>
              Settled(dividend, divisor, quotient + Pow2(s), rest - Shifted(divisor, s), s)
  {
    assert divisor * Pow2(s + 1) == divisor * Pow2(s) + divisor * Pow2(s);
    assert (quotient + Pow2(s)) * divisor == quotient * divisor + divisor * Pow2(s);
  }

  /** Nothing left over ends the division early, whatever bits were still to come. */
  lemma SettledZero(dividend: nat, divisor: nat, quotient: nat, s: nat)
    requires divisor > 0
    requires Settled(dividend, divisor, quotient, 0, s)
    ensures Settled(dividend, divisor, quotient, 0, 0)
  {
  }

  lemma SettledDone(dividend: nat, divisor: nat, quotient: nat, rest: nat)
    requires Settled(dividend, divisor, quotient, rest, 0)
    ensures dividend == quotient * divisor + rest && rest < divisor
  {
  }

  lemma ValueZero()
    ensures Value(0, 0) == 0
  {
  }

  lemma FitsHalved(v: nat, s: nat)
    requires Fits(v, s)
    ensures s > 0 ==> Fits(v, s - 1)
  {
    if s > 0 {
      assert v * Pow2(s) == 2 * (v * Pow2(s - 1));
    }
  }

  lemma FirstShift(x: u32)
    ensures Fits(x, 0)
  {
  }

  lemma TopBitTest(x: u32, s: nat)
    requires 0 < x && s < 32 && Fits(x, s)
    ensures ShiftLeft(x, s) >= TOP_BIT ==> TOP_BIT <= Shifted(x, s)
    ensures ShiftLeft(x, s) < TOP_BIT ==> s + 1 < 32 && Fits(x, s + 1)
  {
    ShiftLeftExact(x, s);
    Pow2Word();
    MulMonotone(1, x, Pow2(s));
    assert x * Pow2(s + 1) == 2 * (x * Pow2(s));
  }

  /** The loops at securecutil.c:341-357: how far the leading one of a non-zero word is from the top bit. */
  method LeadingZeros(x: u32) returns (s: nat)
    requires x > 0
    ensures s < 32
    ensures TOP_BIT <= Shifted(x, s) && Fits(x, s)
  {
    hide *;
    s := 0;
    FirstShift(x);
    while s < 32
      invariant 0 <= s < 32
      invariant Fits(x, s)
      decreases 32 - s
    {
      TopBitTest(x, s);
      if ShiftLeft(x, s) >= TOP_BIT {
        return;
      }
      s := s + 1;
    }
  }

  /** One turn of a loop that settles the quotient's lower word, above it a part already settled. */
  lemma LowerStep(D: nat, V: nat, qHi: u32, qLo: u32, rest: nat, s: nat)
    requires s < 32 && LowBitsClear(qLo, s + 1)
    requires Settled(D, V, Value(qHi, qLo), rest, s + 1)
    ensures 0 <= BitOr(qLo, Pow2(s)) < 0x1_0000_0000
    ensures rest < Shifted(V, s) ==> Settled(D, V, Value(qHi, qLo), rest, s)
    ensures rest >= Shifted(V, s) ==> Settled(D, V, Value(qHi, BitOr(qLo, Pow2(s))), rest - Shifted(V, s), s)
    ensures LowBitsClear(qLo, s) && LowBitsClear(BitOr(qLo, Pow2(s)), s)
  {
    SettleBit(D, V, Value(qHi, qLo), rest, s);
    SetBit(qLo, s);
    MultipleWeaken(qLo, s);
  }

  lemma MulAssociate(a: int, b: int, c: int)
    ensures a * (b * c) == (a * b) * c
  {
  }

  lemma UpperShift(v: nat, s: nat)
    ensures Shifted(v, s + 32) == Shifted(v, s) * WORD
    ensures Pow2(s + 32) == Pow2(s) * WORD
  {
    Pow2Add(s, 32);
    Pow2Word();
    MulAssociate(v, Pow2(s), WORD);
  }

  /** One turn of the loop that settles the quotient's upper word. */
  lemma UpperStep(D: nat, v: u32, qHi: u32, rest: nat, s: nat)
    requires s < 32 && Fits(v, s) && LowBitsClear(qHi, s + 1)
    requires Settled(D, v, Value(qHi, 0), rest, s + 33)
    ensures 0 <= BitOr(qHi, Pow2(s)) < 0x1_0000_0000
    ensures rest < Value(ShiftLeft(v, s), 0) ==> Settled(D, v, Value(qHi, 0), rest, s + 32)
    ensures rest >= Value(ShiftLeft(v, s), 0) ==>
              Settled(D, v, Value(BitOr(qHi, Pow2(s)), 0), rest - Value(ShiftLeft(v, s), 0), s + 32)
    ensures LowBitsClear(qHi, s) && LowBitsClear(BitOr(qHi, Pow2(s)), s)
  {
    ShiftLeftExact(v, s);
    UpperShift(v, s);
    SettleBit(D, v, Value(qHi, 0), rest, s + 32);
    SetBit(qHi, s);
    MultipleWeaken(qHi, s);
  }

  lemma AllClear(s: nat)
    ensures LowBitsClear(0, s)
  {
  }

  lemma WideStart(dHi: u32, dLo: u32, vHi: u32, vLo: u32, s: nat)
    requires TOP_BIT <= Shifted(vHi, s)
    ensures Settled(Value(dHi, dLo), Value(vHi, vLo), Value(0, 0), Value(dHi, dLo), s + 1)
  {
    var p := Pow2(s);
    Distribute(vHi, vLo, p);
    MulMonotone(0, vLo, p);
    MulMonotone(TOP_BIT, vHi * p, WORD);
    assert Value(vHi, vLo) * Pow2(s + 1) == 2 * (Value(vHi, vLo) * p);
  }

  lemma NarrowStart(dHi: u32, dLo: u32, v: u32, s: nat)
    requires TOP_BIT <= Shifted(v, s)
    ensures Settled(Value(dHi, dLo), v, Value(0, 0), Value(dHi, dLo), s + 33)
  {
    UpperShift(v, s);
    MulMonotone(TOP_BIT, v * Pow2(s), WORD);
    assert v * Pow2(s + 33) == 2 * (v * Pow2(s + 32));
  }

  /** Lines 367-377 of securecutil.c: the divisor shifted over both words. */
  method ShiftDivisor(vHi: u32, vLo: u32, s: nat) returns (tHi: u32, tLo: u32)
    requires s < 32 && Fits(vHi, s)
    ensures Value(tHi, tLo) == Shifted(Value(vHi, vLo), s)
  {
    tHi, tLo := vHi, ShiftLeft(vLo, s);
    if s == 0 {
      ShiftLeftExact(vLo, 0);
    } else {
      ShiftPair(vHi, vLo, s);
      tHi := BitOr(ShiftLeft(vHi, s), ShiftRight(vLo, 32 - s));
    }
  }

  /** Lines 430-439 of securecutil.c: the same for a divisor of one word. */
  method ShiftNarrowDivisor(v: u32, s: nat) returns (tHi: u32, tLo: u32)
    requires s < 32
    ensures Value(tHi, tLo) == Shifted(v, s)
  {
    tHi, tLo := 0, ShiftLeft(v, s);
    if s == 0 {
      ShiftLeftExact(v, 0);
    } else {
      ShiftLeftSplit(v, s);
      tHi := ShiftRight(v, 32 - s);
    }
  }

  /** Lines 360-398 of securecutil.c: the divisor's upper word is not zero, so the quotient fits the lower word. */
  method DivideByWide(dHi: u32, dLo: u32, vHi: u32, vLo: u32) returns (qLo: u32, rHi: u32, rLo: u32)
    requires vHi > 0
    ensures Value(dHi, dLo) == Value(0, qLo) * Value(vHi, vLo) + Value(rHi, rLo)
    ensures Value(rHi, rLo) < Value(vHi, vLo)
  {
    ghost var D, V := Value(dHi, dLo), Value(vHi, vLo);
    assert V > 0;
    hide *;
    var s: int := LeadingZeros(vHi);
    WideStart(dHi, dLo, vHi, vLo, s);
    ValueZero();
    AllClear(s + 1);
    qLo, rHi, rLo := 0, dHi, dLo;
    while s >= 0
      invariant -1 <= s < 32
      invariant s >= 0 ==> Fits(vHi, s)
      invariant LowBitsClear(qLo, s + 1)
      invariant Settled(D, V, Value(0, qLo), Value(rHi, rLo), s + 1)
      decreases s
    {
      var tHi, tLo := ShiftDivisor(vHi, vLo, s);
      LowerStep(D, V, 0, qLo, Value(rHi, rLo), s);
      FitsHalved(vHi, s);
      if Compare64(rHi, rLo, tHi, tLo) != Less {
        var r := Sub64(rHi, rLo, tHi, tLo);
        rHi, rLo := r.0, r.1;
        qLo := BitOr(qLo, Pow2(s));
        if rHi == 0 && rLo == 0 {
          SettledZero(D, V, Value(0, qLo), s);
          SettledDone(D, V, Value(0, qLo), 0);
          return;
        }
      }
      s := s - 1;
    }
    SettledDone(D, V, Value(0, qLo), Value(rHi, rLo));
  }

  /** Lines 399-460 of securecutil.c: the divisor is one word; first the quotient's upper word, then its lower word. */
  method DivideByNarrow(dHi: u32, dLo: u32, v: u32) returns (qHi: u32, qLo: u32, rHi: u32, rLo: u32)
    requires v > 0
    ensures Value(dHi, dLo) == Value(qHi, qLo) * v + Value(rHi, rLo)
    ensures Value(rHi, rLo) < v
  {
    hide *;
    ghost var D := Value(dHi, dLo);
    var done;
    qLo := 0;
    ValueZero();
    qHi, rHi, rLo, done := NarrowUpper(dHi, dLo, v);
    if done {
      SettledDone(D, v, Value(qHi, 0), 0);
      return;
    }
    var s: int := 31;
    AllClear(32);
    while s >= 0
      invariant -1 <= s < 32
      invariant LowBitsClear(qLo, s + 1)
      invariant Settled(D, v, Value(qHi, qLo), Value(rHi, rLo), s + 1)
      decreases s
    {
      var tHi, tLo := ShiftNarrowDivisor(v, s);
      LowerStep(D, v, qHi, qLo, Value(rHi, rLo), s);
      if Compare64(rHi, rLo, tHi, tLo) != Less {
        var r := Sub64(rHi, rLo, tHi, tLo);
        rHi, rLo := r.0, r.1;
        qLo := BitOr(qLo, Pow2(s));
        if rHi == 0 && rLo == 0 {
          SettledZero(D, v, Value(qHi, qLo), s);
          SettledDone(D, v, Value(qHi, qLo), 0);
          return;
        }
      }
      s := s - 1;
    }
    SettledDone(D, v, Value(qHi, qLo), Value(rHi, rLo));
  }

  /** Lines 403-426 of securecutil.c: the quotient's upper word. */
  method NarrowUpper(dHi: u32, dLo: u32, v: u32) returns (qHi: u32, rHi: u32, rLo: u32, done: bool)
    requires v > 0
    ensures done ==> rHi == 0 && rLo == 0 && Settled(Value(dHi, dLo), v, Value(qHi, 0), 0, 0)
    ensures !done ==> Settled(Value(dHi, dLo), v, Value(qHi, 0), Value(rHi, rLo), 32)
  {
    hide *;
    ghost var D := Value(dHi, dLo);
    var s: int := LeadingZeros(v);
    NarrowStart(dHi, dLo, v, s);
    ValueZero();
    AllClear(s + 1);
    qHi, rHi, rLo := 0, dHi, dLo;
    while s >= 0
      invariant -1 <= s < 32
      invariant s >= 0 ==> Fits(v, s)
      invariant LowBitsClear(qHi, s + 1)
      invariant Settled(D, v, Value(qHi, 0), Value(rHi, rLo), s + 33)
      decreases s
    {
      var tHi := ShiftLeft(v, s);
      UpperStep(D, v, qHi, Value(rHi, rLo), s);
      FitsHalved(v, s);
      if Compare64(rHi, rLo, tHi, 0) != Less {
        var r := Sub64(rHi, rLo, tHi, 0);
        rHi, rLo := r.0, r.1;
        qHi := BitOr(qHi, Pow2(s));
        if rHi == 0 && rLo == 0 {
          SettledZero(D, v, Value(qHi, 0), s + 32);
          done := true;
          return;
        }
      }
      s := s - 1;
    }
    done := false;
  }

  // ----- the two entry points

  datatype Words = Words(hi: u32, lo: u32)
  // ----- division as repeated subtraction

  function Quotient(n: nat, d: nat): (q: nat)
    requires d > 0
    decreases n
  {
    if n < d then 0 else 1 + Quotient(n - d, d)
  }

  function Remainder(n: nat, d: nat): (r: nat)
    requires d > 0
    decreases n
  {
    if n < d then n else Remainder(n - d, d)
  }

  lemma {:induction false} DivisionIdentity(n: nat, d: nat)
    requires d > 0
    ensures Quotient(n, d) * d + Remainder(n, d) == n && Remainder(n, d) < d
    decreases n
  {
    if n >= d {
      DivisionIdentity(n - d, d);
      MultipleNext(Quotient(n - d, d), d);
    }
  }

  lemma MultipleNext(q: nat, d: nat)
    ensures (1 + q) * d == d + q * d
  {
  }

  /** Any quotient and remainder with these properties are the ones of repeated subtraction. */
  lemma DivisionUnique(n: nat, d: nat, q: nat, r: nat)
    requires d > 0 && q * d + r == n && r < d
    ensures q == Quotient(n, d) && r == Remainder(n, d)
  {
    DivisionIdentity(n, d);
    DivModUnique(n, d, q, r);
    DivModUnique(n, d, Quotient(n, d), Remainder(n, d));
  }

  /** Status -1 leaves the caller's words alone; status 0 stores a quotient, and a remainder if asked for. */
  datatype Answer = Refused | Stored(quotient: Words, remainder: Option<Words>)

  /**
   * U64Div64. `hasQuotient` says that both quotient pointers are non-null, `hasRemainder` that both
   * remainder pointers are.
   */
  method Div64(dHi: u32, dLo: u32, vHi: u32, vLo: u32, hasQuotient: bool, hasRemainder: bool) returns (a: Answer)
    ensures a.Refused? <==> !hasQuotient || Value(vHi, vLo) == 0
    ensures a.Stored? ==> a.remainder.Some? == hasRemainder
    ensures a.Stored? ==>
              && Value(a.quotient.hi, a.quotient.lo) == Quotient(Value(dHi, dLo), Value(vHi, vLo))
              && (hasRemainder ==> Value(a.remainder.value.hi, a.remainder.value.lo) == Remainder(Value(dHi, dLo), Value(vHi, vLo)))
  {
    if !hasQuotient {
      return Refused;
    }
    if vHi == 0 {
      if vLo == 0 {
        return Refused;
      } else if vLo == 1 {
        DivisionUnique(Value(dHi, dLo), 1, Value(dHi, dLo), 0);
        return Stored(Words(dHi, dLo), if hasRemainder then Some(Words(0, 0)) else None);
      }
    }
    var qHi: u32, qLo: u32, rHi, rLo := 0, 0, dHi, dLo;
    match Compare64(dHi, dLo, vHi, vLo) {
      case Less =>
      case Equal =>
        DivisionUnique(Value(dHi, dLo), Value(vHi, vLo), 1, 0);
        return Stored(Words(0, 1), if hasRemainder then Some(Words(0, 0)) else None);
      case Greater =>
        if vHi > 0 {
          qLo, rHi, rLo := DivideByWide(dHi, dLo, vHi, vLo);
        } else {
          qHi, qLo, rHi, rLo := DivideByNarrow(dHi, dLo, vLo);
        }
    }
    DivisionUnique(Value(dHi, dLo), Value(vHi, vLo), Value(qHi, qLo), Value(rHi, rLo));
    return Stored(Words(qHi, qLo), if hasRemainder then Some(Words(rHi, rLo)) else None);
  }

  /** What U64Div32 leaves in the caller's words: it clears them before it divides. */
  datatype Answer32 = Refused32 | Stored32(quotientHi: u32, quotientLo: u32, remainder: u32)

  /**
   * U64Div32. The early return at securecutil.c:516 needs a non-zero upper remainder word and is never taken:
   * the call is refused exactly for a null pointer or a zero divisor.
   */
  method Div32(dHi: u32, dLo: u32, divisor: u32, hasQuotient: bool, hasRemainder: bool) returns (a: Answer32)
    ensures a.Refused32? <==> !hasQuotient || divisor == 0 || !hasRemainder
    ensures a.Stored32? ==>
              && Value(a.quotientHi, a.quotientLo) == Quotient(Value(dHi, dLo), divisor)
              && a.remainder == Remainder(Value(dHi, dLo), divisor)
  {
    if !hasQuotient || divisor == 0 || !hasRemainder {
      return Refused32;
    }
    var wide := Div64(dHi, dLo, 0, divisor, true, true);
    if wide.Refused? {
      return Refused32;
    }
    var r := wide.remainder.value;
    DivisionIdentity(Value(dHi, dLo), divisor);
    if r.hi != 0 {
      return Refused32;
    }
    return Stored32(wide.quotient.hi, wide.quotient.lo, r.lo);
  }
}
