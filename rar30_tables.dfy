/** The fixed tables of the RAR 3.x LZ decoder (`Unpack30Local`) and the pure
    decoding rules the decoder applies to the symbols and bit fields it reads:
    symbol classification, match lengths, the distance slots, the four-entry
    cache of recent distances, the low-distance repeat counter, the end-of-block
    flags, filter code lengths and the run-length coding of Huffman code
    lengths. */
module Rar30Tables {
  import opened Wrappers

  type byte = x: int | 0 <= x < 256

  /** Alphabet sizes of the four main Huffman tables and of the table that
      codes their code lengths. */
  const NC30: nat := 299
  const DC30: nat := 60
  const LDC30: nat := 17
  const RC30: nat := 28
  const BC30: nat := 20
  /** The code lengths of all four main tables, stored one after the other. */
  const HuffTableSize30: nat := NC30 + DC30 + LDC30 + RC30
  /** Size of the `DDecode` / `DBits` arrays. */
  const DC: nat := 64
  /** `LOW_DIST_REP_COUNT`. */
  const LowDistRepLimit: nat := 16
  /** `MAX3_UNPACK_FILTERS`. */
  const Max3UnpackFilters: nat := 8192

  /** Base lengths and extra bit counts of the 28 length slots. */
  const LDecode: seq<nat> := [0, 1, 2, 3, 4, 5, 6, 7, 8, 10, 12, 14, 16, 20, 24, 28, 32, 40, 48, 56, 64, 80, 96, 112, 128, 160, 192, 224]
  const LBits: seq<nat> := [0, 0, 0, 0, 0, 0, 0, 0, 1, 1, 1, 1, 2, 2, 2, 2, 3, 3, 3, 3, 4, 4, 4, 4, 5, 5, 5, 5]
  /** How many distance slots have 0, 1, 2, ... 18 extra bits. */
  const DBitLengthCounts: seq<nat> := [4, 2, 2, 2, 2, 2, 2, 2, 2, 2, 2, 2, 2, 2, 2, 2, 14, 0, 12]
  /** Base distances and extra bit counts of the eight short-distance symbols. */
  const SDDecode: seq<nat> := [0, 4, 8, 16, 32, 64, 128, 192]
  const SDBits: seq<nat> := [2, 2, 3, 4, 5, 6, 6, 6]

  function Pow2(n: nat): (r: nat)
    ensures r >= 1
  {
    if n == 0 then 1 else 2 * Pow2(n - 1)
  }

  /** `Pow2` turns sums of exponents into products. */
  lemma {:induction false} Pow2Add(a: nat, b: nat)
    ensures Pow2(a + b) == Pow2(a) * Pow2(b)
  {
    if a > 0 {
      Pow2Add(a - 1, b);
    }
  }

  /** The quotient and remainder of `q * n + r` by `n` are `q` and `r` when
      `0 <= r < n`. */
  lemma ModUnique(x: int, n: int, q: int, r: int)
    requires n > 0 && 0 <= r < n && x == q * n + r
    ensures x / n == q && x % n == r
  {
    var q0, r0 := x / n, x % n;
    assert x == q0 * n + r0;
    assert (q - q0) * n == r0 - r;
    if q > q0 {
      MulMonotonic(n, 1, q - q0);
    } else if q < q0 {
      MulMonotonic(n, 1, q0 - q);
    }
  }

  lemma MulMonotonic(p: int, a: int, b: int)
    requires p >= 0 && a <= b
    ensures p * a <= p * b
  {
  }

  lemma Pow2Values()
    ensures Pow2(15) == 32768 && Pow2(16) == 65536 && Pow2(18) == 262144 && Pow2(22) == 4194304
  {
    assert Pow2(4) == 16;
    assert Pow2(8) == 256;
    assert Pow2(12) == 4096;
    assert Pow2(15) == 32768;
    assert Pow2(18) == 262144;
    assert Pow2(20) == 1048576;
  }

  function Min(a: nat, b: nat): nat {
    if a < b then a else b
  }

  // ---------------------------------------------------------------------------
  // Length and short-distance slots.
  // ---------------------------------------------------------------------------

  /** Each length slot starts where the previous one ends, and the 28 slots
      cover the lengths 0 .. 255 (before the bias of the symbol kind). */
  lemma LengthSlotsTile(k: nat)
    requires k < |LDecode|
    ensures |LBits| == |LDecode| == 28
    ensures k + 1 < |LDecode| ==> LDecode[k + 1] == LDecode[k] + Pow2(LBits[k])
    ensures k + 1 == |LDecode| ==> LDecode[k] + Pow2(LBits[k]) == 256
  {
    if k < 16 {
      ShortSlotsTile(k);
    } else {
      LongSlotsTile(k);
    }
  }

  /** `LengthSlotsTile` for the slots with at most two extra bits. */
  lemma ShortSlotsTile(k: nat)
    requires k < 16
    ensures LDecode[k + 1] == LDecode[k] + Pow2(LBits[k])
  {
    assert Pow2(0) == 1 && Pow2(1) == 2 && Pow2(2) == 4;
  }

  /** `LengthSlotsTile` for the slots with three or more extra bits. */
  lemma LongSlotsTile(k: nat)
    requires 16 <= k < 28
    ensures k + 1 < 28 ==> LDecode[k + 1] == LDecode[k] + Pow2(LBits[k])
    ensures k + 1 == 28 ==> LDecode[k] + Pow2(LBits[k]) == 256
  {
    assert Pow2(3) == 8 && Pow2(4) == 16 && Pow2(5) == 32;
  }

  /** The length slots and their extra bits. */
  lemma LengthSlotBits(k: nat)
    requires k < |LDecode|
    ensures |LBits| == |LDecode| == 28 && LBits[k] <= 5
  {
  }

  /** The eight short-distance slots cover the distances 1 .. 256. */
  lemma ShortDistanceSlotsTile(k: nat)
    requires k < |SDDecode|
    ensures |SDBits| == |SDDecode| == 8
    ensures k + 1 < |SDDecode| ==> SDDecode[k + 1] == SDDecode[k] + Pow2(SDBits[k])
    ensures k + 1 == |SDDecode| ==> SDDecode[k] + Pow2(SDBits[k]) == 256
  {
  }

  // ---------------------------------------------------------------------------
  // Distance slots (`DDecode`, `DBits`).
  // ---------------------------------------------------------------------------

  /** The number of slots with fewer than `i` extra bits: the value of `Slot`
      when the construction loop reaches bit length `i`. */
  function SlotsBefore(i: nat): (r: nat)
    requires i <= |DBitLengthCounts|
  {
    if i == 0 then 0 else if i <= 16 then 2 * i + 2 else if i <= 18 then 48 else DC30
  }

  lemma SlotsBeforeStep(i: nat)
    requires i < |DBitLengthCounts|
    ensures SlotsBefore(i + 1) == SlotsBefore(i) + DBitLengthCounts[i]
  {
  }

  /** Closed form of the number of extra bits of distance slot `s`. */
  function SlotBits(s: nat): (r: nat)
    requires s < DC30
  {
    if s < 4 then 0 else if s < 34 then (s - 2) / 2 else if s < 48 then 16 else 18
  }

  /** Closed form of the smallest distance (less one) of slot `s`; slot
      `DC30` stands for the end of the last slot. */
  function SlotBase(s: nat): (r: nat)
    requires s <= DC30
  {
    if s < 4 then s
    else if s < 34 then (if s % 2 == 0 then 2 * Pow2((s - 2) / 2) else 3 * Pow2((s - 2) / 2))
    else if s < 48 then 131072 + (s - 34) * 65536
    else 1048576 + (s - 48) * 262144
  }

  /** The slot of the `j`-th entry with bit length `i` has `i` extra bits. */
  lemma SlotBitsOfGroup(i: nat, j: nat)
    requires i < |DBitLengthCounts| && j < DBitLengthCounts[i]
    ensures SlotsBefore(i) + j < DC30 && SlotBits(SlotsBefore(i) + j) == i
  {
  }

  /** In the slots with 1 .. 15 extra bits, two slots share each bit count:
      the first starts at 2 * 2^b and the second at 3 * 2^b. */
  lemma {:induction false} PairedSlotsTile(s: nat)
    requires 4 <= s < 33
    ensures SlotBase(s + 1) == SlotBase(s) + Pow2(SlotBits(s))
  {
    var b := (s - 2) / 2;
    var p := Pow2(b);
    if s % 2 == 0 {
      assert SlotBase(s) == p * 2;
      assert (s + 1 - 2) / 2 == b && (s + 1) % 2 == 1;
      assert SlotBase(s + 1) == p * 3;
    } else {
      assert SlotBase(s) == p * 3;
      assert (s + 1 - 2) / 2 == b + 1 && (s + 1) % 2 == 0;
      assert Pow2(b + 1) == 2 * p;
      assert SlotBase(s + 1) == (2 * p) * 2;
    }
  }

  /** Each distance slot begins where the previous one ends. */
  lemma {:induction false} DistanceSlotsTile(s: nat)
    requires s < DC30
    ensures SlotBase(s + 1) == SlotBase(s) + Pow2(SlotBits(s))
  {
    if 4 <= s < 33 {
      PairedSlotsTile(s);
    } else if 33 <= s {
      Pow2Values();
    }
  }

  lemma SlotNext(i: nat, j: nat, slot: nat, dist: nat)
    requires i < |DBitLengthCounts| && j < DBitLengthCounts[i]
    requires slot == SlotsBefore(i) + j && slot <= DC30 && dist == SlotBase(slot)
    ensures slot < DC30 && SlotBits(slot) == i && dist + Pow2(i) == SlotBase(slot + 1)
  {
    SlotBitsOfGroup(i, j);
    DistanceSlotsTile(slot);
  }

  /** The 60 slots start at distance 0 and end at 2^22. */
  lemma DistanceSlotsRange()
    ensures SlotBase(0) == 0 && SlotBase(DC30) == Pow2(22)
  {
    Pow2Values();
  }

  /** The bases grow with the slot number. */
  lemma {:induction false} SlotBaseMonotonic(s: nat, t: nat)
    requires s <= t <= DC30
    ensures SlotBase(s) <= SlotBase(t)
    ensures s < t ==> SlotBase(s) < SlotBase(t)
    decreases t - s
  {
    if s < t {
      DistanceSlotsTile(s);
      SlotBaseMonotonic(s + 1, t);
    }
  }

  /** Every distance below 2^22 lies in a slot ... */
  lemma SlotCovers(d: nat)
    requires d < Pow2(22)
    ensures exists s: nat :: s < DC30 && SlotBase(s) <= d < SlotBase(s + 1)
  {
    DistanceSlotsRange();
    var s := FindSlot(d, 0);
  }

  /** ... and in one slot only. */
  lemma SlotUnique(d: nat, s: nat, t: nat)
    requires s < DC30 && SlotBase(s) <= d < SlotBase(s + 1)
    requires t < DC30 && SlotBase(t) <= d < SlotBase(t + 1)
    ensures s == t
  {
    if s < t {
      SlotBaseMonotonic(s + 1, t);
    } else if t < s {
      SlotBaseMonotonic(t + 1, s);
    }
  }

  lemma {:induction false} FindSlot(d: nat, s: nat) returns (r: nat)
    requires s < DC30 && SlotBase(s) <= d < SlotBase(DC30)
    ensures s <= r < DC30 && SlotBase(r) <= d < SlotBase(r + 1)
    decreases DC30 - s
  {
    if d < SlotBase(s + 1) {
      r := s;
    } else {
      r := FindSlot(d, s + 1);
    }
  }

  // ---------------------------------------------------------------------------
  // Symbols of the main table.
  // ---------------------------------------------------------------------------

  /** What a symbol of the main (literal/length) table stands for. */
  datatype Symbol =
    | Literal(b: nat)             // 0 .. 255: one byte
    | EndOfBlock                  // 256
    | FilterCode                  // 257: VM code of a filter follows
    | RepeatLast                  // 258: repeat the last match
    | RepeatCached(n: nat)        // 259 .. 262: reuse the n-th cached distance
    | ShortMatch(k: nat)          // 263 .. 270: length 2, short distance slot k
    | LongMatch(k: nat)           // 271 .. 298: length slot k, distance follows

  /** The decoder's test order: literals, then `>= 271`, then 256, 257, 258,
      `< 263` and `< 272`; the `>= 271` test coming second is why symbol 271
      is a long match and short matches use only 263 .. 270. */
  function Classify(number: nat): (s: Symbol)
    requires number < NC30
    ensures s.Literal? <==> number < 256
    ensures s.Literal? ==> s.b == number
    ensures s.EndOfBlock? <==> number == 256
    ensures s.FilterCode? <==> number == 257
    ensures s.RepeatLast? <==> number == 258
    ensures s.RepeatCached? <==> 259 <= number < 263
    ensures s.RepeatCached? ==> s.n == number - 259 && s.n < 4
    ensures s.ShortMatch? <==> 263 <= number < 271
    ensures s.ShortMatch? ==> s.k == number - 263 && s.k < |SDDecode|
    ensures s.LongMatch? <==> 271 <= number
    ensures s.LongMatch? ==> s.k == number - 271 && s.k < |LDecode|
  {
    if number < 256 then Literal(number)
    else if number >= 271 then LongMatch(number - 271)
    else if number == 256 then EndOfBlock
    else if number == 257 then FilterCode
    else if number == 258 then RepeatLast
    else if number < 263 then RepeatCached(number - 259)
    else ShortMatch(number - 263)
  }

  /** The extra length a long match gets for a far distance. */
  function DistanceBonus(distance: nat): (r: nat)
    ensures r <= 2
    ensures r == 0 <==> distance < 0x2000
    ensures r == 2 <==> distance >= 0x40000
  {
    if distance >= 0x2000 then (if distance >= 0x40000 then 2 else 1) else 0
  }

  /** Length of a long match (symbol 271 + k) with `extra` raw bits read
      after the slot and the decoded distance. */
  function LongMatchLength(k: nat, extra: nat, distance: nat): nat
    requires k < |LDecode|
  {
    LDecode[k] + 3 + extra + DistanceBonus(distance)
  }

  /** A long match is at least 3 long; with its extra bits in range it is
      at most 260, and the distance bonus grows with the distance. */
  lemma LongMatchLengthRange(k: nat, extra: nat, d1: nat, d2: nat)
    requires k < |LDecode| && extra < Pow2(LBits[k]) && d1 <= d2
    ensures 3 <= LongMatchLength(k, extra, d1) <= LongMatchLength(k, extra, d2) <= 260
    ensures LongMatchLength(k, extra, d2) - LongMatchLength(k, extra, d1) <= 2
  {
    LengthSlotsTile(k);
  }

  /** Length of a repeat of a cached distance (`LDecode` slot from the
      repeat-length table, plus 2). */
  function RepeatLength(k: nat, extra: nat): nat
    requires k < |LDecode|
  {
    LDecode[k] + 2 + extra
  }

  /** Distance of a short match (symbol 263 + k). */
  function ShortDistance(k: nat, extra: nat): (r: nat)
    requires k < |SDDecode|
    ensures 1 <= r
  {
    SDDecode[k] + 1 + extra
  }

  /** Short distances with their extra bits in range are 1 .. 256, each slot
      coming right after the previous one. */
  lemma ShortDistanceRange(k: nat, extra: nat)
    requires k < |SDDecode| && extra < Pow2(SDBits[k])
    ensures 1 <= ShortDistance(k, extra) <= 256
    ensures k + 1 < |SDDecode| ==> ShortDistance(k, extra) < ShortDistance(k + 1, 0)
  {
    ShortDistanceSlotsTile(k);
  }

  // ---------------------------------------------------------------------------
  // The cache of recent distances (`OldDist`).
  // ---------------------------------------------------------------------------

  /** Symbols 259 .. 262: entry `n` moves to the front, entries 0 .. n-1
      move up by one. */
  function MoveToFront(d: seq<nat>, n: nat): (r: seq<nat>)
    requires n < |d|
  {
    [d[n]] + d[..n] + d[n + 1..]
  }

  /** The cache keeps its size and contents, entry `n` comes first, the
      ones before it shift up and the ones after it stay. */
  lemma MoveToFrontIsRotation(d: seq<nat>, n: nat)
    requires n < |d|
    ensures |MoveToFront(d, n)| == |d|
    ensures MoveToFront(d, n)[0] == d[n]
    ensures forall i :: 0 < i <= n ==> MoveToFront(d, n)[i] == d[i - 1]
    ensures forall i :: n < i < |d| ==> MoveToFront(d, n)[i] == d[i]
    ensures multiset(MoveToFront(d, n)) == multiset(d)
  {
    calc {
      multiset(d);
      { assert d == d[..n] + [d[n]] + d[n + 1..]; }
      multiset(d[..n] + [d[n]] + d[n + 1..]);
      multiset([d[n]] + d[..n] + d[n + 1..]);
    }
  }

  /** `InsertOldDist`: a new distance enters at the front and the oldest one
      is dropped. */
  function InsertOld(d: seq<nat>, distance: nat): (r: seq<nat>)
    requires |d| == 4
  {
    [distance, d[0], d[1], d[2]]
  }

  /** Inserting what is already in the last slot is moving it to the front. */
  lemma InsertOldOfLastIsMoveToFront(d: seq<nat>)
    requires |d| == 4
    ensures InsertOld(d, d[3]) == MoveToFront(d, 3)
  {
  }

  // ---------------------------------------------------------------------------
  // The low-distance repeat counter.
  // ---------------------------------------------------------------------------

  /** State of the low 4 bits of long distances: the repeat counter and the
      previous low part. */
  datatype LowDist = LowDist(repCount: nat, prev: nat)

  /** What a long-distance match adds as its low part, and the next state.
      `symbol` is the symbol of the low-distance table, decoded only when the
      counter is 0. */
  function LowDistStep(s: LowDist, symbol: nat): (r: (nat, LowDist))
  {
    if s.repCount > 0 then (s.prev, LowDist(s.repCount - 1, s.prev))
    else if symbol == 16 then (s.prev, LowDist(LowDistRepLimit - 1, s.prev))
    else (symbol, LowDist(0, symbol))
  }

  /** Whether a long match in state `s` reads a symbol of the low-distance
      table. */
  predicate ReadsLowDistSymbol(s: LowDist) {
    s.repCount == 0
  }

  /** The low parts added by a run of long-distance matches, `symbols` giving
      the low-distance symbol each match would decode. */
  function LowDistRun(s: LowDist, symbols: seq<nat>): (adds: seq<nat>)
    ensures |adds| == |symbols|
    decreases |symbols|
  {
    if symbols == [] then []
    else var (add, next) := LowDistStep(s, symbols[0]);
         [add] + LowDistRun(next, symbols[1..])
  }

  /** Symbol 16 makes that match and the next 15 long-distance matches all add
      the previous low part, whatever symbols they would have decoded. */
  lemma {:induction false} LowDistRepeatRun(prev: nat, symbols: seq<nat>)
    requires |symbols| >= LowDistRepLimit && symbols[0] == 16
    ensures forall i :: 0 <= i < LowDistRepLimit ==> LowDistRun(LowDist(0, prev), symbols)[i] == prev
  {
    CountdownRun(LowDistRepLimit - 1, prev, symbols[1..]);
  }

  lemma {:induction false} CountdownRun(count: nat, prev: nat, symbols: seq<nat>)
    requires |symbols| >= count
    ensures forall i :: 0 <= i < count ==> LowDistRun(LowDist(count, prev), symbols)[i] == prev
  {
    if count > 0 {
      CountdownRun(count - 1, prev, symbols[1..]);
    }
  }

  // ---------------------------------------------------------------------------
  // End of block (`ReadEndOfBlock`).
  // ---------------------------------------------------------------------------

  /** The flags of an end-of-block marker and the number of bits it takes. */
  datatype BlockEnd = BlockEnd(newTable: bool, newFile: bool, bits: nat)

  /** "1": new table, same file; "00": new file, no new table; "01": new file,
      new table at the start of the next file. */
  function DecodeEndOfBlock(field: nat): (r: BlockEnd)
    requires field < 0x10000
    ensures r.newFile <==> field < 0x8000
    ensures r.bits == (if r.newFile then 2 else 1)
    ensures !r.newFile ==> r.newTable
    ensures r.newFile ==> (r.newTable <==> field >= 0x4000)
  {
    if field / 0x8000 % 2 == 1 then BlockEnd(true, false, 1)
    else BlockEnd(field / 0x4000 % 2 == 1, true, 2)
  }

  // ---------------------------------------------------------------------------
  // Length of filter VM code (`ReadVMCode`, `ReadVMCodePPM`).
  // ---------------------------------------------------------------------------

  /** The code length announced by `firstByte` and the 16 bits that follow:
      `(firstByte & 7) + 1`, where 7 means "next byte + 7" and 8 means "the
      next 16 bits". */
  function CodeLength(firstByte: nat, next16: nat): (r: nat)
    requires next16 < 0x10000
    ensures firstByte % 8 < 6 ==> r == firstByte % 8 + 1
    ensures firstByte % 8 == 6 ==> r == next16 / 256 + 7 && 7 <= r <= 262
    ensures firstByte % 8 == 7 ==> r == next16
    ensures r == 0 <==> firstByte % 8 == 7 && next16 == 0
    ensures r < 0x10000
  {
    var length := firstByte % 8 + 1;
    if length == 7 then next16 / 256 + 7
    else if length == 8 then next16
    else length
  }

  // ---------------------------------------------------------------------------
  // Code lengths of the bit-length table (the first loop of `ReadTables30`).
  // ---------------------------------------------------------------------------

  /** One entry of the bit-length table's description: a length, or a run of
      zero lengths. */
  datatype BdToken = BdLength(n: nat) | BdZeros(count: nat)

  /** Nibble 15 is an escape: followed by 0 it is a literal 15, followed by
      `z > 0` it stands for `z + 2` zeros. */
  function BdTokenOf(nibble: nat, zeroNibble: nat): (t: BdToken)
    requires nibble < 16 && zeroNibble < 16
    ensures t.BdLength? ==> t.n == nibble && (nibble == 15 ==> zeroNibble == 0)
    ensures t.BdZeros? ==> nibble == 15 && zeroNibble > 0 && t.count == zeroNibble + 2
  {
    if nibble != 15 then BdLength(nibble)
    else if zeroNibble == 0 then BdLength(15)
    else BdZeros(zeroNibble + 2)
  }

  function Repeat(x: nat, n: nat): (r: seq<nat>)
    ensures |r| == n && forall i :: 0 <= i < n ==> r[i] == x
  {
    seq(n, _ => x)
  }

  /** The bit lengths after the tokens `ts`, none written past `BC30`. */
  function BdApply(ts: seq<BdToken>): (r: seq<nat>)
  {
    if ts == [] then []
    else
      var acc := BdApply(ts[..|ts| - 1]);
      if |acc| >= BC30 then acc
      else match ts[|ts| - 1]
        case BdLength(n) => acc + [n]
        case BdZeros(c) => acc + Repeat(0, Min(c, BC30 - |acc|))
  }

  /** The table never grows past `BC30` entries, and its entries are those of
      the tokens or zero. */
  lemma {:induction false} BdApplyBounds(ts: seq<BdToken>)
    requires forall i :: 0 <= i < |ts| && ts[i].BdLength? ==> ts[i].n < 16
    ensures |BdApply(ts)| <= BC30
    ensures forall i :: 0 <= i < |BdApply(ts)| ==> BdApply(ts)[i] < 16
  {
    if ts != [] {
      BdApplyBounds(ts[..|ts| - 1]);
    }
  }

  // ---------------------------------------------------------------------------
  // Code lengths of the main tables (the second loop of `ReadTables30`).
  // ---------------------------------------------------------------------------

  /** A symbol of the bit-length table: a length relative to the previous
      table, a repeat of the previous length, or a run of zeros. */
  datatype LengthCode = Delta(symbol: nat) | RepeatPrevious(count: nat) | ZeroRun(count: nat)

  /** Symbol `number` with the 16-bit field that follows it: 16 and 18 take
      3 bits (3 .. 10 entries), 17 and 19 take 7 bits (11 .. 138 entries). */
  function LengthCodeOf(number: nat, field: nat): (c: LengthCode)
    requires number < BC30 && field < 0x10000
    ensures c.Delta? <==> number < 16
    ensures c.Delta? ==> c.symbol == number
    ensures c.RepeatPrevious? <==> number == 16 || number == 17
    ensures c.ZeroRun? <==> number == 18 || number == 19
    ensures number == 16 || number == 18 ==> 3 <= c.count <= 10 && c.count == field / 8192 + 3
    ensures number == 17 || number == 19 ==> 11 <= c.count <= 138 && c.count == field / 512 + 11
  {
    if number < 16 then Delta(number)
    else if number == 16 then RepeatPrevious(field / 8192 + 3)
    else if number == 17 then RepeatPrevious(field / 512 + 11)
    else if number == 18 then ZeroRun(field / 8192 + 3)
    else ZeroRun(field / 512 + 11)
  }

  /** The bits each code takes after its symbol. */
  function LengthCodeBits(number: nat): nat {
    if number == 16 || number == 18 then 3 else if number == 17 || number == 19 then 7 else 0
  }

  /** Applies one code at position `|t|` of a table whose previous version is
      `prior`; a repeat at position 0 is an error. */
  function TableStep(prior: seq<nat>, t: seq<nat>, c: LengthCode): (r: Option<seq<nat>>)
    requires |t| < |prior|
  {
    match c
    case Delta(s) => Some(t + [(s + prior[|t|]) % 16])
    case RepeatPrevious(n) =>
      if |t| == 0 then None else Some(t + Repeat(t[|t| - 1], Min(n, |prior| - |t|)))
    case ZeroRun(n) => Some(t + Repeat(0, Min(n, |prior| - |t|)))
  }

  /** The table described by `codes`, or `None` when a code repeats the
      previous entry at position 0 or comes after the table is full. */
  function TableFold(prior: seq<nat>, codes: seq<LengthCode>): (r: Option<seq<nat>>)
  {
    if codes == [] then Some([])
    else match TableFold(prior, codes[..|codes| - 1])
      case None => None
      case Some(t) => if |t| >= |prior| then None else TableStep(prior, t, codes[|codes| - 1])
  }

  /** A described table never exceeds the prior one's size, and all its entries
      are 4-bit lengths. */
  lemma {:induction false} TableFoldBounds(prior: seq<nat>, codes: seq<LengthCode>)
    requires TableFold(prior, codes).Some?
    ensures |TableFold(prior, codes).value| <= |prior|
    ensures forall i :: 0 <= i < |TableFold(prior, codes).value| ==> TableFold(prior, codes).value[i] < 16
  {
    if codes != [] {
      TableFoldBounds(prior, codes[..|codes| - 1]);
    }
  }

  /** A description that starts by repeating the previous entry is rejected,
      whatever follows. */
  lemma {:induction false} TableFoldRepeatFirst(prior: seq<nat>, codes: seq<LengthCode>)
    requires |codes| >= 1 && codes[0].RepeatPrevious?
    ensures TableFold(prior, codes).None?
  {
    if |codes| > 1 {
      TableFoldRepeatFirst(prior, codes[..|codes| - 1]);
    } else {
      assert codes[..0] == [];
    }
  }

  /** Each accepted code with a non-zero count writes at least one entry, so
      a table is complete after at most `|prior|` codes. */
  lemma {:induction false} TableFoldProgress(prior: seq<nat>, codes: seq<LengthCode>)
    requires forall i :: 0 <= i < |codes| && !codes[i].Delta? ==> codes[i].count > 0
    requires TableFold(prior, codes).Some?
    ensures |TableFold(prior, codes).value| >= |codes|
  {
    if codes != [] {
      TableFoldProgress(prior, codes[..|codes| - 1]);
    }
  }

  /** One more code after an incomplete table applies that code to it. */
  lemma TableFoldNext(prior: seq<nat>, codes: seq<LengthCode>, c: LengthCode)
    requires TableFold(prior, codes).Some? && |TableFold(prior, codes).value| < |prior|
    ensures TableFold(prior, codes + [c]) == TableStep(prior, TableFold(prior, codes).value, c)
  {
    assert (codes + [c])[..|codes|] == codes;
  }
}
