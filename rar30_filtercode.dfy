/** The registration of filter code in the RAR 3.x decoder (`AddVMCode`):
    the filter code names an entry of the filter registry (or a new one),
    and a filter for a block of the window is queued on the pending-filter
    stack with its block position, length, deferral flag and initial
    registers. The RarVM's number reader and program preparation are
    parameters. */
module Rar30FilterCode {
  import opened Wrappers
  import opened Rar30Tables
  import opened Rar30Filters
  import opened Rar30Input

  /** `uint` arithmetic. */
  const U32: nat := 0x1_0000_0000

  /** The number of initial VM registers of a filter. */
  const InitRegCount: nat := 7

  /** A number read from filter code by `RarVM.ReadData` and its length in
      bits. */
  datatype VmNumber = VmNumber(value: nat, bits: nat)

  /** `RarVM.ReadData` at bit `pos` of `buf`, as the `uint` it returns. */
  function VmAt(readData: (seq<byte>, nat) -> VmNumber, buf: seq<byte>, pos: nat): (r: VmNumber)
    ensures r.value < U32
  {
    var v := readData(buf, pos);
    VmNumber(v.value % U32, v.bits)
  }

  /** Bit `i` of `x`. */
  predicate BitSet(x: nat, i: nat)
    decreases i
  {
    if i == 0 then x % 2 == 1 else BitSet(x / 2, i - 1)
  }

  /** The filter code buffer after `AddVMCode` copied `code` into it: at
      most `MaxSize` bytes at its start, the rest as it was. */
  function CodeBuffer(code: seq<byte>, previous: seq<byte>): (r: seq<byte>)
    requires |previous| == MaxSize
    ensures |r| == MaxSize
  {
    var n := Min(MaxSize, |code|);
    code[..n] + previous[n..]
  }

  // ---------------------------------------------------------------------------
  // The registry entry.
  // ---------------------------------------------------------------------------

  /** Which registry entry the filter code names: with bit 7 of the first
      byte, a number follows, where 0 resets the registry and `n + 1` names
      entry `n`; without it, the entry used last time. `bitPos` is where the
      reading goes on. */
  datatype FilterRef = FilterRef(pos: nat, reset: bool, bitPos: nat)

  function FilterRefOf(readData: (seq<byte>, nat) -> VmNumber, buf: seq<byte>, firstByte: nat,
                       lastFilter: nat): FilterRef
  {
    if BitSet(firstByte, 7) then
      var v := VmAt(readData, buf, 0);
      if v.value == 0 then FilterRef(0, true, v.bits) else FilterRef(v.value - 1, false, v.bits)
    else FilterRef(lastFilter, false, 0)
  }

  // ---------------------------------------------------------------------------
  // The fields of the queued filter.
  // ---------------------------------------------------------------------------

  /** The initial registers from register `i` on: each register whose bit
      is set in `mask` is read in turn; the others keep their value. Also the
      bit position after them. */
  function InitRegs(readData: (seq<byte>, nat) -> VmNumber, buf: seq<byte>, pos: nat, mask: nat,
                    regs: seq<nat>, i: nat): (r: (seq<nat>, nat))
    requires i <= InitRegCount && |regs| == InitRegCount
    ensures |r.0| == InitRegCount && pos <= r.1
    decreases InitRegCount - i
  {
    if i == InitRegCount then (regs, pos)
    else if BitSet(mask, i) then
      var v := VmAt(readData, buf, pos);
      InitRegs(readData, buf, pos + v.bits, mask, regs[i := v.value], i + 1)
    else InitRegs(readData, buf, pos, mask, regs, i + 1)
  }

  /** `InitRegs` reads only the registers from `i` on whose bit is set in
      `mask`; every other register keeps its value. */
  lemma {:induction false} InitRegsKeeps(readData: (seq<byte>, nat) -> VmNumber, buf: seq<byte>, pos: nat, mask: nat,
                                         regs: seq<nat>, i: nat)
    requires i <= InitRegCount && |regs| == InitRegCount
    ensures var r := InitRegs(readData, buf, pos, mask, regs, i);
            forall k :: 0 <= k < InitRegCount && (k < i || !BitSet(mask, k)) ==> r.0[k] == regs[k]
    decreases InitRegCount - i
  {
    if i < InitRegCount {
      if BitSet(mask, i) {
        var v := VmAt(readData, buf, pos);
        InitRegsKeeps(readData, buf, pos + v.bits, mask, regs[i := v.value], i + 1);
      } else {
        InitRegsKeeps(readData, buf, pos, mask, regs, i + 1);
      }
    }
  }

  /** One step of `InitRegs`: register `i` read or skipped. */
  lemma InitRegsStep(readData: (seq<byte>, nat) -> VmNumber, buf: seq<byte>, pos: nat, mask: nat,
                     regs: seq<nat>, i: nat)
    requires i < InitRegCount && |regs| == InitRegCount
    ensures var v := VmAt(readData, buf, pos);
            InitRegs(readData, buf, pos, mask, regs, i)
              == if BitSet(mask, i) then InitRegs(readData, buf, pos + v.bits, mask, regs[i := v.value], i + 1)
                 else InitRegs(readData, buf, pos, mask, regs, i + 1)
  {
  }

  /** The queued filter before its program type is known, the block lengths
      of the registry after it, and the bit position after its fields. */
  datatype Fields = Fields(filter: StackFilter, lengths: seq<nat>, bitPos: nat)

  /** The fields of the filter for registry entry `pos` read from bit
      `bitPos`: the block start relative to `unpPtr` (258 further with bit 6
      of the first byte), the block length (read with bit 5 and recorded
      for the entry, otherwise the entry's last one), deferral to the next
      window pass when the block starts beyond the write position, and the
      initial registers (register 4 the block length, others read with bit
      4 as a 7-bit mask says). */
  function FieldsAt(readData: (seq<byte>, nat) -> VmNumber, buf: seq<byte>, bitPos: nat, firstByte: nat,
                    pos: nat, lengths: seq<nat>, unpPtr: nat, wrPtr: nat, size: nat): (r: Fields)
    requires size > 0
    ensures r.filter.blockStart < size && r.filter.parentFilter == pos && r.filter.programType == 0
    ensures |r.filter.initR| == InitRegCount && |r.lengths| == |lengths| && bitPos <= r.bitPos
  {
    var s := VmAt(readData, buf, bitPos);
    var blockStart := if BitSet(firstByte, 6) then (s.value + 258) % U32 else s.value;
    var l := LengthAt(readData, buf, bitPos + s.bits, firstByte, pos, lengths);
    var regs := RegistersAt(readData, buf, l.2, firstByte, l.0);
    Fields(QueuedFilter(blockStart, l.0, pos, regs.0, unpPtr, wrPtr, size), l.1, regs.1)
  }

  /** `FieldsAt` in terms of its three reads, for a caller that reads them
      one at a time. */
  lemma FieldsAtReads(readData: (seq<byte>, nat) -> VmNumber, buf: seq<byte>, bitPos: nat, firstByte: nat,
                      pos: nat, lengths: seq<nat>, unpPtr: nat, wrPtr: nat, size: nat,
                      s: VmNumber, start: nat, l: (nat, seq<nat>, nat), regs: (seq<nat>, nat))
    requires size > 0 && s == VmAt(readData, buf, bitPos)
    requires start == if BitSet(firstByte, 6) then (s.value + 258) % U32 else s.value
    requires l == LengthAt(readData, buf, bitPos + s.bits, firstByte, pos, lengths)
    requires regs == RegistersAt(readData, buf, l.2, firstByte, l.0)
    ensures FieldsAt(readData, buf, bitPos, firstByte, pos, lengths, unpPtr, wrPtr, size)
            == Fields(QueuedFilter(start, l.0, pos, regs.0, unpPtr, wrPtr, size), l.1, regs.1)
  {
  }

  /** The filter queued for a block `blockStart` bytes past the decode
      position `unpPtr` in a window of `size` bytes: it waits for the next
      pass over the window when the block starts at or past the write
      position `wrPtr`. */
  function QueuedFilter(blockStart: nat, blockLength: nat, pos: nat, initR: seq<nat>,
                        unpPtr: nat, wrPtr: nat, size: nat): (f: StackFilter)
    requires size > 0
    ensures f.blockStart < size && f.blockLength == blockLength && f.parentFilter == pos
    ensures f.initR == initR && f.programType == 0
  {
    var nextWindow := wrPtr != unpPtr && (wrPtr - unpPtr) % size <= blockStart;
    StackFilter((blockStart + unpPtr) % size, blockLength, nextWindow, pos, initR, 0)
  }

  /** The initial registers of a filter whose block is `blockLength` long,
      and the bit position after them: all 0 but register 4, the block
      length; with bit 4 of the first byte a 7-bit mask follows, and the
      registers it names are read in turn. */
  function RegistersAt(readData: (seq<byte>, nat) -> VmNumber, buf: seq<byte>, pos: nat, firstByte: nat,
                       blockLength: nat): (r: (seq<nat>, nat))
    ensures |r.0| == InitRegCount && pos <= r.1
  {
    var r0 := DefaultRegs(blockLength);
    if BitSet(firstByte, 4) then InitRegs(readData, buf, pos + 7, Bits16(buf, pos) / 512, r0, 0)
    else (r0, pos)
  }

  /** Every register the mask does not name is 0, but register 4, which
      holds the block length. */
  lemma RegistersAtDefaults(readData: (seq<byte>, nat) -> VmNumber, buf: seq<byte>, pos: nat, firstByte: nat,
                            blockLength: nat)
    ensures var r := RegistersAt(readData, buf, pos, firstByte, blockLength);
            forall k :: 0 <= k < InitRegCount && !(BitSet(firstByte, 4) && BitSet(Bits16(buf, pos) / 512, k)) ==>
              r.0[k] == (if k == 4 then blockLength else 0)
  {
    if BitSet(firstByte, 4) {
      InitRegsKeeps(readData, buf, pos + 7, Bits16(buf, pos) / 512, DefaultRegs(blockLength), 0);
    }
  }

  /** The registers before any is read: register 4 holds the block length. */
  function DefaultRegs(blockLength: nat): (r: seq<nat>)
    ensures |r| == InitRegCount
  {
    seq(InitRegCount, _ => 0)[4 := blockLength]
  }

  /** The block length of the filter for entry `pos`, the registry's block
      lengths after it and the bit position after it: read with bit 5 of the
      first byte and recorded for the entry; otherwise the entry's last
      length (0 for an entry the registry does not have). */
  function LengthAt(readData: (seq<byte>, nat) -> VmNumber, buf: seq<byte>, bitPos: nat, firstByte: nat,
                    pos: nat, lengths: seq<nat>): (r: (nat, seq<nat>, nat))
    ensures |r.1| == |lengths| && bitPos <= r.2
    ensures pos < |lengths| ==> r.1[pos] == r.0
    ensures forall k :: 0 <= k < |lengths| && k != pos ==> r.1[k] == lengths[k]
  {
    if BitSet(firstByte, 5) then
      var l := VmAt(readData, buf, bitPos);
      (l.value, if pos < |lengths| then lengths[pos := l.value] else lengths, bitPos + l.bits)
    else (if pos < |lengths| then lengths[pos] else 0, lengths, bitPos)
  }

  // ---------------------------------------------------------------------------
  // The code of a new registry entry.
  // ---------------------------------------------------------------------------

  /** The byte at bit `pos`: the top 8 of the 16 bits there. */
  function ByteAt(buf: seq<byte>, pos: nat): byte {
    Bits16(buf, pos) / 256
  }

  /** The byte `bit` bits into byte `a` depends only on the two bytes that
      hold it: two buffers that agree on those bytes read the same byte
      there, wherever the bytes sit in each buffer. */
  lemma ByteAtTwoBytes(b1: seq<byte>, a1: nat, b2: seq<byte>, a2: nat, bit: nat)
    requires bit < 8 && ByteOf(b1, a1) == ByteOf(b2, a2) && ByteOf(b1, a1 + 1) == ByteOf(b2, a2 + 1)
    ensures ByteAt(b1, 8 * a1 + bit) == ByteAt(b2, 8 * a2 + bit)
  {
    ModUnique(8 * a1 + bit, 8, a1, bit);
    ModUnique(8 * a2 + bit, 8, a2, bit);
    var hi := ByteOf(b1, a1) * 256 + ByteOf(b1, a1 + 1);
    TopByte(hi, ByteOf(b1, a1 + 2), bit);
    TopByte(hi, ByteOf(b2, a2 + 2), bit);
    assert Bits16(b1, 8 * a1 + bit) == Shr(hi * 256 + ByteOf(b1, a1 + 2), 8 - bit) % 0x10000;
    assert Bits16(b2, 8 * a2 + bit) == Shr(hi * 256 + ByteOf(b2, a2 + 2), 8 - bit) % 0x10000;
  }

  /** The top byte of the 16 bits that start `bit` bits into the 24 bits
      `hi * 256 + lo`: the low byte does not reach it. */
  lemma TopByte(hi: nat, lo: nat, bit: nat)
    requires hi < 0x10000 && lo < 256 && bit < 8
    ensures Shr(hi * 256 + lo, 8 - bit) % 0x10000 / 256 == hi / Pow2(8 - bit) % 256
  {
    ShrDiv(hi * 256 + lo, 8 - bit);
    TopByteOf(hi, lo, Pow2(8 - bit));
  }

  /** `TopByte` for a divisor `s`. */
  lemma TopByteOf(hi: nat, lo: nat, s: nat)
    requires hi < 0x10000 && lo < 256 && 1 <= s
    ensures (hi * 256 + lo) / s % 0x10000 / 256 == hi / s % 256
  {
    var q, r := hi / s, hi % s;
    var t := r * 256 + lo;
    MulMonotonic(256, r, s - 1);
    DivBelow(t, s, 256);
    var u := t / s;
    assert hi * 256 == (q * 256) * s + r * 256 by {
      assert hi == q * s + r;
    }
    assert t == u * s + t % s;
    ModUnique(hi * 256 + lo, s, q * 256 + u, t % s);
    LowWord(q, u);
  }

  /** A number below `s * k` has a quotient by `s` below `k`. */
  lemma DivBelow(t: nat, s: nat, k: nat)
    requires s > 0 && t < s * k
    ensures t / s < k
  {
    if t / s >= k {
      MulMonotonic(s, k, t / s);
    }
  }

  /** The second byte of `q * 256 + u` in its low 16 bits is `q`'s low byte. */
  lemma LowWord(q: nat, u: nat)
    requires u < 256
    ensures (q * 256 + u) % 0x10000 / 256 == q % 256
  {
    var a, b := q / 256, q % 256;
    assert q * 256 + u == a * 0x10000 + (b * 256 + u);
    ModUnique(q * 256 + u, 0x10000, a, b * 256 + u);
    ModUnique(b * 256 + u, 256, b, u);
  }

  /** `n` bytes read 8 bits at a time from bit `pos`; nothing when one of
      them would start within 3 bytes of the end of the buffer
      (`Overflow(3)`), which the last of them does first. */
  function CodeBytes(buf: seq<byte>, pos: nat, n: nat): (r: Option<seq<byte>>)
    ensures r.Some? ==> |r.value| == n
  {
    if n > 0 && pos / 8 + (n - 1) + 3 >= MaxSize then None
    else Some(seq(n, k requires 0 <= k < n => ByteAt(buf, pos + 8 * k)))
  }

  /** The program of a new registry entry: its size, which must be between 1
      and 0xFFFF, then its bytes. */
  function ProgramAt(readData: (seq<byte>, nat) -> VmNumber, buf: seq<byte>, pos: nat): (r: Option<seq<byte>>)
    ensures r.Some? ==> 0 < |r.value| < 0x10000
  {
    var size := VmAt(readData, buf, pos);
    if size.value >= 0x10000 || size.value == 0 then None else CodeBytes(buf, pos + size.bits, size.value)
  }

  // ---------------------------------------------------------------------------
  // The pending-filter stack.
  // ---------------------------------------------------------------------------

  /** Whether the stack has room for one more filter: after compaction
      there is a null entry to reuse, or the stack holds at most
      `Max3UnpackFilters` entries. */
  predicate StackRoom<T>(s: seq<Option<T>>) {
    NullCount(s) > 0 || |s| <= Max3UnpackFilters
  }

  /** The stack with `f` queued: compacted, one null entry added when
      there was none, and `f` in the first null entry. */
  function Placed<T>(s: seq<Option<T>>, f: T): (r: seq<Option<T>>)
  {
    var c := Compact(s) + (if NullCount(s) == 0 then [None] else []);
    CompactKeepsFilters(s);
    c[|NonNull(s)| := Some(f)]
  }

  /** Queuing a filter puts it after every pending filter, keeps their
      order, and grows the stack only when it had no null entry. */
  lemma {:induction false} PlacedQueues<T>(s: seq<Option<T>>, f: T)
    ensures NonNull(Placed(s, f)) == NonNull(s) + [f]
    ensures |Placed(s, f)| == |s| + (if NullCount(s) == 0 then 1 else 0)
    ensures Placed(s, f)[|NonNull(s)|] == Some(f)
  {
    var n := NonNull(s);
    var e := if NullCount(s) == 0 then 1 else NullCount(s);
    var r := Placed(s, f);
    assert r == Wrap(n + [f]) + Nulls(e - 1) by {
      assert |r| == |n| + e;
      forall k | 0 <= k < |r|
        ensures r[k] == (Wrap(n + [f]) + Nulls(e - 1))[k]
      {
      }
    }
    NonNullOfWrapNulls(n + [f], e - 1);
  }

  /** The non-null entries of filters followed by nulls are the filters. */
  lemma {:induction false} NonNullOfWrapNulls<T>(s: seq<T>, n: nat)
    ensures NonNull(Wrap(s) + Nulls(n)) == s
    decreases n
  {
    if n == 0 {
      assert Wrap(s) + Nulls(n) == Wrap(s);
      NonNullOfWrap(s);
    } else {
      var t := Wrap(s) + Nulls(n);
      assert t[..|t| - 1] == Wrap(s) + Nulls(n - 1);
      NonNullOfWrapNulls(s, n - 1);
    }
  }

  // ---------------------------------------------------------------------------
  // `AddVMCode`.
  // ---------------------------------------------------------------------------

  /** The filter registry and the pending filters: the program type of each
      registry entry, the last block length of each, the entry used last and
      the stack. */
  datatype FilterState = FilterState(filters: seq<nat>, lengths: seq<nat>, last: nat,
                                     stack: seq<Option<StackFilter>>)

  /** `AddVMCode` on the filter code buffer `buf` (the code copied in
      already), from state `st`: whether it succeeds, and the state after,
      which a failure leaves as far as the work had got. The steps: the
      registry entry (a reset empties registry and stack); an entry past the
      end of the registry is refused; a new entry is added (refused past
      `Max3UnpackFilters`); the stack is compacted and, with room, the filter
      is queued with its fields; a new entry's program (refused when
      invalid) is prepared; the queued filter takes its entry's program
      type. */
  function AddFilter(readData: (seq<byte>, nat) -> VmNumber, prepare: seq<byte> -> nat,
                     buf: seq<byte>, firstByte: nat, st: FilterState,
                     unpPtr: nat, wrPtr: nat, size: nat): (r: (bool, FilterState))
    requires size > 0
  {
    var ref := FilterRefOf(readData, buf, firstByte, st.last);
    var st1 := if ref.reset then FilterState([], [], 0, []) else st;
    var pos := ref.pos;
    if pos > |st1.filters| || pos > |st1.lengths| then (false, st1)
    else if pos == |st1.filters| && pos > Max3UnpackFilters then (false, st1.(last := pos))
    else
      var isNew := pos == |st1.filters|;
      var st2 := if isNew then FilterState(st1.filters + [0], st1.lengths + [0], pos, st1.stack)
                 else st1.(last := pos);
      QueueFilter(readData, prepare, buf, firstByte, ref.bitPos, pos, isNew, st2, unpPtr, wrPtr, size)
  }

  /** `AddVMCode` once the registry entry `pos` is settled (`isNew` when it
      was added for this filter): a slot on the stack, the fields read from
      bit `bitPos`, and for a new entry its program. */
  function QueueFilter(readData: (seq<byte>, nat) -> VmNumber, prepare: seq<byte> -> nat,
                       buf: seq<byte>, firstByte: nat, bitPos: nat, pos: nat, isNew: bool, st: FilterState,
                       unpPtr: nat, wrPtr: nat, size: nat): (r: (bool, FilterState))
    requires size > 0 && pos < |st.filters|
  {
    if !StackRoom(st.stack) then (false, st.(stack := Compact(st.stack)))
    else
      var fl := FieldsAt(readData, buf, bitPos, firstByte, pos, st.lengths, unpPtr, wrPtr, size);
      var st3 := st.(lengths := fl.lengths, stack := Placed(st.stack, fl.filter));
      if isNew then
        var prg := ProgramAt(readData, buf, fl.bitPos);
        if prg.None? then (false, st3)
        else
          var t := prepare(prg.value);
          (true, st3.(filters := st.filters[pos := t],
                      stack := Placed(st.stack, fl.filter.(programType := t))))
      else (true, st3.(stack := Placed(st.stack, fl.filter.(programType := st.filters[pos]))))
  }

  /** The registry keeps one block length per entry and the pending filters
      start in the window. */
  ghost predicate StateValid(st: FilterState, size: nat) {
    |st.lengths| == |st.filters| && StackInWindow(st.stack, size)
  }

  /** `AddVMCode` keeps the registry and the stack consistent. On success
      the filter is queued after the pending filters (all of them, or none
      after a reset), for a registry entry that exists, with its program
      type, its block in the window; the registry grows by at most one entry
      and only when a new entry was named, and `LastFilter` names the entry. */
  lemma AddFilterQueues(readData: (seq<byte>, nat) -> VmNumber, prepare: seq<byte> -> nat,
                        buf: seq<byte>, firstByte: nat, st: FilterState, unpPtr: nat, wrPtr: nat, size: nat)
    requires size > 0 && StateValid(st, size)
    ensures var r := AddFilter(readData, prepare, buf, firstByte, st, unpPtr, wrPtr, size);
            var ref := FilterRefOf(readData, buf, firstByte, st.last);
            var before := if ref.reset then [] else NonNull(st.stack);
            var count := if ref.reset then 0 else |st.filters|;
            && StateValid(r.1, size)
            && (r.0 ==>
                  && |NonNull(r.1.stack)| == |before| + 1
                  && NonNull(r.1.stack)[..|before|] == before
                  && var f := NonNull(r.1.stack)[|before|];
                     && f.parentFilter == ref.pos == r.1.last < |r.1.filters|
                     && f.programType == r.1.filters[ref.pos]
                     && f.blockStart < size
                     && |r.1.filters| == (if ref.pos == count then count + 1 else count))
  {
    var r := AddFilter(readData, prepare, buf, firstByte, st, unpPtr, wrPtr, size);
    var ref := FilterRefOf(readData, buf, firstByte, st.last);
    var st1 := if ref.reset then FilterState([], [], 0, []) else st;
    var pos := ref.pos;
    if pos <= |st1.filters| && !(pos == |st1.filters| && pos > Max3UnpackFilters) {
      var isNew := pos == |st1.filters|;
      var st2 := if isNew then FilterState(st1.filters + [0], st1.lengths + [0], pos, st1.stack)
                 else st1.(last := pos);
      if StackRoom(st2.stack) {
        var fl := FieldsAt(readData, buf, ref.bitPos, firstByte, pos, st2.lengths, unpPtr, wrPtr, size);
        var f := if isNew && ProgramAt(readData, buf, fl.bitPos).Some?
                 then fl.filter.(programType := prepare(ProgramAt(readData, buf, fl.bitPos).value))
                 else if isNew then fl.filter
                 else fl.filter.(programType := st2.filters[pos]);
        assert r.1.stack == Placed(st2.stack, f);
        PlacedQueues(st2.stack, f);
        PlacedInWindow(st2.stack, f, size);
        assert NonNull(r.1.stack)[..|NonNull(st2.stack)|] == NonNull(st2.stack);
      } else {
        CompactInWindow(st2.stack, size);
      }
    }
  }

  /** Queuing a filter whose block starts in the window keeps every
      pending block in the window. */
  lemma PlacedInWindow(s: seq<Option<StackFilter>>, f: StackFilter, size: nat)
    requires StackInWindow(s, size) && f.blockStart < size
    ensures StackInWindow(Placed(s, f), size)
  {
    CompactInWindow(s, size);
    CompactKeepsFilters(s);
  }
}
