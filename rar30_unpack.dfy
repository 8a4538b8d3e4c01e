/** The RAR 3.x decoder (`Unpack29` and the routines it calls): LZ and PPM
    blocks decoded into a circular window, Huffman tables read from the bit
    stream, filter code registered for blocks of the window, and the window
    flushed to the output through the pending filters.

    The Huffman decoder, the RarVM, the PPM model and the archive reader are
    parameters: `Decode` gives the symbol a table decodes from 16 input bits
    and how many bits it took, `ReadData` a VM number and its length in bits,
    `Prepare` the program type of a filter's code and `Execute` the data a
    filter produces; the PPM stream is the list of characters (or -1) it
    yields and the packed input the list of bytes the archive reader delivers.

    Window arithmetic: the source computes `(a - b) & MaxWinMask` on 32-bit
    unsigned values. The window size is a power of two dividing 2^32, so that
    is the non-negative remainder `(a - b) % |Window|` on integers. */
module Rar30 {
  import opened Wrappers
  import opened Rar30Tables
  import opened Rar30Filters
  import opened Rar30Input
  import opened Rar30Codes
  import opened Rar30FilterCode
  import opened Rar30Ppm

  /** `BLOCK_LZ` and `BLOCK_PPM`. */
  datatype BlockType = BlockLz | BlockPpm

  /** A symbol decoded from a Huffman table and the bits its code took. */
  datatype Decoded = Decoded(symbol: nat, bits: nat)

  /** What `PPM.DecodeInit` reports: success and the escape character. */
  datatype PpmStart = PpmStart(ok: bool, escChar: int)

  /** How one pass of the main loop ends: go on, leave the loop (and flush),
      or return at once. */
  datatype Flow = Continue | Break | Return

  /** How `ReadTables30` went: the input ran out before the block header, or
      the `header` is the 16 bits of `buf` at `pos`, at a byte boundary. A PPM
      block follows it, or an LZ block whose description is read from
      `buf`: the `n` bit-length tokens from `bdPos`, 2 bits after the
      header, then
      `codes`, each decoded from the matching pair of `fields`. */
  datatype TableRead =
    | NoInput
    | PpmBlock(buf: seq<byte>, pos: nat, header: nat)
    | LzBlock(buf: seq<byte>, pos: nat, header: nat, bdPos: nat, n: nat, codes: seq<LengthCode>, fields: seq<(nat, nat)>)

  /** Bit 15 of a block header: a PPM block. */
  predicate PpmHeader(header: nat) {
    header >= 0x8000
  }

  /** Bit 14 of an LZ block header: the previous table is kept. */
  predicate KeepsOldTable(header: nat) {
    header % 0x8000 >= 0x4000
  }

  /** The main decode tables (`LD`, `DD`, `LDD`, `RD`) and `TablesRead3`, as
      a value: what a failed table read leaves as it was. */
  datatype Tables = Tables(ld: seq<nat>, dd: seq<nat>, ldd: seq<nat>, rd: seq<nat>, read3: bool)

  /** `codes` describe a whole main table against `prior`. */
  ghost predicate FullTable(prior: seq<nat>, codes: seq<LengthCode>) {
    TableFold(prior, codes).Some? && |TableFold(prior, codes).value| == |prior|
  }

  // ---------------------------------------------------------------------------
  // The window copy of an LZ match.
  // ---------------------------------------------------------------------------

  /** `CopyString(length, distance)` from position `ptr`: byte by byte, each
      byte taken `distance` positions back in the circular window, so a
      match may overlap the bytes it writes. */
  function CopyWindow(w: seq<byte>, ptr: nat, length: nat, distance: nat): (r: seq<byte>)
    requires ptr < |w|
    ensures |r| == |w|
    decreases length
  {
    if length == 0 then w
    else CopyWindow(w[ptr := w[(ptr - distance) % |w|]], (ptr + 1) % |w|, length - 1, distance)
  }

  /** The window position `n` bytes after `ptr`, wrapping at `size`. */
  function Advance(ptr: nat, n: nat, size: nat): (r: nat)
    requires size > 0
    ensures r < size
  {
    (ptr + n) % size
  }

  /** Advancing by nothing stays put. */
  lemma AdvanceNone(ptr: nat, size: nat)
    requires ptr < size
    ensures Advance(ptr, 0, size) == ptr
  {
  }

  /** Shifting a `width`-bit field right by `shift` leaves a
      `width - shift`-bit number. */
  lemma {:induction false} ShrBound(field: nat, shift: nat, width: nat)
    requires field < Pow2(width) && shift <= width
    ensures Shr(field, shift) < Pow2(width - shift)
  {
    if shift > 0 {
      ShrBound(field / 2, shift - 1, width - 1);
    }
  }

  /** Moving one position on in a circular buffer. */
  lemma ModNext(x: nat, n: nat)
    requires n > 0
    ensures (x % n + 1) % n == (x + 1) % n
  {
    var q, r := x / n, x % n;
    assert x == q * n + r;
    if r + 1 < n {
      ModUnique(x + 1, n, q, r + 1);
      ModUnique(r + 1, n, 0, r + 1);
    } else {
      ModUnique(x + 1, n, q + 1, 0);
      ModUnique(r + 1, n, 1, 0);
    }
  }

  /** Reading `code` bytes of the packed input `p` into the buffer at `top`
      keeps the unread input, the buffer from `a` on and then `p`, the same. */
  lemma ReadKeepsUnread(buf: seq<byte>, buf2: seq<byte>, a: nat, top: nat, p: seq<byte>, code: nat)
    requires a <= top && code <= |p| && top + code <= |buf|
    requires buf2 == buf[..top] + p[..code] + buf[top + code..]
    ensures buf2[a..top + code] + p[code..] == buf[a..top] + p
  {
    assert buf2[a..top + code] == buf[a..top] + p[..code];
    assert p == p[..code] + p[code..];
  }

  /** When the unread input `u[i..]` starts with two bytes of the buffer at
      `addr`, the byte read there is the byte at the same position of `u`. */
  lemma UnreadByte(buf: seq<byte>, addr: nat, top: nat, packed: seq<byte>, u: seq<byte>, i: nat, bit: nat)
    requires addr + 2 <= top <= |buf| && i <= |u| && buf[addr..top] + packed == u[i..] && bit < 8
    ensures ByteAt(buf, 8 * addr + bit) == ByteAt(u, bit + 8 * i)
  {
    assert u[i..][0] == buf[addr..top][0] && u[i..][1] == buf[addr..top][1];
    ByteAtTwoBytes(buf, addr, u, i, bit);
  }

  /** Every byte of `code` whose two input bytes lie in `u` is the byte at
      its offset from bit `bit` of `u`: filter code read byte by byte. */
  ghost predicate BytesFrom(code: seq<byte>, u: seq<byte>, bit: nat) {
    forall k :: 0 <= k < |code| && k + 2 <= |u| ==> code[k] == ByteAt(u, bit + 8 * k)
  }

  /** Skipping `n` bytes of the buffer skips the first `n` bytes of the
      unread input. */
  lemma SkipUnread(buf: seq<byte>, addr: nat, top: nat, packed: seq<byte>, n: nat)
    requires addr + n <= top <= |buf|
    ensures buf[addr + n..top] + packed == (buf[addr..top] + packed)[n..]
  {
  }

  /** Taking a byte of the buffer takes the first byte of the unread input. */
  lemma UnreadStep(buf: seq<byte>, addr: nat, top: nat, packed: seq<byte>, u: seq<byte>, i: nat)
    requires addr < top <= |buf| && i <= |u| && buf[addr..top] + packed == u[i..]
    ensures i + 1 <= |u| && buf[addr + 1..top] + packed == u[i + 1..]
  {
    assert u[i..] == [buf[addr]] + (buf[addr + 1..top] + packed);
  }

  // ---------------------------------------------------------------------------
  // What one LZ symbol reads from the input buffer.
  // ---------------------------------------------------------------------------

  /** `DecodeNumber` with `table` on the 16 bits of `buf` at bit `pos`: the
      symbol (0 when it lies outside the table's alphabet) and the bits its
      code takes. */
  function SymbolAt(decode: (seq<nat>, nat) -> Decoded, table: seq<nat>, buf: seq<byte>, pos: nat): (d: Decoded)
    ensures d.symbol < |table| || d.symbol == 0
  {
    var raw := decode(table, Bits16(buf, pos));
    Decoded(if raw.symbol < |table| then raw.symbol else 0, raw.bits)
  }

  /** The `bits` raw bits of `buf` at bit `pos`, as a number. */
  function ExtraAt(buf: seq<byte>, pos: nat, bits: nat): (r: nat)
    requires bits <= 16
    ensures r < Pow2(bits)
  {
    Bits16Bound(buf, pos);
    ShrBound(Bits16(buf, pos), 16 - bits, 16);
    Shr(Bits16(buf, pos), 16 - bits)
  }

  lemma Bits16Bound(buf: seq<byte>, pos: nat)
    ensures Bits16(buf, pos) < Pow2(16)
  {
    Pow2Values();
  }

  /** The length of a repeat of a cached distance read at `pos`: the slot
      `rd` decodes, its base plus 2 and its extra bits; and the position
      after them. */
  function RepeatLengthAt(decode: (seq<nat>, nat) -> Decoded, rd: seq<nat>, buf: seq<byte>, pos: nat): (r: (nat, nat))
    requires |rd| <= RC30
  {
    var s := SymbolAt(decode, rd, buf, pos);
    LengthSlotBits(s.symbol);
    (RepeatLength(s.symbol, ExtraAt(buf, pos + s.bits, LBits[s.symbol])), pos + s.bits + LBits[s.symbol])
  }

  /** The distance of a long match, read at `pos`: its slot, the distance,
      the low-distance state after it and the position after it. */
  datatype DistanceRead = DistanceRead(slot: nat, distance: nat, low: LowDist, pos: nat)

  /** The distance of a long match: the slot `dd` decodes, then that slot's
      extra bits as `SlotDistanceAt` reads them. */
  function LongDistanceAt(decode: (seq<nat>, nat) -> Decoded, dd: seq<nat>, ldd: seq<nat>,
                          buf: seq<byte>, pos: nat, low: LowDist): (r: DistanceRead)
    requires |dd| <= DC30
  {
    var s := SymbolAt(decode, dd, buf, pos);
    SlotDistanceAt(decode, ldd, buf, pos + s.bits, s.symbol, low)
  }

  /** The distance in slot `slot` whose extra bits start at `pos`. Slots
      0 .. 9 read all their extra bits at once. Slots from 10 on read all but
      the low 4 (`high`, worth 16 each) and take the low 4 from
      `LowDistStep`, whose symbol `ldd` decodes only when the repeat counter
      is 0. */
  function SlotDistanceAt(decode: (seq<nat>, nat) -> Decoded, ldd: seq<nat>,
                          buf: seq<byte>, pos: nat, slot: nat, low: LowDist): (r: DistanceRead)
    requires slot < DC30
  {
    if slot > 9 then
      var high := ExtraAt(buf, pos, SlotBits(slot) - 4);
      var p := pos + (SlotBits(slot) - 4);
      var sym := SymbolAt(decode, ldd, buf, p);
      var step := LowDistStep(low, sym.symbol);
      DistanceRead(slot, SlotBase(slot) + 1 + high * 16 + step.0, step.1,
                   if ReadsLowDistSymbol(low) then p + sym.bits else p)
    else
      DistanceRead(slot, SlotBase(slot) + 1 + ExtraAt(buf, pos, SlotBits(slot)), low, pos + SlotBits(slot))
  }

  /** A long distance lies in the range of its slot (so the slot is the one
      `SlotUnique` finds for it), the previous low part stays a 4-bit value,
      and slots 0 .. 9 leave the low-distance state alone. */
  lemma LongDistanceInSlot(decode: (seq<nat>, nat) -> Decoded, dd: seq<nat>, ldd: seq<nat>,
                           buf: seq<byte>, pos: nat, low: LowDist)
    requires |dd| <= DC30 && |ldd| <= LDC30 && low.prev < 16
    ensures var r := LongDistanceAt(decode, dd, ldd, buf, pos, low);
            && r.slot < DC30 && SlotBase(r.slot) < r.distance <= SlotBase(r.slot + 1)
            && r.low.prev < 16
            && (r.slot <= 9 ==> r.low == low)
  {
    var s := SymbolAt(decode, dd, buf, pos);
    SlotDistanceInSlot(decode, ldd, buf, pos + s.bits, s.symbol, low);
  }

  lemma SlotDistanceInSlot(decode: (seq<nat>, nat) -> Decoded, ldd: seq<nat>,
                           buf: seq<byte>, pos: nat, slot: nat, low: LowDist)
    requires slot < DC30 && |ldd| <= LDC30 && low.prev < 16
    ensures var r := SlotDistanceAt(decode, ldd, buf, pos, slot, low);
            && r.slot == slot && SlotBase(slot) < r.distance <= SlotBase(slot + 1)
            && r.low.prev < 16
            && (slot <= 9 ==> r.low == low)
  {
    var r := SlotDistanceAt(decode, ldd, buf, pos, slot, low);
    if slot > 9 {
      var b := SlotBits(slot);
      var high := ExtraAt(buf, pos, b - 4);
      var sym := SymbolAt(decode, ldd, buf, pos + (b - 4));
      var add := LowDistStep(low, sym.symbol).0;
      assert r.distance == SlotBase(slot) + 1 + (high * 16 + add) && r.low == LowDistStep(low, sym.symbol).1;
      LowPartBound(low, sym.symbol);
      HighLowBound(b, high, add);
      InSlot(slot, high * 16 + add);
    } else {
      InSlot(slot, ExtraAt(buf, pos, SlotBits(slot)));
    }
  }

  /** A slot's base plus one plus a number of its extra bits lies in the
      slot. */
  lemma InSlot(slot: nat, extra: nat)
    requires slot < DC30 && extra < Pow2(SlotBits(slot))
    ensures SlotBase(slot) < SlotBase(slot) + 1 + extra <= SlotBase(slot + 1)
  {
    DistanceSlotsTile(slot);
  }

  /** The low part a long match adds is a 4-bit value, and so is the one it
      keeps. */
  lemma LowPartBound(low: LowDist, symbol: nat)
    requires low.prev < 16 && symbol <= LDC30 - 1
    ensures LowDistStep(low, symbol).0 < 16 && LowDistStep(low, symbol).1.prev < 16
  {
  }

  /** `b - 4` high bits worth 16 each and a 4-bit low part make a `b`-bit
      number. */
  lemma HighLowBound(b: nat, high: nat, add: nat)
    requires 4 <= b && high < Pow2(b - 4) && add < 16
    ensures high * 16 + add < Pow2(b)
  {
    Pow2Add(b - 4, 4);
    assert Pow2(4) == 16;
    MulMonotonic(16, high, Pow2(b - 4) - 1);
  }

  class Unpack {
    // Collaborators.
    const Decode: (seq<nat>, nat) -> Decoded
    const ReadData: (seq<byte>, nat) -> VmNumber
    const Prepare: seq<byte> -> nat
    const Execute: (nat, seq<nat>, seq<byte>) -> seq<byte>

    // Arrays of the decoder.
    const Window: array<byte>
    ghost const WinBits: nat
    const OldDist: array<nat>
    const UnpOldTable: array<nat>
    /** `Unpack30Local.DDecode` and `DBits`: the distance slots, filled on
        first use. */
    const DDecode: array<nat>
    const DBits: array<nat>
    const Inp: BitInput
    const VMCodeInp: BitInput

    // LZ state.
    var UnpPtr: nat
    var WrPtr: nat
    var LastLength: nat
    var LowDistRepCount: nat
    var PrevLowDist: nat
    var UnpBlockType: BlockType
    var TablesRead3: bool
    var PPMEscChar: int
    /** `BlockTables`: the code lengths the four main tables and the
        bit-length table were built from. */
    var LD: seq<nat>
    var DD: seq<nat>
    var LDD: seq<nat>
    var RD: seq<nat>
    var BD: seq<nat>

    // Input.
    var ReadTop: int
    var ReadBorder: int
    /** What the archive reader has not delivered yet, and whether reading
        fails. */
    var Packed: seq<byte>
    const ReadFails: bool

    // Filters.
    /** `Filters30`: the program type of each registered filter. */
    var Filters30: seq<nat>
    var OldFilterLengths: seq<nat>
    var LastFilter: nat
    var PrgStack: seq<Option<StackFilter>>

    // Output.
    var Output: seq<byte>
    var WrittenFileSize: nat
    const DestUnpSize: int
    var FileExtracted: bool
    var Suspended: bool

    // PPM stand-in.
    /** The characters `PPM.DecodeChar` yields, -1 for corrupt data. */
    var PpmChars: seq<PpmChar>
    /** The outcomes of successive `PPM.DecodeInit` calls. */
    var PpmStarts: seq<PpmStart>
    /** How many times `PPM.CleanUp` ran. */
    var PpmCleanUps: nat

    /** The arrays and readers of the decoder: their sizes and that they are
        distinct. */
    ghost predicate Shape() {
      && Inp != VMCodeInp && Inp.InBuf != VMCodeInp.InBuf
      && Window != Inp.InBuf && Window != VMCodeInp.InBuf
      && OldDist != UnpOldTable && OldDist != DDecode && OldDist != DBits
      && UnpOldTable != DDecode && UnpOldTable != DBits && DDecode != DBits
      && Window.Length == Pow2(WinBits)
      && OldDist.Length == 4 && UnpOldTable.Length == HuffTableSize30
      && DDecode.Length == DC && DBits.Length == DC
    }

    /** The decode and write positions lie in the window. */
    ghost predicate PositionsValid()
      reads this`UnpPtr, this`WrPtr
    {
      UnpPtr < Window.Length && WrPtr < Window.Length
    }

    ghost predicate InputValid()
      reads this`ReadTop, Inp, VMCodeInp
    {
      Inp.Valid() && VMCodeInp.Valid() && 0 <= ReadTop <= MaxSize
    }

    /** Each table holds at most its alphabet's code lengths, and the previous
        low distance is a 4-bit value. */
    ghost predicate TablesValid()
      reads this`LD, this`DD, this`LDD, this`RD, this`BD, this`PrevLowDist
    {
      |LD| <= NC30 && |DD| <= DC30 && |LDD| <= LDC30 && |RD| <= RC30 && |BD| <= BC30
      && PrevLowDist < 16
    }

    /** The registry keeps one block length per filter, and every pending
        filter's block starts in the window. */
    ghost predicate FiltersValid()
      reads this`OldFilterLengths, this`Filters30, this`PrgStack
    {
      |OldFilterLengths| == |Filters30| && StackInWindow(PrgStack, Window.Length)
    }

    ghost predicate Valid()
      reads this`UnpPtr, this`WrPtr, this`ReadTop, Inp, VMCodeInp
      reads this`LD, this`DD, this`LDD, this`RD, this`BD, this`PrevLowDist
      reads this`OldFilterLengths, this`Filters30, this`PrgStack
    {
      Shape() && PositionsValid() && InputValid() && TablesValid() && FiltersValid()
    }

    /** The distance slots are filled in. */
    ghost predicate SlotsReady()
      reads DDecode, DBits
    {
      DDecode.Length == DC && DBits.Length == DC
      && forall s :: 0 <= s < DC30 ==> DDecode[s] == SlotBase(s) && DBits[s] == SlotBits(s)
    }

    /** A decoder for a window of 2^`winBits` bytes, in the state a new
        `Unpack` object starts in. */
    constructor (winBits: nat, decode: (seq<nat>, nat) -> Decoded, readData: (seq<byte>, nat) -> VmNumber,
                 prepare: seq<byte> -> nat, execute: (nat, seq<nat>, seq<byte>) -> seq<byte>,
                 packed: seq<byte>, readFails: bool, ppmChars: seq<PpmChar>, ppmStarts: seq<PpmStart>,
                 destUnpSize: int)
      ensures Valid() && DDecode[1] == 0
      ensures Packed == packed && PpmChars == ppmChars && PpmStarts == ppmStarts && Output == []
    {
      Decode, ReadData, Prepare, Execute := decode, readData, prepare, execute;
      Window := new byte[Pow2(winBits)](_ => 0);
      WinBits := winBits;
      OldDist := new nat[4](_ => 0);
      UnpOldTable := new nat[HuffTableSize30](_ => 0);
      DDecode := new nat[DC](_ => 0);
      DBits := new nat[DC](_ => 0);
      Inp := new BitInput();
      VMCodeInp := new BitInput();
      UnpPtr, WrPtr, LastLength, LowDistRepCount, PrevLowDist := 0, 0, 0, 0, 0;
      UnpBlockType, TablesRead3, PPMEscChar := BlockLz, false, 0;
      LD, DD, LDD, RD, BD := [], [], [], [], [];
      ReadTop, ReadBorder, Packed, ReadFails := 0, 0, packed, readFails;
      Filters30, OldFilterLengths, LastFilter, PrgStack := [], [], 0, [];
      Output, WrittenFileSize, DestUnpSize, FileExtracted, Suspended := [], 0, destUnpSize, false, false;
      PpmChars, PpmStarts, PpmCleanUps := ppmChars, ppmStarts, 0;
    }

    // -------------------------------------------------------------------------
    // Stand-ins for the PPM model.
    // -------------------------------------------------------------------------

    /** `PPM.DecodeChar`: the next character of the PPM stream, -1 once it is
        exhausted. */
    method DecodeChar() returns (ch: int)
      modifies this`PpmChars
      ensures ch == CharAt(old(PpmChars), 0) && PpmChars == Drop(old(PpmChars), 1)
    {
      if PpmChars == [] {
        ch := -1;
      } else {
        ch := PpmChars[0];
        PpmChars := PpmChars[1..];
      }
    }

    /** `SafePPMDecodeChar`: on corrupt data the PPM model is reset and the
        decoder falls back to LZ blocks. */
    method SafePPMDecodeChar() returns (ch: int)
      modifies this`PpmChars, this`PpmCleanUps, this`UnpBlockType
      ensures ch == CharAt(old(PpmChars), 0) && PpmChars == Drop(old(PpmChars), 1)
      ensures ch == -1 ==> PpmCleanUps == old(PpmCleanUps) + 1 && UnpBlockType == BlockLz
      ensures ch != -1 ==> PpmCleanUps == old(PpmCleanUps) && UnpBlockType == old(UnpBlockType)
    {
      ch := DecodeChar();
      if ch == -1 {
        PpmCleanUps := PpmCleanUps + 1;
        UnpBlockType := BlockLz;
      }
    }

    /** `SafePPMDecodeChar` at character `n` of the stream `c`. */
    method SafeCharAt(ghost c: seq<PpmChar>, ghost n: nat) returns (ch: int)
      requires PpmChars == Drop(c, n)
      modifies this`PpmChars, this`PpmCleanUps, this`UnpBlockType
      ensures ch == CharAt(c, n) && PpmChars == Drop(c, n + 1)
      ensures ch == -1 ==> PpmCleanUps == old(PpmCleanUps) + 1 && UnpBlockType == BlockLz
      ensures ch != -1 ==> PpmCleanUps == old(PpmCleanUps) && UnpBlockType == old(UnpBlockType)
    {
      ch := SafePPMDecodeChar();
      DropNext(c, n);
    }

    /** `PPM.DecodeInit`: starts a PPM block and sets the escape character. */
    method DecodeInit() returns (ok: bool)
      modifies this`PpmStarts, this`PPMEscChar
      ensures old(PpmStarts) == [] ==> !ok && PpmStarts == [] && PPMEscChar == old(PPMEscChar)
      ensures old(PpmStarts) != [] ==> ok == old(PpmStarts)[0].ok && PPMEscChar == old(PpmStarts)[0].escChar
                                       && PpmStarts == old(PpmStarts)[1..]
    {
      if PpmStarts == [] {
        ok := false;
      } else {
        ok := PpmStarts[0].ok;
        PPMEscChar := PpmStarts[0].escChar;
        PpmStarts := PpmStarts[1..];
      }
    }

    // -------------------------------------------------------------------------
    // Input.
    // -------------------------------------------------------------------------

    /** `DecodeNumber`: the symbol `table` decodes at the current position; a
        symbol outside the table's alphabet becomes 0. */
    method DecodeNumber(table: seq<nat>) returns (n: nat)
      requires Inp.Valid()
      modifies Inp
      ensures Inp.Valid()
      ensures n < |table| || n == 0
      ensures var d := Decode(table, old(Inp.GetBits()));
              n == (if d.symbol < |table| then d.symbol else 0)
              && Inp.Position() == old(Inp.Position()) + d.bits
    {
      var d := Decode(table, Inp.GetBits());
      n := if d.symbol < |table| then d.symbol else 0;
      Inp.AddBits(d.bits);
    }

    /** `UnpIO_UnpRead`: up to `count` bytes of the packed input land in the
        input buffer at `offset`; -1 when reading fails. */
    method UnpRead(offset: nat, count: nat) returns (code: int)
      requires Inp.Valid() && offset + count <= MaxSize
      modifies Inp.InBuf, this`Packed
      ensures ReadFails ==> code == -1 && Packed == old(Packed) && Inp.InBuf[..] == old(Inp.InBuf[..])
      ensures !ReadFails ==>
                && code == Min(count, |old(Packed)|)
                && Inp.InBuf[..] == old(Inp.InBuf[..offset]) + old(Packed)[..code] + old(Inp.InBuf[offset + code..])
                && Packed == old(Packed)[code..]
    {
      if ReadFails {
        return -1;
      }
      code := Min(count, |Packed|);
      ghost var before := Inp.InBuf[..];
      forall i | 0 <= i < code {
        Inp.InBuf[offset + i] := Packed[i];
      }
      assert Inp.InBuf[..] == before[..offset] + Packed[..code] + before[offset + code..];
      Packed := Packed[code..];
    }

    /** The input not consumed yet: the rest of the buffer, then what the
        archive reader still holds. */
    ghost function Unread(): seq<byte>
      requires Inp.InAddr <= ReadTop <= Inp.InBuf.Length
      reads this`ReadTop, this`Packed, Inp, Inp.InBuf
    {
      Inp.InBuf[Inp.InAddr..ReadTop] + Packed
    }

    /** The first part of `UnpReadBuf30`: the unread bytes of the buffer move
        to its start. */
    method MoveUnread()
      requires Shape() && InputValid() && Inp.InAddr <= ReadTop
      modifies Inp, Inp.InBuf, this`ReadTop
      ensures InputValid() && Inp.InBit == old(Inp.InBit)
      ensures Inp.InAddr == 0 && ReadTop == old(ReadTop - Inp.InAddr)
      ensures Unread() == old(Unread())
    {
      var DataSize := ReadTop - Inp.InAddr;
      if DataSize > 0 {
        var from := Inp.InAddr;
        forall i | 0 <= i < DataSize {
          Inp.InBuf[i] := Inp.InBuf[from + i];
        }
      }
      Inp.InAddr := 0;
      ReadTop := DataSize;
    }

    /** `UnpReadBuf30`: refills the input buffer, first moving the unread
        bytes to its start once more than half of it is consumed. The unread
        input is the same before and after; after a successful read the
        buffer is full or the archive reader has nothing left. */
    method UnpReadBuf30() returns (ok: bool)
      requires Shape() && InputValid()
      modifies Inp, Inp.InBuf, this`ReadTop, this`ReadBorder, this`Packed
      ensures InputValid() && Inp.InBit == old(Inp.InBit)
      ensures old(ReadTop) < old(Inp.InAddr) ==>
                && !ok && Inp.InAddr == old(Inp.InAddr) && ReadTop == old(ReadTop)
                && ReadBorder == old(ReadBorder) && Packed == old(Packed) && Inp.InBuf[..] == old(Inp.InBuf[..])
      ensures old(Inp.InAddr) <= old(ReadTop) ==>
                && ok == !ReadFails
                && Inp.InAddr == (if old(Inp.InAddr) > MaxSize / 2 then 0 else old(Inp.InAddr))
                && Inp.InAddr <= ReadTop
                && Unread() == old(Unread())
                && ReadBorder == ReadTop - 30
                && (ok ==> Packed == [] || ReadTop == MaxSize)
    {
      var DataSize := ReadTop - Inp.InAddr;
      if DataSize < 0 {
        return false;
      }
      if Inp.InAddr > MaxSize / 2 {
        MoveUnread();
        DataSize := ReadTop;
      } else {
        DataSize := ReadTop;
      }
      ghost var buf, top, p := Inp.InBuf[..], ReadTop, Packed;
      var ReadCode := UnpRead(DataSize, MaxSize - DataSize);
      if ReadCode > 0 {
        ReadKeepsUnread(buf, Inp.InBuf[..], Inp.InAddr, top, p, ReadCode);
        ReadTop := ReadTop + ReadCode;
      }
      ReadBorder := ReadTop - 30;
      ok := ReadCode != -1;
    }

    /** The first loop of `ReadTables30`: the `BC30` code lengths of the
        bit-length table, read as the tokens from the current position up to
        the one that completes the table. */
    method ReadBitLengths() returns (BitLength: array<nat>, ghost n: nat)
      requires Inp.Valid()
      modifies Inp
      ensures fresh(BitLength) && Inp.Valid()
      ensures BdComplete(Inp.InBuf[..], old(Inp.Position()), n)
      ensures BitLength[..] == BdApply(BdTokens(Inp.InBuf[..], old(Inp.Position()), n))
      ensures Inp.Position() == BdEnd(Inp.InBuf[..], old(Inp.Position()), n)
    {
      BitLength := new nat[BC30](_ => 0);
      ghost var buf, p0 := Inp.InBuf[..], Inp.Position();
      n := 0;
      var I: nat := 0;
      while I < BC30
        invariant Inp.Valid() && Inp.InBuf[..] == buf && I <= BC30
        invariant BitLength[..I] == BdApply(BdTokens(buf, p0, n))
        invariant BdShort(buf, p0, n)
        invariant Inp.Position() == BdEnd(buf, p0, n)
        decreases BC30 - I
      {
        BdShortStep(buf, p0, n, I);
        I := ReadBdToken(BitLength, I);
        n := n + 1;
      }
      assert BitLength[..] == BitLength[..I];
    }

    /** One pass of the first loop of `ReadTables30`: the token at the current
        position and the lengths it writes from `I` on. */
    method ReadBdToken(BitLength: array<nat>, I: nat) returns (I': nat)
      requires Inp.Valid() && BitLength.Length == BC30 && I < BC30
      modifies Inp, BitLength
      ensures Inp.Valid() && I < I' <= BC30
      ensures var t := BdTokenAt(Inp.InBuf[..], old(Inp.Position()));
              && BitLength[..I'] == old(BitLength[..I]) + BdWrites(t, I)
              && Inp.Position() == old(Inp.Position()) + BdTokenBits(Inp.InBuf[..], old(Inp.Position()))
    {
      ghost var buf, pos, acc := Inp.InBuf[..], Inp.Position(), BitLength[..I];
      var Length := Inp.GetBits() / 4096;
      Inp.AddBits(4);
      I' := I;
      if Length == 15 {
        var ZeroCount := Inp.GetBits() / 4096;
        Inp.AddBits(4);
        if ZeroCount == 0 {
          BitLength[I'] := 15;
          assert BitLength[..I + 1] == acc + [15];
        } else {
          I' := FillRun(BitLength, I', ZeroCount + 2, 0);
          assert BdTokenAt(buf, pos) == BdZeros(ZeroCount + 2);
          I' := I' - 1;
        }
      } else {
        BitLength[I'] := Length;
        assert BitLength[..I + 1] == acc + [Length];
      }
      I' := I' + 1;
    }

    /** The symbol `DecodeNumber` yields when the 16 bits at the position are
        `field`. */
    function DecodedNumber(table: seq<nat>, field: nat): (n: nat)
      ensures n < |table| || n == 0
    {
      var d := Decode(table, field);
      if d.symbol < |table| then d.symbol else 0
    }

    /** The code of the main table's description that the bit-length table
        `bd` decodes from `symbolField`, with `countField` the 16 bits after
        the symbol. */
    function TableCodeFrom(bd: seq<nat>, symbolField: nat, countField: nat): LengthCode
      requires |bd| <= BC30 && countField < 0x10000
    {
      LengthCodeOf(DecodedNumber(bd, symbolField), countField)
    }

    /** Each of `codes` is what `bd` decodes from the matching pair of 16-bit
        fields. */
    ghost predicate CodesFrom(bd: seq<nat>, codes: seq<LengthCode>, fields: seq<(nat, nat)>) {
      |bd| <= BC30 && |codes| == |fields|
      && forall i :: 0 <= i < |codes| ==>
           fields[i].1 < 0x10000 && codes[i] == TableCodeFrom(bd, fields[i].0, fields[i].1)
    }

    /** One pass of the second loop of `ReadTables30`: the code at the current
        position and the entries it writes from `I` on; a repeat of the
        previous entry at position 0 fails. */
    method ReadLengthCode(Table: array<nat>, I: nat) returns (I': nat, ok: bool, ghost c: LengthCode, ghost field: (nat, nat))
      requires Inp.Valid() && |BD| <= BC30 && UnpOldTable.Length == HuffTableSize30
      requires Table.Length == HuffTableSize30 && Table != UnpOldTable && I < HuffTableSize30
      modifies Inp, Table
      ensures Inp.Valid() && I' <= HuffTableSize30 && (ok ==> I < I')
      ensures field.0 == old(Inp.GetBits()) && field.1 < 0x10000 && c == TableCodeFrom(BD, field.0, field.1)
      ensures TableStep(UnpOldTable[..], old(Table[..I]), c) == if ok then Some(Table[..I']) else None
    {
      ghost var f0 := Inp.GetBits();
      var Number := DecodeNumber(BD);
      field := (f0, Inp.GetBits());
      var code: LengthCode;
      if Number < 16 {
        code := Delta(Number);
      } else {
        var N := ReadRunCount(Number);
        code := if Number < 18 then RepeatPrevious(N) else ZeroRun(N);
      }
      c := code;
      I', ok := ApplyLengthCode(Table, I, code);
    }

    /** The count after symbols 16 to 19: 3 bits plus 3 for 16 and 18, 7 bits
        plus 11 for 17 and 19. */
    method ReadRunCount(Number: nat) returns (N: nat)
      requires Inp.Valid() && 16 <= Number < BC30
      modifies Inp
      ensures Inp.Valid() && Inp.Position() == old(Inp.Position()) + LengthCodeBits(Number)
      ensures N == LengthCodeOf(Number, old(Inp.GetBits())).count
    {
      if Number == 16 || Number == 18 {
        N := Inp.GetBits() / 8192 + 3;
        Inp.AddBits(3);
      } else {
        N := Inp.GetBits() / 512 + 11;
        Inp.AddBits(7);
      }
    }

    /** Writes the entries one code describes at `I`: a new length relative
        to the previous table, copies of the entry before `I`, or zeros. */
    method ApplyLengthCode(Table: array<nat>, I: nat, c: LengthCode) returns (I': nat, ok: bool)
      requires UnpOldTable.Length == HuffTableSize30 && Table.Length == HuffTableSize30
      requires Table != UnpOldTable && I < HuffTableSize30
      requires !c.Delta? ==> c.count > 0
      modifies Table
      ensures I' <= HuffTableSize30 && (ok ==> I < I')
      ensures TableStep(UnpOldTable[..], old(Table[..I]), c) == if ok then Some(Table[..I']) else None
    {
      ghost var t := Table[..I];
      I' := I;
      match c
      case Delta(Number) =>
        Table[I'] := (Number + UnpOldTable[I']) % 16;
        assert Table[..I' + 1] == t + [(Number + UnpOldTable[I]) % 16];
        I', ok := I' + 1, true;
      case RepeatPrevious(N) =>
        if I' == 0 {
          ok := false;
        } else {
          I' := FillRun(Table, I', N, Table[I' - 1]);
          ok := true;
        }
      case ZeroRun(N) =>
        I' := FillRun(Table, I', N, 0);
        ok := true;
    }

    /** The second loop of `ReadTables30`: the main table read as codes
        against the previous table `UnpOldTable`, refilling the input when
        fewer than 5 bytes are left. Each code is what the bit-length table
        decodes at its position. It fails when a refill fails, the table then
        incomplete, or when the description repeats an entry at position 0. */
    method ReadLengthTable(Table: array<nat>) returns (ok: bool, ghost codes: seq<LengthCode>, ghost fields: seq<(nat, nat)>)
      requires Shape() && InputValid() && |BD| <= BC30
      requires Table.Length == HuffTableSize30 && Table != UnpOldTable
      modifies Inp, Inp.InBuf, this`ReadTop, this`ReadBorder, this`Packed, Table
      ensures InputValid()
      ensures CodesFrom(BD, codes, fields)
      ensures ok ==> TableFold(UnpOldTable[..], codes) == Some(Table[..])
      ensures !ok && TableFold(UnpOldTable[..], codes).Some? ==>
                |TableFold(UnpOldTable[..], codes).value| < HuffTableSize30 && (ReadFails || ReadTop < Inp.InAddr)
      ensures !ok && TableFold(UnpOldTable[..], codes).None? ==>
                codes != [] && codes[|codes| - 1].RepeatPrevious?
                && TableFold(UnpOldTable[..], codes[..|codes| - 1]) == Some([])
    {
      ghost var prior := UnpOldTable[..];
      codes, fields := [], [];
      var I: nat := 0;
      while I < HuffTableSize30
        invariant InputValid() && I <= HuffTableSize30 && UnpOldTable[..] == prior
        invariant CodesFrom(BD, codes, fields)
        invariant TableFold(prior, codes) == Some(Table[..I])
        decreases HuffTableSize30 - I
      {
        if Inp.InAddr > ReadTop - 5 {
          var refilled := UnpReadBuf30();
          if !refilled {
            return false, codes, fields;
          }
        }
        ghost var before := codes;
        var stepOk;
        ghost var c, f;
        I, stepOk, c, f := ReadLengthCode(Table, I);
        TableFoldNext(prior, codes, c);
        assert CodesFrom(BD, codes + [c], fields + [f]);
        codes, fields := codes + [c], fields + [f];
        assert codes[..|codes| - 1] == before;
        if !stepOk {
          return false, codes, fields;
        }
      }
      assert Table[..] == Table[..I];
      ok := true;
    }

    /** `ReadTables30`: reads a block header at the next byte boundary, after
        a refill when fewer than 25 bytes are left. A PPM header starts the
        PPM model; otherwise an LZ block resets the low-distance state,
        clears the previous table unless the header keeps it, and reads its
        tables with `ReadLzTables`. */
    method ReadTables30() returns (ok: bool, ghost read: TableRead)
      requires Shape() && InputValid() && TablesValid()
      modifies Inp, Inp.InBuf, this`ReadTop, this`ReadBorder, this`Packed
      modifies this`UnpBlockType, this`PpmStarts, this`PPMEscChar, this`PrevLowDist, this`LowDistRepCount
      modifies UnpOldTable, this`LD, this`DD, this`LDD, this`RD, this`BD, this`TablesRead3
      ensures InputValid() && TablesValid()
      ensures !read.LzBlock? ==> UnpOldTable[..] == old(UnpOldTable[..]) && TableState() == old(TableState())
      ensures read.NoInput? ==> !ok && UnpBlockType == old(UnpBlockType)
      ensures !read.NoInput? ==>
                read.pos % 8 == 0 && read.header == Bits16(read.buf, read.pos) && (read.PpmBlock? <==> PpmHeader(read.header))
      ensures read.PpmBlock? ==>
                && UnpBlockType == BlockPpm
                && (if old(PpmStarts) == [] then !ok && PpmStarts == []
                    else ok == old(PpmStarts)[0].ok && PpmStarts == old(PpmStarts)[1..])
      ensures read.LzBlock? ==>
                && read.bdPos == read.pos + 2
                && UnpBlockType == BlockLz && PrevLowDist == 0 && LowDistRepCount == 0
                && PpmStarts == old(PpmStarts)
                && LzTablesRead(read, OldTableFor(read, old(UnpOldTable[..])), ok, old(TableState()))
    {
      ghost var prior := UnpOldTable[..];
      var header, BitField, hbuf, hpos := ReadHeader();
      assert UnpOldTable[..] == prior;
      if !header {
        return false, NoInput;
      }
      if BitField >= 0x8000 {
        ok := StartPpmBlock();
        return ok, PpmBlock(hbuf, hpos, BitField);
      }
      ok, read := StartLzBlock(BitField, hbuf, hpos, prior);
    }

    /** The PPM branch of `ReadTables30`. */
    method StartPpmBlock() returns (ok: bool)
      modifies this`UnpBlockType, this`PpmStarts, this`PPMEscChar
      ensures UnpBlockType == BlockPpm
      ensures if old(PpmStarts) == [] then !ok && PpmStarts == []
              else ok == old(PpmStarts)[0].ok && PpmStarts == old(PpmStarts)[1..]
    {
      UnpBlockType := BlockPpm;
      ok := DecodeInit();
    }

    /** The LZ branch of `ReadTables30`: the low-distance state is reset
        before the tables are read. */
    method StartLzBlock(BitField: nat, ghost hbuf: seq<byte>, ghost hpos: nat, ghost prior: seq<nat>)
      returns (ok: bool, ghost read: TableRead)
      requires Shape() && InputValid() && TablesValid() && BitField < 0x8000 && prior == UnpOldTable[..]
      requires hbuf == Inp.InBuf[..] && hpos == Inp.Position() && BitField == Bits16(hbuf, hpos)
      modifies Inp, Inp.InBuf, this`ReadTop, this`ReadBorder, this`Packed
      modifies this`UnpBlockType, this`PrevLowDist, this`LowDistRepCount
      modifies UnpOldTable, this`LD, this`DD, this`LDD, this`RD, this`BD, this`TablesRead3
      ensures InputValid() && TablesValid()
      ensures read.LzBlock? && read == LzBlock(hbuf, hpos, BitField, hpos + 2, read.n, read.codes, read.fields)
      ensures UnpBlockType == BlockLz && PrevLowDist == 0 && LowDistRepCount == 0
      ensures LzTablesRead(read, OldTableFor(read, prior), ok, old(TableState()))
    {
      UnpBlockType := BlockLz;
      PrevLowDist, LowDistRepCount := 0, 0;
      ok, read := ReadLzBlock(BitField, hbuf, hpos, prior);
    }

    /** The previous table an LZ block is described against: the old one, or
        zeros when the header clears it. */
    ghost function OldTableFor(read: TableRead, previous: seq<nat>): seq<nat>
      requires read.LzBlock?
    {
      if KeepsOldTable(read.header) then previous else Repeat(0, HuffTableSize30)
    }

    /** The start of `ReadTables30`: the refill, the move to the next byte
        boundary and the header there. */
    method ReadHeader() returns (ok: bool, BitField: nat, ghost buf: seq<byte>, ghost pos: nat)
      requires Shape() && InputValid()
      modifies Inp, Inp.InBuf, this`ReadTop, this`ReadBorder, this`Packed
      ensures InputValid()
      ensures ok ==> pos % 8 == 0 && buf == Inp.InBuf[..] && pos == Inp.Position() && BitField == Bits16(buf, pos)
    {
      if Inp.InAddr > ReadTop - 25 {
        ok := UnpReadBuf30();
        if !ok {
          return false, 0, [], 0;
        }
      }
      Inp.AlignToByte();
      buf, pos := Inp.InBuf[..], Inp.Position();
      BitField := Inp.GetBits();
      ok := true;
    }

    /** The LZ branch of `ReadTables30`, `BitField` the block header at
        position `hpos` of the input buffer `hbuf`. */
    method ReadLzBlock(BitField: nat, ghost hbuf: seq<byte>, ghost hpos: nat, ghost prior: seq<nat>)
      returns (ok: bool, ghost read: TableRead)
      requires Shape() && InputValid() && TablesValid() && BitField < 0x8000 && prior == UnpOldTable[..]
      requires hbuf == Inp.InBuf[..] && hpos == Inp.Position() && BitField == Bits16(hbuf, hpos)
      modifies Inp, Inp.InBuf, this`ReadTop, this`ReadBorder, this`Packed
      modifies UnpOldTable, this`LD, this`DD, this`LDD, this`RD, this`BD, this`TablesRead3
      ensures InputValid() && TablesValid()
      ensures read.LzBlock? && read == LzBlock(hbuf, hpos, BitField, hpos + 2, read.n, read.codes, read.fields)
      ensures LzTablesRead(read, OldTableFor(read, prior), ok, old(TableState()))
    {
      if BitField % 0x8000 < 0x4000 {
        ClearOldTable();
      }
      Inp.AddBits(2);
      ok, read := ReadLzTables(hbuf, hpos, BitField);
    }

    /** What `ReadLzTables` establishes for the block `read` described against
        the previous table `prior`, `ok` its result: the bit-length table is
        the one the tokens describe, each code is what it decodes, and the
        main table is as `MainTableRead` says. */
    ghost predicate LzTablesRead(read: TableRead, prior: seq<nat>, ok: bool, before: Tables)
      reads this`LD, this`DD, this`LDD, this`RD, this`BD, this`TablesRead3, this`ReadTop
      reads Inp, UnpOldTable
    {
      && read.LzBlock?
      && BdComplete(read.buf, read.bdPos, read.n)
      && BD == BdApply(BdTokens(read.buf, read.bdPos, read.n))
      && CodesFrom(BD, read.codes, read.fields)
      && MainTableRead(prior, read.codes, ok, before)
    }

    /** The main table after `codes` were read against `prior`, the tables
        being `before` until then and `ok` the result: when `ok`, the four
        tables and the new previous table are the table the codes describe;
        otherwise the previous table and the four tables are unchanged and
        the description was rejected or the input ran out. `TablesRead3` is
        set by a whole table even when the input was overrun reading it, and
        is unchanged otherwise. */
    ghost predicate MainTableRead(prior: seq<nat>, codes: seq<LengthCode>, ok: bool, before: Tables)
      reads this`LD, this`DD, this`LDD, this`RD, this`TablesRead3, this`ReadTop, Inp, UnpOldTable
    {
      && (ok ==> TableFold(prior, codes) == Some(LD + DD + LDD + RD)
                 && |LD| == NC30 && |DD| == DC30 && |LDD| == LDC30 && |RD| == RC30
                 && UnpOldTable[..] == LD + DD + LDD + RD && TablesRead3)
      && (!ok ==> UnpOldTable[..] == prior
                  && LD == before.ld && DD == before.dd && LDD == before.ldd && RD == before.rd
                  && (if FullTable(prior, codes) then TablesRead3 && ReadTop < Inp.InAddr
                      else TablesRead3 == before.read3)
                  && (TableFold(prior, codes).None? || ReadFails || ReadTop < Inp.InAddr))
    }

    /** The LZ part of `ReadTables30` after the header at `hpos`: the
        bit-length table, then the main table. */
    method ReadLzTables(ghost hbuf: seq<byte>, ghost hpos: nat, ghost header: nat) returns (ok: bool, ghost read: TableRead)
      requires Shape() && InputValid() && TablesValid()
      requires hbuf == Inp.InBuf[..] && Inp.Position() == hpos + 2
      modifies Inp, Inp.InBuf, this`ReadTop, this`ReadBorder, this`Packed
      modifies UnpOldTable, this`LD, this`DD, this`LDD, this`RD, this`BD, this`TablesRead3
      ensures InputValid() && TablesValid()
      ensures read.LzBlock? && read == LzBlock(hbuf, hpos, header, hpos + 2, read.n, read.codes, read.fields)
      ensures LzTablesRead(read, old(UnpOldTable[..]), ok, old(TableState()))
    {
      ghost var prior, before := UnpOldTable[..], TableState();
      ghost var n := ReadBdTable(hbuf, hpos + 2);
      ghost var codes, fields;
      ok, codes, fields := ReadMainTable(prior, before);
      read := LzBlock(hbuf, hpos, header, hpos + 2, n, codes, fields);
    }

    /** The first half of the LZ part of `ReadTables30`: the bit-length
        table `BD`, read from `buf` at `p`. */
    method ReadBdTable(ghost buf: seq<byte>, ghost p: nat) returns (ghost n: nat)
      requires InputValid() && TablesValid()
      requires buf == Inp.InBuf[..] && Inp.Position() == p
      modifies Inp, this`BD
      ensures InputValid() && TablesValid() && Inp.InBuf[..] == buf
      ensures BdComplete(buf, p, n) && BD == BdApply(BdTokens(buf, p, n))
    {
      var BitLength;
      BitLength, n := ReadBitLengths();
      BD := BitLength[..];
    }

    /** The second half of the LZ part of `ReadTables30`: the main table
        described against `UnpOldTable`. A complete main table sets
        `TablesRead3`; unless the input was overrun it is split into the four
        tables and kept as the previous table for the next block. */
    method ReadMainTable(ghost prior: seq<nat>, ghost before: Tables)
      returns (ok: bool, ghost codes: seq<LengthCode>, ghost fields: seq<(nat, nat)>)
      requires Shape() && InputValid() && TablesValid()
      requires prior == UnpOldTable[..] && before == TableState()
      modifies Inp, Inp.InBuf, this`ReadTop, this`ReadBorder, this`Packed
      modifies UnpOldTable, this`LD, this`DD, this`LDD, this`RD, this`TablesRead3
      ensures InputValid() && TablesValid()
      ensures CodesFrom(BD, codes, fields) && MainTableRead(prior, codes, ok, before)
    {
      var Table := new nat[HuffTableSize30](_ => 0);
      ok, codes, fields := ReadLengthTable(Table);
      if !ok {
        return;
      }
      TablesRead3 := true;
      if Inp.InAddr > ReadTop {
        return false, codes, fields;
      }
      SetTables(Table);
    }

    /** `MakeDecodeTables` for the four main tables and the copy into
        `UnpOldTable`. */
    method SetTables(Table: array<nat>)
      requires Shape() && Table.Length == HuffTableSize30 && Table != UnpOldTable
      modifies UnpOldTable, this`LD, this`DD, this`LDD, this`RD
      ensures LD + DD + LDD + RD == Table[..] == UnpOldTable[..]
      ensures |LD| == NC30 && |DD| == DC30 && |LDD| == LDC30 && |RD| == RC30
    {
      LD, DD := Table[..NC30], Table[NC30..NC30 + DC30];
      LDD, RD := Table[NC30 + DC30..NC30 + DC30 + LDC30], Table[NC30 + DC30 + LDC30..];
      assert LD + DD + LDD + RD == Table[..];
      forall i | 0 <= i < HuffTableSize30 {
        UnpOldTable[i] := Table[i];
      }
    }

    /** `memset(UnpOldTable, 0, …)`. */
    method ClearOldTable()
      requires UnpOldTable.Length == HuffTableSize30
      modifies UnpOldTable
      ensures UnpOldTable[..] == Repeat(0, HuffTableSize30)
    {
      forall i | 0 <= i < HuffTableSize30 {
        UnpOldTable[i] := 0;
      }
    }

    /** A run of `count` copies of `x` from `I` on, none past the end of the
        array: the zero runs of both length tables and the repeat runs of the
        main one. */
    method FillRun(a: array<nat>, I: nat, count: nat, x: nat) returns (I': nat)
      requires I < a.Length
      modifies a
      ensures I' == I + Min(count, a.Length - I)
      ensures a[..I'] == old(a[..I]) + Repeat(x, I' - I)
      ensures a[I'..] == old(a[I'..])
    {
      var N: nat := count;
      I' := I;
      ghost var n := Min(count, a.Length - I);
      while N > 0 && I' < a.Length
        invariant I <= I' <= a.Length && N + (I' - I) == count
        invariant a[..I'] == old(a[..I]) + Repeat(x, I' - I)
        invariant forall k :: I' <= k < a.Length ==> a[k] == old(a[k])
      {
        a[I'] := x;
        I', N := I' + 1, N - 1;
      }
      assert I' - I == n;
      assert a[I'..] == old(a[I'..]);
    }

    // -------------------------------------------------------------------------
    // The window and the distance cache.
    // -------------------------------------------------------------------------

    /** `CopyString`: copies an LZ match into the window at `UnpPtr`. */
    method CopyString(Length: nat, Distance: nat)
      requires Shape() && PositionsValid()
      modifies Window, this`UnpPtr
      ensures PositionsValid()
      ensures Window[..] == CopyWindow(old(Window[..]), old(UnpPtr), Length, Distance)
      ensures UnpPtr == Advance(old(UnpPtr), Length, Window.Length)
    {
      var n: nat := Length;
      ghost var N, p0 := Window.Length, UnpPtr;
      ModUnique(p0, N, 0, p0);
      while n > 0
        invariant n <= Length && UnpPtr < N
        invariant CopyWindow(Window[..], UnpPtr, n, Distance) == CopyWindow(old(Window[..]), p0, Length, Distance)
        invariant UnpPtr == (p0 + (Length - n)) % N
      {
        ghost var k := p0 + (Length - n);
        ModNext(k, N);
        Window[UnpPtr] := Window[(UnpPtr - Distance) % Window.Length];
        UnpPtr := (UnpPtr + 1) % Window.Length;
        assert UnpPtr == (k + 1) % N;
        n := n - 1;
      }
    }

    /** `InsertOldDist`. */
    method InsertOldDist(Distance: nat)
      requires Shape()
      modifies OldDist
      ensures OldDist[..] == InsertOld(old(OldDist[..]), Distance)
    {
      OldDist[3] := OldDist[2];
      OldDist[2] := OldDist[1];
      OldDist[1] := OldDist[0];
      OldDist[0] := Distance;
    }

    /** Symbols 259 .. 262: cached distance `n` is taken and moved to the
        front of the cache. */
    method MoveOldDist(n: nat) returns (Distance: nat)
      requires Shape() && n < 4
      modifies OldDist
      ensures Distance == old(OldDist[n])
      ensures OldDist[..] == MoveToFront(old(OldDist[..]), n)
    {
      Distance := OldDist[n];
      var I := n;
      while I > 0
        invariant I <= n
        invariant forall k :: 0 <= k < 4 ==>
                    OldDist[k] == (if I < k <= n then old(OldDist[k - 1]) else old(OldDist[k]))
      {
        OldDist[I] := OldDist[I - 1];
        I := I - 1;
      }
      OldDist[0] := Distance;
      MoveToFrontIsRotation(old(OldDist[..]), n);
    }

    /** The first part of `Unpack29`: fills the 60 distance slots, slot by
        slot, bit length by bit length. */
    method InitDistanceSlots()
      requires Shape()
      modifies DDecode, DBits
      ensures SlotsReady()
      ensures forall s :: DC30 <= s < DC ==> DDecode[s] == old(DDecode[s]) && DBits[s] == old(DBits[s])
    {
      var Dist: nat, BitLength: nat, Slot: nat := 0, 0, 0;
      var I := 0;
      while I < |DBitLengthCounts|
        invariant I <= |DBitLengthCounts| && BitLength == I
        invariant Slot == SlotsBefore(I) && Dist == SlotBase(Slot)
        invariant forall s :: 0 <= s < Slot ==> DDecode[s] == SlotBase(s) && DBits[s] == SlotBits(s)
        invariant forall s :: Slot <= s < DC ==> DDecode[s] == old(DDecode[s]) && DBits[s] == old(DBits[s])
      {
        Slot, Dist := FillSlotGroup(BitLength, Slot, Dist);
        SlotsBeforeStep(I);
        I, BitLength := I + 1, BitLength + 1;
      }
    }

    /** The inner loop of the slot filling: the slots with `BitLength` extra
        bits, from `Slot` on. */
    method FillSlotGroup(BitLength: nat, Slot: nat, Dist: nat) returns (Slot': nat, Dist': nat)
      requires Shape() && BitLength < |DBitLengthCounts|
      requires Slot == SlotsBefore(BitLength) && Dist == SlotBase(Slot)
      modifies DDecode, DBits
      ensures Slot' == Slot + DBitLengthCounts[BitLength] && Slot' <= DC30 && Dist' == SlotBase(Slot')
      ensures forall s :: Slot <= s < Slot' ==> DDecode[s] == SlotBase(s) && DBits[s] == SlotBits(s)
      ensures forall s :: 0 <= s < DC && !(Slot <= s < Slot') ==>
                DDecode[s] == old(DDecode[s]) && DBits[s] == old(DBits[s])
    {
      Slot', Dist' := Slot, Dist;
      var J := 0;
      while J < DBitLengthCounts[BitLength]
        invariant J <= DBitLengthCounts[BitLength]
        invariant Slot' == Slot + J && Slot' <= DC30
        invariant Dist' == SlotBase(Slot')
        invariant forall s :: Slot <= s < Slot' ==> DDecode[s] == SlotBase(s) && DBits[s] == SlotBits(s)
        invariant forall s :: 0 <= s < DC && !(Slot <= s < Slot') ==>
                    DDecode[s] == old(DDecode[s]) && DBits[s] == old(DBits[s])
      {
        SlotNext(BitLength, J, Slot', Dist');
        SetSlot(Slot', Dist', BitLength);
        J, Slot', Dist' := J + 1, Slot' + 1, Dist' + Pow2(BitLength);
      }
      SlotsBeforeStep(BitLength);
    }

    /** Slot `Slot` starts at `Dist` and has `BitLength` extra bits. */
    method SetSlot(Slot: nat, Dist: nat, BitLength: nat)
      requires Shape() && Slot < DC30
      modifies DDecode, DBits
      ensures DDecode[Slot] == Dist && DBits[Slot] == BitLength
      ensures forall s :: 0 <= s < DC && s != Slot ==> DDecode[s] == old(DDecode[s]) && DBits[s] == old(DBits[s])
    {
      DDecode[Slot] := Dist;
      DBits[Slot] := BitLength;
    }

    // -------------------------------------------------------------------------
    // Output.
    // -------------------------------------------------------------------------

    /** What a flush reads: the window, the decode position and the filter
        executor. */
    function Env(): FlushEnv
      reads this`UnpPtr, Window
    {
      FlushEnv(Window[..], UnpPtr, Execute)
    }

    /** `UnpWriteArea`: writes the window from `StartPtr` up to `EndPtr`. */
    method UnpWriteArea(StartPtr: nat, EndPtr: nat)
      requires StartPtr < Window.Length && EndPtr < Window.Length
      modifies this`Output, this`WrittenFileSize
      ensures Output == old(Output) + Area(Window[..], StartPtr, EndPtr)
      ensures WrittenFileSize == old(WrittenFileSize) + |Area(Window[..], StartPtr, EndPtr)|
    {
      var a := if EndPtr < StartPtr then Window[StartPtr..] + Window[..EndPtr] else Window[StartPtr..EndPtr];
      Output := Output + a;
      WrittenFileSize := WrittenFileSize + |a|;
    }

    /** The state of the loop of `UnpWriteBuf30` at entry `I` with the
        given `WrittenBorder`. */
    ghost function CursorAt(I: nat, WrittenBorder: nat): Cursor
      reads this`PrgStack, this`Output, this`WrittenFileSize
    {
      Cursor(PrgStack, I, WrittenBorder, Output, WrittenFileSize)
    }

    /** One pass of the loop of `UnpWriteBuf30` over entry `I`: the next
        entry to look at and `WrittenBorder` after it, or `stop` when the loop
        stops short. `WriteSize` is `(UnpPtr - WrittenBorder) & MaxWinMask`
        throughout, so it is recomputed rather than carried. */
    method FlushEntry(I: nat, WrittenBorder: nat) returns (next: nat, border: nat, stop: bool)
      requires I < |PrgStack| && CursorValid(Env(), CursorAt(I, WrittenBorder))
      modifies this`PrgStack, this`Output, this`WrittenFileSize
      ensures var s := FlushStep(Env(), old(CursorAt(I, WrittenBorder)));
              if stop then s.Done? && s.r == Flushed(PrgStack, Output, WrittenFileSize, border)
              else s.Next? && s.c == CursorAt(next, border)
    {
      var N := Window.Length;
      var WriteSize := (UnpPtr - WrittenBorder) % N;
      next, border, stop := I + 1, WrittenBorder, false;
      var flt := PrgStack[I];
      if flt.None? {
        return;
      }
      var f := flt.value;
      if f.nextWindow {
        PrgStack := PrgStack[I := Some(f.(nextWindow := false))];
        return;
      }
      if (f.blockStart - border) % N < WriteSize {
        next, border, stop := FlushBlock(I, f, border);
      }
    }

    /** The pass of `FlushEntry` over a filter whose block starts in the
        part of the window to write: the window up to the block is written,
        and the block is filtered when it is there in full; otherwise the
        loop stops short and the deferred filters wait no longer. */
    method FlushBlock(I: nat, f: StackFilter, WrittenBorder: nat) returns (next: nat, border: nat, stop: bool)
      requires I < |PrgStack| && CursorValid(Env(), CursorAt(I, WrittenBorder))
      requires PrgStack[I] == Some(f) && !f.nextWindow
      requires (f.blockStart - WrittenBorder) % Window.Length < (UnpPtr - WrittenBorder) % Window.Length
      modifies this`PrgStack, this`Output, this`WrittenFileSize
      ensures var s := FlushStep(Env(), old(CursorAt(I, WrittenBorder)));
              if stop then s.Done? && s.r == Flushed(PrgStack, Output, WrittenFileSize, border)
              else s.Next? && s.c == CursorAt(next, border)
    {
      ghost var c := CursorAt(I, WrittenBorder);
      var BlockStart := f.blockStart;
      if WrittenBorder != BlockStart {
        UnpWriteArea(WrittenBorder, BlockStart);
      }
      assert CursorAt(I, BlockStart) == WriteTo(Env(), c, BlockStart);
      next, border, stop := EndBlock(I, f);
    }

    /** The rest of one pass over entry `I`, whose block starts at the
        border: a complete block is filtered and written, an incomplete one
        stops the loop, deferring the filters left to the next window. */
    method EndBlock(I: nat, f: StackFilter) returns (next: nat, border: nat, stop: bool)
      requires I < |PrgStack| && PrgStack[I] == Some(f) && CursorValid(Env(), CursorAt(I, f.blockStart))
      modifies this`PrgStack, this`Output, this`WrittenFileSize
      ensures stop <==> (UnpPtr - f.blockStart) % Window.Length < f.blockLength
      ensures !stop ==> CursorAt(next, border) == RunEntry(Env(), old(CursorAt(I, f.blockStart)), f)
      ensures stop ==> Flushed(PrgStack, Output, WrittenFileSize, border)
                       == Flushed(ClearNextWindow(old(PrgStack), I), old(Output), old(WrittenFileSize), f.blockStart)
    {
      var WriteSize := (UnpPtr - f.blockStart) % Window.Length;
      if f.blockLength <= WriteSize {
        var last := RunFilters(I, f);
        next, border, stop := last + 1, (f.blockStart + f.blockLength) % Window.Length, false;
      } else {
        ClearDeferred(I);
        next, border, stop := I + 1, f.blockStart, true;
      }
    }

    /** The filter at entry `I`, whose block starts at the border and is
        complete, runs on it, then the filters chained after it; their output
        is written. */
    method RunFilters(I: nat, f: StackFilter) returns (last: nat)
      requires I < |PrgStack| && PrgStack[I] == Some(f) && CursorValid(Env(), CursorAt(I, f.blockStart))
      requires f.blockLength < Window.Length
      modifies this`PrgStack, this`Output, this`WrittenFileSize
      ensures CursorAt(last + 1, (f.blockStart + f.blockLength) % Window.Length)
              == RunEntry(Env(), old(CursorAt(I, f.blockStart)), f)
    {
      var FilteredData := RunFilter(Env(), f, WrittenFileSize, BlockMemory(Window[..], f.blockStart, f.blockLength));
      PrgStack := PrgStack[I := None];
      last, FilteredData := ChainFilters(I, f.blockStart, FilteredData);
      Output := Output + FilteredData;
      WrittenFileSize := WrittenFileSize + |FilteredData|;
    }

    /** `UnpWriteBuf30`: the flush of the window through the pending filters,
        as `Flush` describes it. */
    method UnpWriteBuf30()
      requires Valid()
      modifies this`PrgStack, this`Output, this`WrittenFileSize, this`WrPtr
      ensures Valid()
      ensures var r := Flush(Env(), old(PrgStack), old(WrPtr), old(Output), old(WrittenFileSize));
              PrgStack == r.stack && Output == r.out && WrittenFileSize == r.written && WrPtr == r.wrPtr
    {
      FlushLoop();
    }

    /** The loop of `UnpWriteBuf30` and its final write. */
    method FlushLoop()
      requires CursorValid(Env(), CursorAt(0, WrPtr))
      modifies this`PrgStack, this`Output, this`WrittenFileSize, this`WrPtr
      ensures CursorValid(Env(), CursorAt(0, WrPtr))
      ensures var r := Flush(Env(), old(PrgStack), old(WrPtr), old(Output), old(WrittenFileSize));
              PrgStack == r.stack && Output == r.out && WrittenFileSize == r.written && WrPtr == r.wrPtr
    {
      ghost var env := Env();
      ghost var start := CursorAt(0, WrPtr);
      var WrittenBorder: nat := WrPtr;
      var I: nat := 0;
      while I < |PrgStack|
        invariant env == Env()
        invariant CursorValid(env, CursorAt(I, WrittenBorder))
        invariant FlushFrom(env, CursorAt(I, WrittenBorder)) == FlushFrom(env, start)
        decreases |PrgStack| - I
      {
        var stop;
        I, WrittenBorder, stop := FlushEntry(I, WrittenBorder);
        if stop {
          WrPtr := WrittenBorder;
          return;
        }
      }
      UnpWriteArea(WrittenBorder, UnpPtr);
      WrPtr := UnpPtr;
    }

    /** The chain loop of `UnpWriteBuf30`: the filters after entry `I` that
        apply to the same block run on `data` in turn. */
    method ChainFilters(I: nat, BlockStart: nat, data: seq<byte>) returns (last: nat, FilteredData: seq<byte>)
      requires I < |PrgStack|
      modifies this`PrgStack
      ensures var ch := Chain(Env(), old(PrgStack), I, BlockStart, data, WrittenFileSize);
              PrgStack == ch.stack && last == ch.last && FilteredData == ch.data
    {
      var env := Env();
      ghost var s0 := PrgStack;
      last, FilteredData := I, data;
      while last + 1 < |PrgStack|
        invariant I <= last < |PrgStack| == |s0|
        invariant Chain(env, PrgStack, last, BlockStart, FilteredData, WrittenFileSize)
                  == Chain(env, s0, I, BlockStart, data, WrittenFileSize)
        decreases |PrgStack| - last
      {
        var NextFilter := PrgStack[last + 1];
        if NextFilter.None? || NextFilter.value.blockStart != BlockStart
           || NextFilter.value.blockLength != |FilteredData| || NextFilter.value.nextWindow {
          break;
        }
        FilteredData := RunFilter(env, NextFilter.value, WrittenFileSize, FilteredData);
        last := last + 1;
        PrgStack := PrgStack[last := None];
      }
    }

    /** The "stop short" exit of `UnpWriteBuf30`: entries from `I` on lose
        their deferral. */
    method ClearDeferred(I: nat)
      modifies this`PrgStack
      ensures PrgStack == ClearNextWindow(old(PrgStack), I)
    {
      ghost var s1 := PrgStack;
      var J := I;
      while J < |PrgStack|
        invariant |PrgStack| == |s1|
        invariant J >= |PrgStack| ==> PrgStack == ClearNextWindow(s1, I)
        invariant J < |PrgStack| ==> PrgStack == ClearNextWindow(s1, I)[..J] + s1[J..]
      {
        if PrgStack[J].Some? && PrgStack[J].value.nextWindow {
          PrgStack := PrgStack[J := Some(PrgStack[J].value.(nextWindow := false))];
        }
        J := J + 1;
      }
    }

    // -------------------------------------------------------------------------
    // The filter stack and registry.
    // -------------------------------------------------------------------------

    /** `InitFilters30`: drops the pending filters and, unless the archive
        is solid, the registry too. */
    method InitFilters30(Solid: bool)
      requires FiltersValid()
      modifies this`OldFilterLengths, this`LastFilter, this`Filters30, this`PrgStack
      ensures FiltersValid()
      ensures PrgStack == []
      ensures !Solid ==> OldFilterLengths == [] && LastFilter == 0 && Filters30 == []
      ensures Solid ==> OldFilterLengths == old(OldFilterLengths) && LastFilter == old(LastFilter)
                        && Filters30 == old(Filters30)
    {
      if !Solid {
        OldFilterLengths := [];
        LastFilter := 0;
        Filters30 := [];
      }
      PrgStack := [];
    }

    /** The compaction loop of `AddVMCode`: returns the number of null
        entries, which the loop has moved to the end. */
    method CompactStack() returns (EmptyCount: nat)
      modifies this`PrgStack
      ensures PrgStack == Compact(old(PrgStack)) && EmptyCount == NullCount(old(PrgStack))
    {
      ghost var s := PrgStack;
      EmptyCount := 0;
      var I := 0;
      while I < |PrgStack|
        invariant I <= |PrgStack| == |s|
        invariant EmptyCount == NullCount(s[..I]) && EmptyCount <= I
        invariant forall k :: 0 <= k < I - EmptyCount ==> PrgStack[k] == Some(NonNull(s[..I])[k])
        invariant forall k :: I - EmptyCount <= k < I ==> PrgStack[k].None?
        invariant forall k :: I <= k < |s| ==> PrgStack[k] == s[k]
      {
        assert s[..I + 1][..I] == s[..I];
        assert NonNull(s[..I + 1]) == NonNull(s[..I]) + (if s[I].Some? then [s[I].value] else []);
        PrgStack := PrgStack[I - EmptyCount := PrgStack[I]];
        if PrgStack[I].None? {
          EmptyCount := EmptyCount + 1;
        }
        if EmptyCount > 0 {
          PrgStack := PrgStack[I := None];
        }
        I := I + 1;
      }
      assert s[..I] == s;
      assert PrgStack == Compact(s);
    }

    // -------------------------------------------------------------------------
    // The LZ symbols of the main loop.
    // -------------------------------------------------------------------------

    /** The `bits` raw bits at the current position; nothing is read when
        `bits` is 0. */
    method ReadExtra(bits: nat) returns (extra: nat)
      requires Inp.Valid() && bits <= 16
      modifies Inp
      ensures Inp.Valid()
      ensures extra == ExtraAt(old(Inp.InBuf[..]), old(Inp.Position()), bits)
      ensures Inp.Position() == old(Inp.Position()) + bits
    {
      if bits > 0 {
        extra := Shr(Inp.GetBits(), 16 - bits);
        Inp.AddBits(bits);
      } else {
        Bits16Bound(Inp.InBuf[..], Inp.Position());
        extra := 0;
      }
    }

    /** The low part of a long distance from slot 10 on: while the repeat
        counter runs it is the previous low part; otherwise the symbol of
        the low-distance table, where 16 starts a new run of the previous
        low part. */
    method ReadLowDist() returns (add: nat)
      requires Inp.Valid() && |LDD| <= LDC30 && PrevLowDist < 16
      modifies Inp, this`LowDistRepCount, this`PrevLowDist
      ensures Inp.Valid() && PrevLowDist < 16
      ensures var sym := SymbolAt(Decode, LDD, old(Inp.InBuf[..]), old(Inp.Position()));
              var low := old(LowDist(LowDistRepCount, PrevLowDist));
              && (add, LowDist(LowDistRepCount, PrevLowDist)) == LowDistStep(low, sym.symbol)
              && Inp.Position() == old(Inp.Position()) + (if ReadsLowDistSymbol(low) then sym.bits else 0)
    {
      if LowDistRepCount > 0 {
        LowDistRepCount := LowDistRepCount - 1;
        add := PrevLowDist;
      } else {
        var LowDistNumber := DecodeNumber(LDD);
        if LowDistNumber == 16 {
          LowDistRepCount := LowDistRepLimit - 1;
          add := PrevLowDist;
        } else {
          add := LowDistNumber;
          PrevLowDist := LowDistNumber;
        }
      }
    }

    /** The distance of a long match, as `LongDistanceAt` describes it. */
    method ReadLongDistance(ghost buf: seq<byte>, ghost pos: nat, ghost low: LowDist)
        returns (Distance: nat, ghost read: DistanceRead)
      requires Inp.Valid() && SlotsReady() && |DD| <= DC30 && |LDD| <= LDC30 && PrevLowDist < 16
      requires Inp.InBuf[..] == buf && Inp.Position() == pos && LowDist(LowDistRepCount, PrevLowDist) == low
      modifies Inp, this`LowDistRepCount, this`PrevLowDist
      ensures Inp.Valid() && PrevLowDist < 16
      ensures read == LongDistanceAt(Decode, DD, LDD, buf, pos, low)
      ensures Distance == read.distance && LowDist(LowDistRepCount, PrevLowDist) == read.low
              && Inp.Position() == read.pos
    {
      ghost var s := SymbolAt(Decode, DD, buf, pos);
      assert LongDistanceAt(Decode, DD, LDD, buf, pos, low) == SlotDistanceAt(Decode, LDD, buf, pos + s.bits, s.symbol, low);
      var DistNumber := DecodeNumber(DD);
      assert DistNumber == s.symbol && Inp.Position() == pos + s.bits;
      assert Inp.InBuf[..] == buf && LowDist(LowDistRepCount, PrevLowDist) == low;
      Distance, read := ReadSlotDistance(DistNumber);
    }

    /** The extra bits of distance slot `DistNumber`, as `SlotDistanceAt`
        describes them. */
    method ReadSlotDistance(DistNumber: nat) returns (Distance: nat, ghost read: DistanceRead)
      requires Inp.Valid() && SlotsReady() && DistNumber < DC30 && |LDD| <= LDC30 && PrevLowDist < 16
      modifies Inp, this`LowDistRepCount, this`PrevLowDist
      ensures Inp.Valid() && PrevLowDist < 16
      ensures read == SlotDistanceAt(Decode, LDD, old(Inp.InBuf[..]), old(Inp.Position()), DistNumber,
                                     old(LowDist(LowDistRepCount, PrevLowDist)))
      ensures Distance == read.distance && LowDist(LowDistRepCount, PrevLowDist) == read.low
              && Inp.Position() == read.pos
    {
      read := SlotDistanceAt(Decode, LDD, Inp.InBuf[..], Inp.Position(), DistNumber, LowDist(LowDistRepCount, PrevLowDist));
      Distance := DDecode[DistNumber] + 1;
      var Bits := DBits[DistNumber];
      if Bits > 0 {
        if DistNumber > 9 {
          var high := ReadExtra(Bits - 4);
          Distance := Distance + high * 16;
          var add := ReadLowDist();
          Distance := Distance + add;
        } else {
          var extra := ReadExtra(Bits);
          Distance := Distance + extra;
        }
      }
    }

    /** Symbols 271 .. 298 (`LongMatch(k)`): the match `ReadLongMatch`
        reads; its distance enters the cache and the match is copied. */
    method LongMatch(k: nat) returns (Length: nat, Distance: nat, ghost read: DistanceRead)
      requires Valid() && SlotsReady() && k < |LDecode|
      modifies Inp, OldDist, Window, this`UnpPtr, this`LastLength, this`LowDistRepCount, this`PrevLowDist
      ensures Valid()
      ensures read == LongDistanceAt(Decode, DD, LDD, old(Inp.InBuf[..]), old(Inp.Position()) + LBits[k],
                                     old(LowDist(LowDistRepCount, PrevLowDist)))
      ensures Distance == read.distance && LowDist(LowDistRepCount, PrevLowDist) == read.low
              && Inp.Position() == read.pos
      ensures Length == LongMatchLength(k, ExtraAt(old(Inp.InBuf[..]), old(Inp.Position()), LBits[k]), Distance)
      ensures OldDist[..] == InsertOld(old(OldDist[..]), Distance) && LastLength == Length
      ensures Window[..] == CopyWindow(old(Window[..]), old(UnpPtr), Length, Distance)
              && UnpPtr == Advance(old(UnpPtr), Length, Window.Length)
    {
      ghost var w := Window[..];
      Length, Distance, read := TakeLongMatch(k);
      assert Window[..] == w && UnpPtr == old(UnpPtr);
      CopyString(Length, Distance);
    }

    /** What `LongMatch(k)` reads and records before it copies: the match
        `ReadLongMatch` reads, its distance entered in the cache. */
    method TakeLongMatch(k: nat) returns (Length: nat, Distance: nat, ghost read: DistanceRead)
      requires Shape() && Inp.Valid() && TablesValid() && SlotsReady() && k < |LDecode|
      modifies Inp, OldDist, this`LastLength, this`LowDistRepCount, this`PrevLowDist
      ensures Inp.Valid() && TablesValid()
      ensures read == LongDistanceAt(Decode, DD, LDD, old(Inp.InBuf[..]), old(Inp.Position()) + LBits[k],
                                     old(LowDist(LowDistRepCount, PrevLowDist)))
      ensures Distance == read.distance && LowDist(LowDistRepCount, PrevLowDist) == read.low
              && Inp.Position() == read.pos
      ensures Length == LongMatchLength(k, ExtraAt(old(Inp.InBuf[..]), old(Inp.Position()), LBits[k]), Distance)
      ensures OldDist[..] == InsertOld(old(OldDist[..]), Distance) && LastLength == Length
    {
      Length, Distance, read := ReadLongMatch(k);
      InsertOldDist(Distance);
      LastLength := Length;
    }

    /** The length and distance of a long match: the length slot's base
        plus 3 and its extra bits, then the distance; far distances lengthen
        the match. */
    method ReadLongMatch(k: nat) returns (Length: nat, Distance: nat, ghost read: DistanceRead)
      requires Inp.Valid() && SlotsReady() && |DD| <= DC30 && |LDD| <= LDC30 && PrevLowDist < 16
      requires k < |LDecode|
      modifies Inp, this`LowDistRepCount, this`PrevLowDist
      ensures Inp.Valid() && PrevLowDist < 16
      ensures read == LongDistanceAt(Decode, DD, LDD, old(Inp.InBuf[..]), old(Inp.Position()) + LBits[k],
                                     old(LowDist(LowDistRepCount, PrevLowDist)))
      ensures Distance == read.distance && LowDist(LowDistRepCount, PrevLowDist) == read.low
              && Inp.Position() == read.pos
      ensures Length == LongMatchLength(k, ExtraAt(old(Inp.InBuf[..]), old(Inp.Position()), LBits[k]), Distance)
    {
      ghost var buf, pos := Inp.InBuf[..], Inp.Position();
      ghost var low := LowDist(LowDistRepCount, PrevLowDist);
      LengthSlotBits(k);
      var bits := LBits[k];
      var extra := ReadExtra(bits);
      assert extra == ExtraAt(buf, pos, bits) && Inp.Position() == pos + bits;
      assert Inp.InBuf[..] == buf && LowDist(LowDistRepCount, PrevLowDist) == low;
      Length := LDecode[k] + 3 + extra;
      Distance, read := ReadLongDistance(buf, pos + bits, low);
      if Distance >= 0x2000 {
        Length := Length + 1;
        if Distance >= 0x40000 {
          Length := Length + 1;
        }
      }
    }

    /** Symbols 259 .. 262 (`RepeatCached(n)`): cached distance `n` moves
        to the front and is used with the length `RepeatLengthAt` reads. */
    method RepeatCached(n: nat) returns (Length: nat, Distance: nat)
      requires Valid() && n < 4
      modifies Inp, OldDist, Window, this`UnpPtr, this`LastLength
      ensures Valid()
      ensures Distance == old(OldDist[n]) && OldDist[..] == MoveToFront(old(OldDist[..]), n)
      ensures Length == RepeatLengthAt(Decode, RD, old(Inp.InBuf[..]), old(Inp.Position())).0
      ensures Inp.Position() == RepeatLengthAt(Decode, RD, old(Inp.InBuf[..]), old(Inp.Position())).1
      ensures LastLength == Length
      ensures Window[..] == CopyWindow(old(Window[..]), old(UnpPtr), Length, Distance)
              && UnpPtr == Advance(old(UnpPtr), Length, Window.Length)
    {
      ghost var w := Window[..];
      Length, Distance := ReadRepeat(n);
      assert Window[..] == w && UnpPtr == old(UnpPtr);
      CopyString(Length, Distance);
    }

    /** What `RepeatCached(n)` reads and records before it copies: the
        distance it moves to the front and the length. */
    method ReadRepeat(n: nat) returns (Length: nat, Distance: nat)
      requires Shape() && Inp.Valid() && |RD| <= RC30 && n < 4
      modifies Inp, OldDist, this`LastLength
      ensures Inp.Valid()
      ensures Distance == old(OldDist[n]) && OldDist[..] == MoveToFront(old(OldDist[..]), n)
      ensures Length == RepeatLengthAt(Decode, RD, old(Inp.InBuf[..]), old(Inp.Position())).0
      ensures Inp.Position() == RepeatLengthAt(Decode, RD, old(Inp.InBuf[..]), old(Inp.Position())).1
      ensures LastLength == Length
    {
      Distance := MoveOldDist(n);
      Length := ReadRepeatLength();
      LastLength := Length;
    }

    /** The length of a repeat of a cached distance, as `RepeatLengthAt`
        describes it. */
    method ReadRepeatLength() returns (Length: nat)
      requires Inp.Valid() && |RD| <= RC30
      modifies Inp
      ensures Inp.Valid()
      ensures Length == RepeatLengthAt(Decode, RD, old(Inp.InBuf[..]), old(Inp.Position())).0
      ensures Inp.Position() == RepeatLengthAt(Decode, RD, old(Inp.InBuf[..]), old(Inp.Position())).1
    {
      ghost var buf, pos := Inp.InBuf[..], Inp.Position();
      ghost var s := SymbolAt(Decode, RD, buf, pos);
      var LengthNumber := DecodeNumber(RD);
      assert LengthNumber == s.symbol && Inp.Position() == pos + s.bits;
      LengthSlotBits(LengthNumber);
      var bits := LBits[LengthNumber];
      var extra := ReadExtra(bits);
      assert extra == ExtraAt(buf, pos + s.bits, bits);
      Length := LDecode[LengthNumber] + 2 + extra;
    }

    /** Symbols 263 .. 270 (`ShortMatch(k)`): a match of length 2 at a short
        distance, which enters the cache. */
    method ShortMatch(k: nat) returns (Distance: nat)
      requires Valid() && k < |SDDecode|
      modifies Inp, OldDist, Window, this`UnpPtr, this`LastLength
      ensures Valid()
      ensures Distance == ShortDistance(k, ExtraAt(old(Inp.InBuf[..]), old(Inp.Position()), SDBits[k]))
      ensures Inp.Position() == old(Inp.Position()) + SDBits[k]
      ensures OldDist[..] == InsertOld(old(OldDist[..]), Distance) && LastLength == 2
      ensures Window[..] == CopyWindow(old(Window[..]), old(UnpPtr), 2, Distance)
              && UnpPtr == Advance(old(UnpPtr), 2, Window.Length)
    {
      ghost var w := Window[..];
      ShortDistanceSlotsTile(k);
      Distance := SDDecode[k] + 1;
      var extra := ReadExtra(SDBits[k]);
      Distance := Distance + extra;
      InsertOldDist(Distance);
      LastLength := 2;
      assert Window[..] == w && UnpPtr == old(UnpPtr);
      CopyString(2, Distance);
      assert Window[..] == CopyWindow(w, old(UnpPtr), 2, Distance);
    }

    /** Symbol 258: the last match again, at the most recent distance;
        nothing happens before the first match. */
    method RepeatLast()
      requires Valid()
      modifies Window, this`UnpPtr
      ensures Valid()
      ensures LastLength == 0 ==> Window[..] == old(Window[..]) && UnpPtr == old(UnpPtr)
      ensures LastLength != 0 ==>
                && Window[..] == CopyWindow(old(Window[..]), old(UnpPtr), LastLength, OldDist[0])
                && UnpPtr == Advance(old(UnpPtr), LastLength, Window.Length)
    {
      if LastLength != 0 {
        CopyString(LastLength, OldDist[0]);
      }
    }

    /** `Window[UnpPtr++] = b`, with the wrap the next pass of the loop
        applies to `UnpPtr`. */
    method PutByte(b: byte)
      requires Valid()
      modifies Window, this`UnpPtr
      ensures Valid()
      ensures Window[..] == old(Window[..])[old(UnpPtr) := b]
      ensures UnpPtr == Advance(old(UnpPtr), 1, Window.Length)
    {
      Window[UnpPtr] := b;
      UnpPtr := (UnpPtr + 1) % Window.Length;
    }

    // -------------------------------------------------------------------------
    // PPM blocks.
    // -------------------------------------------------------------------------

    /** The start of a pass of the PPM loop: the command `PpmCommandOf`
        reads from the PPM stream. Every -1 resets the PPM model and falls
        back to LZ blocks. */
    method ReadPpmCommand() returns (cmd: PpmCommand)
      modifies this`PpmChars, this`PpmCleanUps, this`UnpBlockType
      ensures var r := PpmCommandOf(old(PpmChars), PPMEscChar);
              cmd == r.cmd && PpmChars == Drop(old(PpmChars), r.taken)
      ensures cmd.Corrupt? ==> PpmCleanUps == old(PpmCleanUps) + 1 && UnpBlockType == BlockLz
      ensures !cmd.Corrupt? ==> PpmCleanUps == old(PpmCleanUps) && UnpBlockType == old(UnpBlockType)
    {
      ghost var c := PpmChars;
      var Ch := DecodeChar();
      if Ch == -1 {
        PpmCleanUps := PpmCleanUps + 1;
        UnpBlockType := BlockLz;
        return Corrupt;
      }
      if Ch != PPMEscChar {
        return PpmByte(Ch);
      }
      var NextCh := SafeCharAt(c, 1);
      if NextCh == 0 {
        return NewTables;
      }
      if NextCh == -1 {
        return Corrupt;
      }
      if NextCh == 2 {
        return EndOfFile;
      }
      if NextCh == 3 {
        return PpmFilter;
      }
      if NextCh == 4 {
        cmd := ReadPpmMatch(c);
        return;
      }
      if NextCh == 5 {
        var Length := SafeCharAt(c, 2);
        if Length == -1 {
          return Corrupt;
        }
        return Run(Length + 4);
      }
      return PpmByte(Ch);
    }

    /** The escape followed by 4: three distance bytes, most significant
        first, and a length byte, read until one of them is -1. */
    method ReadPpmMatch(ghost c: seq<PpmChar>) returns (cmd: PpmCommand)
      requires PpmChars == Drop(c, 2)
      modifies this`PpmChars, this`PpmCleanUps, this`UnpBlockType
      ensures var m := FirstMissing(c, 2, 4);
              && (m < 4 ==> cmd == Corrupt && PpmChars == Drop(c, 3 + m)
                            && PpmCleanUps == old(PpmCleanUps) + 1 && UnpBlockType == BlockLz)
              && (m == 4 ==> cmd == Match(CharAt(c, 5) + 32, (CharAt(c, 2) * 256 + CharAt(c, 3)) * 256 + CharAt(c, 4) + 2)
                             && PpmChars == Drop(c, 6)
                             && PpmCleanUps == old(PpmCleanUps) && UnpBlockType == old(UnpBlockType))
    {
      var Distance: nat, Length: nat := 0, 0;
      var Failed := false;
      var I := 0;
      while I < 4 && !Failed
        invariant 0 <= I <= 4 && PpmChars == Drop(c, 2 + I)
        invariant !Failed ==> && Present(c, 2, 2 + I)
                              && PpmCleanUps == old(PpmCleanUps) && UnpBlockType == old(UnpBlockType)
        invariant !Failed ==> Distance == (if I == 0 then 0
                                           else if I == 1 then CharAt(c, 2)
                                           else if I == 2 then CharAt(c, 2) * 256 + CharAt(c, 3)
                                           else (CharAt(c, 2) * 256 + CharAt(c, 3)) * 256 + CharAt(c, 4))
        invariant !Failed && I == 4 ==> Length == CharAt(c, 5)
        invariant Failed ==> && 1 <= I && Present(c, 2, 1 + I) && CharAt(c, 1 + I) == -1
                             && PpmCleanUps == old(PpmCleanUps) + 1 && UnpBlockType == BlockLz
      {
        var Ch := SafeCharAt(c, 2 + I);
        if Ch == -1 {
          Failed := true;
        } else if I == 3 {
          Length := Ch;
        } else {
          Distance := Distance * 256 + Ch;
        }
        I := I + 1;
      }
      if Failed {
        FirstMissingAt(c, 2, I - 1, 4);
        return Corrupt;
      }
      FirstMissingAll(c, 2, 4);
      cmd := Match(Length + 32, Distance + 2);
    }

    /** `ReadVMCodePPM` up to `AddVMCode`: the first byte, the length and
        the code bytes, as `PpmCodeOf` reads them from the PPM stream. Every
        -1 resets the PPM model and falls back to LZ blocks. */
    method ReadPpmCode() returns (ok: bool, FirstByte: nat, VMCode: seq<byte>)
      modifies this`PpmChars, this`PpmCleanUps, this`UnpBlockType
      ensures var r := PpmCodeOf(old(PpmChars));
              && PpmChars == Drop(old(PpmChars), r.taken)
              && (ok <==> r.code.Some?)
              && (ok ==> FirstByte == r.code.value.0 && VMCode == r.code.value.1)
              && (r.corrupt ==> PpmCleanUps == old(PpmCleanUps) + 1 && UnpBlockType == BlockLz)
              && (!r.corrupt ==> PpmCleanUps == old(PpmCleanUps) && UnpBlockType == old(UnpBlockType))
    {
      ghost var c := PpmChars;
      var Length;
      ok, FirstByte, Length := ReadCodeHeader();
      if !ok {
        return false, FirstByte, [];
      }
      ghost var hdr := CodeHeaderSize(FirstByte);
      ok, VMCode := ReadCodeBytes(c, hdr, Length);
      if ok {
        PpmCodeComplete(c, hdr, Length);
      }
    }

    /** The header of filter code in the PPM stream: the first byte and the
        code length. When it is not read whole or the length is 0, `PpmCodeOf`
        gives no code. */
    method ReadCodeHeader() returns (ok: bool, FirstByte: nat, Length: nat)
      modifies this`PpmChars, this`PpmCleanUps, this`UnpBlockType
      ensures var c, r := old(PpmChars), PpmCodeOf(old(PpmChars));
              !ok ==> && r.code.None? && PpmChars == Drop(c, r.taken)
                      && (r.corrupt ==> PpmCleanUps == old(PpmCleanUps) + 1 && UnpBlockType == BlockLz)
                      && (!r.corrupt ==> PpmCleanUps == old(PpmCleanUps) && UnpBlockType == old(UnpBlockType))
      ensures var c, hdr := old(PpmChars), CodeHeaderSize(FirstByte);
              ok ==> && CharAt(c, 0) != -1 && FirstByte == CharAt(c, 0)
                     && FirstMissing(c, 1, hdr - 1) == hdr - 1 && Length > 0
                     && Length == (if hdr == 2 then CharAt(c, 1) + 7
                                   else if hdr == 3 then CharAt(c, 1) * 256 + CharAt(c, 2)
                                   else CharAt(c, 0) % 8 + 1)
                     && PpmChars == Drop(c, hdr)
                     && PpmCleanUps == old(PpmCleanUps) && UnpBlockType == old(UnpBlockType)
    {
      ghost var c := PpmChars;
      var Ch := SafePPMDecodeChar();
      if Ch == -1 {
        return false, 0, 0;
      }
      FirstByte := Ch;
      Length := FirstByte % 8 + 1;
      if Length == 7 {
        var B1 := SafeCharAt(c, 1);
        if B1 == -1 {
          FirstMissingAt(c, 1, 0, 1);
          return false, FirstByte, 0;
        }
        Length := B1 + 7;
      } else if Length == 8 {
        var B1 := SafeCharAt(c, 1);
        if B1 == -1 {
          FirstMissingAt(c, 1, 0, 2);
          return false, FirstByte, 0;
        }
        var B2 := SafeCharAt(c, 2);
        if B2 == -1 {
          FirstMissingAt(c, 1, 1, 2);
          return false, FirstByte, 0;
        }
        Length := B1 * 256 + B2;
      }
      FirstMissingAll(c, 1, CodeHeaderSize(FirstByte) - 1);
      ok := Length != 0;
    }

    /** The `Length` code bytes after a header of `hdr` characters, up to
        the first -1. */
    method ReadCodeBytes(ghost c: seq<PpmChar>, ghost hdr: nat, Length: nat) returns (ok: bool, VMCode: seq<byte>)
      requires PpmChars == Drop(c, hdr) && Length > 0
      modifies this`PpmChars, this`PpmCleanUps, this`UnpBlockType
      ensures var k := FirstMissing(c, hdr, Length);
              && (ok <==> k == Length)
              && (ok ==> && VMCode == Bytes(c, hdr, Length) && PpmChars == Drop(c, hdr + Length)
                         && PpmCleanUps == old(PpmCleanUps) && UnpBlockType == old(UnpBlockType))
              && (!ok ==> && PpmChars == Drop(c, hdr + k + 1)
                          && PpmCleanUps == old(PpmCleanUps) + 1 && UnpBlockType == BlockLz)
    {
      ghost var chars := seq(Length, k requires 0 <= k < Length => CharAt(c, hdr + k));
      var Code := new byte[Length];
      var I := 0;
      while I < Length
        invariant I <= Length
        invariant PpmChars == Drop(c, hdr + I) && Present(c, hdr, hdr + I)
        invariant Code[..I] == chars[..I]
        invariant PpmCleanUps == old(PpmCleanUps) && UnpBlockType == old(UnpBlockType)
      {
        var Ch := SafeCharAt(c, hdr + I);
        if Ch == -1 {
          FirstMissingAt(c, hdr, I, Length);
          return false, [];
        }
        Code[I] := Ch;
        assert Code[..I + 1] == chars[..I + 1];
        I := I + 1;
      }
      FirstMissingAll(c, hdr, Length);
      VMCode := Code[..];
      assert VMCode == chars;
      assert VMCode == Bytes(c, hdr, Length);
      ok := true;
    }

    /** `ReadVMCodePPM`: filter code from the PPM stream, registered with
        `AddVMCode` when it was read whole. */
    method ReadVMCodePPM() returns (ok: bool)
      requires Valid()
      modifies this`PpmChars, this`PpmCleanUps, this`UnpBlockType
      modifies VMCodeInp, VMCodeInp.InBuf, this`Filters30, this`OldFilterLengths, this`LastFilter, this`PrgStack
      ensures Valid()
      ensures var r := PpmCodeOf(old(PpmChars));
              && PpmChars == Drop(old(PpmChars), r.taken)
              && (r.code.None? ==> !ok && FState() == old(FState()))
              && (r.code.Some? ==>
                    var a := AddFilter(ReadData, Prepare, CodeBuffer(r.code.value.1, old(VMCodeInp.InBuf[..])),
                                       r.code.value.0, old(FState()), UnpPtr, WrPtr, Window.Length);
                    ok == a.0 && FState() == a.1)
    {
      var FirstByte, VMCode;
      ok, FirstByte, VMCode := ReadPpmCode();
      if !ok {
        return;
      }
      ok := AddVMCode(FirstByte, VMCode);
    }

    // -------------------------------------------------------------------------
    // Filter code.
    // -------------------------------------------------------------------------

    /** The main decode tables and `TablesRead3`. */
    ghost function TableState(): Tables
      reads this`LD, this`DD, this`LDD, this`RD, this`TablesRead3
    {
      Tables(LD, DD, LDD, RD, TablesRead3)
    }

    /** The filter registry and the pending filters. */
    ghost function FState(): FilterState
      reads this`Filters30, this`OldFilterLengths, this`LastFilter, this`PrgStack
    {
      FilterState(Filters30, OldFilterLengths, LastFilter, PrgStack)
    }

    /** `AddVMCode`: the code goes to the start of the filter code buffer,
        and the registry and the pending filters change as `AddFilter` says
        for that buffer. */
    method AddVMCode(FirstByte: nat, Code: seq<byte>) returns (ok: bool)
      requires Valid()
      modifies VMCodeInp, VMCodeInp.InBuf, this`Filters30, this`OldFilterLengths, this`LastFilter, this`PrgStack
      ensures Valid()
      ensures VMCodeInp.InBuf[..] == CodeBuffer(Code, old(VMCodeInp.InBuf[..]))
      ensures var a := AddFilter(ReadData, Prepare, VMCodeInp.InBuf[..], FirstByte, old(FState()),
                                 UnpPtr, WrPtr, Window.Length);
              ok == a.0 && FState() == a.1
    {
      VMCodeInp.InitBitInput();
      var n := Min(MaxSize, |Code|);
      forall i | 0 <= i < n {
        VMCodeInp.InBuf[i] := Code[i];
      }
      assert VMCodeInp.InBuf[..] == CodeBuffer(Code, old(VMCodeInp.InBuf[..]));
      ok := RegisterFilter(FirstByte);
    }

    /** `AddVMCode` once the code is in the filter code buffer. */
    method RegisterFilter(FirstByte: nat) returns (ok: bool)
      requires FiltersValid() && VMCodeInp.Valid() && Window.Length > 0 && VMCodeInp.Position() == 0
      modifies VMCodeInp, this`Filters30, this`OldFilterLengths, this`LastFilter, this`PrgStack
      ensures FiltersValid() && VMCodeInp.Valid()
      ensures var a := AddFilter(ReadData, Prepare, VMCodeInp.InBuf[..], FirstByte, old(FState()),
                                 UnpPtr, WrPtr, Window.Length);
              ok == a.0 && FState() == a.1
    {
      var FiltPos := ReadFilterPos(FirstByte);
      if FiltPos > |Filters30| || FiltPos > |OldFilterLengths| {
        return false;
      }
      LastFilter := FiltPos;
      var NewFilter := FiltPos == |Filters30|;
      if NewFilter {
        if FiltPos > Max3UnpackFilters {
          return false;
        }
        Filters30 := Filters30 + [0];
        OldFilterLengths := OldFilterLengths + [0];
      }
      ok := QueueStackFilter(FirstByte, FiltPos, NewFilter);
    }

    /** The rest of `AddVMCode` once the registry entry is settled, as
        `QueueFilter` says. */
    method QueueStackFilter(FirstByte: nat, FiltPos: nat, NewFilter: bool) returns (ok: bool)
      requires FiltersValid() && VMCodeInp.Valid() && Window.Length > 0 && FiltPos < |Filters30|
      modifies VMCodeInp, this`Filters30, this`OldFilterLengths, this`PrgStack
      ensures FiltersValid() && VMCodeInp.Valid()
      ensures var q := QueueFilter(ReadData, Prepare, old(VMCodeInp.InBuf[..]), FirstByte, old(VMCodeInp.Position()),
                                   FiltPos, NewFilter, old(FState()), UnpPtr, WrPtr, Window.Length);
              ok == q.0 && FState() == q.1
    {
      ghost var s := PrgStack;
      var Room, StackPos := ReserveSlot();
      CompactInWindow(s, Window.Length);
      if !Room {
        return false;
      }
      var f := ReadStackFilter(FirstByte, FiltPos);
      PrgStack := PrgStack[StackPos := Some(f)];
      if NewFilter {
        var code := ReadProgram();
        if code.None? {
          return false;
        }
        Filters30 := Filters30[FiltPos := Prepare(code.value)];
      }
      PrgStack := PrgStack[StackPos := Some(f.(programType := Filters30[FiltPos]))];
      ok := true;
    }

    /** The compaction and the slot search of `AddVMCode`: the stack is
        compacted, and when it has no null entry one is appended, unless
        the stack is full. The slot is the first null entry. */
    method ReserveSlot() returns (Room: bool, StackPos: nat)
      modifies this`PrgStack
      ensures Room == StackRoom(old(PrgStack))
      ensures !Room ==> PrgStack == Compact(old(PrgStack))
      ensures Room ==> && PrgStack == Compact(old(PrgStack)) + (if NullCount(old(PrgStack)) == 0 then [None] else [])
                       && StackPos == |NonNull(old(PrgStack))| < |PrgStack|
    {
      ghost var s := PrgStack;
      var EmptyCount := CompactStack();
      CompactKeepsFilters(s);
      if EmptyCount == 0 {
        if |PrgStack| > Max3UnpackFilters {
          return false, 0;
        }
        PrgStack := PrgStack + [None];
        EmptyCount := 1;
      }
      Room, StackPos := true, |PrgStack| - EmptyCount;
    }

    /** `RarVM.ReadData(VMCodeInp)`: the number at the filter code reader's
        position, which moves past it. */
    method ReadVmData() returns (v: nat)
      requires VMCodeInp.Valid()
      modifies VMCodeInp
      ensures VMCodeInp.Valid() && VMCodeInp.InBuf[..] == old(VMCodeInp.InBuf[..])
      ensures var n := VmAt(ReadData, old(VMCodeInp.InBuf[..]), old(VMCodeInp.Position()));
              v == n.value && VMCodeInp.Position() == old(VMCodeInp.Position()) + n.bits
    {
      var n := VmAt(ReadData, VMCodeInp.InBuf[..], VMCodeInp.Position());
      VMCodeInp.AddBits(n.bits);
      v := n.value;
    }

    /** The registry entry the filter code names, as `FilterRefOf` says; a
        reset empties the registry and the stack. */
    method ReadFilterPos(FirstByte: nat) returns (FiltPos: nat)
      requires FiltersValid() && VMCodeInp.Valid() && VMCodeInp.Position() == 0
      modifies VMCodeInp, this`Filters30, this`OldFilterLengths, this`LastFilter, this`PrgStack
      ensures FiltersValid() && VMCodeInp.Valid()
      ensures var ref := FilterRefOf(ReadData, VMCodeInp.InBuf[..], FirstByte, old(LastFilter));
              && FiltPos == ref.pos && VMCodeInp.Position() == ref.bitPos
              && (ref.reset ==> Filters30 == [] && OldFilterLengths == [] && LastFilter == 0 && PrgStack == [])
              && (!ref.reset ==> FState() == old(FState()))
    {
      if BitSet(FirstByte, 7) {
        FiltPos := ReadVmData();
        if FiltPos == 0 {
          InitFilters30(false);
        } else {
          FiltPos := FiltPos - 1;
        }
      } else {
        FiltPos := LastFilter;
      }
    }

    /** The fields of the queued filter, as `FieldsAt` says; a block length
        read from the code is recorded for the registry entry. */
    method ReadStackFilter(FirstByte: nat, FiltPos: nat) returns (f: StackFilter)
      requires VMCodeInp.Valid() && Window.Length > 0 && FiltPos < |OldFilterLengths|
      modifies VMCodeInp, this`OldFilterLengths
      ensures VMCodeInp.Valid() && VMCodeInp.InBuf[..] == old(VMCodeInp.InBuf[..])
      ensures var fl := FieldsAt(ReadData, old(VMCodeInp.InBuf[..]), old(VMCodeInp.Position()), FirstByte, FiltPos,
                                 old(OldFilterLengths), UnpPtr, WrPtr, Window.Length);
              f == fl.filter && OldFilterLengths == fl.lengths && VMCodeInp.Position() == fl.bitPos
    {
      ghost var buf, p := VMCodeInp.InBuf[..], VMCodeInp.Position();
      ghost var fl := FieldsAt(ReadData, buf, p, FirstByte, FiltPos, OldFilterLengths, UnpPtr, WrPtr, Window.Length);
      ghost var s := VmAt(ReadData, buf, p);
      ghost var l := LengthAt(ReadData, buf, p + s.bits, FirstByte, FiltPos, OldFilterLengths);
      ghost var regs := RegistersAt(ReadData, buf, l.2, FirstByte, l.0);
      ghost var start := if BitSet(FirstByte, 6) then (s.value + 258) % U32 else s.value;
      FieldsAtReads(ReadData, buf, p, FirstByte, FiltPos, OldFilterLengths, UnpPtr, WrPtr, Window.Length, s, start, l, regs);
      var BlockStart := ReadVmData();
      assert BlockStart == s.value && VMCodeInp.Position() == p + s.bits && VMCodeInp.InBuf[..] == buf;
      if BitSet(FirstByte, 6) {
        BlockStart := (BlockStart + 258) % U32;
      }
      var BlockLength := ReadBlockLength(FirstByte, FiltPos);
      assert BlockLength == l.0 && VMCodeInp.Position() == l.2 && VMCodeInp.InBuf[..] == buf;
      var InitR := ReadInitRegs(FirstByte, BlockLength);
      assert InitR == regs.0 && VMCodeInp.Position() == regs.1;
      f := QueuedFilter(BlockStart, BlockLength, FiltPos, InitR, UnpPtr, WrPtr, Window.Length);
      assert f == fl.filter && OldFilterLengths == l.1;
    }

    /** The block length of the queued filter, as `LengthAt` says. */
    method ReadBlockLength(FirstByte: nat, FiltPos: nat) returns (BlockLength: nat)
      requires VMCodeInp.Valid() && FiltPos < |OldFilterLengths|
      modifies VMCodeInp, this`OldFilterLengths
      ensures VMCodeInp.Valid() && VMCodeInp.InBuf[..] == old(VMCodeInp.InBuf[..])
      ensures var l := LengthAt(ReadData, old(VMCodeInp.InBuf[..]), old(VMCodeInp.Position()), FirstByte, FiltPos,
                                old(OldFilterLengths));
              BlockLength == l.0 && OldFilterLengths == l.1 && VMCodeInp.Position() == l.2
    {
      if BitSet(FirstByte, 5) {
        BlockLength := ReadVmData();
        OldFilterLengths := OldFilterLengths[FiltPos := BlockLength];
      } else {
        BlockLength := if FiltPos < |OldFilterLengths| then OldFilterLengths[FiltPos] else 0;
      }
    }

    /** The initial registers, as `RegistersAt` says. */
    method ReadInitRegs(FirstByte: nat, BlockLength: nat) returns (InitR: seq<nat>)
      requires VMCodeInp.Valid()
      modifies VMCodeInp
      ensures VMCodeInp.Valid() && VMCodeInp.InBuf[..] == old(VMCodeInp.InBuf[..])
      ensures var r := RegistersAt(ReadData, old(VMCodeInp.InBuf[..]), old(VMCodeInp.Position()), FirstByte, BlockLength);
              InitR == r.0 && VMCodeInp.Position() == r.1
    {
      InitR := DefaultRegs(BlockLength);
      if BitSet(FirstByte, 4) {
        InitR := ReadMaskedRegs(InitR);
      }
    }

    /** The registers the 7-bit mask at the reader's position names, read
        in turn, as `InitRegs` says. */
    method ReadMaskedRegs(Regs: seq<nat>) returns (InitR: seq<nat>)
      requires VMCodeInp.Valid() && |Regs| == InitRegCount
      modifies VMCodeInp
      ensures VMCodeInp.Valid() && VMCodeInp.InBuf[..] == old(VMCodeInp.InBuf[..])
      ensures var buf, p := old(VMCodeInp.InBuf[..]), old(VMCodeInp.Position());
              var r := InitRegs(ReadData, buf, p + 7, Bits16(buf, p) / 512, Regs, 0);
              InitR == r.0 && VMCodeInp.Position() == r.1
    {
      ghost var buf, p := VMCodeInp.InBuf[..], VMCodeInp.Position();
      var InitMask := VMCodeInp.GetBits() / 512;
      assert InitMask == Bits16(buf, p) / 512;
      VMCodeInp.AddBits(7);
      assert VMCodeInp.Position() == p + 7 && VMCodeInp.InBuf[..] == buf;
      InitR := ReadRegisters(InitMask, Regs);
    }

    /** The registers `mask` names, read in turn from the reader's position,
        as `InitRegs` says. */
    method ReadRegisters(InitMask: nat, Regs: seq<nat>) returns (InitR: seq<nat>)
      requires VMCodeInp.Valid() && |Regs| == InitRegCount
      modifies VMCodeInp
      ensures VMCodeInp.Valid() && VMCodeInp.InBuf[..] == old(VMCodeInp.InBuf[..])
      ensures var r := InitRegs(ReadData, old(VMCodeInp.InBuf[..]), old(VMCodeInp.Position()), InitMask, Regs, 0);
              InitR == r.0 && VMCodeInp.Position() == r.1
    {
      ghost var buf := VMCodeInp.InBuf[..];
      ghost var target := InitRegs(ReadData, buf, VMCodeInp.Position(), InitMask, Regs, 0);
      InitR := Regs;
      var I := 0;
      while I < InitRegCount
        invariant I <= InitRegCount && |InitR| == InitRegCount && VMCodeInp.Valid() && VMCodeInp.InBuf[..] == buf
        invariant InitRegs(ReadData, buf, VMCodeInp.Position(), InitMask, InitR, I) == target
      {
        InitR := ReadRegister(InitMask, I, InitR);
        I := I + 1;
      }
      assert InitRegs(ReadData, buf, VMCodeInp.Position(), InitMask, InitR, I) == (InitR, VMCodeInp.Position());
    }

    /** One pass of the register loop: register `I` is read when `InitMask`
        names it. */
    method ReadRegister(InitMask: nat, I: nat, InitR: seq<nat>) returns (InitR': seq<nat>)
      requires VMCodeInp.Valid() && I < InitRegCount && |InitR| == InitRegCount
      modifies VMCodeInp
      ensures VMCodeInp.Valid() && VMCodeInp.InBuf[..] == old(VMCodeInp.InBuf[..]) && |InitR'| == InitRegCount
      ensures InitRegs(ReadData, old(VMCodeInp.InBuf[..]), VMCodeInp.Position(), InitMask, InitR', I + 1)
              == InitRegs(ReadData, old(VMCodeInp.InBuf[..]), old(VMCodeInp.Position()), InitMask, InitR, I)
    {
      InitRegsStep(ReadData, VMCodeInp.InBuf[..], VMCodeInp.Position(), InitMask, InitR, I);
      InitR' := InitR;
      if BitSet(InitMask, I) {
        var v := ReadVmData();
        InitR' := InitR[I := v];
      }
    }

    /** The code of a new registry entry, as `ProgramAt` says: its size,
        then its bytes, refused near the end of the buffer. */
    method ReadProgram() returns (code: Option<seq<byte>>)
      requires VMCodeInp.Valid()
      modifies VMCodeInp
      ensures VMCodeInp.Valid() && VMCodeInp.InBuf[..] == old(VMCodeInp.InBuf[..])
      ensures code == ProgramAt(ReadData, old(VMCodeInp.InBuf[..]), old(VMCodeInp.Position()))
    {
      var VMCodeSize := ReadVmData();
      if VMCodeSize >= 0x10000 || VMCodeSize == 0 {
        return None;
      }
      ghost var buf, p := VMCodeInp.InBuf[..], VMCodeInp.Position();
      ghost var bytes := seq(VMCodeSize, k requires 0 <= k < VMCodeSize => ByteAt(buf, p + 8 * k));
      var VMCode := new byte[VMCodeSize];
      var I := 0;
      while I < VMCodeSize
        invariant I <= VMCodeSize && VMCodeInp.Valid() && VMCodeInp.Position() == p + 8 * I
        invariant VMCodeInp.InBuf[..] == buf
        invariant VMCode[..I] == bytes[..I]
        invariant I > 0 ==> p / 8 + (I - 1) + 3 < MaxSize
      {
        assert VMCodeInp.InAddr == p / 8 + I;
        if VMCodeInp.Overflow(3) {
          return None;
        }
        VMCode[I] := VMCodeInp.GetBits() / 256;
        assert VMCode[..I + 1] == bytes[..I + 1];
        VMCodeInp.AddBits(8);
        I := I + 1;
      }
      assert VMCode[..] == bytes;
      code := Some(VMCode[..]);
    }

    // -------------------------------------------------------------------------
    // Filter code in LZ blocks.
    // -------------------------------------------------------------------------

    /** `ReadVMCode`: filter code from the LZ input, registered with
        `AddVMCode` when its length is not 0 and it was read whole. The first
        byte and the length are the header `ReadLzCodeHeader` reads; the
        code is what `ReadLzCodeBytes` reads after it. */
    method ReadVMCode() returns (ok: bool, ghost added: bool, ghost code: seq<byte>, ghost rest: seq<byte>)
      requires Valid()
      modifies Inp, Inp.InBuf, this`ReadTop, this`ReadBorder, this`Packed
      modifies VMCodeInp, VMCodeInp.InBuf, this`Filters30, this`OldFilterLengths, this`LastFilter, this`PrgStack
      ensures Valid()
      ensures var buf, p := old(Inp.InBuf[..]), old(Inp.Position());
              var first := ByteAt(buf, p);
              && (CodeLength(first, Bits16(buf, p + 8)) == 0 ==> !added)
              && (!added ==> !ok && FState() == old(FState()))
              && (added ==> && |code| == CodeLength(first, Bits16(buf, p + 8)) > 0
                            && VMCodeInp.InBuf[..] == CodeBuffer(code, old(VMCodeInp.InBuf[..]))
                            && var a := AddFilter(ReadData, Prepare, VMCodeInp.InBuf[..], first, old(FState()),
                                                  UnpPtr, WrPtr, Window.Length);
                               ok == a.0 && FState() == a.1)
      ensures var buf, p := old(Inp.InBuf[..]), old(Inp.Position());
              var first := ByteAt(buf, p);
              var len, hdr := CodeLength(first, Bits16(buf, p + 8)), CodeHeaderSize(first);
              !ReadFails && len > 0 && old(Inp.InAddr) + hdr <= old(ReadTop) ==>
                && rest == old(Unread())[hdr..]
                && (len <= |rest| + 1 ==> added)
                && (added ==> BytesFrom(code, rest, old(Inp.InBit)))
    {
      ghost var a0, top0, bit0 := Inp.InAddr, ReadTop, Inp.InBit;
      ghost var buf0, packed0, p0 := Inp.InBuf[..], Packed, Inp.Position();
      var FirstByte, Length := ReadLzCodeHeader();
      ghost var hdr := CodeHeaderSize(FirstByte);
      assert FirstByte == ByteAt(buf0, p0) && Length == CodeLength(FirstByte, Bits16(buf0, p0 + 8));
      assert Inp.InAddr == a0 + hdr && Inp.InBit == bit0;
      assert Inp.InBuf[..] == buf0 && ReadTop == top0 && Packed == packed0;
      rest := if Inp.InAddr <= ReadTop then Unread() else [];
      if Inp.InAddr <= ReadTop {
        SkipUnread(buf0, a0, top0, packed0, hdr);
      }
      ok, added, code := ReadLzCode(FirstByte, Length, rest, bit0, a0 + hdr <= top0);
    }

    /** The rest of `ReadVMCode` once the header is read: length 0 fails;
        otherwise the `Length` code bytes, registered with `AddVMCode` when
        they were read whole. `u` is the unread input. */
    method ReadLzCode(FirstByte: nat, Length: nat, ghost u: seq<byte>, ghost bit: nat, ghost inRange: bool)
      returns (ok: bool, ghost added: bool, ghost code: seq<byte>)
      requires Valid()
      requires Inp.InBit == bit && inRange == (Inp.InAddr <= ReadTop)
      requires inRange ==> Unread() == u
      modifies Inp, Inp.InBuf, this`ReadTop, this`ReadBorder, this`Packed
      modifies VMCodeInp, VMCodeInp.InBuf, this`Filters30, this`OldFilterLengths, this`LastFilter, this`PrgStack
      ensures Valid()
      ensures Length == 0 ==> !added
      ensures !added ==> !ok && FState() == old(FState())
      ensures added ==> && |code| == Length > 0
                        && VMCodeInp.InBuf[..] == CodeBuffer(code, old(VMCodeInp.InBuf[..]))
                        && var a := AddFilter(ReadData, Prepare, VMCodeInp.InBuf[..], FirstByte, old(FState()),
                                              UnpPtr, WrPtr, Window.Length);
                           ok == a.0 && FState() == a.1
      ensures !ReadFails && inRange ==>
                && (0 < Length <= |u| + 1 ==> added)
                && (added ==> BytesFrom(code, u, bit))
    {
      if Length == 0 {
        return false, false, [];
      }
      var read, VMCode := ReadLzCodeBytes(u, Length, bit, inRange);
      code := VMCode;
      if !read {
        return false, false, code;
      }
      ok := AddVMCode(FirstByte, VMCode);
      added := true;
    }

    /** The header of filter code in an LZ block: the first byte, then the
        length as `CodeLength` says, from the 16 bits after the first byte;
        the header takes one, two or three bytes. */
    method ReadLzCodeHeader() returns (FirstByte: nat, Length: nat)
      requires Inp.Valid()
      modifies Inp
      ensures Inp.Valid() && Inp.InBit == old(Inp.InBit)
      ensures var buf, p := old(Inp.InBuf[..]), old(Inp.Position());
              && FirstByte == ByteAt(buf, p) && Length == CodeLength(FirstByte, Bits16(buf, p + 8))
              && Inp.Position() == p + 8 * CodeHeaderSize(FirstByte)
    {
      ghost var buf, p := Inp.InBuf[..], Inp.Position();
      FirstByte := Inp.GetBits() / 256;
      Inp.AddBits(8);
      assert Inp.Position() == p + 8 && Inp.InBit == old(Inp.InBit);
      ghost var next := Inp.GetBits();
      assert next == Bits16(buf, p + 8);
      Length := FirstByte % 8 + 1;
      if Length == 7 {
        Length := Inp.GetBits() / 256 + 7;
        Inp.AddBits(8);
      } else if Length == 8 {
        Length := Inp.GetBits();
        Inp.AddBits(16);
      }
      assert Length == CodeLength(FirstByte, next);
    }

    /** The code bytes of filter code in an LZ block, refilling the input
        buffer when at most one byte of it is left. When the unread input is
        at hand and reading it does not fail, every byte whose two input
        bytes are there is the byte at its position in the input, and the
        read fails only when the input runs out more than one byte before
        the end of the code. A failed refill is ignored for the last byte. */
    method ReadLzCodeBytes(ghost u: seq<byte>, Length: nat, ghost bit: nat, ghost inRange: bool)
      returns (ok: bool, Code: seq<byte>)
      requires Shape() && InputValid() && Length > 0
      requires Inp.InBit == bit && inRange == (Inp.InAddr <= ReadTop)
      requires inRange ==> Unread() == u
      modifies Inp, Inp.InBuf, this`ReadTop, this`ReadBorder, this`Packed
      ensures Shape() && InputValid()
      ensures ok ==> |Code| == Length
      ensures !ReadFails && inRange ==>
                && (!ok ==> |u| + 1 < Length)
                && (ok ==> BytesFrom(Code, u, bit))
    {
      ghost var g := !ReadFails && inRange;
      ghost var n := if g && |u| >= 1 then Min(Length, |u| - 1) else 0;
      ghost var expected := seq(n, k requires 0 <= k < n => ByteAt(u, bit + 8 * k));
      Code := [];
      var I := 0;
      while I < Length
        invariant I <= Length && |Code| == I && Shape() && InputValid() && Inp.InBit == bit
        invariant g && I <= |u| ==> Inp.InAddr <= ReadTop && Unread() == u[I..]
        invariant Code[..Min(I, n)] == expected[..Min(I, n)]
      {
        var byteOk;
        byteOk, Code := AppendCodeByte(u, g, bit, expected, Code, Length);
        if !byteOk {
          return false, [];
        }
        I := I + 1;
      }
      forall k | g && 0 <= k < Length && k + 2 <= |u|
        ensures Code[k] == ByteAt(u, bit + 8 * k)
      {
        assert Code[k] == Code[..n][k] == expected[k];
      }
      ok := true;
    }

    /** A pass of the loop of `ReadLzCodeBytes`: the next code byte read and
        appended to `Code`, keeping the loop's invariant. */
    method AppendCodeByte(ghost u: seq<byte>, ghost g: bool, ghost bit: nat, ghost expected: seq<byte>,
                          Code: seq<byte>, Length: nat) returns (ok: bool, Code': seq<byte>)
      requires Shape() && InputValid() && Inp.InBit == bit && |Code| < Length
      requires g ==> !ReadFails && |expected| <= Length && (expected == [] || |expected| < |u|)
      requires g ==> forall k :: 0 <= k < |expected| ==> expected[k] == ByteAt(u, bit + 8 * k)
      requires !g ==> expected == []
      requires g && |Code| <= |u| ==> Inp.InAddr <= ReadTop && Unread() == u[|Code|..]
      requires Code[..Min(|Code|, |expected|)] == expected[..Min(|Code|, |expected|)]
      modifies Inp, Inp.InBuf, this`ReadTop, this`ReadBorder, this`Packed
      ensures Shape() && InputValid() && Inp.InBit == bit
      ensures !ok ==> g ==> |u| < |Code| < Length - 1
      ensures ok ==> && |Code'| == |Code| + 1
                     && (g && |Code'| <= |u| ==> Inp.InAddr <= ReadTop && Unread() == u[|Code'|..])
                     && Code'[..Min(|Code'|, |expected|)] == expected[..Min(|Code'|, |expected|)]
    {
      var I := |Code|;
      var b;
      ok, b := ReadCodeByte(u, I, I == Length - 1);
      if !ok {
        return false, [];
      }
      assert I < |expected| ==> b == expected[I];
      Code' := Code + [b];
      assert Code'[..I] == Code;
    }

    /** One pass of the code byte loop of `ReadVMCode`: the refill, then the
        byte at the input position. Reading the unread input `u` from byte
        `I` on, the byte is the one at that position of `u` and the reader
        moves on by one byte of `u`. */
    method ReadCodeByte(ghost u: seq<byte>, ghost I: nat, last: bool) returns (ok: bool, b: byte)
      requires Shape() && InputValid()
      modifies Inp, Inp.InBuf, this`ReadTop, this`ReadBorder, this`Packed
      ensures Shape() && InputValid() && Inp.InBit == old(Inp.InBit)
      ensures !ok ==> !last
      ensures !ReadFails && I <= |u| && old(Inp.InAddr) <= old(ReadTop) && old(Unread()) == u[I..] ==>
                && ok
                && (I + 2 <= |u| ==> b == ByteAt(u, old(Inp.InBit) + 8 * I))
                && (I + 1 <= |u| ==> Inp.InAddr <= ReadTop && Unread() == u[I + 1..])
    {
      ghost var g := !ReadFails && I <= |u| && Inp.InAddr <= ReadTop && Unread() == u[I..];
      ok := RefillForByte(u, I, last);
      if !ok {
        return false, 0;
      }
      b := TakeCodeByte(u, I, g);
    }

    /** The refill of the code byte loop: when at most one byte of the buffer
        is left, `UnpReadBuf30` runs, and its failure stops the loop unless
        the byte is the last one. The unread input stays the same, and at
        least two bytes of it are in the buffer unless the archive reader has
        nothing left. */
    method RefillForByte(ghost u: seq<byte>, ghost I: nat, last: bool) returns (ok: bool)
      requires Shape() && InputValid()
      modifies Inp, Inp.InBuf, this`ReadTop, this`ReadBorder, this`Packed
      ensures InputValid() && Inp.InBit == old(Inp.InBit)
      ensures !ok ==> !last
      ensures !ReadFails && I <= |u| && old(Inp.InAddr) <= old(ReadTop) && old(Unread()) == u[I..] ==>
                && ok && Inp.InAddr <= ReadTop && Unread() == u[I..]
                && (ReadTop - Inp.InAddr >= 2 || Packed == [])
    {
      ok := true;
      if Inp.InAddr >= ReadTop - 1 {
        var refilled := UnpReadBuf30();
        if !refilled && !last {
          ok := false;
        }
      }
    }

    /** The byte at the input position, and the reader one byte further on.
        When the unread input is `u` from byte `I` on (`g`), the byte is the
        one at that position of `u` if two bytes of `u` are there, and the
        unread input moves on by one byte. */
    method TakeCodeByte(ghost u: seq<byte>, ghost I: nat, ghost g: bool) returns (b: byte)
      requires Shape() && InputValid()
      requires g ==> && I <= |u| && Inp.InAddr <= ReadTop && Unread() == u[I..]
                     && (ReadTop - Inp.InAddr >= 2 || Packed == [])
      modifies Inp
      ensures InputValid() && Inp.InBit == old(Inp.InBit)
      ensures g && I + 2 <= |u| ==> b == ByteAt(u, old(Inp.InBit) + 8 * I)
      ensures g && I + 1 <= |u| ==> Inp.InAddr <= ReadTop && Unread() == u[I + 1..]
    {
      ghost var buf, addr, top, packed := Inp.InBuf[..], Inp.InAddr, ReadTop as nat, Packed;
      ghost var bit := Inp.InBit;
      if g && I + 2 <= |u| {
        UnreadByte(buf, addr, top, packed, u, I, bit);
      }
      if g && I + 1 <= |u| {
        UnreadStep(buf, addr, top, packed, u, I);
      }
      b := Inp.GetBits() / 256;
      assert b == ByteAt(buf, 8 * addr + bit);
      Inp.AddBits(8);
      assert Inp.InAddr == addr + 1 && Inp.InBit == bit;
    }

    // -------------------------------------------------------------------------
    // Initialisation and the main loop.
    // -------------------------------------------------------------------------

    /** `ReadEndOfBlock`: the marker `DecodeEndOfBlock` reads from the next
        16 bits, after which `TablesRead3` is the negation of its new-table
        flag. A new file ends the file at once (its new table, if any, is
        read when the next file starts); otherwise the new table follows
        here and the result is that of `ReadTables30`. */
    method ReadEndOfBlock() returns (ok: bool, ghost e: BlockEnd, ghost read: TableRead)
      requires Shape() && InputValid() && TablesValid()
      modifies Inp, Inp.InBuf, this`ReadTop, this`ReadBorder, this`Packed
      modifies this`UnpBlockType, this`PpmStarts, this`PPMEscChar, this`PrevLowDist, this`LowDistRepCount
      modifies UnpOldTable, this`LD, this`DD, this`LDD, this`RD, this`BD, this`TablesRead3
      ensures InputValid() && TablesValid()
      ensures e == DecodeEndOfBlock(old(Inp.GetBits()))
      ensures e.newFile ==>
                && !ok && TableState() == old(TableState()).(read3 := !e.newTable)
                && Inp.Position() == old(Inp.Position()) + 2 && Inp.InBuf[..] == old(Inp.InBuf[..])
                && UnpBlockType == old(UnpBlockType) && UnpOldTable[..] == old(UnpOldTable[..])
      ensures !e.newFile ==>
                && e.newTable
                && (read.NoInput? ==> !ok && TableState() == old(TableState()).(read3 := false) && UnpBlockType == old(UnpBlockType))
                && (read.PpmBlock? ==> TableState() == old(TableState()).(read3 := false) && UnpBlockType == BlockPpm)
                && (read.LzBlock? ==> UnpBlockType == BlockLz
                                      && LzTablesRead(read, OldTableFor(read, old(UnpOldTable[..])), ok,
                                                      old(TableState()).(read3 := false)))
    {
      var BitField := Inp.GetBits();
      e := DecodeEndOfBlock(BitField);
      var NewTable, NewFile := false, false;
      if BitField / 0x8000 % 2 == 1 {
        NewTable := true;
        Inp.AddBits(1);
      } else {
        NewFile := true;
        NewTable := BitField / 0x4000 % 2 == 1;
        Inp.AddBits(2);
      }
      TablesRead3 := !NewTable;
      if NewFile {
        return false, e, NoInput;
      }
      ok, read := ReadTables30();
    }

    /** `UnpInitData30`: unless the archive is solid, no tables are read, the
        previous table is cleared, the escape character is 2 and an LZ block
        is expected; then `InitFilters30`. */
    method UnpInitData30(Solid: bool)
      requires Shape() && FiltersValid()
      modifies this`TablesRead3, UnpOldTable, this`PPMEscChar, this`UnpBlockType
      modifies this`OldFilterLengths, this`LastFilter, this`Filters30, this`PrgStack
      ensures FiltersValid() && PrgStack == []
      ensures !Solid ==>
                && !TablesRead3 && UnpOldTable[..] == Repeat(0, HuffTableSize30)
                && PPMEscChar == 2 && UnpBlockType == BlockLz
                && OldFilterLengths == [] && LastFilter == 0 && Filters30 == []
      ensures Solid ==>
                && TablesRead3 == old(TablesRead3) && UnpOldTable[..] == old(UnpOldTable[..])
                && PPMEscChar == old(PPMEscChar) && UnpBlockType == old(UnpBlockType)
                && FState() == old(FState()).(stack := [])
    {
      if !Solid {
        TablesRead3 := false;
        ClearOldTable();
        PPMEscChar := 2;
        UnpBlockType := BlockLz;
      }
      InitFilters30(Solid);
    }

    /** `UnpInitData`, whose body is not part of this source; it follows
        unrar's `Unpack::UnpInitData` for the state of this decoder. Unless
        the archive is solid, the distance cache, the last length, the
        tables and the window positions are reset. In every case the input
        starts over, empty, nothing is written yet, and `UnpInitData30`
        runs. */
    method UnpInitData(Solid: bool)
      requires Valid()
      modifies OldDist, this`LastLength, this`UnpPtr, this`WrPtr, this`LD, this`DD, this`LDD, this`RD, this`BD
      modifies Inp, this`WrittenFileSize, this`ReadTop, this`ReadBorder
      modifies this`TablesRead3, UnpOldTable, this`PPMEscChar, this`UnpBlockType
      modifies this`OldFilterLengths, this`LastFilter, this`Filters30, this`PrgStack
      ensures Valid()
      ensures !Solid ==>
                && OldDist[..] == [0, 0, 0, 0] && LastLength == 0 && UnpPtr == 0 && WrPtr == 0
                && LD == [] && DD == [] && LDD == [] && RD == [] && BD == []
      ensures Solid ==>
                && OldDist[..] == old(OldDist[..]) && LastLength == old(LastLength)
                && UnpPtr == old(UnpPtr) && WrPtr == old(WrPtr)
                && LD == old(LD) && DD == old(DD) && LDD == old(LDD) && RD == old(RD) && BD == old(BD)
      ensures Inp.Position() == 0 && ReadTop == 0 && ReadBorder == 0 && WrittenFileSize == 0
    {
      ResetInput();
      ResetDecoder(Solid);
    }

    /** `UnpInitData` but for the input: unless the archive is solid, the
        distance cache, the last length, the tables and the window
        positions are reset; then `UnpInitData30`. */
    method ResetDecoder(Solid: bool)
      requires Valid()
      modifies OldDist, this`LastLength, this`UnpPtr, this`WrPtr, this`LD, this`DD, this`LDD, this`RD, this`BD
      modifies this`TablesRead3, UnpOldTable, this`PPMEscChar, this`UnpBlockType
      modifies this`OldFilterLengths, this`LastFilter, this`Filters30, this`PrgStack
      ensures Valid()
      ensures !Solid ==>
                && OldDist[..] == [0, 0, 0, 0] && LastLength == 0 && UnpPtr == 0 && WrPtr == 0
                && LD == [] && DD == [] && LDD == [] && RD == [] && BD == []
      ensures Solid ==>
                && OldDist[..] == old(OldDist[..]) && LastLength == old(LastLength)
                && UnpPtr == old(UnpPtr) && WrPtr == old(WrPtr)
                && LD == old(LD) && DD == old(DD) && LDD == old(LDD) && RD == old(RD) && BD == old(BD)
    {
      if !Solid {
        ResetLz();
      }
      UnpInitData30(Solid);
    }

    /** The non-solid part of `UnpInitData`. */
    method ResetLz()
      requires Shape() && PrevLowDist < 16
      modifies OldDist, this`LastLength, this`UnpPtr, this`WrPtr, this`LD, this`DD, this`LDD, this`RD, this`BD
      ensures PositionsValid() && TablesValid()
      ensures && OldDist[..] == [0, 0, 0, 0] && LastLength == 0 && UnpPtr == 0 && WrPtr == 0
              && LD == [] && DD == [] && LDD == [] && RD == [] && BD == []
    {
      OldDist[0], OldDist[1], OldDist[2], OldDist[3] := 0, 0, 0, 0;
      assert OldDist[..] == [0, 0, 0, 0];
      LastLength := 0;
      LD, DD, LDD, RD, BD := [], [], [], [], [];
      UnpPtr, WrPtr := 0, 0;
    }

    /** The input part of `UnpInitData`: the reader back at the start of an
        empty buffer, and nothing written yet. */
    method ResetInput()
      requires Valid()
      modifies Inp, this`WrittenFileSize, this`ReadTop, this`ReadBorder
      ensures Valid()
      ensures Inp.Position() == 0 && ReadTop == 0 && ReadBorder == 0 && WrittenFileSize == 0
      ensures Unread() == Packed
    {
      Inp.InitBitInput();
      WrittenFileSize := 0;
      ReadTop := 0;
      ReadBorder := 0;
    }

    /** The start of a pass of the main loop. `UnpPtr` already lies in the
        window, so the mask leaves it as it is. The input is refilled once
        it is read past `ReadBorder`, and a failed refill leaves the loop.
        Once fewer than 260 bytes separate the decode position from the
        write position behind it, the window is flushed; the decoder
        returns at once when more than `DestUnpSize` bytes are written or
        when the extraction is suspended, which marks the file as not
        extracted. */
    method LoopTop() returns (flow: Flow)
      requires Valid()
      modifies Inp, Inp.InBuf, this`ReadTop, this`ReadBorder, this`Packed
      modifies this`PrgStack, this`Output, this`WrittenFileSize, this`WrPtr, this`FileExtracted
      ensures Valid()
      ensures old(Output) <= Output && WrittenFileSize == old(WrittenFileSize) + (|Output| - |old(Output)|)
      ensures flow == Break <==> old(Inp.InAddr) > old(ReadBorder) && (ReadFails || old(ReadTop) < old(Inp.InAddr))
      ensures old(Inp.InAddr) <= old(ReadBorder) ==>
                && Inp.InAddr == old(Inp.InAddr) && Inp.InBit == old(Inp.InBit) && Inp.InBuf[..] == old(Inp.InBuf[..])
                && ReadTop == old(ReadTop) && ReadBorder == old(ReadBorder) && Packed == old(Packed)
      ensures flow != Break && old(Inp.InAddr) <= old(ReadTop) ==>
                Inp.InBit == old(Inp.InBit) && Inp.InAddr <= ReadTop && Unread() == old(Unread())
      ensures flow == Break ==>
                && PrgStack == old(PrgStack) && Output == old(Output) && WrittenFileSize == old(WrittenFileSize)
                && WrPtr == old(WrPtr) && FileExtracted == old(FileExtracted)
      ensures flow != Break && old(NearWrPtr()) ==>
                && var r := Flush(Env(), old(PrgStack), old(WrPtr), old(Output), old(WrittenFileSize));
                && PrgStack == r.stack && Output == r.out && WrittenFileSize == r.written && WrPtr == r.wrPtr
                && (flow == Return <==> WrittenFileSize > DestUnpSize || Suspended)
      ensures flow != Break && !old(NearWrPtr()) ==>
                && flow == Continue && PrgStack == old(PrgStack) && Output == old(Output)
                && WrittenFileSize == old(WrittenFileSize) && WrPtr == old(WrPtr)
      ensures flow == Return ==> WrittenFileSize > DestUnpSize || (Suspended && !FileExtracted)
      ensures flow != Return ==> FileExtracted == old(FileExtracted)
      ensures FileExtracted == old(FileExtracted) || (Suspended && !FileExtracted)
      ensures Suspended && Output != old(Output) ==> flow == Return
    {
      var ok := RefillAtBorder();
      if !ok {
        return Break;
      }
      flow := FlushNearWrPtr();
    }

    /** The refill at the start of a pass of the main loop: only once the
        input is read past `ReadBorder`, and then as `UnpReadBuf30` says. */
    method RefillAtBorder() returns (ok: bool)
      requires Valid()
      modifies Inp, Inp.InBuf, this`ReadTop, this`ReadBorder, this`Packed
      ensures Valid()
      ensures !ok <==> old(Inp.InAddr) > old(ReadBorder) && (ReadFails || old(ReadTop) < old(Inp.InAddr))
      ensures old(Inp.InAddr) <= old(ReadBorder) ==>
                && Inp.InAddr == old(Inp.InAddr) && Inp.InBit == old(Inp.InBit) && Inp.InBuf[..] == old(Inp.InBuf[..])
                && ReadTop == old(ReadTop) && ReadBorder == old(ReadBorder) && Packed == old(Packed)
      ensures ok && old(Inp.InAddr) <= old(ReadTop) ==>
                Inp.InBit == old(Inp.InBit) && Inp.InAddr <= ReadTop && Unread() == old(Unread())
    {
      ok := true;
      if Inp.InAddr > ReadBorder {
        ok := UnpReadBuf30();
      }
    }

    /** `((WrPtr - UnpPtr) & MaxWinMask) < 260 && WrPtr != UnpPtr`: fewer
        than 260 bytes separate the decode position from the write position
        behind it. */
    predicate NearWrPtr()
      requires Window.Length > 0
      reads this`WrPtr, this`UnpPtr
    {
      (WrPtr - UnpPtr) % Window.Length < 260 && WrPtr != UnpPtr
    }

    /** The flush at the start of a pass of the main loop, once fewer than
        260 bytes separate the decode position from the write position
        behind it. */
    method FlushNearWrPtr() returns (flow: Flow)
      requires Valid()
      modifies this`PrgStack, this`Output, this`WrittenFileSize, this`WrPtr, this`FileExtracted
      ensures Valid() && flow != Break
      ensures old(NearWrPtr()) ==>
                && var r := Flush(Env(), old(PrgStack), old(WrPtr), old(Output), old(WrittenFileSize));
                && PrgStack == r.stack && Output == r.out && WrittenFileSize == r.written && WrPtr == r.wrPtr
                && (flow == Return <==> WrittenFileSize > DestUnpSize || Suspended)
      ensures !old(NearWrPtr()) ==>
                && flow == Continue && PrgStack == old(PrgStack) && Output == old(Output)
                && WrittenFileSize == old(WrittenFileSize) && WrPtr == old(WrPtr)
      ensures old(Output) <= Output && WrittenFileSize == old(WrittenFileSize) + (|Output| - |old(Output)|)
      ensures flow == Return ==> WrittenFileSize > DestUnpSize || (Suspended && !FileExtracted)
      ensures flow != Return ==> FileExtracted == old(FileExtracted)
      ensures FileExtracted == old(FileExtracted) || (Suspended && !FileExtracted)
      ensures Suspended && Output != old(Output) ==> flow == Return
    {
      flow := Continue;
      if NearWrPtr() {
        UnpWriteBuf30();
        if WrittenFileSize > DestUnpSize {
          return Return;
        }
        if Suspended {
          FileExtracted := false;
          return Return;
        }
      }
    }

    /** A pass of the main loop in a PPM block: the command `ReadPpmCommand`
        reads is carried out. A byte goes to the window, a match or a run is
        copied, a block header or filter code is read; corrupt data and the
        end of the file leave the loop, and so does a failed read of a block
        header or of filter code. */
    method PpmStep() returns (flow: Flow, ghost cmd: PpmCommand, ghost read: TableRead)
      requires Valid()
      modifies this`PpmChars, this`PpmCleanUps, this`UnpBlockType, Window, this`UnpPtr
      modifies Inp, Inp.InBuf, this`ReadTop, this`ReadBorder, this`Packed
      modifies this`PpmStarts, this`PPMEscChar, this`PrevLowDist, this`LowDistRepCount
      modifies UnpOldTable, this`LD, this`DD, this`LDD, this`RD, this`BD, this`TablesRead3
      modifies VMCodeInp, VMCodeInp.InBuf, this`Filters30, this`OldFilterLengths, this`LastFilter, this`PrgStack
      ensures Valid() && flow != Return
      ensures cmd == PpmCommandOf(old(PpmChars), old(PPMEscChar)).cmd
      ensures cmd.PpmByte? ==>
                && flow == Continue && Window[..] == old(Window[..])[old(UnpPtr) := cmd.b]
                && UnpPtr == Advance(old(UnpPtr), 1, Window.Length)
      ensures cmd.Match? ==>
                && flow == Continue && Window[..] == CopyWindow(old(Window[..]), old(UnpPtr), cmd.length, cmd.distance)
                && UnpPtr == Advance(old(UnpPtr), cmd.length, Window.Length)
      ensures cmd.Run? ==>
                && flow == Continue && Window[..] == CopyWindow(old(Window[..]), old(UnpPtr), cmd.length, 1)
                && UnpPtr == Advance(old(UnpPtr), cmd.length, Window.Length)
      ensures cmd.Corrupt? ==> flow == Break && UnpBlockType == BlockLz && PpmCleanUps == old(PpmCleanUps) + 1
      ensures cmd.EndOfFile? ==> flow == Break
      ensures !cmd.NewTables? && !cmd.PpmFilter? ==> FState() == old(FState()) && Inp.Position() == old(Inp.Position())
      ensures cmd.NewTables? || cmd.PpmFilter? ==> Window[..] == old(Window[..]) && UnpPtr == old(UnpPtr)
      ensures cmd.NewTables? ==>
                && TablesOutcome(read, old(PpmStarts), old(UnpOldTable[..]), old(TableState()), flow)
                && FState() == old(FState()) && PpmChars == Drop(old(PpmChars), 2)
      ensures cmd.PpmFilter? ==>
                PpmCodeOutcome(Drop(old(PpmChars), 2), old(VMCodeInp.InBuf[..]), old(FState()), flow)
    {
      ghost var chars0, code0, fs0 := PpmChars, VMCodeInp.InBuf[..], FState();
      read := NoInput;
      var c := ReadPpmCommand();
      cmd := c;
      if c.PpmByte? || c.Match? || c.Run? {
        PpmCopy(c);
        flow := Continue;
      } else if c.NewTables? || c.PpmFilter? {
        assert c.PpmFilter? ==> PpmChars == Drop(chars0, 2) && VMCodeInp.InBuf[..] == code0 && FState() == fs0;
        flow, read := PpmControl(c);
      } else {
        flow := Break;
      }
    }

    /** The PPM commands that fill the window: a byte, a match and a run
        (a match at distance 1). */
    method PpmCopy(c: PpmCommand)
      requires Valid() && (c.PpmByte? || c.Match? || c.Run?)
      modifies Window, this`UnpPtr
      ensures Valid()
      ensures c.PpmByte? ==> Window[..] == old(Window[..])[old(UnpPtr) := c.b] && UnpPtr == Advance(old(UnpPtr), 1, Window.Length)
      ensures c.Match? ==>
                && Window[..] == CopyWindow(old(Window[..]), old(UnpPtr), c.length, c.distance)
                && UnpPtr == Advance(old(UnpPtr), c.length, Window.Length)
      ensures c.Run? ==>
                && Window[..] == CopyWindow(old(Window[..]), old(UnpPtr), c.length, 1)
                && UnpPtr == Advance(old(UnpPtr), c.length, Window.Length)
    {
      match c
      case PpmByte(b) =>
        PutByte(b);
      case Match(length, distance) =>
        CopyString(length, distance);
      case Run(length) =>
        CopyString(length, 1);
    }

    /** The escapes of the PPM loop that read from the input: a new block
        header, read as `ReadTables30` reads it, and filter code, read as
        `ReadVMCodePPM` reads it. A failed read leaves the loop. */
    method PpmControl(c: PpmCommand) returns (flow: Flow, ghost read: TableRead)
      requires Valid() && (c.NewTables? || c.PpmFilter?)
      modifies this`PpmChars, this`PpmCleanUps, this`UnpBlockType
      modifies Inp, Inp.InBuf, this`ReadTop, this`ReadBorder, this`Packed
      modifies this`PpmStarts, this`PPMEscChar, this`PrevLowDist, this`LowDistRepCount
      modifies UnpOldTable, this`LD, this`DD, this`LDD, this`RD, this`BD, this`TablesRead3
      modifies VMCodeInp, VMCodeInp.InBuf, this`Filters30, this`OldFilterLengths, this`LastFilter, this`PrgStack
      ensures Valid() && flow != Return
      ensures c.NewTables? ==> TablesOutcome(read, old(PpmStarts), old(UnpOldTable[..]), old(TableState()), flow)
                               && FState() == old(FState()) && PpmChars == old(PpmChars)
      ensures c.PpmFilter? ==> PpmCodeOutcome(old(PpmChars), old(VMCodeInp.InBuf[..]), old(FState()), flow)
    {
      var ok;
      if c.NewTables? {
        ok, read := ReadTables30();
      } else {
        read := NoInput;
        ok := ReadVMCodePPM();
      }
      flow := if ok then Continue else Break;
    }

    /** How the flow follows a block-header read: no input leaves the loop,
        a PPM header continues exactly when the PPM model started, and LZ
        tables continue exactly when they were read in full; the LZ tables
        are `before` unless LZ tables were read. */
    ghost predicate TablesOutcome(read: TableRead, starts: seq<PpmStart>, prior: seq<nat>, before: Tables, flow: Flow)
      reads this`LD, this`DD, this`LDD, this`RD, this`BD, this`TablesRead3, this`ReadTop
      reads Inp, UnpOldTable
    {
      && (read.NoInput? ==> flow == Break && TableState() == before)
      && (read.PpmBlock? ==> (flow == Continue <==> starts != [] && starts[0].ok) && TableState() == before)
      && (read.LzBlock? ==> LzTablesRead(read, OldTableFor(read, prior), flow == Continue, before))
    }

    /** How the flow and the filter state follow filter code read from the
        PPM stream `chars`: code cut short leaves the loop and changes
        nothing, otherwise the code is added as `AddFilter` says and the
        loop goes on exactly when that succeeds. */
    ghost predicate PpmCodeOutcome(chars: seq<PpmChar>, codeBuf: seq<byte>, prior: FilterState, flow: Flow)
      requires Window.Length > 0 && |codeBuf| == MaxSize
      reads this
    {
      var r := PpmCodeOf(chars);
      && PpmChars == Drop(chars, r.taken)
      && (r.code.None? ==> flow == Break && FState() == prior)
      && (r.code.Some? ==>
            var a := AddFilter(ReadData, Prepare, CodeBuffer(r.code.value.1, codeBuf),
                               r.code.value.0, prior, UnpPtr, WrPtr, Window.Length);
            (flow == Continue <==> a.0) && FState() == a.1)
    }

    /** A pass of the main loop in an LZ block: the symbol the main table
        decodes, as `Classify` names it, is carried out by the method of
        that name. Only the end of a block and filter code can leave the
        loop. */
    method LzStep() returns (flow: Flow, ghost sym: Symbol, ghost length: nat, ghost distance: nat)
      requires Valid() && SlotsReady()
      modifies Inp, Window, OldDist, this`UnpPtr, this`LastLength, this`LowDistRepCount, this`PrevLowDist
      modifies Inp.InBuf, this`ReadTop, this`ReadBorder, this`Packed
      modifies this`UnpBlockType, this`PpmStarts, this`PPMEscChar
      modifies UnpOldTable, this`LD, this`DD, this`LDD, this`RD, this`BD, this`TablesRead3
      modifies VMCodeInp, VMCodeInp.InBuf, this`Filters30, this`OldFilterLengths, this`LastFilter, this`PrgStack
      ensures Valid() && flow != Return
      ensures var d := SymbolAt(Decode, old(LD), old(Inp.InBuf[..]), old(Inp.Position()));
              && sym == Classify(d.symbol)
              && (sym.Literal? ==>
                    && Window[..] == old(Window[..])[old(UnpPtr) := sym.b]
                    && UnpPtr == Advance(old(UnpPtr), 1, Window.Length))
              && (MatchRead(sym, old(Inp.InBuf[..]), old(Inp.Position()) + d.bits, old(OldDist[..]),
                            old(LastLength), old(LowDist(LowDistRepCount, PrevLowDist)), length, distance)
                  <==> MatchSymbol(sym))
              && (MatchSymbol(sym) ==>
                    && Window[..] == CopyWindow(old(Window[..]), old(UnpPtr), length, distance)
                    && UnpPtr == Advance(old(UnpPtr), length, Window.Length))
      ensures !sym.EndOfBlock? && !sym.FilterCode? ==>
                && flow == Continue && FState() == old(FState())
                && LD == old(LD) && DD == old(DD) && LDD == old(LDD) && RD == old(RD) && BD == old(BD)
    {
      ghost var d := SymbolAt(Decode, LD, Inp.InBuf[..], Inp.Position());
      ghost var buf, p0, hist, last, low := Inp.InBuf[..], Inp.Position(), OldDist[..], LastLength, LowDist(LowDistRepCount, PrevLowDist);
      var Number := DecodeNumber(LD);
      assert Number == d.symbol && Inp.Position() == p0 + d.bits && Inp.InBuf[..] == buf;
      var s := Classify(Number);
      sym := s;
      length, distance := 0, 0;
      ghost var pos := p0 + d.bits;
      if s.Literal? {
        PutByte(s.b);
        flow := Continue;
      } else if s.EndOfBlock? || s.FilterCode? {
        flow := LzControl(s);
      } else {
        length, distance := LzMatch(s, buf, pos, hist, last, low);
        flow := Continue;
      }
      MatchReadOnlyMatches(s, buf, pos, hist, last, low, length, distance);
    }

    /** The match symbols of the LZ loop, each carried out by the method of
        its name: `length` bytes are copied from `distance` back, and
        `MatchRead` says how both and the distance history follow from the
        input, the history and the last length. */
    method LzMatch(s: Symbol, ghost buf: seq<byte>, ghost pos: nat, ghost hist: seq<nat>, ghost last: nat, ghost low: LowDist)
      returns (ghost length: nat, ghost distance: nat)
      requires Valid() && SlotsReady() && MatchSymbol(s)
      requires buf == Inp.InBuf[..] && pos == Inp.Position() && hist == OldDist[..] && last == LastLength
      requires low == LowDist(LowDistRepCount, PrevLowDist)
      modifies Inp, Window, OldDist, this`UnpPtr, this`LastLength, this`LowDistRepCount, this`PrevLowDist
      ensures Valid()
      ensures MatchRead(s, buf, pos, hist, last, low, length, distance)
      ensures Window[..] == CopyWindow(old(Window[..]), old(UnpPtr), length, distance)
              && UnpPtr == Advance(old(UnpPtr), length, Window.Length)
    {
      match s
      case LongMatch(k) =>
        length, distance := LongMatchSymbol(k);
      case RepeatLast =>
        length, distance := RepeatLastSymbol();
      case RepeatCached(n) =>
        length, distance := RepeatCachedSymbol(n);
      case ShortMatch(k) =>
        length, distance := ShortMatchSymbol(k);
    }

    /** Symbols 271 and above: `LongMatch`. */
    method LongMatchSymbol(k: nat) returns (ghost length: nat, ghost distance: nat)
      requires Valid() && SlotsReady() && k < |LDecode|
      modifies Inp, Window, OldDist, this`UnpPtr, this`LastLength, this`LowDistRepCount, this`PrevLowDist
      ensures Valid()
      ensures LongMatchRead(k, old(Inp.InBuf[..]), old(Inp.Position()), old(OldDist[..]),
                            old(LowDist(LowDistRepCount, PrevLowDist)), length, distance)
      ensures Window[..] == CopyWindow(old(Window[..]), old(UnpPtr), length, distance)
              && UnpPtr == Advance(old(UnpPtr), length, Window.Length)
    {
      ghost var read;
      length, distance, read := LongMatch(k);
    }

    /** Symbols 263 to 270: `ShortMatch`. */
    method ShortMatchSymbol(k: nat) returns (ghost length: nat, ghost distance: nat)
      requires Valid() && k < |SDDecode|
      modifies Inp, Window, OldDist, this`UnpPtr, this`LastLength
      ensures Valid()
      ensures ShortMatchRead(k, old(Inp.InBuf[..]), old(Inp.Position()), old(OldDist[..]), length, distance)
      ensures Window[..] == CopyWindow(old(Window[..]), old(UnpPtr), length, distance)
              && UnpPtr == Advance(old(UnpPtr), length, Window.Length)
    {
      distance := ShortMatch(k);
      length := 2;
    }

    /** Symbols 259 to 262: `RepeatCached`. */
    method RepeatCachedSymbol(n: nat) returns (ghost length: nat, ghost distance: nat)
      requires Valid() && n < 4
      modifies Inp, Window, OldDist, this`UnpPtr, this`LastLength
      ensures Valid()
      ensures RepeatCachedRead(n, old(Inp.InBuf[..]), old(Inp.Position()), old(OldDist[..]), length, distance)
      ensures Window[..] == CopyWindow(old(Window[..]), old(UnpPtr), length, distance)
              && UnpPtr == Advance(old(UnpPtr), length, Window.Length)
    {
      length, distance := RepeatCached(n);
    }

    /** Symbol 258: `RepeatLast`. */
    method RepeatLastSymbol() returns (ghost length: nat, ghost distance: nat)
      requires Valid()
      modifies Window, this`UnpPtr
      ensures Valid()
      ensures RepeatLastRead(old(OldDist[..]), old(LastLength), length, distance)
      ensures Window[..] == CopyWindow(old(Window[..]), old(UnpPtr), length, distance)
              && UnpPtr == Advance(old(UnpPtr), length, Window.Length)
    {
      length, distance := LastLength, OldDist[0];
      AdvanceNone(UnpPtr, Window.Length);
      RepeatLast();
    }

    /** Whether `s` is one of the match symbols, with its index in range. */
    static predicate MatchSymbol(s: Symbol) {
      || s.RepeatLast? || (s.RepeatCached? && s.n < 4)
      || (s.ShortMatch? && s.k < |SDDecode|) || (s.LongMatch? && s.k < |LDecode|)
    }

    /** The state after the match symbol `s`, its extra bits read from `pos`
        of `buf`, given the distance history `hist`, the last length `last`
        and the low-distance state `low` before it: it copies `length` bytes
        from `distance` back, the history is updated, and the length becomes
        the last length. */
    ghost predicate MatchRead(s: Symbol, buf: seq<byte>, pos: nat, hist: seq<nat>, last: nat, low: LowDist,
                              length: nat, distance: nat)
      reads this`DD, this`LDD, this`RD, OldDist, this`LastLength
    {
      match s
      case LongMatch(k) => LongMatchRead(k, buf, pos, hist, low, length, distance)
      case ShortMatch(k) => ShortMatchRead(k, buf, pos, hist, length, distance)
      case RepeatCached(n) => RepeatCachedRead(n, buf, pos, hist, length, distance)
      case RepeatLast => RepeatLastRead(hist, last, length, distance)
      case _ => false
    }

    /** Only the match symbols copy anything. */
    lemma MatchReadOnlyMatches(s: Symbol, buf: seq<byte>, pos: nat, hist: seq<nat>, last: nat, low: LowDist,
                               length: nat, distance: nat)
      ensures MatchRead(s, buf, pos, hist, last, low, length, distance) ==> MatchSymbol(s)
    {
    }

    /** Symbols 271 and above: the length slot's base and extra bits, a new
        distance as `LongDistanceAt` reads it after them (with its bonus
        added to the length), pushed to the front of the history. */
    ghost predicate LongMatchRead(k: nat, buf: seq<byte>, pos: nat, hist: seq<nat>, low: LowDist,
                                  length: nat, distance: nat)
      reads this`DD, this`LDD, OldDist, this`LastLength
    {
      && k < |LDecode| && |hist| == 4 && |DD| <= DC30
      && distance == LongDistanceAt(Decode, DD, LDD, buf, pos + LBits[k], low).distance
      && length == LongMatchLength(k, ExtraAt(buf, pos, LBits[k]), distance)
      && OldDist[..] == InsertOld(hist, distance) && LastLength == length
    }

    /** Symbols 263 to 270: two bytes from a short distance, its slot's base
        and extra bits, pushed to the front of the history. */
    ghost predicate ShortMatchRead(k: nat, buf: seq<byte>, pos: nat, hist: seq<nat>, length: nat, distance: nat)
      reads OldDist, this`LastLength
    {
      && k < |SDDecode| && |hist| == 4
      && distance == ShortDistance(k, ExtraAt(buf, pos, SDBits[k])) && length == 2
      && OldDist[..] == InsertOld(hist, distance) && LastLength == length
    }

    /** Symbols 259 to 262: entry `n` of the history, moved to its front,
        with a length the repeat table decodes. */
    ghost predicate RepeatCachedRead(n: nat, buf: seq<byte>, pos: nat, hist: seq<nat>, length: nat, distance: nat)
      reads this`RD, OldDist, this`LastLength
    {
      && n < 4 && |hist| == 4 && |RD| <= RC30
      && distance == hist[n] && OldDist[..] == MoveToFront(hist, n)
      && length == RepeatLengthAt(Decode, RD, buf, pos).0 && LastLength == length
    }

    /** Symbol 258: the last match again, the history unchanged. */
    ghost predicate RepeatLastRead(hist: seq<nat>, last: nat, length: nat, distance: nat)
      reads OldDist, this`LastLength
    {
      && |hist| == 4
      && length == last && distance == hist[0] && OldDist[..] == hist && LastLength == length
    }

    /** Symbols 256 and 257 of the LZ loop: the end of a block and filter
        code. A new file, a failed table read or failed filter code leave
        the loop. */
    method LzControl(s: Symbol) returns (flow: Flow)
      requires Valid() && (s.EndOfBlock? || s.FilterCode?)
      modifies Inp, Inp.InBuf, this`ReadTop, this`ReadBorder, this`Packed
      modifies this`UnpBlockType, this`PpmStarts, this`PPMEscChar, this`PrevLowDist, this`LowDistRepCount
      modifies UnpOldTable, this`LD, this`DD, this`LDD, this`RD, this`BD, this`TablesRead3
      modifies VMCodeInp, VMCodeInp.InBuf, this`Filters30, this`OldFilterLengths, this`LastFilter, this`PrgStack
      ensures Valid() && flow != Return
    {
      var ok;
      if s.EndOfBlock? {
        ghost var e, read;
        ok, e, read := ReadEndOfBlock();
      } else {
        ghost var added, code, rest;
        ok, added, code, rest := ReadVMCode();
      }
      flow := if ok then Continue else Break;
    }

    /** A pass of the main loop: its start, then a pass of the PPM or the LZ
        loop as the block type says. */
    method DecodeStep() returns (flow: Flow)
      requires Valid() && SlotsReady()
      modifies Inp, Inp.InBuf, this`ReadTop, this`ReadBorder, this`Packed
      modifies this`PrgStack, this`Output, this`WrittenFileSize, this`WrPtr, this`FileExtracted
      modifies this`PpmChars, this`PpmCleanUps, this`UnpBlockType, Window, this`UnpPtr
      modifies this`PpmStarts, this`PPMEscChar, this`PrevLowDist, this`LowDistRepCount
      modifies UnpOldTable, this`LD, this`DD, this`LDD, this`RD, this`BD, this`TablesRead3
      modifies VMCodeInp, VMCodeInp.InBuf, this`Filters30, this`OldFilterLengths, this`LastFilter
      modifies OldDist, this`LastLength
      ensures Valid()
      ensures old(Output) <= Output && WrittenFileSize == old(WrittenFileSize) + (|Output| - |old(Output)|)
      ensures flow == Return ==> WrittenFileSize > DestUnpSize || (Suspended && !FileExtracted)
      ensures flow != Return ==> FileExtracted == old(FileExtracted)
      ensures FileExtracted == old(FileExtracted) || (Suspended && !FileExtracted)
    {
      flow := LoopTop();
      if flow != Continue {
        return;
      }
      flow := BlockStep();
    }

    /** The rest of a pass of the main loop: a pass of the PPM or the LZ
        loop as the block type says. Neither writes the output. */
    method BlockStep() returns (flow: Flow)
      requires Valid() && SlotsReady()
      modifies Inp, Inp.InBuf, this`ReadTop, this`ReadBorder, this`Packed, this`PrgStack
      modifies this`PpmChars, this`PpmCleanUps, this`UnpBlockType, Window, this`UnpPtr
      modifies this`PpmStarts, this`PPMEscChar, this`PrevLowDist, this`LowDistRepCount
      modifies UnpOldTable, this`LD, this`DD, this`LDD, this`RD, this`BD, this`TablesRead3
      modifies VMCodeInp, VMCodeInp.InBuf, this`Filters30, this`OldFilterLengths, this`LastFilter
      modifies OldDist, this`LastLength
      ensures Valid() && flow != Return
    {
      if UnpBlockType == BlockPpm {
        ghost var cmd, read;
        flow, cmd, read := PpmStep();
      } else {
        ghost var sym, length, distance;
        flow, sym, length, distance := LzStep();
      }
    }

    /** `Unpack29`: fills the distance slots on first use, and unless the
        extraction resumes after a suspension, resets the decoder, fills the
        input buffer and reads the first tables (not needed when a solid
        archive has them already). Then the main loop runs, for at most
        `fuel` passes, and the window is flushed once the loop is left.
        Everything the decoder writes is appended to `Output` and counted in
        `WrittenFileSize`, and the file is marked as not extracted only
        when the extraction is suspended. */
    method Unpack29(Solid: bool, fuel: nat)
      requires Valid() && (DDecode[1] == 0 || SlotsReady())
      modifies DDecode, DBits
      modifies Inp, Inp.InBuf, this`ReadTop, this`ReadBorder, this`Packed
      modifies this`PrgStack, this`Output, this`WrittenFileSize, this`WrPtr, this`FileExtracted
      modifies this`PpmChars, this`PpmCleanUps, this`UnpBlockType, Window, this`UnpPtr
      modifies this`PpmStarts, this`PPMEscChar, this`PrevLowDist, this`LowDistRepCount
      modifies UnpOldTable, this`LD, this`DD, this`LDD, this`RD, this`BD, this`TablesRead3
      modifies VMCodeInp, VMCodeInp.InBuf, this`Filters30, this`OldFilterLengths, this`LastFilter
      modifies OldDist, this`LastLength
      ensures Valid() && SlotsReady()
      ensures old(Output) <= Output
      ensures WrittenFileSize == (if old(Suspended) then old(WrittenFileSize) else 0) + (|Output| - |old(Output)|)
      ensures !Suspended ==> FileExtracted
    {
      if DDecode[1] == 0 {
        InitDistanceSlots();
      }
      FileExtracted := true;
      ExtractFile(Solid, fuel);
    }

    /** `Unpack29` once the distance slots are filled in: unless the
        extraction resumes after a suspension, the start of a file, then the
        main loop. */
    method ExtractFile(Solid: bool, fuel: nat)
      requires Valid() && SlotsReady()
      modifies Inp, Inp.InBuf, this`ReadTop, this`ReadBorder, this`Packed
      modifies this`PrgStack, this`Output, this`WrittenFileSize, this`WrPtr, this`FileExtracted
      modifies this`PpmChars, this`PpmCleanUps, this`UnpBlockType, Window, this`UnpPtr
      modifies this`PpmStarts, this`PPMEscChar, this`PrevLowDist, this`LowDistRepCount
      modifies UnpOldTable, this`LD, this`DD, this`LDD, this`RD, this`BD, this`TablesRead3
      modifies VMCodeInp, VMCodeInp.InBuf, this`Filters30, this`OldFilterLengths, this`LastFilter
      modifies OldDist, this`LastLength
      ensures Valid()
      ensures old(Output) <= Output
      ensures WrittenFileSize == (if Suspended then old(WrittenFileSize) else 0) + (|Output| - |old(Output)|)
      ensures FileExtracted == old(FileExtracted) || (Suspended && !FileExtracted)
    {
      if !Suspended {
        var ok := StartFile(Solid);
        if !ok {
          return;
        }
      }
      DecodeLoop(fuel);
    }

    /** The start of a file in `Unpack29`: the decoder is reset, the input
        buffer filled and, unless a solid archive has them already, the
        first tables read. Nothing is written. */
    method StartFile(Solid: bool) returns (ok: bool)
      requires Valid()
      modifies Inp, Inp.InBuf, this`ReadTop, this`ReadBorder, this`Packed
      modifies this`PrgStack, this`WrittenFileSize, this`WrPtr, this`UnpBlockType, this`UnpPtr
      modifies this`PpmStarts, this`PPMEscChar, this`PrevLowDist, this`LowDistRepCount
      modifies UnpOldTable, this`LD, this`DD, this`LDD, this`RD, this`BD, this`TablesRead3
      modifies this`Filters30, this`OldFilterLengths, this`LastFilter
      modifies OldDist, this`LastLength
      ensures Valid() && WrittenFileSize == 0
    {
      UnpInitData(Solid);
      ok := ReadFirstTables(Solid);
    }

    /** The input buffer filled and, unless a solid archive has them
        already, the first tables read. */
    method ReadFirstTables(Solid: bool) returns (ok: bool)
      requires Valid()
      modifies Inp, Inp.InBuf, this`ReadTop, this`ReadBorder, this`Packed
      modifies this`UnpBlockType, this`PpmStarts, this`PPMEscChar, this`PrevLowDist, this`LowDistRepCount
      modifies UnpOldTable, this`LD, this`DD, this`LDD, this`RD, this`BD, this`TablesRead3
      ensures Valid()
    {
      ok := UnpReadBuf30();
      if !ok {
        return;
      }
      if !Solid || !TablesRead3 {
        ghost var read;
        ok, read := ReadTables30();
      }
    }

    /** The main loop of `Unpack29`, for at most `fuel` passes, then the
        final flush of the window unless a pass returned. */
    method DecodeLoop(fuel: nat)
      requires Valid() && SlotsReady()
      modifies Inp, Inp.InBuf, this`ReadTop, this`ReadBorder, this`Packed
      modifies this`PrgStack, this`Output, this`WrittenFileSize, this`WrPtr, this`FileExtracted
      modifies this`PpmChars, this`PpmCleanUps, this`UnpBlockType, Window, this`UnpPtr
      modifies this`PpmStarts, this`PPMEscChar, this`PrevLowDist, this`LowDistRepCount
      modifies UnpOldTable, this`LD, this`DD, this`LDD, this`RD, this`BD, this`TablesRead3
      modifies VMCodeInp, VMCodeInp.InBuf, this`Filters30, this`OldFilterLengths, this`LastFilter
      modifies OldDist, this`LastLength
      ensures Valid()
      ensures old(Output) <= Output && WrittenFileSize == old(WrittenFileSize) + (|Output| - |old(Output)|)
      ensures FileExtracted == old(FileExtracted) || (Suspended && !FileExtracted)
    {
      var f := fuel;
      while f > 0
        invariant Valid() && SlotsReady()
        invariant old(Output) <= Output && WrittenFileSize == old(WrittenFileSize) + (|Output| - |old(Output)|)
        invariant FileExtracted == old(FileExtracted)
      {
        var flow := DecodeStep();
        if flow == Return {
          return;
        }
        if flow == Break {
          break;
        }
        f := f - 1;
      }
      UnpWriteBuf30();
    }

  }
}
