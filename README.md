# RAR 3.x decompression core, identifier pool and value utilities, in Dafny

This project models four parts of a .NET runtime library and proves properties of the models:

- **The RAR 3.x (`Unpack29`) decoder.** It lives in the vendored SharpCompress port of unrar's `unpack30.cpp`. In this repository that file, `Unpack.unpack30_cpp.cs`, is one block comment from line 13 to line 797, so it is never compiled; the model follows its text. The decoder is a class, `Rar30.Unpack`, whose fields are the decoder's state:
  - the sliding window and its read and write positions;
  - the four-entry distance cache;
  - the Huffman tables;
  - the low-distance repeat state;
  - the filter registry and the pending-filter stack;
  - the bit reader over the input buffer.

  Its methods follow the C# methods one by one. They cover the main loop with its PPM and LZ branches, the end-of-block marker, filter code read from both streams, `AddVMCode`, the buffer refill, the filtered flush `UnpWriteBuf30`, the table reader `ReadTables30` and the initialisers. Each method is proved against pure specification functions in the modules `Rar30Tables`, `Rar30Codes`, `Rar30Filters`, `Rar30FilterCode` and `Rar30Ppm`. Lemmas then prove what the format promises about those functions:
  - the slot tables tile their ranges;
  - a long match is 3..260 bytes;
  - the distance cache is move-to-front;
  - the low-distance repeat run lasts 16 matches;
  - PPM escapes and PPM filter code round-trip;
  - compaction keeps the pending filters in order;
  - the flush appends exactly what it counts and keeps deferred filters.
- **`IdPool`** (`Types.IdPool`): hands out increasing identifiers and takes released ones back. Its pool is always trimmed: only identifiers below the last one handed out are kept as disposed. That makes the pair (`last`, `disposed`) determined by the set of live identifiers.
- **`Arithmetic`**: the exact-ceiling divisions, ZigZag encoding, the variable-length integer size and `Div8Ceil`.
- **`Values`**: `Min`, `Max`, `Clamp`, `In` and the dictionary `Merge`.

`Wrappers` holds the `Option` type. The integer widths of the source are explicit:
- `ulong`, `uint`, `ushort` and `byte` are subset types;
- `CeilingExact` wraps where the source wraps;
- `ZigZagEncode` is modelled bit for bit on 64 bits.

## Model

| member | source | states |
|---|---|---|
| Rar30Tables.LengthSlotsTile | Runtime/Vendor/SharpCompress/Compressors/Rar/UnpackV2017/Unpack.unpack30_cpp.cs:35-36 | the 28 length slots `LDecode`/`LBits` tile 0..255: each slot starts where the previous one ends |
| Rar30Tables.ShortDistanceSlotsTile | Runtime/Vendor/SharpCompress/Compressors/Rar/UnpackV2017/Unpack.unpack30_cpp.cs:40-41 | the 8 short-distance slots `SDDecode`/`SDBits` tile 0..255 the same way |
| Rar30Tables.SlotBitsOfGroup | Runtime/Vendor/SharpCompress/Compressors/Rar/UnpackV2017/Unpack.unpack30_cpp.cs:49-55 | the slot filled at step J of group I of `DBitLengthCounts` gets I extra bits |
| Rar30Tables.DistanceSlotsTile | Runtime/Vendor/SharpCompress/Compressors/Rar/UnpackV2017/Unpack.unpack30_cpp.cs:49-55 | each of the 60 distance slots starts where the previous one ends (`Dist += 1 << BitLength`) |
| Rar30Tables.SlotNext | Runtime/Vendor/SharpCompress/Compressors/Rar/UnpackV2017/Unpack.unpack30_cpp.cs:51-54 | one inner step of the slot loop: the slot is below 60, has I extra bits, and the next base is `Dist + 2^I` |
| Rar30Tables.DistanceSlotsRange | Runtime/Vendor/SharpCompress/Compressors/Rar/UnpackV2017/Unpack.unpack30_cpp.cs:49-55 | the distance slots start at 0 and together cover exactly 0 .. 2^22 |
| Rar30Tables.SlotBaseMonotonic | Runtime/Vendor/SharpCompress/Compressors/Rar/UnpackV2017/Unpack.unpack30_cpp.cs:49-55 | slot bases strictly increase |
| Rar30Tables.SlotCovers | Runtime/Vendor/SharpCompress/Compressors/Rar/UnpackV2017/Unpack.unpack30_cpp.cs:49-55 | every distance below 2^22 lies in some slot |
| Rar30Tables.SlotUnique | Runtime/Vendor/SharpCompress/Compressors/Rar/UnpackV2017/Unpack.unpack30_cpp.cs:49-55 | no distance lies in two slots |
| Rar30Tables.FindSlot | Runtime/Vendor/SharpCompress/Compressors/Rar/UnpackV2017/Unpack.unpack30_cpp.cs:49-55 | the slot holding a distance is found from any slot below it |
| Rar30Tables.Classify | Runtime/Vendor/SharpCompress/Compressors/Rar/UnpackV2017/Unpack.unpack30_cpp.cs:156-270 | the symbol classes in the order the loop tests them: literal below 256, 256 end of block, 257 filter code, 258 repeat last, 259..262 cached distance n = symbol - 259, 263..270 short match, and 271 and above a long match (271 is a long match) |
| Rar30Tables.DistanceBonus | Runtime/Vendor/SharpCompress/Compressors/Rar/UnpackV2017/Unpack.unpack30_cpp.cs:209-214 | the length bonus is 0 below 0x2000, 2 from 0x40000, 1 in between |
| Rar30Tables.LongMatchLengthRange | Runtime/Vendor/SharpCompress/Compressors/Rar/UnpackV2017/Unpack.unpack30_cpp.cs:164-214 | a long match is 3..260 bytes long; a larger distance never shortens it and adds at most 2 |
| Rar30Tables.ShortDistanceRange | Runtime/Vendor/SharpCompress/Compressors/Rar/UnpackV2017/Unpack.unpack30_cpp.cs:260-265 | a short distance is 1..256 and the slots are ordered |
| Rar30Tables.MoveToFrontIsRotation | Runtime/Vendor/SharpCompress/Compressors/Rar/UnpackV2017/Unpack.unpack30_cpp.cs:241-245 | taking cache entry n moves it to the front, shifts entries 0..n-1 up by one, leaves the entries above n alone and is a permutation |
| Rar30Tables.InsertOldOfLastIsMoveToFront | Runtime/Vendor/SharpCompress/Compressors/Rar/UnpackV2017/Unpack.unpack30_cpp.cs:216-245 | inserting a new distance drops the oldest entry: for the oldest value it is the same as moving entry 3 to the front |
| Rar30Tables.LowDistRepeatRun | Runtime/Vendor/SharpCompress/Compressors/Rar/UnpackV2017/Unpack.unpack30_cpp.cs:182-199 | after LDD symbol 16, the next 16 long matches (the one that read it and 15 more) all add `PrevLowDist` |
| Rar30Tables.CountdownRun | Runtime/Vendor/SharpCompress/Compressors/Rar/UnpackV2017/Unpack.unpack30_cpp.cs:182-186 | while the repeat counter is positive each long match adds `PrevLowDist` without reading a symbol |
| Rar30Tables.DecodeEndOfBlock | Runtime/Vendor/SharpCompress/Compressors/Rar/UnpackV2017/Unpack.unpack30_cpp.cs:279-297 | a leading 1 bit takes 1 bit and means a new table in the same file; a leading 0 takes 2 bits, means a new file, and the second bit says whether a new table follows |
| Rar30Tables.CodeLength | Runtime/Vendor/SharpCompress/Compressors/Rar/UnpackV2017/Unpack.unpack30_cpp.cs:313-366 | filter code length: `(FirstByte & 7) + 1` for 1..6, the next byte + 7 for 7, the next 16 bits for 8; it is 0 only in the last case |
| Rar30Tables.BdTokenOf | Runtime/Vendor/SharpCompress/Compressors/Rar/UnpackV2017/Unpack.unpack30_cpp.cs:675-692 | a bit-length nibble: 15 then 0 is a literal 15; 15 then z > 0 is z + 2 zeros; anything else is itself |
| Rar30Tables.BdApplyBounds | Runtime/Vendor/SharpCompress/Compressors/Rar/UnpackV2017/Unpack.unpack30_cpp.cs:673-693 | the bit-length table never grows past `BC` entries and holds nibbles |
| Rar30Tables.LengthCodeOf | Runtime/Vendor/SharpCompress/Compressors/Rar/UnpackV2017/Unpack.unpack30_cpp.cs:702-746 | main-table symbols: below 16 a delta; 16/17 repeat the previous entry 3 + (3 bits) / 11 + (7 bits) times; 18/19 the same counts of zeros |
| Rar30Tables.TableFoldBounds | Runtime/Vendor/SharpCompress/Compressors/Rar/UnpackV2017/Unpack.unpack30_cpp.cs:697-747 | the main table never grows past `TableSize` and holds nibbles `(sym + old[i]) & 0xf` |
| Rar30Tables.TableFoldRepeatFirst | Runtime/Vendor/SharpCompress/Compressors/Rar/UnpackV2017/Unpack.unpack30_cpp.cs:722-723 | a repeat of the previous entry at position 0 fails |
| Rar30Tables.TableFoldProgress | Runtime/Vendor/SharpCompress/Compressors/Rar/UnpackV2017/Unpack.unpack30_cpp.cs:697-747 | every code writes at least one entry, so the loop ends |
| Rar30Tables.TableFoldNext | Runtime/Vendor/SharpCompress/Compressors/Rar/UnpackV2017/Unpack.unpack30_cpp.cs:697-747 | the table after one more code is one more step of the fold |
| Rar30Codes.BdTokensStep | Runtime/Vendor/SharpCompress/Compressors/Rar/UnpackV2017/Unpack.unpack30_cpp.cs:673-693 | the bit-length tokens read from a position, one token at a time |
| Rar30Codes.BdApplyNext | Runtime/Vendor/SharpCompress/Compressors/Rar/UnpackV2017/Unpack.unpack30_cpp.cs:673-693 | each token appends its entries after those already written |
| Rar30Codes.BdShortStep | Runtime/Vendor/SharpCompress/Compressors/Rar/UnpackV2017/Unpack.unpack30_cpp.cs:673-693 | the table stays short before each token of the prefix it is read from |
| Rar30Codes.BdCompleteUnique | Runtime/Vendor/SharpCompress/Compressors/Rar/UnpackV2017/Unpack.unpack30_cpp.cs:673-693 | the number of tokens read is determined by the input |
| Rar30Input.ShrDiv | Runtime/Vendor/SharpCompress/Compressors/Rar/UnpackV2017/Unpack.unpack30_cpp.cs:167 | `x >> s` as s halvings is `x / 2^s` |
| Rar30Input.BitInput.GetBits | Runtime/Vendor/SharpCompress/Compressors/Rar/UnpackV2017/Unpack.unpack30_cpp.cs:279 | `getbits`: the 16 bits at the current bit position, first bit most significant |
| Rar30Input.BitInput.AddBits | Runtime/Vendor/SharpCompress/Compressors/Rar/UnpackV2017/Unpack.unpack30_cpp.cs:289 | `addbits`: the position moves on by exactly that many bits |
| Rar30Input.BitInput.AlignToByte | Runtime/Vendor/SharpCompress/Compressors/Rar/UnpackV2017/Unpack.unpack30_cpp.cs:657 | `faddbits((8 - InBit) & 7)` moves to the next byte boundary |
| Rar30Filters.CompactKeepsFilters | Runtime/Vendor/SharpCompress/Compressors/Rar/UnpackV2017/Unpack.unpack30_cpp.cs:433-441 | compaction slides the non-null entries to the front in their order, nulls the tail, keeps the length, and changes nothing without nulls |
| Rar30Filters.CompactInWindow | Runtime/Vendor/SharpCompress/Compressors/Rar/UnpackV2017/Unpack.unpack30_cpp.cs:433-441 | compaction keeps every pending block inside the window |
| Rar30Filters.Chain | Runtime/Vendor/SharpCompress/Compressors/Rar/UnpackV2017/Unpack.unpack30_cpp.cs:593-615 | the chain loop runs the next entry only when it is present, has the same start, expects exactly the previous output size and is not deferred; it only nulls entries |
| Rar30Filters.ChainEntries | Runtime/Vendor/SharpCompress/Compressors/Rar/UnpackV2017/Unpack.unpack30_cpp.cs:593-615 | the entries the chain ran are exactly the ones after I up to the last, all present, not deferred and at the same start; nothing else changes |
| Rar30Filters.ClearNextWindow | Runtime/Vendor/SharpCompress/Compressors/Rar/UnpackV2017/Unpack.unpack30_cpp.cs:626-631 | clearing the `NextWindow` flags from I on keeps the stack length |
| Rar30Filters.WriteTo | Runtime/Vendor/SharpCompress/Compressors/Rar/UnpackV2017/Unpack.unpack30_cpp.cs:565-570 | writing up to the filter start appends to the output and counts the bytes |
| Rar30Filters.ExecRegistersCast | Runtime/Vendor/SharpCompress/Compressors/Rar/UnpackV2017/Unpack.unpack30_cpp.cs:645 | register 6 is the written size cast to `uint`: below 2^32, equal to the count when it fits and congruent to it mod 2^32; the other registers are the filter's own |
| Rar30Filters.RunEntry | Runtime/Vendor/SharpCompress/Compressors/Rar/UnpackV2017/Unpack.unpack30_cpp.cs:571-620 | running a filter block and its chain appends the filtered data and moves past the entries run |
| Rar30Filters.RunEntryEntries | Runtime/Vendor/SharpCompress/Compressors/Rar/UnpackV2017/Unpack.unpack30_cpp.cs:591-614 | the entries run become null, and they were present and not deferred |
| Rar30Filters.FlushStep | Runtime/Vendor/SharpCompress/Compressors/Rar/UnpackV2017/Unpack.unpack30_cpp.cs:553-635 | one pass of the flush loop: skip a null entry, clear and skip a deferred one, run a block that fits, or stop short at a block that does not |
| Rar30Filters.Flush | Runtime/Vendor/SharpCompress/Compressors/Rar/UnpackV2017/Unpack.unpack30_cpp.cs:541-640 | the whole flush keeps the stack length and appends to the output exactly what it counts as written |
| Rar30Filters.StepEntries | Runtime/Vendor/SharpCompress/Compressors/Rar/UnpackV2017/Unpack.unpack30_cpp.cs:553-635 | a pass changes no entry before or after the ones it visits, and an entry it keeps only loses its `NextWindow` flag |
| Rar30Filters.FlushEntries | Runtime/Vendor/SharpCompress/Compressors/Rar/UnpackV2017/Unpack.unpack30_cpp.cs:545-636 | after the flush every remaining entry is an old one with `NextWindow` cleared; executed entries are null |
| Rar30Filters.FlushKeepsDeferred | Runtime/Vendor/SharpCompress/Compressors/Rar/UnpackV2017/Unpack.unpack30_cpp.cs:556-631 | a deferred filter is kept with its flag cleared, whether the flush finishes or stops short |
| Rar30Filters.FlushAppends | Runtime/Vendor/SharpCompress/Compressors/Rar/UnpackV2017/Unpack.unpack30_cpp.cs:616-638 | the output only grows, by exactly the bytes counted in `WrittenFileSize` |
| Rar30Filters.FlushStopsAtFilter | Runtime/Vendor/SharpCompress/Compressors/Rar/UnpackV2017/Unpack.unpack30_cpp.cs:632-639 | `WrPtr` ends at `UnpPtr`, or at the start of a pending filter block when the flush stopped short |
| Rar30Filters.FlushWithoutFilters | Runtime/Vendor/SharpCompress/Compressors/Rar/UnpackV2017/Unpack.unpack30_cpp.cs:638-639 | with no pending filters the flush writes the window from `WrPtr` to `UnpPtr` and sets `WrPtr = UnpPtr` |
| Rar30FilterCode.CodeBuffer | Runtime/Vendor/SharpCompress/Compressors/Rar/UnpackV2017/Unpack.unpack30_cpp.cs:383-385 | the code is copied over the start of the VM input buffer, at most `MAX_SIZE` bytes |
| Rar30FilterCode.InitRegs | Runtime/Vendor/SharpCompress/Compressors/Rar/UnpackV2017/Unpack.unpack30_cpp.cs:486-488 | seven registers after the mask loop; the bit position only moves forward |
| Rar30FilterCode.InitRegsKeeps | Runtime/Vendor/SharpCompress/Compressors/Rar/UnpackV2017/Unpack.unpack30_cpp.cs:486-488 | only the registers from `i` on whose mask bit is set are read; the others keep their values |
| Rar30FilterCode.InitRegsStep | Runtime/Vendor/SharpCompress/Compressors/Rar/UnpackV2017/Unpack.unpack30_cpp.cs:486-488 | one register step of the mask loop |
| Rar30FilterCode.RegistersAt | Runtime/Vendor/SharpCompress/Compressors/Rar/UnpackV2017/Unpack.unpack30_cpp.cs:479-489 | seven initial registers, read from the bit position on |
| Rar30FilterCode.RegistersAtDefaults | Runtime/Vendor/SharpCompress/Compressors/Rar/UnpackV2017/Unpack.unpack30_cpp.cs:479-489 | registers are 0 except `InitR[4] = BlockLength`, unless flag 0x10 and the mask name them |
| Rar30FilterCode.LengthAt | Runtime/Vendor/SharpCompress/Compressors/Rar/UnpackV2017/Unpack.unpack30_cpp.cs:459-473 | with flag 0x20 the block length is read and stored in `OldFilterLengths[FiltPos]`; otherwise the stored one is reused; no other entry changes |
| Rar30FilterCode.QueuedFilter | Runtime/Vendor/SharpCompress/Compressors/Rar/UnpackV2017/Unpack.unpack30_cpp.cs:455-475 | the queued filter starts inside the window at `(BlockStart + UnpPtr) & MaxWinMask`, with the given length, parent and registers |
| Rar30FilterCode.FieldsAt | Runtime/Vendor/SharpCompress/Compressors/Rar/UnpackV2017/Unpack.unpack30_cpp.cs:455-489 | the queued filter read from the code: block in the window, parent `FiltPos`, seven registers |
| Rar30FilterCode.ByteAtTwoBytes | Runtime/Vendor/SharpCompress/Compressors/Rar/UnpackV2017/Unpack.unpack30_cpp.cs:336 | a byte read at a bit offset depends only on the two input bytes holding it |
| Rar30FilterCode.CodeBytes | Runtime/Vendor/SharpCompress/Compressors/Rar/UnpackV2017/Unpack.unpack30_cpp.cs:497-503 | reading the program bytes gives exactly the requested count when it does not overflow |
| Rar30FilterCode.ProgramAt | Runtime/Vendor/SharpCompress/Compressors/Rar/UnpackV2017/Unpack.unpack30_cpp.cs:493-503 | new filter code has 1..0xFFFF bytes |
| Rar30FilterCode.PlacedQueues | Runtime/Vendor/SharpCompress/Compressors/Rar/UnpackV2017/Unpack.unpack30_cpp.cs:433-453 | the new entry lands at index `Count - EmptyCount`, after all pending filters in order; a slot is added only when none was empty |
| Rar30FilterCode.AddFilterQueues | Runtime/Vendor/SharpCompress/Compressors/Rar/UnpackV2017/Unpack.unpack30_cpp.cs:388-506 | `AddVMCode` on success queues the filter after the pending ones (none after a reset) for an existing registry entry, with its program type; the registry grows by one exactly when position == Count; `LastFilter` names the entry |
| Rar30FilterCode.PlacedInWindow | Runtime/Vendor/SharpCompress/Compressors/Rar/UnpackV2017/Unpack.unpack30_cpp.cs:452-458 | queuing keeps every pending block inside the window |
| Rar30Ppm.FirstMissing | Runtime/Vendor/SharpCompress/Compressors/Rar/UnpackV2017/Unpack.unpack30_cpp.cs:370-376 | the first -1 among the next n PPM characters |
| Rar30Ppm.PpmCommandOf | Runtime/Vendor/SharpCompress/Compressors/Rar/UnpackV2017/Unpack.unpack30_cpp.cs:94-153 | an escape command: 0 new tables, 2 end of file, 3 filter code, 4 match of 32..287 bytes at distance 2..2^24+1, 5 run of 4..259 bytes; -1 anywhere is corrupt data |
| Rar30Ppm.PpmRoundTrip | Runtime/Vendor/SharpCompress/Compressors/Rar/UnpackV2017/Unpack.unpack30_cpp.cs:94-153 | decoding the characters that encode a command gives the command back and consumes exactly them |
| Rar30Ppm.PpmCodeReads | Runtime/Vendor/SharpCompress/Compressors/Rar/UnpackV2017/Unpack.unpack30_cpp.cs:343-378 | PPM filter code: a header of 1..3 characters giving a length > 0, then that many bytes; -1 anywhere fails |
| Rar30Ppm.PpmCodeRoundTrip | Runtime/Vendor/SharpCompress/Compressors/Rar/UnpackV2017/Unpack.unpack30_cpp.cs:343-378 | decoding an encoded header and code gives the first byte and the code back |
| Rar30Ppm.PpmCodeComplete | Runtime/Vendor/SharpCompress/Compressors/Rar/UnpackV2017/Unpack.unpack30_cpp.cs:343-378 | a complete header and code are read whole |
| Rar30.Unpack.constructor | Runtime/Vendor/SharpCompress/Compressors/Rar/UnpackV2017/Unpack.unpack30_cpp.cs:37-38 | a fresh decoder: valid state, distance slots not yet built (`DDecode[1] == 0`), nothing written |
| Rar30.Unpack.SafePPMDecodeChar | Runtime/Vendor/SharpCompress/Compressors/Rar/UnpackV2017/Unpack.unpack30_cpp.cs:23-32 | takes the next PPM character; on -1 the PPM model is cleaned up and the block type becomes LZ, otherwise nothing else changes |
| Rar30.Unpack.DecodeInit | Runtime/Vendor/SharpCompress/Compressors/Rar/UnpackV2017/Unpack.unpack30_cpp.cs:662 | `PPM.DecodeInit` reports the next supplied outcome and sets the escape character |
| Rar30.Unpack.DecodeNumber | Runtime/Vendor/SharpCompress/Compressors/Rar/UnpackV2017/Unpack.unpack30_cpp.cs:156 | a symbol decoded from a table consumes the bits its code takes |
| Rar30.Unpack.MoveUnread | Runtime/Vendor/SharpCompress/Compressors/Rar/UnpackV2017/Unpack.unpack30_cpp.cs:525-529 | the unread bytes move to the start of the buffer and stay the same |
| Rar30.Unpack.UnpReadBuf30 | Runtime/Vendor/SharpCompress/Compressors/Rar/UnpackV2017/Unpack.unpack30_cpp.cs:512-538 | fails at once when `InAddr > ReadTop`; otherwise compacts past half the buffer, keeps the unread bytes, sets `ReadBorder = ReadTop - 30`, and succeeds unless the read fails |
| Rar30.Unpack.ReadBitLengths | Runtime/Vendor/SharpCompress/Compressors/Rar/UnpackV2017/Unpack.unpack30_cpp.cs:673-693 | the bit-length table is the tokens read from the input applied in order, stopping when the table is full |
| Rar30.Unpack.ReadBdToken | Runtime/Vendor/SharpCompress/Compressors/Rar/UnpackV2017/Unpack.unpack30_cpp.cs:675-692 | one token: a nibble, or 15 and a zero count, writing its entries after those already written |
| Rar30.Unpack.ReadLengthCode | Runtime/Vendor/SharpCompress/Compressors/Rar/UnpackV2017/Unpack.unpack30_cpp.cs:702-746 | one main-table code read from the input and applied at position I; a repeat at position 0 fails |
| Rar30.Unpack.ReadRunCount | Runtime/Vendor/SharpCompress/Compressors/Rar/UnpackV2017/Unpack.unpack30_cpp.cs:712-743 | the run count of symbols 16..19 from 3 or 7 bits |
| Rar30.Unpack.ApplyLengthCode | Runtime/Vendor/SharpCompress/Compressors/Rar/UnpackV2017/Unpack.unpack30_cpp.cs:703-746 | applying a code writes its entries, clipped at `TableSize` |
| Rar30.Unpack.FillRun | Runtime/Vendor/SharpCompress/Compressors/Rar/UnpackV2017/Unpack.unpack30_cpp.cs:725-745 | a run writes its value until the count or the table runs out; the rest is unchanged |
| Rar30.Unpack.ReadLengthTable | Runtime/Vendor/SharpCompress/Compressors/Rar/UnpackV2017/Unpack.unpack30_cpp.cs:697-747 | the main table is the fold of the codes read; a failure is a refill that failed or a repeat at position 0 |
| Rar30.Unpack.ReadTables30 | Runtime/Vendor/SharpCompress/Compressors/Rar/UnpackV2017/Unpack.unpack30_cpp.cs:650-758 | aligns, reads the header; bit 15 starts a PPM block (`DecodeInit`); otherwise LZ: resets `PrevLowDist`/`LowDistRepCount`, clears the old table unless bit 14, reads both tables, and on success the four tables and `UnpOldTable` are the new table; on failure they are as they were (cleared first unless bit 14), and `TablesRead3` is set only by a whole main table whose reading overran the input; a PPM header or no input leaves the tables and `TablesRead3` alone |
| Rar30.Unpack.StartPpmBlock | Runtime/Vendor/SharpCompress/Compressors/Rar/UnpackV2017/Unpack.unpack30_cpp.cs:659-663 | a PPM header sets the block type to PPM and returns what `DecodeInit` reports |
| Rar30.Unpack.StartLzBlock | Runtime/Vendor/SharpCompress/Compressors/Rar/UnpackV2017/Unpack.unpack30_cpp.cs:664-671 | an LZ header sets the block type to LZ and resets the low-distance repeat state |
| Rar30.Unpack.ReadHeader | Runtime/Vendor/SharpCompress/Compressors/Rar/UnpackV2017/Unpack.unpack30_cpp.cs:654-658 | the header is the 16 bits at the next byte boundary |
| Rar30.Unpack.ReadLzBlock | Runtime/Vendor/SharpCompress/Compressors/Rar/UnpackV2017/Unpack.unpack30_cpp.cs:669-757 | the old table is cleared unless bit 14 is set, then both tables are read; a failed read leaves the four tables as they were and `UnpOldTable` as cleared or kept |
| Rar30.Unpack.ReadLzTables | Runtime/Vendor/SharpCompress/Compressors/Rar/UnpackV2017/Unpack.unpack30_cpp.cs:671-757 | the bit-length table and then the main table read from the input; a failed read leaves `UnpOldTable` and the four tables as they were, and `TablesRead3` too unless a whole table overran the input |
| Rar30.Unpack.ReadBdTable | Runtime/Vendor/SharpCompress/Compressors/Rar/UnpackV2017/Unpack.unpack30_cpp.cs:673-692 | `BD` is the bit-length table the 4-bit tokens at the position describe, zero runs included |
| Rar30.Unpack.ReadMainTable | Runtime/Vendor/SharpCompress/Compressors/Rar/UnpackV2017/Unpack.unpack30_cpp.cs:694-757 | on success `TablesRead3` is set and the tables are split `NC30`/`DC30`/`LDC30`/`RC30` out of the new table, which becomes `UnpOldTable`; on failure `UnpOldTable` and the four tables are unchanged and the description was rejected or the input ran out; a whole table sets `TablesRead3` even when its reading overran the input, any other failure leaves it unchanged |
| Rar30.Unpack.SetTables | Runtime/Vendor/SharpCompress/Compressors/Rar/UnpackV2017/Unpack.unpack30_cpp.cs:751-756 | the four tables are consecutive slices of the table, which is copied to `UnpOldTable` |
| Rar30.Unpack.ClearOldTable | Runtime/Vendor/SharpCompress/Compressors/Rar/UnpackV2017/Unpack.unpack30_cpp.cs:670 | the old table becomes all zeros |
| Rar30.Unpack.CopyString | Runtime/Vendor/SharpCompress/Compressors/Rar/UnpackV2017/Unpack.unpack30_cpp.cs:216-218 | the match copies bytes one at a time from `distance` back in the circular window |
| Rar30.Unpack.InsertOldDist | Runtime/Vendor/SharpCompress/Compressors/Rar/UnpackV2017/Unpack.unpack30_cpp.cs:216 | the new distance goes to the front of the cache and the oldest entry drops out |
| Rar30.Unpack.MoveOldDist | Runtime/Vendor/SharpCompress/Compressors/Rar/UnpackV2017/Unpack.unpack30_cpp.cs:241-245 | takes `OldDist[n]` and moves it to the front, shifting entries 0..n-1 up |
| Rar30.Unpack.InitDistanceSlots | Runtime/Vendor/SharpCompress/Compressors/Rar/UnpackV2017/Unpack.unpack30_cpp.cs:47-56 | fills `DDecode`/`DBits` for all 60 slots with each slot's base and extra bit count; the other entries are unchanged |
| Rar30.Unpack.FillSlotGroup | Runtime/Vendor/SharpCompress/Compressors/Rar/UnpackV2017/Unpack.unpack30_cpp.cs:51-55 | one group of the slot loop: fills the slots of bit length I and advances `Slot` and `Dist` |
| Rar30.Unpack.SetSlot | Runtime/Vendor/SharpCompress/Compressors/Rar/UnpackV2017/Unpack.unpack30_cpp.cs:53-54 | one slot written, every other entry unchanged |
| Rar30.Unpack.UnpWriteArea | Runtime/Vendor/SharpCompress/Compressors/Rar/UnpackV2017/Unpack.unpack30_cpp.cs:565-570 | writing a window area appends it to the output and counts it in `WrittenFileSize` |
| Rar30.Unpack.FlushEntry | Runtime/Vendor/SharpCompress/Compressors/Rar/UnpackV2017/Unpack.unpack30_cpp.cs:553-635 | one pass of the flush loop, as `FlushStep` says |
| Rar30.Unpack.FlushBlock | Runtime/Vendor/SharpCompress/Compressors/Rar/UnpackV2017/Unpack.unpack30_cpp.cs:563-634 | the part of the pass for a block that starts in the pending data |
| Rar30.Unpack.EndBlock | Runtime/Vendor/SharpCompress/Compressors/Rar/UnpackV2017/Unpack.unpack30_cpp.cs:571-633 | a block that lies in the pending data in full is filtered and written, as `RunEntry` says; otherwise the pass stops, clearing the deferral flag of every filter from the entry on, with the output unchanged |
| Rar30.Unpack.RunFilters | Runtime/Vendor/SharpCompress/Compressors/Rar/UnpackV2017/Unpack.unpack30_cpp.cs:571-620 | runs the filter and its chain and writes the filtered data |
| Rar30.Unpack.UnpWriteBuf30 | Runtime/Vendor/SharpCompress/Compressors/Rar/UnpackV2017/Unpack.unpack30_cpp.cs:541-640 | the flush, as `Flush` says: new stack, output, written size and `WrPtr` |
| Rar30.Unpack.FlushLoop | Runtime/Vendor/SharpCompress/Compressors/Rar/UnpackV2017/Unpack.unpack30_cpp.cs:545-639 | the loop over `PrgStack` and the final write |
| Rar30.Unpack.ChainFilters | Runtime/Vendor/SharpCompress/Compressors/Rar/UnpackV2017/Unpack.unpack30_cpp.cs:593-615 | the chain loop, as `Chain` says |
| Rar30.Unpack.ClearDeferred | Runtime/Vendor/SharpCompress/Compressors/Rar/UnpackV2017/Unpack.unpack30_cpp.cs:626-631 | clears the `NextWindow` flags from I on |
| Rar30.Unpack.InitFilters30 | Runtime/Vendor/SharpCompress/Compressors/Rar/UnpackV2017/Unpack.unpack30_cpp.cs:775-792 | clears `PrgStack` always; unless solid, also clears the registry and `OldFilterLengths` and sets `LastFilter = 0`; otherwise keeps them |
| Rar30.Unpack.CompactStack | Runtime/Vendor/SharpCompress/Compressors/Rar/UnpackV2017/Unpack.unpack30_cpp.cs:433-441 | compacts `PrgStack` and returns the number of nulls |
| Rar30.Unpack.ReadExtra | Runtime/Vendor/SharpCompress/Compressors/Rar/UnpackV2017/Unpack.unpack30_cpp.cs:164-168 | reads the extra bits of a slot and moves on by that many |
| Rar30.Unpack.ReadLowDist | Runtime/Vendor/SharpCompress/Compressors/Rar/UnpackV2017/Unpack.unpack30_cpp.cs:182-200 | the low part: from the repeat counter, or a decoded LDD symbol (16 repeats `PrevLowDist` 15 more times; others become `PrevLowDist`) |
| Rar30.Unpack.ReadLongDistance | Runtime/Vendor/SharpCompress/Compressors/Rar/UnpackV2017/Unpack.unpack30_cpp.cs:171-207 | the distance of a long match, as `LongDistanceAt` says |
| Rar30.Unpack.ReadSlotDistance | Runtime/Vendor/SharpCompress/Compressors/Rar/UnpackV2017/Unpack.unpack30_cpp.cs:172-207 | the distance within a decoded slot |
| Rar30.Unpack.LongMatch | Runtime/Vendor/SharpCompress/Compressors/Rar/UnpackV2017/Unpack.unpack30_cpp.cs:162-220 | a long match: its length, with the +1/+2 bonus, its distance, the cache insert, `LastLength` and the copy |
| Rar30.Unpack.TakeLongMatch | Runtime/Vendor/SharpCompress/Compressors/Rar/UnpackV2017/Unpack.unpack30_cpp.cs:164-217 | reads a long match and records its distance and length |
| Rar30.Unpack.ReadLongMatch | Runtime/Vendor/SharpCompress/Compressors/Rar/UnpackV2017/Unpack.unpack30_cpp.cs:164-214 | length `LDecode[k] + 3` plus `LBits[k]` bits, then the distance, then the bonus |
| Rar30.Unpack.RepeatCached | Runtime/Vendor/SharpCompress/Compressors/Rar/UnpackV2017/Unpack.unpack30_cpp.cs:239-257 | symbols 259..262: the cached distance moves to the front, the length is read from `RD`, `LastLength` is set and the match copied |
| Rar30.Unpack.ReadRepeat | Runtime/Vendor/SharpCompress/Compressors/Rar/UnpackV2017/Unpack.unpack30_cpp.cs:241-254 | the cache rotation and the repeat length |
| Rar30.Unpack.ReadRepeatLength | Runtime/Vendor/SharpCompress/Compressors/Rar/UnpackV2017/Unpack.unpack30_cpp.cs:247-253 | the length `LDecode[n] + 2` plus extra bits |
| Rar30.Unpack.ShortMatch | Runtime/Vendor/SharpCompress/Compressors/Rar/UnpackV2017/Unpack.unpack30_cpp.cs:258-270 | symbols 263..270: distance from `SDDecode`/`SDBits`, inserted in the cache, length 2 |
| Rar30.Unpack.RepeatLast | Runtime/Vendor/SharpCompress/Compressors/Rar/UnpackV2017/Unpack.unpack30_cpp.cs:233-237 | symbol 258 repeats the last match at `OldDist[0]`, and does nothing when `LastLength` is 0 |
| Rar30.Unpack.PutByte | Runtime/Vendor/SharpCompress/Compressors/Rar/UnpackV2017/Unpack.unpack30_cpp.cs:157-161 | a literal is stored at `UnpPtr`, which moves on by one in the window |
| Rar30.Unpack.ReadPpmCommand | Runtime/Vendor/SharpCompress/Compressors/Rar/UnpackV2017/Unpack.unpack30_cpp.cs:94-151 | decodes one PPM command as `PpmCommandOf` says |
| Rar30.Unpack.ReadPpmMatch | Runtime/Vendor/SharpCompress/Compressors/Rar/UnpackV2017/Unpack.unpack30_cpp.cs:120-139 | escape 4: three distance characters and a length; -1 stops with the PPM model cleaned up |
| Rar30.Unpack.ReadPpmCode | Runtime/Vendor/SharpCompress/Compressors/Rar/UnpackV2017/Unpack.unpack30_cpp.cs:343-376 | PPM filter code as `PpmCodeOf` says |
| Rar30.Unpack.ReadCodeHeader | Runtime/Vendor/SharpCompress/Compressors/Rar/UnpackV2017/Unpack.unpack30_cpp.cs:345-368 | the first byte and length of PPM filter code |
| Rar30.Unpack.ReadCodeBytes | Runtime/Vendor/SharpCompress/Compressors/Rar/UnpackV2017/Unpack.unpack30_cpp.cs:369-376 | the code bytes; fails exactly at the first -1 |
| Rar30.Unpack.ReadVMCodePPM | Runtime/Vendor/SharpCompress/Compressors/Rar/UnpackV2017/Unpack.unpack30_cpp.cs:343-378 | reads PPM filter code and registers it with `AddVMCode`; no change on failure |
| Rar30.Unpack.AddVMCode | Runtime/Vendor/SharpCompress/Compressors/Rar/UnpackV2017/Unpack.unpack30_cpp.cs:381-509 | copies the code into the VM input, then updates registry and stack as `AddFilter` says |
| Rar30.Unpack.RegisterFilter | Runtime/Vendor/SharpCompress/Compressors/Rar/UnpackV2017/Unpack.unpack30_cpp.cs:388-506 | the filter reference and the queued filter, as `AddFilter` says |
| Rar30.Unpack.QueueStackFilter | Runtime/Vendor/SharpCompress/Compressors/Rar/UnpackV2017/Unpack.unpack30_cpp.cs:405-506 | registry entry, compaction, stack slot, the filter fields and new code, as `QueueFilter` says |
| Rar30.Unpack.ReserveSlot | Runtime/Vendor/SharpCompress/Compressors/Rar/UnpackV2017/Unpack.unpack30_cpp.cs:433-452 | compacts; when no slot was empty and there is room a null slot is added; fails once the stack is over `MAX3_UNPACK_FILTERS`; the slot is at `Count - EmptyCount` |
| Rar30.Unpack.ReadVmData | Runtime/Vendor/SharpCompress/Compressors/Rar/UnpackV2017/Unpack.unpack30_cpp.cs:391 | `RarVM.ReadData`: a number and the bits it takes |
| Rar30.Unpack.ReadFilterPos | Runtime/Vendor/SharpCompress/Compressors/Rar/UnpackV2017/Unpack.unpack30_cpp.cs:388-398 | with bit 7 the position is read (0 resets the filters, N means N-1); otherwise `LastFilter` is reused |
| Rar30.Unpack.ReadStackFilter | Runtime/Vendor/SharpCompress/Compressors/Rar/UnpackV2017/Unpack.unpack30_cpp.cs:455-489 | the queued filter's fields as `FieldsAt` says |
| Rar30.Unpack.ReadBlockLength | Runtime/Vendor/SharpCompress/Compressors/Rar/UnpackV2017/Unpack.unpack30_cpp.cs:459-473 | the block length as `LengthAt` says |
| Rar30.Unpack.ReadInitRegs | Runtime/Vendor/SharpCompress/Compressors/Rar/UnpackV2017/Unpack.unpack30_cpp.cs:479-489 | the registers as `RegistersAt` says |
| Rar30.Unpack.ReadMaskedRegs | Runtime/Vendor/SharpCompress/Compressors/Rar/UnpackV2017/Unpack.unpack30_cpp.cs:484-488 | 7 mask bits, then the registers they name |
| Rar30.Unpack.ReadRegisters | Runtime/Vendor/SharpCompress/Compressors/Rar/UnpackV2017/Unpack.unpack30_cpp.cs:486-488 | the mask loop |
| Rar30.Unpack.ReadRegister | Runtime/Vendor/SharpCompress/Compressors/Rar/UnpackV2017/Unpack.unpack30_cpp.cs:487-488 | one register of the mask loop |
| Rar30.Unpack.ReadProgram | Runtime/Vendor/SharpCompress/Compressors/Rar/UnpackV2017/Unpack.unpack30_cpp.cs:493-503 | new filter code as `ProgramAt` says: size 1..0xFFFF, failing on overflow |
| Rar30.Unpack.ReadVMCode | Runtime/Vendor/SharpCompress/Compressors/Rar/UnpackV2017/Unpack.unpack30_cpp.cs:308-340 | filter code from the LZ input: the first byte and its length come from the bits at the read position; length 0 registers nothing and fails; otherwise exactly that many bytes are read, placed in the code buffer and registered with `AddVMCode`, whose outcome is the result. When reading does not fail and the header is in the buffer, code of at most the unread bytes plus one is always registered, and each code byte whose two input bytes are unread is the byte at its bit offset after the header |
| Rar30.Unpack.ReadLzCode | Runtime/Vendor/SharpCompress/Compressors/Rar/UnpackV2017/Unpack.unpack30_cpp.cs:324-340 | the code after the header: length 0 registers nothing and fails; otherwise exactly `Length` bytes are read and registered, or nothing is; with input that does not fail, enough unread bytes always register the code, and each byte is the byte at its bit offset |
| Rar30.Unpack.ReadLzCodeHeader | Runtime/Vendor/SharpCompress/Compressors/Rar/UnpackV2017/Unpack.unpack30_cpp.cs:313-326 | the first byte and `CodeLength`, taking 1..3 bytes |
| Rar30.Unpack.ReadLzCodeBytes | Runtime/Vendor/SharpCompress/Compressors/Rar/UnpackV2017/Unpack.unpack30_cpp.cs:329-338 | the code bytes are the input bytes in order; a refill failure fails except at the last byte |
| Rar30.Unpack.AppendCodeByte | Runtime/Vendor/SharpCompress/Compressors/Rar/UnpackV2017/Unpack.unpack30_cpp.cs:330-338 | one pass of the code byte loop |
| Rar30.Unpack.ReadCodeByte | Runtime/Vendor/SharpCompress/Compressors/Rar/UnpackV2017/Unpack.unpack30_cpp.cs:334-337 | refills when at most one byte is left, then takes the next byte |
| Rar30.Unpack.RefillForByte | Runtime/Vendor/SharpCompress/Compressors/Rar/UnpackV2017/Unpack.unpack30_cpp.cs:334-335 | the refill test of the code byte loop |
| Rar30.Unpack.TakeCodeByte | Runtime/Vendor/SharpCompress/Compressors/Rar/UnpackV2017/Unpack.unpack30_cpp.cs:336-337 | the next input byte |
| Rar30.Unpack.ReadEndOfBlock | Runtime/Vendor/SharpCompress/Compressors/Rar/UnpackV2017/Unpack.unpack30_cpp.cs:277-305 | a new file returns false with `TablesRead3 == !NewTable` after 2 bits and the tables unchanged; a new table in the same file clears `TablesRead3` and reads the tables after 1 bit: no input or a PPM block leaves the four tables alone, an LZ block reads them as `ReadTables30` does |
| Rar30.Unpack.UnpInitData30 | Runtime/Vendor/SharpCompress/Compressors/Rar/UnpackV2017/Unpack.unpack30_cpp.cs:762-772 | unless solid: `TablesRead3` false, old table zero, `PPMEscChar = 2`, LZ blocks; then `InitFilters30` |
| Rar30.Unpack.ResetInput | Runtime/Vendor/SharpCompress/Compressors/Rar/UnpackV2017/Unpack.unpack30_cpp.cs:62 | the input starts over, empty, with nothing written |
| Rar30.Unpack.RefillAtBorder | Runtime/Vendor/SharpCompress/Compressors/Rar/UnpackV2017/Unpack.unpack30_cpp.cs:73-77 | at or before `ReadBorder` nothing changes; past it the buffer is refilled, and the result is false exactly when the refill fails (reading fails, or the position is past `ReadTop`); a successful refill keeps the unread input and the bit position |
| Rar30.Unpack.FlushNearWrPtr | Runtime/Vendor/SharpCompress/Compressors/Rar/UnpackV2017/Unpack.unpack30_cpp.cs:78-88 | when `WrPtr` is less than 260 bytes ahead of `UnpPtr` in the circular window (and not equal to it) the pending filters and window are flushed exactly as `UnpWriteBuf30` says, and the pass returns exactly when more than `DestUnpSize` is written or the extraction is suspended; otherwise nothing changes and the loop continues |
| Rar30.Unpack.LoopTop | Runtime/Vendor/SharpCompress/Compressors/Rar/UnpackV2017/Unpack.unpack30_cpp.cs:71-88 | the start of a pass: the loop breaks exactly when the refill fails, and then nothing is flushed; otherwise the unread input is kept and the flush of `FlushNearWrPtr` follows, returning exactly when more than `DestUnpSize` is written or on suspension; output only grows and is counted |
| Rar30.Unpack.PpmStep | Runtime/Vendor/SharpCompress/Compressors/Rar/UnpackV2017/Unpack.unpack30_cpp.cs:89-154 | one PPM pass, by the command the next characters encode: a literal is stored at `UnpPtr`; a match or a run copies from its distance (1 for a run); corrupt data switches to LZ and cleans up PPM; end of file breaks; new tables continue exactly when they are read: LZ tables as `ReadTables30` reads them, or a PPM block whose model start succeeds; filter code continues exactly when `AddVMCode` accepts it. Only the last two read input or touch filters |
| Rar30.Unpack.PpmCopy | Runtime/Vendor/SharpCompress/Compressors/Rar/UnpackV2017/Unpack.unpack30_cpp.cs:120-153 | a PPM literal is stored at `UnpPtr`; a match copies `length` bytes from `distance` back; a run copies from distance 1 |
| Rar30.Unpack.LzStep | Runtime/Vendor/SharpCompress/Compressors/Rar/UnpackV2017/Unpack.unpack30_cpp.cs:156-270 | one LZ pass: the symbol decoded from the main table at the read position is classified; a literal is stored at `UnpPtr`; a match symbol reads its length and distance exactly as its case says (long, repeat-last, cached, short), and the window gets that copy; every other symbol leaves the window alone. Only end of block and filter code touch tables or filters |
| Rar30.Unpack.DecodeStep | Runtime/Vendor/SharpCompress/Compressors/Rar/UnpackV2017/Unpack.unpack30_cpp.cs:69-270 | one pass of the main loop; output only grows |
| Rar30.Unpack.Unpack29 | Runtime/Vendor/SharpCompress/Compressors/Rar/UnpackV2017/Unpack.unpack30_cpp.cs:43-273 | builds the distance slots on first use, then decodes: the output only grows; `WrittenFileSize` restarts at 0 unless suspended and then counts exactly the bytes appended; unless suspended the file counts as extracted |
| Rar30.Unpack.ExtractFile | Runtime/Vendor/SharpCompress/Compressors/Rar/UnpackV2017/Unpack.unpack30_cpp.cs:58-272 | unless suspended, starts the file, then runs the main loop and the final flush: the output only grows and `WrittenFileSize` counts it from the start of the file |
| Rar30.Unpack.StartFile | Runtime/Vendor/SharpCompress/Compressors/Rar/UnpackV2017/Unpack.unpack30_cpp.cs:60-67 | `UnpInitData`, then the first tables; `WrittenFileSize` is 0 |
| Rar30.Unpack.ReadFirstTables | Runtime/Vendor/SharpCompress/Compressors/Rar/UnpackV2017/Unpack.unpack30_cpp.cs:63-66 | refills the input and reads the tables unless solid with tables already read; the decoder state stays valid |
| Rar30.Unpack.DecodeLoop | Runtime/Vendor/SharpCompress/Compressors/Rar/UnpackV2017/Unpack.unpack30_cpp.cs:69-272 | the main loop, then `UnpWriteBuf30` |
| Types.IdPool.constructor | Runtime/Types/IdPool.cs:18-19 | an empty pool: `last == 0`, nothing disposed |
| Types.IdPool.Next | Runtime/Types/IdPool.cs:24-34 | returns `last + 1` and stores it, without consulting `disposed`; at `ulong.MaxValue` fails (the exception) and changes nothing; keeps the invariant |
| Types.IdPool.Release | Runtime/Types/IdPool.cs:47-74 | 0 or above `last`: false, no change; below `last`: inserted into `disposed`, false exactly when already there; equal to `last`: true, `last` drops past the disposed tail, which is removed; live ids lose `value`; the invariant holds |
| Types.TrimmedIsCanonical | Runtime/Types/IdPool.cs:16-19 | two trimmed pools with the same live ids are the same pool |
| Types.Greatest | Runtime/Types/IdPool.cs:67-69 | `disposed.Max`: the largest element |
| Arithmetic.CeilingExact64 | Runtime/Utils/Arithmetic.cs:31 | `(u1 + u2 - 1) / u2` in 64-bit arithmetic; a zero divisor raises |
| Arithmetic.CeilingExact32 | Runtime/Utils/Arithmetic.cs:39 | the same in 32-bit arithmetic |
| Arithmetic.CeilingExact16 | Runtime/Utils/Arithmetic.cs:47 | the same computed in `int` and narrowed to `ushort` |
| Arithmetic.CeilingExact8 | Runtime/Utils/Arithmetic.cs:55 | the same computed in `int` and narrowed to `byte` |
| Arithmetic.CeilingExact64IsCeiling | Runtime/Utils/Arithmetic.cs:31 | the exact ceiling of `u1 / u2` whenever `u1 + u2 - 1` fits 64 bits |
| Arithmetic.CeilingExact32IsCeiling | Runtime/Utils/Arithmetic.cs:39 | the exact ceiling whenever `u1 + u2 - 1` fits 32 bits |
| Arithmetic.CeilingExact16IsCeiling | Runtime/Utils/Arithmetic.cs:47 | the exact ceiling for every non-zero divisor |
| Arithmetic.CeilingExact8IsCeiling | Runtime/Utils/Arithmetic.cs:55 | the exact ceiling for every non-zero divisor |
| Arithmetic.CeilingExact64Wraps | Runtime/Utils/Arithmetic.cs:31 | `CeilingExact(ulong.MaxValue, 2)` is 0, not the ceiling 2^63 |
| Arithmetic.CeilingNoWrap64 | Runtime/Utils/Arithmetic.cs:31 | the ceiling of `u1 / u2` for every ulong pair |
| Arithmetic.CeilingNoWrap64Agrees | Runtime/Utils/Arithmetic.cs:31 | agrees with the written overload wherever the sum does not wrap |
| Arithmetic.CeilingExact32Wraps | Runtime/Utils/Arithmetic.cs:39 | `CeilingExact(uint.MaxValue, 2)` is 0, not the ceiling 2^31 |
| Arithmetic.CeilingNoWrap32 | Runtime/Utils/Arithmetic.cs:39 | the ceiling of `u1 / u2` for every uint pair |
| Arithmetic.CeilingNoWrap32Agrees | Runtime/Utils/Arithmetic.cs:39 | agrees with the written overload wherever the sum does not wrap |
| Arithmetic.CeilingUnique | Runtime/Utils/Arithmetic.cs:31-55 | the ceiling is unique |
| Arithmetic.ZigZagRoundTrip | Runtime/Utils/Arithmetic.cs:62-69 | `ZigZagDecode(ZigZagEncode(v)) == v` for every long |
| Arithmetic.ZigZagRoundTripUnsigned | Runtime/Utils/Arithmetic.cs:62-69 | `ZigZagEncode(ZigZagDecode(u)) == u` for every ulong |
| Arithmetic.ZigZagEncodeNonNegative | Runtime/Utils/Arithmetic.cs:62 | v >= 0 becomes the even number 2v |
| Arithmetic.ZigZagEncodeNegative | Runtime/Utils/Arithmetic.cs:62 | v < 0 becomes the odd number -2v - 1 |
| Arithmetic.Div8CeilIsCeiling | Runtime/Utils/Arithmetic.cs:92 | `Div8Ceil(v)` is the ceiling of v / 8 for every ulong and fits a non-negative long |
| Arithmetic.VarIntSize | Runtime/Utils/Arithmetic.cs:76-85 | the size is 1..9; it is 1 exactly when value <= 240 and 9 exactly above 72057594037927935 |
| Arithmetic.VarIntSizeCountsLimits | Runtime/Utils/Arithmetic.cs:76-85 | the size is one plus the number of size limits the value exceeds |
| Arithmetic.VarIntSizeMonotonic | Runtime/Utils/Arithmetic.cs:76-85 | a larger value never takes fewer bytes |
| Values.MinIsGreatestLowerBound | Runtime/Utils/Values.cs:32-35 | for a total order, `Min` is the greatest lower bound |
| Values.MaxIsLeastUpperBound | Runtime/Utils/Values.cs:44-47 | for a total order, `Max` is the least upper bound |
| Values.ClampPartialBounds | Runtime/Utils/Values.cs:58-71 | no bounds: the value; only a max: `Min(value, max)`; only a min: `Max(value, min)` |
| Values.ClampReversed | Runtime/Utils/Values.cs:72-75 | with `max < min`, the same as with the bounds swapped |
| Values.ClampWithin | Runtime/Utils/Values.cs:76 | with `min <= max` the result lies in the bounds, and is the value when it already does |
| Values.ClampIsIn | Runtime/Utils/Values.cs:58-90 | `In(min, Clamp(min, v, max), max)` (bounds swapped when reversed) |
| Values.InIffClampFixed | Runtime/Utils/Values.cs:58-90 | with ordered or missing bounds a value is `In` them exactly when `Clamp` leaves it unchanged |
| Values.Merge | Runtime/Utils/Values.cs:103-122 | keys are the union; left-only keys keep their value, right-only keys take theirs, shared keys take `picker(k, left, right)`; in place it returns and updates `left`, otherwise a fresh dictionary and `left` unchanged; the one exception: merging a non-empty dictionary into itself in place rewrites one key `k` with `picker(k, v, v)` and then throws (`None`) |
| Values.MergeDefaultIsUnion | Runtime/Utils/Values.cs:105-121 | with the default picker the merge is the right-biased union |
| Rar30.ShrBound | Runtime/Vendor/SharpCompress/Compressors/Rar/UnpackV2017/Unpack.unpack30_cpp.cs:167 | shifting a w-bit field right by s leaves a (w - s)-bit number |
| Rar30.LongDistanceInSlot | Runtime/Vendor/SharpCompress/Compressors/Rar/UnpackV2017/Unpack.unpack30_cpp.cs:171-207 | a long distance lies in its slot's range, and slots 0..9 leave the low-distance state alone |
| Rar30.SlotDistanceInSlot | Runtime/Vendor/SharpCompress/Compressors/Rar/UnpackV2017/Unpack.unpack30_cpp.cs:172-207 | the distance read for a slot lies in that slot's range |
| Rar30.InSlot | Runtime/Vendor/SharpCompress/Compressors/Rar/UnpackV2017/Unpack.unpack30_cpp.cs:173-206 | a slot base plus one plus its extra bits lies in the slot |
| Rar30.LowPartBound | Runtime/Vendor/SharpCompress/Compressors/Rar/UnpackV2017/Unpack.unpack30_cpp.cs:182-200 | the added low part and the kept `PrevLowDist` are 4-bit values |
| Rar30.HighLowBound | Runtime/Vendor/SharpCompress/Compressors/Rar/UnpackV2017/Unpack.unpack30_cpp.cs:178-205 | b - 4 high bits times 16 plus a 4-bit low part is a b-bit number |
| Rar30.ReadKeepsUnread | Runtime/Vendor/SharpCompress/Compressors/Rar/UnpackV2017/Unpack.unpack30_cpp.cs:531-535 | reading packed bytes behind `ReadTop` keeps the unread input the same |
| Rar30.UnreadByte | Runtime/Vendor/SharpCompress/Compressors/Rar/UnpackV2017/Unpack.unpack30_cpp.cs:336 | a byte read from the buffer is the byte at the same place of the unread input |
| Rar30.UnreadStep | Runtime/Vendor/SharpCompress/Compressors/Rar/UnpackV2017/Unpack.unpack30_cpp.cs:336-337 | taking a byte of the buffer takes the first unread byte |
| Rar30.Unpack.DecodeChar | Runtime/Vendor/SharpCompress/Compressors/Rar/UnpackV2017/Unpack.unpack30_cpp.cs:104 | `PPM.DecodeChar`: the next character of the stream, -1 past its end |
| Rar30.Unpack.SafeCharAt | Runtime/Vendor/SharpCompress/Compressors/Rar/UnpackV2017/Unpack.unpack30_cpp.cs:23-32 | `SafePPMDecodeChar` at character n of the stream, as `SafePPMDecodeChar` says |
| Rar30.Unpack.UnpRead | Runtime/Vendor/SharpCompress/Compressors/Rar/UnpackV2017/Unpack.unpack30_cpp.cs:530-533 | `UnpIO_UnpRead`: -1 and nothing changed on failure; otherwise the bytes read are the next packed bytes, placed at the offset |
| Rar30.Unpack.UnpInitData | Runtime/Vendor/SharpCompress/Compressors/Rar/UnpackV2017/Unpack.unpack30_cpp.cs:60 | unless solid: cache, `LastLength`, `UnpPtr`, `WrPtr` and tables reset; solid keeps them; the input starts over empty and nothing is written |
| Rar30.Unpack.ResetDecoder | Runtime/Vendor/SharpCompress/Compressors/Rar/UnpackV2017/Unpack.unpack30_cpp.cs:762-772 | the decoder part of `UnpInitData`: reset unless solid, then `UnpInitData30` |
| Rar30.Unpack.ResetLz | Runtime/Vendor/SharpCompress/Compressors/Rar/UnpackV2017/Unpack.unpack30_cpp.cs:60 | distance cache zero, `LastLength`, `UnpPtr` and `WrPtr` zero, tables empty |
| Rar30.Unpack.PpmControl | Runtime/Vendor/SharpCompress/Compressors/Rar/UnpackV2017/Unpack.unpack30_cpp.cs:101-119 | escape 0: new tables, continuing exactly when they are read: LZ tables as `ReadTables30` reads them, or a PPM block whose model start succeeds; escape 3: filter code, continuing exactly when `AddVMCode` accepts the code read from the PPM characters, with the filter state as `AddVMCode` leaves it |
| Rar30.Unpack.LzMatch | Runtime/Vendor/SharpCompress/Compressors/Rar/UnpackV2017/Unpack.unpack30_cpp.cs:162-270 | the four kinds of match symbol: the length, distance, cache and low-distance state are read as the symbol's case says, and the window gets the copy |
| Rar30.Unpack.LongMatchSymbol | Runtime/Vendor/SharpCompress/Compressors/Rar/UnpackV2017/Unpack.unpack30_cpp.cs:162-220 | symbols 271 and up: the length slot and its extra bits, the distance with its low-distance repeat, the length bonus for long distances, the cache insert and `LastLength`, then the copy |
| Rar30.Unpack.RepeatLastSymbol | Runtime/Vendor/SharpCompress/Compressors/Rar/UnpackV2017/Unpack.unpack30_cpp.cs:233-238 | symbol 258: copy `LastLength` bytes from the most recent cached distance; nothing else changes |
| Rar30.Unpack.RepeatCachedSymbol | Runtime/Vendor/SharpCompress/Compressors/Rar/UnpackV2017/Unpack.unpack30_cpp.cs:239-257 | symbols 259..262: the cached distance moves to the front, the length is read from the repeat table, and it becomes `LastLength` |
| Rar30.Unpack.ShortMatchSymbol | Runtime/Vendor/SharpCompress/Compressors/Rar/UnpackV2017/Unpack.unpack30_cpp.cs:258-270 | symbols 263..270: a short distance from its slot and extra bits, length 2, pushed onto the cache |
| Rar30.Unpack.LzControl | Runtime/Vendor/SharpCompress/Compressors/Rar/UnpackV2017/Unpack.unpack30_cpp.cs:221-232 | symbols 256 and 257: the end of a block and filter code; the state stays valid and the loop is not returned from |
| Rar30.Unpack.BlockStep | Runtime/Vendor/SharpCompress/Compressors/Rar/UnpackV2017/Unpack.unpack30_cpp.cs:89-270 | a pass of the PPM or the LZ loop; neither returns from the loop |
| Rar30Codes.BdShortBefore | Runtime/Vendor/SharpCompress/Compressors/Rar/UnpackV2017/Unpack.unpack30_cpp.cs:673-693 | the table is short before every token read |
| Rar30Filters.NonNullOfWrap | Runtime/Vendor/SharpCompress/Compressors/Rar/UnpackV2017/Unpack.unpack30_cpp.cs:442-452 | the present entries of wrapped elements are those elements |
| Rar30Filters.NonNullOfNulls | Runtime/Vendor/SharpCompress/Compressors/Rar/UnpackV2017/Unpack.unpack30_cpp.cs:438-440 | nulls have no present entries |
| Rar30Filters.NoNullsIsWrap | Runtime/Vendor/SharpCompress/Compressors/Rar/UnpackV2017/Unpack.unpack30_cpp.cs:433-441 | a stack with no nulls is exactly its present entries |
| Rar30Filters.NonNullFrom | Runtime/Vendor/SharpCompress/Compressors/Rar/UnpackV2017/Unpack.unpack30_cpp.cs:433-441 | every present entry comes from the stack |
| Rar30Filters.FlushFrom | Runtime/Vendor/SharpCompress/Compressors/Rar/UnpackV2017/Unpack.unpack30_cpp.cs:545-636 | the flush loop from index I on keeps the stack length and `WrPtr` in the window, and appends exactly what it counts |
| Rar30Filters.StepKeepsDeferred | Runtime/Vendor/SharpCompress/Compressors/Rar/UnpackV2017/Unpack.unpack30_cpp.cs:556-560 | a pass keeps a deferred filter with its flag cleared |
| Rar30Filters.StepAppends | Runtime/Vendor/SharpCompress/Compressors/Rar/UnpackV2017/Unpack.unpack30_cpp.cs:565-618 | a pass appends to the output exactly what it counts |
| Rar30FilterCode.TopByte | Runtime/Vendor/SharpCompress/Compressors/Rar/UnpackV2017/Unpack.unpack30_cpp.cs:336 | `fgetbits() >> 8` at a bit offset is the high 16 bits shifted by the offset, taken mod 256 |
| Rar30FilterCode.TopByteOf | Runtime/Vendor/SharpCompress/Compressors/Rar/UnpackV2017/Unpack.unpack30_cpp.cs:336 | the top byte of a shifted 24-bit window does not depend on its lowest byte |
| Rar30FilterCode.NonNullOfWrapNulls | Runtime/Vendor/SharpCompress/Compressors/Rar/UnpackV2017/Unpack.unpack30_cpp.cs:438-440 | compaction's result has the kept filters as its present entries |
| Rar30Ppm.DropNext | Runtime/Vendor/SharpCompress/Compressors/Rar/UnpackV2017/Unpack.unpack30_cpp.cs:104 | dropping one more character |
| Rar30Ppm.FirstMissingStays | Runtime/Vendor/SharpCompress/Compressors/Rar/UnpackV2017/Unpack.unpack30_cpp.cs:370-376 | a -1 found among the first m characters is still the first one when more are looked at |
| Rar30Ppm.FirstMissingAll | Runtime/Vendor/SharpCompress/Compressors/Rar/UnpackV2017/Unpack.unpack30_cpp.cs:370-376 | when all the characters looked at are present, none is missing |
| Rar30Ppm.FirstMissingAt | Runtime/Vendor/SharpCompress/Compressors/Rar/UnpackV2017/Unpack.unpack30_cpp.cs:370-376 | a -1 after m present characters is found at m |
| Rar30Ppm.PresentJoin | Runtime/Vendor/SharpCompress/Compressors/Rar/UnpackV2017/Unpack.unpack30_cpp.cs:343-376 | two adjacent runs of present characters join into one |
| Rar30Ppm.CodeHeader | Runtime/Vendor/SharpCompress/Compressors/Rar/UnpackV2017/Unpack.unpack30_cpp.cs:345-366 | a filter code header is 1..3 characters whose first carries the flags in its top five bits |
| Rar30Ppm.CodeHeaderLength | Runtime/Vendor/SharpCompress/Compressors/Rar/UnpackV2017/Unpack.unpack30_cpp.cs:345-366 | reading an encoded header gives back its size and the code length: `(b & 7) + 1`, the next byte + 7, or the next two bytes |
| Rar30Tables.Pow2Add | Runtime/Vendor/SharpCompress/Compressors/Rar/UnpackV2017/Unpack.unpack30_cpp.cs:49-55 | 2^(a+b) is 2^a times 2^b |
| Rar30Tables.LongSlotsTile | Runtime/Vendor/SharpCompress/Compressors/Rar/UnpackV2017/Unpack.unpack30_cpp.cs:35-36 | length slots 16..27 each start where the previous one ends, and the last one ends at 256 |
| Rar30Tables.ShortSlotsTile | Runtime/Vendor/SharpCompress/Compressors/Rar/UnpackV2017/Unpack.unpack30_cpp.cs:35-36 | length slots 0..16 each start where the previous one ends |
| Rar30Tables.LengthSlotBits | Runtime/Vendor/SharpCompress/Compressors/Rar/UnpackV2017/Unpack.unpack30_cpp.cs:35-36 | there are 28 length slots, each with at most 5 extra bits |
| Rar30Tables.SlotsBeforeStep | Runtime/Vendor/SharpCompress/Compressors/Rar/UnpackV2017/Unpack.unpack30_cpp.cs:49-55 | the number of slots before group I grows by the group count |
| Rar30Tables.PairedSlotsTile | Runtime/Vendor/SharpCompress/Compressors/Rar/UnpackV2017/Unpack.unpack30_cpp.cs:49-55 | distance slots 4..32 each start where the previous one ends |
| Rar30Input.BitInput.constructor | Runtime/Vendor/SharpCompress/Compressors/Rar/UnpackV2017/Unpack.unpack30_cpp.cs:62 | a reader over a zero-filled buffer at position 0 |
| Rar30Input.BitInput.InitBitInput | Runtime/Vendor/SharpCompress/Compressors/Rar/UnpackV2017/Unpack.unpack30_cpp.cs:62 | the position goes back to 0 |
| Types.GreatestExists | Runtime/Types/IdPool.cs:67-69 | a non-empty set has a largest element |
| Values.MergedAdd | Runtime/Utils/Values.cs:110-120 | one loop pass adds one key of the right dictionary to the merge |
| Arithmetic.CeilingDivMod | Runtime/Utils/Arithmetic.cs:31-55 | the quotient, plus one when there is a remainder, is the ceiling and never exceeds the dividend |
| Arithmetic.LimitsBelowMonotonic | Runtime/Utils/Arithmetic.cs:76-85 | a larger value exceeds at least as many limits |

## Left out

### Collaborators
The decoder's collaborators are not part of this model. They are parameters of the decoder:
- **Huffman decoding.** `Decode` stands for `DecodeNumber` over a table built by `MakeDecodeTables`. A built table is identified with its code-length vector (the `LD`/`DD`/`LDD`/`RD`/`BD` fields). The Huffman construction and canonical decoding are left out.
- **The filter VM.** `ReadData` stands for `RarVM.ReadData`, `Prepare` for `VM.Prepare`, and `Execute` for `VM.Execute` together with the standard filters. `VM.Init` and `SetMemory` are left out; the `InitR[6]` that `ExecuteCode` sets is set where the filter runs.
- **The PPM model.** It is a supply of characters (`PpmChars`, where -1 means corrupt data) and a supply of `DecodeInit` outcomes (`PpmStarts`). `PPM.CleanUp` is a counter. The PPMd context modelling is left out.

### I/O
- `UnpIO_UnpRead` reads from a byte sequence, `Packed`; `ReadFails` says whether reading fails.
- `UnpIO_UnpWrite` appends to the sequence `Output`.
- `Suspended` is an input that the model never sets. Suspension and resumption across calls are left out.

### Bodies taken from unrar
- Constants are taken from unrar's headers: `NC30` = 299, `DC30` = 60, `LDC30` = 17, `RC30` = 28, `BC30` = 20, `HUFF_TABLE_SIZE30` = 404, `LOW_DIST_REP_COUNT` = 16, `MAX3_UNPACK_FILTERS` = 8192, `BitInput.MAX_SIZE` = 0x8000. They are not defined in the decoder's file.
- `CopyString`, `InsertOldDist`, `UnpWriteArea` and `UnpInitData` are called by the decoder but are not in its file. They are modelled after unrar:
  - `CopyString` copies byte by byte from `distance` back in the circular window;
  - `InsertOldDist` pushes onto a most-recently-used cache;
  - `UnpWriteArea` writes the circular window area, in one piece or two when it wraps (the `DestUnpSize` cut-off is left out, see below);
  - `UnpInitData` resets `UnpPtr`, `WrPtr`, the cache and the tables unless the archive is solid.

### Window arithmetic
- The window is a sequence whose size is a power of two.
- `& MaxWinMask` is `% |Window|`.
- `Window[UnpPtr++]` followed by the loop-top mask is one wrapped increment.

### Weaker contracts
- Rar30.Unpack.Unpack29: its `while(true)` loop is bounded by a `fuel` parameter; the passes after the fuel runs out are not modelled.
- Rar30.Unpack.DecodeLoop: bounded by the same `fuel`. It states that output only grows and is counted, not which bytes it holds; the bytes of each pass are stated by `PpmStep`, `LzStep`, `LongMatch`, `RepeatCached`, `ShortMatch`, `RepeatLast` and `UnpWriteBuf30`.
- Rar30.Unpack.DecodeStep: the same — output only grows and is counted.
- Rar30.Unpack.ExtractFile: the same — output only grows and is counted.
- Rar30.Unpack.BlockStep: states only that the state stays valid and that the pass does not return; the pass itself is stated by `PpmStep` and `LzStep`.
- Rar30.Unpack.LzControl: states only that the state stays valid and that the pass does not return; the reads are stated by `ReadEndOfBlock` and `ReadVMCode`.
- Rar30.Unpack.ReadFirstTables: states only that the state stays valid; the tables read are stated by `ReadTables30`.
- Rar30.Unpack.UnpWriteArea: the `DestUnpSize` cut-off of unrar's `UnpWriteData` is not modelled; `Output` holds every flushed byte.
- Rar30.Unpack.StartFile: states only validity and `WrittenFileSize == 0`; the rest is stated by `UnpInitData` and `ReadTables30`.
- Rar30.Unpack.ReadLzCodeBytes: byte contents are stated only for bytes whose two input bytes are both available. A failed refill just before the last byte is ignored, as it is in the source; before any other byte it fails the read.
- Rar30.Unpack.DecodeNumber: the symbol and the bits taken come from the `Decode` parameter, not from a Huffman table.
- Types.IdPool.Next: `ulong` overflow is the error result `None`, not an exception.
- Values.Clamp: stated through `ClampPartialBounds`, `ClampReversed`, `ClampWithin` and `ClampIsIn`. The comparer is a strict total order, `lt`, in place of `Comparer<T>.Default`.
- Values.Merge: `Dictionary` is a class holding a `map`, so enumeration order is not modelled, nor which key an in-place merge of a dictionary with itself rewrites before it throws. That throw is the Mono class library's behaviour, where writing an existing key moves the dictionary's version on.

## Findings

| source | as written | input that shows it | evidently intended | confidence | as-written member | corrected member |
|---|---|---|---|---|---|---|
| Runtime/Utils/Arithmetic.cs:31 | `(u1 + u2 - 1) / u2` in 64-bit `ulong` arithmetic, where the sum wraps | u1 = 2^64 - 1, u2 = 2 gives 0 | the ceiling of u1 / u2, here 2^63 | not executed | Arithmetic.CeilingExact64Wraps | Arithmetic.CeilingNoWrap64 |
| Runtime/Utils/Arithmetic.cs:39 | `(u1 + u2 - 1) / u2` in 32-bit `uint` arithmetic, where the sum wraps | u1 = 2^32 - 1, u2 = 2 gives 0 | the ceiling of u1 / u2, here 2^31 | not executed | Arithmetic.CeilingExact32Wraps | Arithmetic.CeilingNoWrap32 |
