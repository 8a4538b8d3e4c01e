/** Pending filters of the RAR 3.x decoder: the compaction of the pending-filter
    stack (`PrgStack`) when a filter is added, and the flush of the window
    (`UnpWriteBuf30`) that writes plain data and runs the filters whose blocks
    are complete. */
module Rar30Filters {
  import opened Wrappers
  import opened Rar30Tables

  /** `UnpackFilter30` as it sits on `PrgStack`: the window position and
      length of its block, whether it waits for the next window pass, the
      registry entry it came from, its initial VM registers and the program
      type of its parent. */
  datatype StackFilter = StackFilter(
    blockStart: nat,
    blockLength: nat,
    nextWindow: bool,
    parentFilter: nat,
    initR: seq<nat>,
    programType: nat)

  // ---------------------------------------------------------------------------
  // Compaction of the stack.
  // ---------------------------------------------------------------------------

  /** The non-null entries, in order. */
  function NonNull<T>(s: seq<Option<T>>): (r: seq<T>)
    ensures |r| <= |s|
  {
    if s == [] then []
    else NonNull(s[..|s| - 1]) + (if s[|s| - 1].Some? then [s[|s| - 1].value] else [])
  }

  /** The number of null entries. */
  function NullCount<T>(s: seq<Option<T>>): (r: nat)
    ensures r == |s| - |NonNull(s)|
  {
    if s == [] then 0
    else NullCount(s[..|s| - 1]) + (if s[|s| - 1].None? then 1 else 0)
  }

  function Nulls<T>(n: nat): (r: seq<Option<T>>)
    ensures |r| == n && forall i :: 0 <= i < n ==> r[i].None?
  {
    seq(n, _ => None)
  }

  function Wrap<T>(s: seq<T>): (r: seq<Option<T>>)
    ensures |r| == |s| && forall i :: 0 <= i < |s| ==> r[i] == Some(s[i])
  {
    seq(|s|, i requires 0 <= i < |s| => Some(s[i]))
  }

  /** The stack after the compaction loop of `AddVMCode`: the non-null
      entries slide to the front in their order, the rest become null. */
  function Compact<T>(s: seq<Option<T>>): seq<Option<T>> {
    Wrap(NonNull(s)) + Nulls(NullCount(s))
  }

  lemma {:induction false} NonNullOfWrap<T>(s: seq<T>)
    ensures NonNull(Wrap(s)) == s
  {
    if s != [] {
      assert Wrap(s)[..|s| - 1] == Wrap(s[..|s| - 1]);
      NonNullOfWrap(s[..|s| - 1]);
    }
  }

  lemma {:induction false} NonNullOfNulls<T>(s: seq<Option<T>>, n: nat)
    ensures NonNull(s + Nulls(n)) == NonNull(s)
  {
    if n > 0 {
      assert (s + Nulls(n))[..|s| + n - 1] == s + Nulls(n - 1);
      NonNullOfNulls(s, n - 1);
    } else {
      assert s + Nulls(n) == s;
    }
  }

  /** Compaction keeps the stack's size and its filters in their order, puts
      every null entry after them, and changes nothing on a stack without
      null entries. */
  lemma CompactKeepsFilters<T>(s: seq<Option<T>>)
    ensures |Compact(s)| == |s|
    ensures NonNull(Compact(s)) == NonNull(s)
    ensures forall k :: 0 <= k < |s| ==> (Compact(s)[k].Some? <==> k < |NonNull(s)|)
    ensures NullCount(s) == 0 ==> Compact(s) == s
  {
    NonNullOfNulls(Wrap(NonNull(s)), NullCount(s));
    NonNullOfWrap(NonNull(s));
    if NullCount(s) == 0 {
      NoNullsIsWrap(s);
    }
  }

  lemma {:induction false} NoNullsIsWrap<T>(s: seq<Option<T>>)
    requires NullCount(s) == 0
    ensures Wrap(NonNull(s)) == s
  {
    if s != [] {
      NoNullsIsWrap(s[..|s| - 1]);
      assert s == s[..|s| - 1] + [s[|s| - 1]];
    }
  }

  /** Every filter compaction keeps was on the stack before. */
  lemma {:induction false} NonNullFrom<T>(s: seq<Option<T>>)
    ensures forall x :: x in NonNull(s) ==> Some(x) in s
  {
    if s != [] {
      NonNullFrom(s[..|s| - 1]);
      assert forall x :: Some(x) in s[..|s| - 1] ==> Some(x) in s;
    }
  }

  // ---------------------------------------------------------------------------
  // The flush of the window.
  // ---------------------------------------------------------------------------

  /** What a flush reads and does not change: the window, the decode position
      and the filter executor (`VM.Execute` on a program type, initial
      registers and VM memory, giving the filtered data). */
  datatype FlushEnv = FlushEnv(window: seq<byte>, unpPtr: nat,
                               execute: (nat, seq<nat>, seq<byte>) -> seq<byte>)

  ghost predicate EnvValid(env: FlushEnv) {
    env.unpPtr < |env.window|
  }

  /** Every pending filter's block starts inside the window. */
  ghost predicate StackInWindow(stack: seq<Option<StackFilter>>, size: nat) {
    forall k :: 0 <= k < |stack| && stack[k].Some? ==> stack[k].value.blockStart < size
  }

  /** Compaction moves no filter out of the window. */
  lemma CompactInWindow(stack: seq<Option<StackFilter>>, size: nat)
    requires StackInWindow(stack, size)
    ensures StackInWindow(Compact(stack), size)
  {
    NonNullFrom(stack);
    forall k | 0 <= k < |Compact(stack)| && Compact(stack)[k].Some?
      ensures Compact(stack)[k].value.blockStart < size
    {
      assert Compact(stack)[k].value in NonNull(stack);
    }
  }

  /** `UnpWriteArea(start, end)`: the window bytes from `start` up to `end`,
      wrapping around the end of the window. */
  function Area(w: seq<byte>, start: nat, end: nat): (r: seq<byte>)
    requires start < |w| && end < |w|
    ensures |r| == (end - start) % |w|
  {
    if end < start then w[start..] + w[..end] else w[start..end]
  }

  /** The VM memory given to a filter: its block, in one piece or in two when
      it wraps around the end of the window. */
  function BlockMemory(w: seq<byte>, start: nat, length: nat): (r: seq<byte>)
    requires start < |w| && length < |w|
  {
    var blockEnd := (start + length) % |w|;
    if start < blockEnd || blockEnd == 0 then w[start..start + length]
    else w[start..] + w[..blockEnd]
  }

  /** The registers `ExecuteCode` hands to the VM: the filter's own, with
      register 6 set to the number of bytes written so far, cast to `uint`
      (taken mod 2^32). */
  function ExecRegisters(initR: seq<nat>, written: nat): seq<nat> {
    if 6 < |initR| then initR[6 := written % 0x1_0000_0000] else initR
  }

  /** Register 6 is the written size cast to `uint`: below 2^32, the size
      itself when it fits and congruent to it otherwise; every other
      register is the filter's own. */
  lemma ExecRegistersCast(initR: seq<nat>, written: nat)
    ensures var r := ExecRegisters(initR, written);
            && |r| == |initR|
            && (forall k :: 0 <= k < |r| && k != 6 ==> r[k] == initR[k])
            && (6 < |r| ==> r[6] < 0x1_0000_0000 && (written < 0x1_0000_0000 ==> r[6] == written))
            && (6 < |r| ==> (r[6] - written) % 0x1_0000_0000 == 0)
  {
  }

  /** `ExecuteCode`: the VM runs the filter's program on `memory`, with the
      registers of `ExecRegisters`. */
  function RunFilter(env: FlushEnv, f: StackFilter, written: nat, memory: seq<byte>): seq<byte> {
    env.execute(f.programType, ExecRegisters(f.initR, written), memory)
  }

  datatype Chained = Chained(stack: seq<Option<StackFilter>>, last: nat, data: seq<byte>)

  /** The chain loop: the entry after `i` runs on `data` when it is present,
      starts at the same position, expects exactly `|data|` bytes and is not
      deferred; each entry run becomes null. */
  function Chain(env: FlushEnv, stack: seq<Option<StackFilter>>, i: nat, blockStart: nat,
                 data: seq<byte>, written: nat): (c: Chained)
    requires i < |stack|
    ensures i <= c.last < |stack| && |c.stack| == |stack|
    ensures forall k :: 0 <= k < |stack| ==> c.stack[k] == stack[k] || c.stack[k].None?
    decreases |stack| - i
  {
    if i + 1 < |stack| && stack[i + 1].Some? && stack[i + 1].value.blockStart == blockStart
       && stack[i + 1].value.blockLength == |data| && !stack[i + 1].value.nextWindow
    then Chain(env, stack[i + 1 := None], i + 1, blockStart,
               RunFilter(env, stack[i + 1].value, written, data), written)
    else Chained(stack, i, data)
  }

  /** The chain only nulls the entries it runs, all after `i`, none of them
      deferred. */
  lemma {:induction false} ChainEntries(env: FlushEnv, stack: seq<Option<StackFilter>>, i: nat,
                                        blockStart: nat, data: seq<byte>, written: nat)
    requires i < |stack|
    ensures var c := Chain(env, stack, i, blockStart, data, written);
            && (forall k :: 0 <= k < |stack| && (k <= i || k > c.last) ==> c.stack[k] == stack[k])
            && (forall k :: i < k <= c.last ==> c.stack[k].None? && stack[k].Some?
                                                && !stack[k].value.nextWindow
                                                && stack[k].value.blockStart == blockStart)
    decreases |stack| - i
  {
    if i + 1 < |stack| && stack[i + 1].Some? && stack[i + 1].value.blockStart == blockStart
       && stack[i + 1].value.blockLength == |data| && !stack[i + 1].value.nextWindow {
      ChainEntries(env, stack[i + 1 := None], i + 1, blockStart,
                   RunFilter(env, stack[i + 1].value, written, data), written);
    }
  }

  /** Clears the deferral of every entry from `i` on (the "stop short" exit). */
  function ClearNextWindow(stack: seq<Option<StackFilter>>, i: nat): (r: seq<Option<StackFilter>>)
    ensures |r| == |stack|
  {
    seq(|stack|, k requires 0 <= k < |stack| =>
      if k >= i && stack[k].Some? && stack[k].value.nextWindow
      then Some(stack[k].value.(nextWindow := false)) else stack[k])
  }

  /** The variables of the flush loop: the stack, the loop index `I`,
      `WrittenBorder`, the output and the written-size counter. */
  datatype Cursor = Cursor(stack: seq<Option<StackFilter>>, i: nat, border: nat,
                           out: seq<byte>, written: nat)

  ghost predicate CursorValid(env: FlushEnv, c: Cursor) {
    EnvValid(env) && StackInWindow(c.stack, |env.window|)
    && c.i <= |c.stack| && c.border < |env.window|
  }

  /** The outcome of a flush: the stack, the output, the written-size counter
      and the new `WrPtr`. */
  datatype Flushed = Flushed(stack: seq<Option<StackFilter>>, out: seq<byte>, written: nat, wrPtr: nat)

  datatype Step = Next(c: Cursor) | Done(r: Flushed)

  /** The write of the window from `c.border` up to `p`, which becomes the
      new border; nothing is written when `p` is the border already. */
  function WriteTo(env: FlushEnv, c: Cursor, p: nat): (c2: Cursor)
    requires CursorValid(env, c) && p < |env.window|
    ensures CursorValid(env, c2) && c2.stack == c.stack && c2.i == c.i && c2.border == p
    ensures c.out <= c2.out && c2.written == c.written + (|c2.out| - |c.out|)
  {
    if c.border != p then
      var a := Area(env.window, c.border, p);
      c.(border := p, out := c.out + a, written := c.written + |a|)
    else c
  }

  /** The filter `f` at entry `c.i`, whose block starts at the border and is
      complete, runs on its block and then the filters chained after it; their
      output is written and the border moves to the end of the block. */
  function RunEntry(env: FlushEnv, c: Cursor, f: StackFilter): (c2: Cursor)
    requires CursorValid(env, c) && c.i < |c.stack| && c.stack[c.i] == Some(f)
    requires f.blockStart < |env.window| && f.blockLength < |env.window|
    ensures CursorValid(env, c2) && |c2.stack| == |c.stack| && c.i < c2.i
    ensures c.out <= c2.out && c2.written == c.written + (|c2.out| - |c.out|)
  {
    var data := RunFilter(env, f, c.written, BlockMemory(env.window, f.blockStart, f.blockLength));
    var ch := Chain(env, c.stack[c.i := None], c.i, f.blockStart, data, c.written);
    Cursor(ch.stack, ch.last + 1, (f.blockStart + f.blockLength) % |env.window|,
           c.out + ch.data, c.written + |ch.data|)
  }

  /** The entries `RunEntry` passes over become null: the filter itself and
      the chained ones, none of them deferred. The others stay. */
  lemma RunEntryEntries(env: FlushEnv, c: Cursor, f: StackFilter)
    requires CursorValid(env, c) && c.i < |c.stack| && c.stack[c.i] == Some(f)
    requires f.blockStart < |env.window| && f.blockLength < |env.window| && !f.nextWindow
    ensures var c2 := RunEntry(env, c, f);
            && (forall k :: 0 <= k < |c.stack| && (k < c.i || k >= c2.i) ==> c2.stack[k] == c.stack[k])
            && (forall k :: c.i <= k < c2.i ==> c2.stack[k].None? && c.stack[k].Some?
                                                && !c.stack[k].value.nextWindow)
  {
    var data := RunFilter(env, f, c.written, BlockMemory(env.window, f.blockStart, f.blockLength));
    ChainEntries(env, c.stack[c.i := None], c.i, f.blockStart, data, c.written);
    var ch := Chain(env, c.stack[c.i := None], c.i, f.blockStart, data, c.written);
    assert RunEntry(env, c, f).stack == ch.stack && RunEntry(env, c, f).i == ch.last + 1;
    forall k | c.i < k < ch.last + 1
      ensures c.stack[k].Some? && !c.stack[k].value.nextWindow
    {
      assert c.stack[c.i := None][k] == c.stack[k];
    }
  }

  /** One pass of the loop of `UnpWriteBuf30` over entry `c.i`, or its
      final write once every entry has been seen. */
  function FlushStep(env: FlushEnv, c: Cursor): (s: Step)
    requires CursorValid(env, c)
    ensures s.Next? ==> CursorValid(env, s.c) && |s.c.stack| == |c.stack| && c.i < s.c.i
    ensures s.Next? ==> c.out <= s.c.out && s.c.written == c.written + (|s.c.out| - |c.out|)
    ensures s.Done? ==> |s.r.stack| == |c.stack| && s.r.wrPtr < |env.window|
    ensures s.Done? ==> c.out <= s.r.out && s.r.written == c.written + (|s.r.out| - |c.out|)
  {
    var w := env.window;
    if c.i == |c.stack| then
      var a := Area(w, c.border, env.unpPtr);
      Done(Flushed(c.stack, c.out + a, c.written + |a|, env.unpPtr))
    else if c.stack[c.i].None? then
      Next(c.(i := c.i + 1))
    else
      var f := c.stack[c.i].value;
      if f.nextWindow then
        Next(c.(stack := c.stack[c.i := Some(f.(nextWindow := false))], i := c.i + 1))
      else if (f.blockStart - c.border) % |w| < (env.unpPtr - c.border) % |w| then
        var c1 := WriteTo(env, c, f.blockStart);
        if f.blockLength <= (env.unpPtr - f.blockStart) % |w| then
          Next(RunEntry(env, c1, f))
        else
          Done(Flushed(ClearNextWindow(c.stack, c.i), c1.out, c1.written, f.blockStart))
      else
        Next(c.(i := c.i + 1))
  }

  /** `UnpWriteBuf30` from the loop state `c` on. */
  function FlushFrom(env: FlushEnv, c: Cursor): (r: Flushed)
    requires CursorValid(env, c)
    ensures |r.stack| == |c.stack| && r.wrPtr < |env.window|
    ensures c.out <= r.out && r.written == c.written + (|r.out| - |c.out|)
    decreases |c.stack| - c.i
  {
    match FlushStep(env, c)
    case Done(r) => r
    case Next(c2) => FlushFrom(env, c2)
  }

  /** The whole flush, starting at `WrPtr`. */
  function Flush(env: FlushEnv, stack: seq<Option<StackFilter>>, wrPtr: nat,
                 out: seq<byte>, written: nat): (r: Flushed)
    requires EnvValid(env) && StackInWindow(stack, |env.window|) && wrPtr < |env.window|
    ensures |r.stack| == |stack| && r.wrPtr < |env.window|
    ensures out <= r.out && r.written == written + (|r.out| - |out|)
  {
    FlushFrom(env, Cursor(stack, 0, wrPtr, out, written))
  }

  // ---------------------------------------------------------------------------
  // Properties of the flush.
  // ---------------------------------------------------------------------------

  lemma StepEntries(env: FlushEnv, c: Cursor)
    requires CursorValid(env, c)
    ensures match FlushStep(env, c)
      case Next(c2) =>
        && (forall k :: 0 <= k < c.i ==> c2.stack[k] == c.stack[k])
        && (forall k :: c2.i <= k < |c.stack| ==> c2.stack[k] == c.stack[k])
        && (forall k :: c.i <= k < c2.i && c2.stack[k].Some? ==>
              c.stack[k].Some? && c2.stack[k].value == c.stack[k].value.(nextWindow := false)
              && !c2.stack[k].value.nextWindow)
      case Done(r) =>
        && (forall k :: 0 <= k < c.i ==> r.stack[k] == c.stack[k])
        && (forall k :: c.i <= k < |c.stack| && r.stack[k].Some? ==>
              c.stack[k].Some? && r.stack[k].value == c.stack[k].value.(nextWindow := false)
              && !r.stack[k].value.nextWindow)
  {
    var w := env.window;
    if c.i < |c.stack| && c.stack[c.i].Some? {
      var f := c.stack[c.i].value;
      if !f.nextWindow && (f.blockStart - c.border) % |w| < (env.unpPtr - c.border) % |w| {
        var c1 := WriteTo(env, c, f.blockStart);
        if f.blockLength <= (env.unpPtr - f.blockStart) % |w| {
          RunEntryEntries(env, c1, f);
          assert FlushStep(env, c) == Next(RunEntry(env, c1, f));
        } else {
          var r := Flushed(ClearNextWindow(c.stack, c.i), c1.out, c1.written, f.blockStart);
          assert FlushStep(env, c) == Done(r);
          assert forall k :: 0 <= k < |c.stack| ==> r.stack[k] == ClearNextWindow(c.stack, c.i)[k];
        }
      }
    }
  }

  /** A flush keeps the stack's size and touches no entry before the loop
      index; an entry from there on is either nulled (it ran) or kept with its
      deferral cleared, so no entry is left deferred. */
  lemma {:induction false} FlushEntries(env: FlushEnv, c: Cursor)
    requires CursorValid(env, c)
    ensures var r := FlushFrom(env, c);
            && (forall k :: 0 <= k < c.i ==> r.stack[k] == c.stack[k])
            && (forall k :: c.i <= k < |c.stack| && r.stack[k].Some? ==>
                  c.stack[k].Some? && r.stack[k].value == c.stack[k].value.(nextWindow := false)
                  && !r.stack[k].value.nextWindow)
    decreases |c.stack| - c.i
  {
    StepEntries(env, c);
    match FlushStep(env, c)
    case Done(r) =>
    case Next(c2) =>
      FlushEntries(env, c2);
  }

  lemma StepKeepsDeferred(env: FlushEnv, c: Cursor, k: nat)
    requires CursorValid(env, c) && c.i <= k < |c.stack|
    requires c.stack[k].Some? && c.stack[k].value.nextWindow
    ensures match FlushStep(env, c)
      case Next(c2) => c2.stack[k] == (if k < c2.i then Some(c.stack[k].value.(nextWindow := false))
                                       else c.stack[k])
      case Done(r) => r.stack[k] == Some(c.stack[k].value.(nextWindow := false))
  {
    var w := env.window;
    if c.stack[c.i].Some? {
      var f := c.stack[c.i].value;
      if !f.nextWindow && (f.blockStart - c.border) % |w| < (env.unpPtr - c.border) % |w| {
        var c1 := WriteTo(env, c, f.blockStart);
        if f.blockLength <= (env.unpPtr - f.blockStart) % |w| {
          RunEntryEntries(env, c1, f);
        }
      }
    }
  }

  /** A filter deferred to the next window pass is never run by this flush:
      it stays on the stack with its deferral cleared. */
  lemma {:induction false} FlushKeepsDeferred(env: FlushEnv, c: Cursor, k: nat)
    requires CursorValid(env, c) && c.i <= k < |c.stack|
    requires c.stack[k].Some? && c.stack[k].value.nextWindow
    ensures FlushFrom(env, c).stack[k] == Some(c.stack[k].value.(nextWindow := false))
    decreases |c.stack| - c.i
  {
    StepKeepsDeferred(env, c, k);
    match FlushStep(env, c)
    case Done(r) =>
    case Next(c2) =>
      if k < c2.i {
        FlushEntries(env, c2);
      } else {
        FlushKeepsDeferred(env, c2, k);
      }
  }

  lemma StepAppends(env: FlushEnv, c: Cursor)
    requires CursorValid(env, c)
    ensures match FlushStep(env, c)
      case Next(c2) => c.out <= c2.out && c2.written == c.written + (|c2.out| - |c.out|)
      case Done(r) => c.out <= r.out && r.written == c.written + (|r.out| - |c.out|)
  {
  }

  /** A flush only appends to the output, and the written-size counter grows
      by exactly what it appends. */
  lemma {:induction false} FlushAppends(env: FlushEnv, c: Cursor)
    requires CursorValid(env, c)
    ensures var r := FlushFrom(env, c);
            c.out <= r.out && r.written == c.written + (|r.out| - |c.out|)
    decreases |c.stack| - c.i
  {
    StepAppends(env, c);
    match FlushStep(env, c)
    case Done(r) =>
    case Next(c2) =>
      FlushAppends(env, c2);
  }

  /** A flush either writes everything up to the decode position, or stops
      short at the start of a filter whose block is not complete yet, which
      stays on the stack. */
  lemma {:induction false} FlushStopsAtFilter(env: FlushEnv, c: Cursor)
    requires CursorValid(env, c)
    ensures var r := FlushFrom(env, c);
            r.wrPtr == env.unpPtr
            || exists k :: c.i <= k < |c.stack| && r.stack[k].Some? && r.stack[k].value.blockStart == r.wrPtr
    decreases |c.stack| - c.i
  {
    match FlushStep(env, c)
    case Done(r) =>
      if r.wrPtr != env.unpPtr {
        assert r.stack[c.i].Some? && r.stack[c.i].value.blockStart == r.wrPtr;
      }
    case Next(c2) =>
      FlushStopsAtFilter(env, c2);
  }

  /** Without pending filters a flush writes the window from `WrittenBorder`
      to the decode position and moves `WrPtr` there. */
  lemma {:induction false} FlushWithoutFilters(env: FlushEnv, c: Cursor)
    requires CursorValid(env, c)
    requires forall k :: 0 <= k < |c.stack| ==> c.stack[k].None?
    ensures var r := FlushFrom(env, c);
            r.out == c.out + Area(env.window, c.border, env.unpPtr) && r.wrPtr == env.unpPtr
            && r.stack == c.stack
    decreases |c.stack| - c.i
  {
    if c.i < |c.stack| {
      FlushWithoutFilters(env, c.(i := c.i + 1));
    }
  }
}
