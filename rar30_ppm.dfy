/** The command layer of a RAR 3.x PPM block. The PPM model yields a stream
    of characters (bytes, or -1 for corrupt data); the escape character
    `PPMEscChar` followed by a second character introduces a command. The
    main loop of `Unpack29` reads one command per pass, and `ReadVMCodePPM`
    reads filter code from the same stream. Both are described here as pure
    functions of the characters still to come. */
module Rar30Ppm {
  import opened Wrappers
  import opened Rar30Tables

  /** A character the PPM model yields: a byte, or -1 for corrupt data. */
  type PpmChar = x: int | -1 <= x < 256

  /** Character `i` of the stream; once the stream is exhausted the model
      reports corrupt data. */
  function CharAt(chars: seq<PpmChar>, i: nat): (r: int)
    ensures -1 <= r < 256
  {
    if i < |chars| then chars[i] else -1
  }

  /** The stream after `n` characters are taken; an exhausted stream stays
      empty. */
  function Drop(chars: seq<PpmChar>, n: nat): (r: seq<PpmChar>)
    ensures |r| == |chars| - Min(n, |chars|)
  {
    chars[Min(n, |chars|)..]
  }

  /** Taking one character after `n` is taking `n + 1`; the character
      taken is character `n`. */
  lemma DropNext(chars: seq<PpmChar>, n: nat)
    ensures CharAt(Drop(chars, n), 0) == CharAt(chars, n)
    ensures Drop(Drop(chars, n), 1) == Drop(chars, n + 1)
  {
  }

  /** None of the characters `lo .. hi - 1` is -1. */
  predicate Present(chars: seq<PpmChar>, lo: nat, hi: nat)
  {
    forall j :: lo <= j < hi ==> CharAt(chars, j) != -1
  }

  /** How many of the `n` characters from `from` on come before the first
      -1: `n` when none of them is -1. */
  function FirstMissing(chars: seq<PpmChar>, from: nat, n: nat): (r: nat)
    ensures r <= n && Present(chars, from, from + r)
    ensures r < n ==> CharAt(chars, from + r) == -1
    decreases n
  {
    if n == 0 then 0
    else
      var r := FirstMissing(chars, from, n - 1);
      if r < n - 1 || CharAt(chars, from + n - 1) == -1 then r else n
  }

  /** Once a -1 is found, reading further characters does not move it. */
  lemma {:induction false} FirstMissingStays(chars: seq<PpmChar>, from: nat, m: nat, n: nat)
    requires m <= n && FirstMissing(chars, from, m) < m
    ensures FirstMissing(chars, from, n) == FirstMissing(chars, from, m)
    decreases n
  {
    if n > m {
      FirstMissingStays(chars, from, m, n - 1);
    }
  }

  /** Characters that are all there hold no -1. */
  lemma {:induction false} FirstMissingAll(chars: seq<PpmChar>, from: nat, n: nat)
    requires Present(chars, from, from + n)
    ensures FirstMissing(chars, from, n) == n
    decreases n
  {
    if n > 0 {
      FirstMissingAll(chars, from, n - 1);
      assert CharAt(chars, from + n - 1) != -1;
    }
  }

  /** A -1 after `m` characters that are there is the first one. */
  lemma {:induction false} FirstMissingAt(chars: seq<PpmChar>, from: nat, m: nat, n: nat)
    requires m < n && Present(chars, from, from + m) && CharAt(chars, from + m) == -1
    ensures FirstMissing(chars, from, n) == m
  {
    FirstMissingAll(chars, from, m);
    assert FirstMissing(chars, from, m + 1) == m;
    FirstMissingStays(chars, from, m + 1, n);
  }

  /** The `n` characters from `from` on, none of them -1, as bytes. */
  function Bytes(chars: seq<PpmChar>, from: nat, n: nat): (r: seq<byte>)
    requires Present(chars, from, from + n)
    ensures |r| == n && forall k :: 0 <= k < n ==> r[k] == CharAt(chars, from + k)
  {
    seq(n, k requires 0 <= k < n => assert from <= from + k < from + n; CharAt(chars, from + k) as byte)
  }

  // ---------------------------------------------------------------------------
  // One pass of the PPM loop.
  // ---------------------------------------------------------------------------

  /** What one pass of the PPM loop decodes. */
  datatype PpmCommand =
    | PpmByte(b: byte)                    // a byte for the window
    | Corrupt                             // the model reported corrupt data
    | NewTables                           // escape, 0: a new block header follows
    | EndOfFile                           // escape, 2
    | PpmFilter                           // escape, 3: filter code follows
    | Match(length: nat, distance: nat)   // escape, 4: an LZ match
    | Run(length: nat)                    // escape, 5: a match at distance 1

  /** A command and the number of characters it took. */
  datatype PpmRead = PpmRead(cmd: PpmCommand, taken: nat)

  /** The command at the start of `chars` with escape character `esc`: a
      character other than the escape is a literal; the escape followed by
      0, 2, 3, 4 or 5 is a command, followed by anything else it is the
      escape character as a literal. A match takes three distance bytes
      (most significant first) and a length byte, a run one length byte.
      Reading stops at the first -1. */
  function PpmCommandOf(chars: seq<PpmChar>, esc: int): (r: PpmRead)
    ensures 1 <= r.taken <= 6
    ensures r.cmd.Corrupt? <==> CharAt(chars, r.taken - 1) == -1
    ensures Present(chars, 0, r.taken - 1)
    ensures r.cmd.PpmByte? ==> r.cmd.b == CharAt(chars, 0)
    ensures r.cmd.Match? ==> 32 <= r.cmd.length <= 287 && 2 <= r.cmd.distance <= 0x100_0001
    ensures r.cmd.Run? ==> 4 <= r.cmd.length <= 259
  {
    var ch := CharAt(chars, 0);
    if ch == -1 then PpmRead(Corrupt, 1)
    else if ch != esc then PpmRead(PpmByte(ch), 1)
    else
      var next := CharAt(chars, 1);
      if next == -1 then PpmRead(Corrupt, 2)
      else if next == 0 then PpmRead(NewTables, 2)
      else if next == 2 then PpmRead(EndOfFile, 2)
      else if next == 3 then PpmRead(PpmFilter, 2)
      else if next == 4 then
        var m := FirstMissing(chars, 2, 4);
        if m < 4 then PpmRead(Corrupt, 3 + m)
        else
          var d := (CharAt(chars, 2) * 256 + CharAt(chars, 3)) * 256 + CharAt(chars, 4);
          PpmRead(Match(CharAt(chars, 5) + 32, d + 2), 6)
      else if next == 5 then
        var l := CharAt(chars, 2);
        if l == -1 then PpmRead(Corrupt, 3) else PpmRead(Run(l + 4), 3)
      else PpmRead(PpmByte(ch), 2)
  }

  /** The commands an encoder can write with escape character `esc`. */
  predicate Encodable(cmd: PpmCommand) {
    match cmd
    case Match(length, distance) => 32 <= length <= 287 && 2 <= distance <= 0x100_0001
    case Run(length) => 4 <= length <= 259
    case _ => true
  }

  /** The characters that encode `cmd`: the escape character as a literal
      is escaped with 1. */
  function PpmEncode(cmd: PpmCommand, esc: byte): (r: seq<PpmChar>)
    requires Encodable(cmd)
  {
    match cmd
    case PpmByte(b) => if b == esc then [esc, 1] else [b]
    case Corrupt => [-1]
    case NewTables => [esc, 0]
    case EndOfFile => [esc, 2]
    case PpmFilter => [esc, 3]
    case Match(length, distance) =>
      var d := distance - 2;
      [esc, 4, d / 0x1_0000, d / 0x100 % 0x100, d % 0x100, length - 32]
    case Run(length) => [esc, 5, length - 4]
  }

  /** Decoding what `PpmEncode` wrote gives the command back and takes
      exactly its characters, whatever follows. */
  lemma PpmRoundTrip(cmd: PpmCommand, esc: byte, rest: seq<PpmChar>)
    requires Encodable(cmd)
    ensures PpmCommandOf(PpmEncode(cmd, esc) + rest, esc) == PpmRead(cmd, |PpmEncode(cmd, esc)|)
  {
    var s := PpmEncode(cmd, esc) + rest;
    if cmd.Match? {
      var d := cmd.distance - 2;
      assert CharAt(s, 2) == d / 0x1_0000 && CharAt(s, 3) == d / 0x100 % 0x100 && CharAt(s, 4) == d % 0x100;
      assert FirstMissing(s, 2, 4) == 4;
      assert (d / 0x1_0000 * 256 + d / 0x100 % 0x100) * 256 + d % 0x100 == d;
    }
  }

  // ---------------------------------------------------------------------------
  // Filter code in the PPM stream (`ReadVMCodePPM`).
  // ---------------------------------------------------------------------------

  /** Filter code read from the PPM stream: its first byte and the code, or
      nothing; the characters taken; and whether a -1 ended the read. */
  datatype PpmCodeRead = PpmCodeRead(code: Option<(nat, seq<byte>)>, taken: nat, corrupt: bool)

  /** A character as the byte the header arithmetic sees; a character that
      is not there counts as 0. */
  function ByteOr0(c: int): (r: nat)
    requires -1 <= c < 256
    ensures r < 256
  {
    if c < 0 then 0 else c
  }

  /** The 16 bits after the first byte, as the LZ reader of filter code
      would see them. */
  function Next16(chars: seq<PpmChar>): (r: nat)
    ensures r < 0x10000
  {
    ByteOr0(CharAt(chars, 1)) * 256 + ByteOr0(CharAt(chars, 2))
  }

  /** How many characters the header of filter code takes, by its first
      byte: one more for "next byte + 7", two more for a 16-bit length. */
  function CodeHeaderSize(first: nat): (r: nat)
    ensures 1 <= r <= 3
  {
    if first % 8 == 6 then 2 else if first % 8 == 7 then 3 else 1
  }

  /** `ReadVMCodePPM` before `AddVMCode`: the first byte, the length, then
      that many code bytes. A length of 0 is refused, and a -1 ends the read
      at once. */
  function PpmCodeOf(chars: seq<PpmChar>): (r: PpmCodeRead)
  {
    var first := CharAt(chars, 0);
    if first == -1 then PpmCodeRead(None, 1, true)
    else
      var hdr := CodeHeaderSize(first);
      var m := FirstMissing(chars, 1, hdr - 1);
      if m < hdr - 1 then PpmCodeRead(None, 2 + m, true)
      else
        var length := if hdr == 2 then CharAt(chars, 1) + 7
                      else if hdr == 3 then CharAt(chars, 1) * 256 + CharAt(chars, 2)
                      else first % 8 + 1;
        if length == 0 then PpmCodeRead(None, hdr, false)
        else
          var k := FirstMissing(chars, hdr, length);
          if k < length then PpmCodeRead(None, hdr + k + 1, true)
          else PpmCodeRead(Some((first, Bytes(chars, hdr, length))), hdr + length, false)
  }

  /** What `PpmCodeOf` reads: the characters up to the first -1 and no
      further, the length as `CodeLength` computes it for LZ blocks from the
      characters after the first byte, and the code bytes right after the
      header. */
  lemma PpmCodeReads(chars: seq<PpmChar>)
    ensures var r := PpmCodeOf(chars);
            && 1 <= r.taken
            && (r.corrupt <==> CharAt(chars, r.taken - 1) == -1)
            && Present(chars, 0, r.taken - 1)
            && (r.corrupt ==> r.code.None?)
            && (r.code.Some? ==>
                  && r.code.value.0 == CharAt(chars, 0)
                  && |r.code.value.1| == CodeLength(r.code.value.0, Next16(chars)) > 0
                  && r.taken == CodeHeaderSize(r.code.value.0) + |r.code.value.1|
                  && r.code.value.1 == Bytes(chars, CodeHeaderSize(r.code.value.0), |r.code.value.1|))
  {
    var first := CharAt(chars, 0);
    if first != -1 {
      var hdr := CodeHeaderSize(first);
      var m := FirstMissing(chars, 1, hdr - 1);
      if m == hdr - 1 {
        var length := if hdr == 2 then CharAt(chars, 1) + 7
                      else if hdr == 3 then CharAt(chars, 1) * 256 + CharAt(chars, 2)
                      else first % 8 + 1;
        assert length == CodeLength(first, Next16(chars));
        if length != 0 {
          var k := FirstMissing(chars, hdr, length);
          PresentJoin(chars, 0, hdr, hdr + k);
          if k == length {
            assert CharAt(chars, hdr + length - 1) != -1;
          }
        } else if hdr > 1 {
          assert CharAt(chars, hdr - 1) != -1;
        }
      } else {
        PresentJoin(chars, 0, 1, 1 + m);
      }
    }
  }

  /** Two adjacent runs of characters that are there make one. */
  lemma PresentJoin(chars: seq<PpmChar>, lo: nat, mid: nat, hi: nat)
    requires lo <= mid <= hi && Present(chars, lo, mid) && Present(chars, mid, hi)
    ensures Present(chars, lo, hi)
  {
  }

  /** The header an encoder writes for `n` bytes of code with the flag bits
      `flags` (bits 3 .. 7 of the first byte): the shortest of the three
      forms that holds `n`. */
  function CodeHeader(flags: nat, n: nat): (r: seq<PpmChar>)
    requires flags < 32 && 0 < n < 0x10000
    ensures 1 <= |r| <= 3 && r[0] / 8 == flags
  {
    if n <= 6 then [flags * 8 + n - 1]
    else if n <= 262 then [flags * 8 + 6, n - 7]
    else [flags * 8 + 7, n / 256, n % 256]
  }

  /** Filter code written with `CodeHeader` reads back as the same code,
      taking exactly the header and the code, whatever follows. */
  lemma PpmCodeRoundTrip(flags: nat, code: seq<byte>, rest: seq<PpmChar>)
    requires flags < 32 && 0 < |code| < 0x10000
    ensures var s := CodeHeader(flags, |code|) + code + rest;
            PpmCodeOf(s) == PpmCodeRead(Some((s[0], code)), |CodeHeader(flags, |code|)| + |code|, false)
  {
    var h := CodeHeader(flags, |code|);
    var s := h + code + rest;
    var length := |code|;
    assert CodeHeaderSize(s[0]) == |h|;
    CodeHeaderLength(flags, length, s);
    forall j | |h| <= j < |h| + length
      ensures CharAt(s, j) == code[j - |h|]
    {
      assert s[j] == code[j - |h|];
    }
    FirstMissingAll(s, |h|, length);
    assert CharAt(s, 0) == s[0];
    PpmCodeComplete(s, |h|, length);
    assert Bytes(s, |h|, length) == code;
  }

  /** When the header and all `n` code bytes are there, `PpmCodeOf` reads
      them. */
  lemma PpmCodeComplete(s: seq<PpmChar>, hdr: nat, n: nat)
    requires CharAt(s, 0) != -1 && CodeHeaderSize(CharAt(s, 0)) == hdr
    requires FirstMissing(s, 1, hdr - 1) == hdr - 1 && FirstMissing(s, hdr, n) == n && n > 0
    requires n == (if hdr == 2 then CharAt(s, 1) + 7
                   else if hdr == 3 then CharAt(s, 1) * 256 + CharAt(s, 2)
                   else CharAt(s, 0) % 8 + 1)
    ensures PpmCodeOf(s) == PpmCodeRead(Some((CharAt(s, 0), Bytes(s, hdr, n))), hdr + n, false)
  {
  }

  /** The header `CodeHeader` writes reads back as the length it was
      written for. */
  lemma CodeHeaderLength(flags: nat, n: nat, s: seq<PpmChar>)
    requires flags < 32 && 0 < n < 0x10000 && CodeHeader(flags, n) <= s
    ensures var hdr := |CodeHeader(flags, n)|;
            && CodeHeaderSize(s[0]) == hdr
            && FirstMissing(s, 1, hdr - 1) == hdr - 1
            && n == (if hdr == 2 then CharAt(s, 1) + 7
                     else if hdr == 3 then CharAt(s, 1) * 256 + CharAt(s, 2)
                     else s[0] % 8 + 1)
  {
    var h := CodeHeader(flags, n);
    assert s[..|h|] == h;
    assert s[0] == h[0];
    if |h| == 2 {
      assert CharAt(s, 1) == h[1];
    } else if |h| == 3 {
      assert CharAt(s, 1) == h[1] && CharAt(s, 2) == h[2];
      assert FirstMissing(s, 1, 1) == 1;
    }
  }
}
