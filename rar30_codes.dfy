/** How the RAR 3.x block header describes the bit-length table: a stream
    of 4-bit tokens read from a fixed buffer, each a length or, after the
    escape nibble 15, a run of zeros. */
module Rar30Codes {
  import opened Rar30Tables
  import opened Rar30Input

  /** The 4-bit value at bit `pos` (`fgetbits() >> 12`). */
  function Nibble(buf: seq<byte>, pos: nat): (r: nat)
    ensures r < 16
  {
    Bits16(buf, pos) / 4096
  }

  /** The token at bit `pos`: one nibble, or two after the escape 15. */
  function BdTokenAt(buf: seq<byte>, pos: nat): BdToken {
    BdTokenOf(Nibble(buf, pos), Nibble(buf, pos + 4))
  }

  /** The bits the token at `pos` takes. */
  function BdTokenBits(buf: seq<byte>, pos: nat): (r: nat)
    ensures r == 4 || r == 8
  {
    if Nibble(buf, pos) == 15 then 8 else 4
  }

  /** Where the first `n` tokens read from `pos` end. */
  function BdEnd(buf: seq<byte>, pos: nat, n: nat): (r: nat)
    ensures r >= pos
  {
    if n == 0 then pos
    else var p := BdEnd(buf, pos, n - 1); p + BdTokenBits(buf, p)
  }

  /** The first `n` tokens read from `pos`, one after the other. */
  function BdTokens(buf: seq<byte>, pos: nat, n: nat): (r: seq<BdToken>)
    ensures |r| == n
  {
    if n == 0 then [] else BdTokens(buf, pos, n - 1) + [BdTokenAt(buf, BdEnd(buf, pos, n - 1))]
  }

  /** Reading the tokens one at a time: the first `n + 1` are the first `n`
      and the token where they end. */
  lemma BdTokensStep(buf: seq<byte>, pos: nat, n: nat)
    ensures BdTokens(buf, pos, n + 1) == BdTokens(buf, pos, n) + [BdTokenAt(buf, BdEnd(buf, pos, n))]
    ensures BdEnd(buf, pos, n + 1) == BdEnd(buf, pos, n) + BdTokenBits(buf, BdEnd(buf, pos, n))
  {
  }

  /** The lengths written by one more token while the table is not complete. */
  function BdWrites(t: BdToken, written: nat): (r: seq<nat>)
    requires written < BC30
  {
    match t
    case BdLength(x) => [x]
    case BdZeros(c) => Repeat(0, Min(c, BC30 - written))
  }

  /** One more token appends what it writes to an incomplete table. */
  lemma BdApplyNext(buf: seq<byte>, pos: nat, n: nat)
    requires |BdApply(BdTokens(buf, pos, n))| < BC30
    ensures BdApply(BdTokens(buf, pos, n + 1))
            == BdApply(BdTokens(buf, pos, n))
               + BdWrites(BdTokenAt(buf, BdEnd(buf, pos, n)), |BdApply(BdTokens(buf, pos, n))|)
  {
    assert BdTokens(buf, pos, n + 1)[..n] == BdTokens(buf, pos, n);
  }

  /** The table was still short before each of the first `n` tokens read
      from `pos`. */
  predicate BdShort(buf: seq<byte>, pos: nat, n: nat) {
    n == 0 || (BdShort(buf, pos, n - 1) && |BdApply(BdTokens(buf, pos, n - 1))| < BC30)
  }

  /** The number of tokens the decoder reads from `pos`: the first count
      after which the bit-length table is complete. */
  predicate BdComplete(buf: seq<byte>, pos: nat, n: nat) {
    |BdApply(BdTokens(buf, pos, n))| == BC30 && BdShort(buf, pos, n)
  }

  /** The table is short before every token of a short prefix. */
  lemma {:induction false} BdShortBefore(buf: seq<byte>, pos: nat, n: nat, j: nat)
    requires BdShort(buf, pos, n) && j < n
    ensures |BdApply(BdTokens(buf, pos, j))| < BC30
  {
    if j < n - 1 {
      BdShortBefore(buf, pos, n - 1, j);
    }
  }

  /** One more token read while the table is still short: the table grows
      by what that token writes and the reading position by its width. */
  lemma BdShortStep(buf: seq<byte>, pos: nat, n: nat, written: nat)
    requires BdShort(buf, pos, n)
    requires |BdApply(BdTokens(buf, pos, n))| == written < BC30
    ensures BdShort(buf, pos, n + 1)
    ensures BdApply(BdTokens(buf, pos, n + 1))
            == BdApply(BdTokens(buf, pos, n)) + BdWrites(BdTokenAt(buf, BdEnd(buf, pos, n)), written)
    ensures BdEnd(buf, pos, n + 1) == BdEnd(buf, pos, n) + BdTokenBits(buf, BdEnd(buf, pos, n))
  {
    BdApplyNext(buf, pos, n);
    BdTokensStep(buf, pos, n);
  }

  /** The count `BdComplete` names is unique: the decoder stops at the first
      token after which the table is full. */
  lemma {:induction false} BdCompleteUnique(buf: seq<byte>, pos: nat, n: nat, m: nat)
    requires BdComplete(buf, pos, n) && BdComplete(buf, pos, m)
    ensures n == m
  {
    if n < m {
      BdShortBefore(buf, pos, m, n);
    } else if m < n {
      BdShortBefore(buf, pos, n, m);
    }
  }
}
