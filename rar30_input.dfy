/** The bit reader the RAR 3.x decoder reads its input through (`BitInput`):
    a fixed buffer of `MaxSize` bytes and a position in bits. Only the part
    the decoder uses is modelled: reading the next 16 bits, skipping bits and
    the overflow test. */
module Rar30Input {
  import opened Rar30Tables

  /** `BitInput.MAX_SIZE`. */
  const MaxSize: nat := 0x8000

  /** `field >> shift`: `shift` halvings. */
  function Shr(field: nat, shift: nat): nat {
    if shift == 0 then field else Shr(field / 2, shift - 1)
  }

  /** Shifting right by `shift` divides by 2^`shift`. */
  lemma {:induction false} ShrDiv(field: nat, shift: nat)
    ensures Shr(field, shift) == field / Pow2(shift)
  {
    if shift > 0 {
      ShrDiv(field / 2, shift - 1);
      var m := Pow2(shift - 1);
      var q, r := field / 2 / m, field / 2 % m;
      assert field / 2 == q * m + r;
      assert field == q * (2 * m) + (2 * r + field % 2);
      ModUnique(field, 2 * m, q, 2 * r + field % 2);
    }
  }

  /** The byte at `a`; the bytes past the end of the buffer read as zero. */
  function ByteOf(buf: seq<byte>, a: nat): byte {
    if a < |buf| then buf[a] else 0
  }

  /** The 16 bits of `buf` that start at bit `pos`, the first of them as the
      most significant bit. */
  function Bits16(buf: seq<byte>, pos: nat): (r: nat)
    ensures r < 0x10000
  {
    Shr(ByteOf(buf, pos / 8) * 65536 + ByteOf(buf, pos / 8 + 1) * 256 + ByteOf(buf, pos / 8 + 2),
        8 - pos % 8) % 0x10000
  }

  class BitInput {
    const InBuf: array<byte>
    /** The current byte and the bit inside it. */
    var InAddr: nat
    var InBit: nat

    ghost predicate Valid()
      reads this
    {
      InBuf.Length == MaxSize && InBit < 8
    }

    /** A reader over a zero-filled buffer, at position 0. */
    constructor ()
      ensures Valid() && InAddr == 0 && InBit == 0 && fresh(InBuf)
    {
      InBuf := new byte[MaxSize](_ => 0);
      InAddr := 0;
      InBit := 0;
    }

    /** The position in bits. */
    function Position(): nat
      reads this
    {
      InAddr * 8 + InBit
    }

    /** `getbits` / `fgetbits`: the 16 bits at the current position. */
    function GetBits(): (r: nat)
      requires Valid()
      reads this, InBuf
      ensures r < 0x10000
      ensures r == Bits16(InBuf[..], Position())
    {
      Shr(ByteOf(InBuf[..], InAddr) * 65536 + ByteOf(InBuf[..], InAddr + 1) * 256
          + ByteOf(InBuf[..], InAddr + 2), 8 - InBit) % 0x10000
    }

    /** `InitBitInput`: back to the start of the buffer. */
    method InitBitInput()
      requires Valid()
      modifies this
      ensures Valid() && InAddr == 0 && InBit == 0 && Position() == 0
    {
      InAddr := 0;
      InBit := 0;
    }

    /** `addbits` / `faddbits`: moves the position on by `bits`. */
    method AddBits(bits: nat)
      requires Valid()
      modifies this
      ensures Valid() && Position() == old(Position()) + bits
      ensures bits % 8 == 0 ==> InAddr == old(InAddr) + bits / 8 && InBit == old(InBit)
    {
      var b := bits + InBit;
      InAddr := InAddr + b / 8;
      InBit := b % 8;
    }

    /** `faddbits((8 - InBit) & 7)`: moves on to the next byte boundary. */
    method AlignToByte()
      requires Valid()
      modifies this
      ensures Valid() && InBit == 0 && Position() % 8 == 0
      ensures InAddr == old(InAddr) + (if old(InBit) == 0 then 0 else 1)
    {
      AddBits((8 - InBit) % 8);
      assert InAddr * 8 + InBit == old(InAddr) * 8 + (if old(InBit) == 0 then 0 else 8);
    }

    /** `Overflow(inc)`: whether reading `inc` more bytes would go past the
        buffer. */
    predicate Overflow(inc: nat)
      reads this
    {
      InAddr + inc >= MaxSize
    }
  }
}
