/** Rounded divisions, ZigZag coding and variable-length integer sizes
    (the static class `Arithmetic` of the utilities namespace).

    C#'s unsigned types are modelled as bounded `nat`s whose operations wrap
    explicitly; `long`/`ulong` bit manipulation is modelled on `bv64`. */
module Arithmetic {
  import opened Wrappers

  const U8: nat := 0x100
  const U16: nat := 0x1_0000
  const U32: nat := 0x1_0000_0000
  const U64: nat := 0x1_0000_0000_0000_0000

  type ulong = x: nat | x < 0x1_0000_0000_0000_0000
  type uint = x: nat | x < 0x1_0000_0000
  type ushort = x: nat | x < 0x1_0000
  type byte = x: nat | x < 0x100

  /** `q` is the mathematical ceiling of `a / b`. */
  ghost predicate IsCeiling(a: nat, b: nat, q: nat)
    requires b > 0
  {
    q * b >= a && (q == 0 || (q - 1) * b < a)
  }

  // ---------------------------------------------------------------------------
  // CeilingExact: four overloads, one per unsigned width.
  // ---------------------------------------------------------------------------

  /** `CeilingExact(ulong, ulong)`: `(u1 + u2 - 1) / u2` in 64-bit unsigned
      arithmetic, where the sum wraps modulo 2^64; a zero divisor raises
      `DivideByZeroException` (None). */
  function CeilingExact64(u1: ulong, u2: ulong): (r: Option<ulong>)
    ensures r.None? <==> u2 == 0
  {
    if u2 == 0 then None
    else
      var s := (u1 + u2 - 1) % U64;
      DivLe(s, u2);
      Some(s / u2)
  }

  /** `CeilingExact(uint, uint)`: the same in 32-bit unsigned arithmetic. */
  function CeilingExact32(u1: uint, u2: uint): (r: Option<uint>)
    ensures r.None? <==> u2 == 0
  {
    if u2 == 0 then None
    else
      var s := (u1 + u2 - 1) % U32;
      DivLe(s, u2);
      Some(s / u2)
  }

  /** `CeilingExact(ushort, ushort)`: the operands are promoted to `int`, so the
      sum cannot wrap; the quotient is narrowed back by a `(ushort)` cast. */
  function CeilingExact16(u1: ushort, u2: ushort): (r: Option<ushort>)
    ensures r.None? <==> u2 == 0
  {
    if u2 == 0 then None else Some(((u1 + u2 - 1) / u2) % U16)
  }

  /** `CeilingExact(byte, byte)`: as for `ushort`, with a `(byte)` cast. */
  function CeilingExact8(u1: byte, u2: byte): (r: Option<byte>)
    ensures r.None? <==> u2 == 0
  {
    if u2 == 0 then None else Some(((u1 + u2 - 1) / u2) % U8)
  }

  lemma DivLe(x: nat, y: nat)
    requires y > 0
    ensures x / y <= x
  {
    DivMod(x, y);
    MulGe(x / y, y);
  }

  lemma DivMod(s: nat, b: nat)
    requires b > 0
    ensures s == (s / b) * b + s % b && 0 <= s % b < b
  {
  }

  lemma MulPred(q: nat, b: nat)
    requires q > 0
    ensures (q - 1) * b == q * b - b
  {
  }

  lemma MulGe(a: nat, b: nat)
    requires b > 0
    ensures a * b >= a
  {
  }

  lemma MulSucc(a: nat, b: nat)
    ensures (a + 1) * b == a * b + b
  {
  }

  lemma MulMono(x: nat, y: nat, b: nat)
    requires x <= y
    ensures x * b <= y * b
  {
  }

  /** The rounded-up quotient of `a + b - 1` by `b` is the ceiling of `a / b`,
      and it never exceeds `a`. */
  lemma CeilingOfSum(a: nat, b: nat)
    requires b > 0
    ensures IsCeiling(a, b, (a + b - 1) / b)
    ensures (a + b - 1) / b <= a
  {
    var q := (a + b - 1) / b;
    DivMod(a + b - 1, b);
    if q > 0 {
      MulPred(q, b);
    }
    if q > a {
      MulMono(a + 1, q, b);
      MulSucc(a, b);
      MulGe(a, b);
    }
  }

  /** The 64-bit overload is the exact ceiling whenever `u1 + u2 - 1` fits. */
  lemma CeilingExact64IsCeiling(u1: ulong, u2: ulong)
    requires u2 > 0 && u1 + u2 - 1 < U64
    ensures CeilingExact64(u1, u2).Some?
    ensures IsCeiling(u1, u2, CeilingExact64(u1, u2).value)
  {
    CeilingOfSum(u1, u2);
  }

  /** The 32-bit overload is the exact ceiling whenever `u1 + u2 - 1` fits. */
  lemma CeilingExact32IsCeiling(u1: uint, u2: uint)
    requires u2 > 0 && u1 + u2 - 1 < U32
    ensures CeilingExact32(u1, u2).Some?
    ensures IsCeiling(u1, u2, CeilingExact32(u1, u2).value)
  {
    CeilingOfSum(u1, u2);
  }

  /** The 16-bit overload is the exact ceiling for every non-zero divisor: the
      sum is computed in `int` and the narrowing cast never truncates. */
  lemma CeilingExact16IsCeiling(u1: ushort, u2: ushort)
    requires u2 > 0
    ensures CeilingExact16(u1, u2).Some?
    ensures IsCeiling(u1, u2, CeilingExact16(u1, u2).value)
  {
    CeilingOfSum(u1, u2);
  }

  /** The 8-bit overload is the exact ceiling for every non-zero divisor. */
  lemma CeilingExact8IsCeiling(u1: byte, u2: byte)
    requires u2 > 0
    ensures CeilingExact8(u1, u2).Some?
    ensures IsCeiling(u1, u2, CeilingExact8(u1, u2).value)
  {
    CeilingOfSum(u1, u2);
  }

  /** As written, the 64-bit overload wraps: `CeilingExact(ulong.MaxValue, 2)`
      is 0, although the ceiling of `(2^64 - 1) / 2` is 2^63. */
  lemma CeilingExact64Wraps()
    ensures CeilingExact64(U64 - 1, 2) == Some(0)
    ensures !IsCeiling(U64 - 1, 2, 0)
    ensures IsCeiling(U64 - 1, 2, 0x8000_0000_0000_0000)
  {
  }

  /** The evidently intended 64-bit ceiling division: `u1 / u2`, plus one when
      the division leaves a remainder, with no intermediate sum that could wrap. */
  function CeilingNoWrap64(u1: ulong, u2: ulong): (r: Option<ulong>)
    ensures r.None? <==> u2 == 0
    ensures r.Some? ==> IsCeiling(u1, u2, r.value)
  {
    if u2 == 0 then None
    else
      CeilingDivMod(u1, u2);
      Some(u1 / u2 + (if u1 % u2 == 0 then 0 else 1))
  }

  /** `a / b`, plus one exactly when the division leaves a remainder, is the
      ceiling of `a / b` and never exceeds `a`. */
  lemma CeilingDivMod(a: nat, b: nat)
    requires b > 0
    ensures var q := a / b + (if a % b == 0 then 0 else 1);
            IsCeiling(a, b, q) && q <= a
  {
    var d, m := a / b, a % b;
    DivMod(a, b);
    var q := d + (if m == 0 then 0 else 1);
    MulSucc(d, b);
    if q > 0 {
      MulPred(q, b);
    }
    MulGe(d, b);
  }

  /** Wherever the written 64-bit overload does not wrap, the corrected one
      agrees with it. */
  lemma CeilingNoWrap64Agrees(u1: ulong, u2: ulong)
    requires u2 > 0 && u1 + u2 - 1 < U64
    ensures CeilingNoWrap64(u1, u2) == CeilingExact64(u1, u2)
  {
    CeilingExact64IsCeiling(u1, u2);
    CeilingUnique(u1, u2, CeilingNoWrap64(u1, u2).value, CeilingExact64(u1, u2).value);
  }

  /** The 32-bit overload wraps the same way: `CeilingExact(uint.MaxValue, 2)`
      is 0, although the ceiling of `(2^32 - 1) / 2` is 2^31. */
  lemma CeilingExact32Wraps()
    ensures CeilingExact32(U32 - 1, 2) == Some(0)
    ensures !IsCeiling(U32 - 1, 2, 0)
    ensures IsCeiling(U32 - 1, 2, 0x8000_0000)
  {
  }

  /** The evidently intended 32-bit ceiling division, without the sum. */
  function CeilingNoWrap32(u1: uint, u2: uint): (r: Option<uint>)
    ensures r.None? <==> u2 == 0
    ensures r.Some? ==> IsCeiling(u1, u2, r.value)
  {
    if u2 == 0 then None
    else
      CeilingDivMod(u1, u2);
      Some(u1 / u2 + (if u1 % u2 == 0 then 0 else 1))
  }

  /** Wherever the written 32-bit overload does not wrap, the corrected one
      agrees with it. */
  lemma CeilingNoWrap32Agrees(u1: uint, u2: uint)
    requires u2 > 0 && u1 + u2 - 1 < U32
    ensures CeilingNoWrap32(u1, u2) == CeilingExact32(u1, u2)
  {
    CeilingExact32IsCeiling(u1, u2);
    CeilingUnique(u1, u2, CeilingNoWrap32(u1, u2).value, CeilingExact32(u1, u2).value);
  }

  /** At most one number is the ceiling of `a / b`. */
  lemma CeilingUnique(a: nat, b: nat, p: nat, q: nat)
    requires b > 0 && IsCeiling(a, b, p) && IsCeiling(a, b, q)
    ensures p == q
  {
    if p < q {
      MulMono(p, q - 1, b);
    } else if q < p {
      MulMono(q, p - 1, b);
    }
  }

  // ---------------------------------------------------------------------------
  // ZigZag coding of 64-bit signed integers. A `long` is its two's-complement
  // bit pattern: negative exactly when bit 63 is set.
  // ---------------------------------------------------------------------------

  const SignBit: bv64 := 0x8000_0000_0000_0000
  const Low63: bv64 := 0x7FFF_FFFF_FFFF_FFFF
  const AllOnes: bv64 := 0xFFFF_FFFF_FFFF_FFFF

  /** C#'s arithmetic shift `x >> 63` on a `long`: all ones for a negative
      value, zero otherwise. */
  function SignSpread(x: bv64): (r: bv64)
  {
    if x >> 63 == 1 then AllOnes else 0
  }

  /** `ZigZagEncode(long)`: `(ulong)((value >> 63) ^ (value << 1))`. */
  function ZigZagEncode(value: bv64): (r: bv64)
  {
    SignSpread(value) ^ (value << 1)
  }

  /** `ZigZagDecode(ulong)`: `((long)(value >> 1) & 0x7FFFFFFFFFFFFFFF)` xor
      `((long)(value << 63) >> 63)`, the lowest bit spread over the word. */
  function ZigZagDecode(value: bv64): (r: bv64)
  {
    ((value >> 1) & Low63) ^ SignSpread(value << 63)
  }

  lemma LowBitSpread(x: bv64)
    ensures SignSpread(x << 63) == if x & 1 == 1 then AllOnes else 0
  {
    assert (x << 63) >> 63 == x & 1;
  }

  lemma EncodeNegative(v: bv64)
    requires v >> 63 == 1
    ensures ZigZagEncode(v) == !(v << 1)
  {
  }

  lemma EncodeNonNegative(v: bv64)
    requires v >> 63 == 0
    ensures ZigZagEncode(v) == v << 1
  {
  }

  lemma ComplementShift(v: bv64)
    ensures (!(v << 1)) & 1 == 1
    ensures ((!(v << 1)) >> 1) & Low63 == (!v) & Low63
  {
  }

  lemma RestoreNegative(v: bv64)
    requires v >> 63 == 1
    ensures ((!v) & Low63) ^ AllOnes == v
  {
  }

  lemma RestoreNonNegative(v: bv64)
    requires v >> 63 == 0
    ensures (v << 1) & 1 == 0
    ensures ((v << 1) >> 1) & Low63 == v
  {
  }

  lemma DecodeOdd(e: bv64)
    requires e & 1 == 1
    ensures ZigZagDecode(e) == ((e >> 1) & Low63) ^ AllOnes
  {
    LowBitSpread(e);
  }

  lemma DecodeEven(e: bv64)
    requires e & 1 == 0
    ensures ZigZagDecode(e) == (e >> 1) & Low63
  {
    LowBitSpread(e);
  }

  lemma TopBit(v: bv64)
    ensures v >> 63 == 0 || v >> 63 == 1
  {
  }

  /** Decoding undoes encoding, for every `long`. */
  lemma ZigZagRoundTrip(v: bv64)
    ensures ZigZagDecode(ZigZagEncode(v)) == v
  {
    var e := ZigZagEncode(v);
    TopBit(v);
    if v >> 63 == 1 {
      EncodeNegative(v);
      ComplementShift(v);
      DecodeOdd(e);
      RestoreNegative(v);
    } else {
      EncodeNonNegative(v);
      RestoreNonNegative(v);
      DecodeEven(e);
    }
  }

  /** Encoding undoes decoding, for every `ulong`: the coding is a bijection. */
  lemma ZigZagRoundTripUnsigned(u: bv64)
    ensures ZigZagEncode(ZigZagDecode(u)) == u
  {
  }

  /** A non-negative `v` is encoded as the even number `2v` (the product does
      not wrap). */
  lemma ZigZagEncodeNonNegative(v: bv64)
    requires v < SignBit
    ensures ZigZagEncode(v) == v * 2 && v * 2 >= v
    ensures ZigZagEncode(v) & 1 == 0
  {
    assert v >> 63 == 0;
    EncodeNonNegative(v);
    ShiftIsDouble(v);
  }

  lemma ShiftIsDouble(v: bv64)
    requires v < SignBit
    ensures v << 1 == v * 2 && v * 2 >= v && (v << 1) & 1 == 0
  {
  }

  /** A negative `v` is encoded as the odd number `-2v - 1`, where `0 - v` is
      the magnitude of `v` (at most 2^63, so the product does not wrap). */
  lemma ZigZagEncodeNegative(v: bv64)
    requires v >= SignBit
    ensures ZigZagEncode(v) == (0 - v) * 2 - 1 && 0 - v <= SignBit
    ensures ZigZagEncode(v) & 1 == 1
  {
    assert v >> 63 == 1;
    EncodeNegative(v);
  }

  /** `Div8Ceil(ulong)`: `(value >> 3)` plus one when any of the three low bits
      is set; the cast to `long` never changes the value (see below). */
  function Div8Ceil(value: bv64): (r: bv64)
  {
    (value >> 3) + ((value & 1) | ((value >> 1) & 1) | ((value >> 2) & 1))
  }

  /** `Div8Ceil` is the ceiling of `value / 8` for every `ulong` (computed in
      128 bits, where `8 * r` cannot wrap), and it fits a non-negative `long`. */
  lemma Div8CeilIsCeiling(value: bv64)
    ensures Div8Ceil(value) < SignBit
    ensures (Div8Ceil(value) as bv128) * 8 >= value as bv128
    ensures Div8Ceil(value) == 0 || ((Div8Ceil(value) - 1) as bv128) * 8 < value as bv128
  {
  }

  // ---------------------------------------------------------------------------
  // VarIntSize: the number of bytes a value takes once VarInt-encoded.
  // ---------------------------------------------------------------------------

  /** The largest value of each encoded size from 1 to 8 bytes. */
  const VarIntLimits: seq<nat> := [240, 2287, 67823, 16777215, 4294967295, 1099511627775,
                                   281474976710655, 72057594037927935]

  /** `VarIntSize(ulong)`: the first size whose largest value is not below
      `value`, and 9 past all of them. */
  function VarIntSize(value: ulong): (r: nat)
    ensures 1 <= r <= 9
    ensures r == 1 <==> value <= 240
    ensures r == 9 <==> value > 72057594037927935
  {
    if value <= 240 then 1
    else if value <= 2287 then 2
    else if value <= 67823 then 3
    else if value <= 16777215 then 4
    else if value <= 4294967295 then 5
    else if value <= 1099511627775 then 6
    else if value <= 281474976710655 then 7
    else if value <= 72057594037927935 then 8
    else 9
  }

  /** How many of `limits` lie below `v`. */
  function LimitsBelow(limits: seq<nat>, v: nat): (r: nat)
    ensures r <= |limits|
  {
    if limits == [] then 0 else (if limits[0] < v then 1 else 0) + LimitsBelow(limits[1..], v)
  }

  lemma {:induction false} LimitsBelowMonotonic(limits: seq<nat>, a: nat, b: nat)
    requires a <= b
    ensures LimitsBelow(limits, a) <= LimitsBelow(limits, b)
  {
    if limits != [] {
      LimitsBelowMonotonic(limits[1..], a, b);
    }
  }

  /** The size is one plus the number of size limits the value exceeds. */
  lemma VarIntSizeCountsLimits(value: ulong)
    ensures VarIntSize(value) == 1 + LimitsBelow(VarIntLimits, value)
  {
    var l := VarIntLimits;
    assert LimitsBelow(l[8..], value) == 0;
    assert l[7..][1..] == l[8..];
    assert LimitsBelow(l[7..], value) == (if l[7] < value then 1 else 0) + LimitsBelow(l[8..], value);
    assert l[6..][1..] == l[7..];
    assert LimitsBelow(l[6..], value) == (if l[6] < value then 1 else 0) + LimitsBelow(l[7..], value);
    assert l[5..][1..] == l[6..];
    assert LimitsBelow(l[5..], value) == (if l[5] < value then 1 else 0) + LimitsBelow(l[6..], value);
    assert l[4..][1..] == l[5..];
    assert LimitsBelow(l[4..], value) == (if l[4] < value then 1 else 0) + LimitsBelow(l[5..], value);
    assert l[3..][1..] == l[4..];
    assert LimitsBelow(l[3..], value) == (if l[3] < value then 1 else 0) + LimitsBelow(l[4..], value);
    assert l[2..][1..] == l[3..];
    assert LimitsBelow(l[2..], value) == (if l[2] < value then 1 else 0) + LimitsBelow(l[3..], value);
    assert l[1..][1..] == l[2..];
    assert LimitsBelow(l[1..], value) == (if l[1] < value then 1 else 0) + LimitsBelow(l[2..], value);
    assert l[0..][1..] == l[1..];
    assert LimitsBelow(l[0..], value) == (if l[0] < value then 1 else 0) + LimitsBelow(l[1..], value);
    assert l[0..] == l;
  }

  /** A larger value never takes fewer bytes. */
  lemma VarIntSizeMonotonic(a: ulong, b: ulong)
    requires a <= b
    ensures VarIntSize(a) <= VarIntSize(b)
  {
    VarIntSizeCountsLimits(a);
    VarIntSizeCountsLimits(b);
    LimitsBelowMonotonic(VarIntLimits, a, b);
  }
}
