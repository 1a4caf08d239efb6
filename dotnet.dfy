/**
 * The fixed-width integers and strings of the .NET runtime, and the few library
 * operations on them that UINTColor32 relies on: the unchecked casts between
 * `int` and `uint`, shifts on `uint`, `UInt32.CompareTo`, `UInt32.ToString("x8")`
 * and `UInt32.TryParse` of a one-character string in hexadecimal style.
 */
module DotNet {
  import opened Wrappers

  /** 2^32, the number of values of a 32-bit word. */
  const TWO_32: int := 0x1_0000_0000

  newtype byte = x: int | 0 <= x < 0x100
  newtype uint32 = x: int | 0 <= x < 0x1_0000_0000
  newtype int32 = x: int | -0x8000_0000 <= x < 0x8000_0000

  /**
   * A .NET `char`: one UTF-16 code unit. A character outside the Basic
   * Multilingual Plane takes two units (a surrogate pair), and a string may
   * hold a lone surrogate.
   */
  newtype char16 = x: int | 0 <= x < 0x1_0000

  /** A .NET `string`: `Length` and the indexer count UTF-16 code units. */
  type CsString = seq<char16>

  const DIGIT_0: char16 := '0' as char16
  const DIGIT_9: char16 := '9' as char16
  const LOWER_A: char16 := 'a' as char16
  const LOWER_F: char16 := 'f' as char16
  const UPPER_A: char16 := 'A' as char16
  const UPPER_F: char16 := 'F' as char16

  /** 2^n. */
  function Pow2(n: nat): (p: nat)
    ensures p >= 1
  {
    if n == 0 then 1 else 2 * Pow2(n - 1)
  }

  /** `(uint)x` in an unchecked context: the same 32 bits read as unsigned. */
  function ToUInt32(x: int32): (u: uint32)
    ensures (u as int - x as int) % TWO_32 == 0
    ensures x >= 0 ==> u as int == x as int
  {
    if x < 0 then (x as int + TWO_32) as uint32 else x as int as uint32
  }

  /** `(int)u` in an unchecked context: the same 32 bits read as two's complement. */
  function ToInt32(u: uint32): (x: int32)
    ensures (u as int - x as int) % TWO_32 == 0
    ensures u < 0x8000_0000 ==> x as int == u as int
  {
    if u < 0x8000_0000 then u as int as int32 else (u as int - TWO_32) as int32
  }

  /** Reading a word as signed and back as unsigned gives the word back. */
  lemma CastRoundTrip(u: uint32)
    ensures ToUInt32(ToInt32(u)) == u
  {
  }

  /** `(byte)x`: the low eight bits of a word. */
  function ToByte(x: uint32): (b: byte)
    ensures (x as int - b as int) % 0x100 == 0
    ensures x < 0x100 ==> b as int == x as int
  {
    (x as int % 0x100) as byte
  }

  /** `x >> n` on a `uint`: the n low bits are dropped, so r·2^n <= x < (r + 1)·2^n. */
  function ShiftRight(x: uint32, n: nat): (r: uint32)
    requires n < 32
    ensures r as int * Pow2(n) <= x as int < r as int * Pow2(n) + Pow2(n)
  {
    var p := Pow2(n);
    DivBracket(x as int, p);
    (x as int / p) as uint32
  }

  /** The quotient x / p is the multiple of p just below x. */
  lemma DivBracket(x: nat, p: nat)
    requires p >= 1
    ensures 0 <= x / p <= x
    ensures x / p * p <= x < x / p * p + p
  {
  }

  /** `x <<= 4` on a `uint`: the four top bits are lost. */
  function ShiftLeft4(x: uint32): (r: uint32)
    ensures x < 0x1000_0000 ==> r as int == 16 * x as int
    ensures r as int % 16 == 0
  {
    ((x as int * 16) % TWO_32) as uint32
  }

  /** `x += y` on a `uint` in an unchecked context: the sum modulo 2^32. */
  function WrappingAdd(x: uint32, y: uint32): (r: uint32)
    ensures x as int + y as int < TWO_32 ==> r as int == x as int + y as int
    ensures x as int + y as int >= TWO_32 ==> r as int == x as int + y as int - TWO_32
  {
    ((x as int + y as int) % TWO_32) as uint32
  }

  /** `UInt32.CompareTo`: -1, 0 or 1 as x lies below, at or above y. */
  function CompareUInt32(x: uint32, y: uint32): (c: int32)
    ensures -1 <= c <= 1
    ensures c < 0 <==> x < y
    ensures c == 0 <==> x == y
    ensures c > 0 <==> x > y
  {
    if x < y then -1 else if x > y then 1 else 0
  }

  /** One of the digits `UInt32.ToString("x8")` writes: 0-9 or lower-case a-f. */
  predicate IsLowerHexDigit(c: char16): (b: bool)
    ensures b <==> TryParseHexChar(c).Some? && !(UPPER_A <= c <= UPPER_F)
  {
    DIGIT_0 <= c <= DIGIT_9 || LOWER_A <= c <= LOWER_F
  }

  /**
   * `UInt32.TryParse` of the one-unit string `c` with
   * `NumberStyles.HexNumber`: succeeds exactly on 0-9, a-f and A-F (a lone
   * white-space unit holds no digit, and a surrogate half is no digit), with
   * the digit's value.
   */
  function TryParseHexChar(c: char16): (r: Option<uint32>)
    ensures r.Some? <==> (DIGIT_0 <= c <= DIGIT_9 || LOWER_A <= c <= LOWER_F || UPPER_A <= c <= UPPER_F)
    ensures r.Some? ==> r.value < 16
  {
    if DIGIT_0 <= c <= DIGIT_9 then Some((c - DIGIT_0) as int as uint32)
    else if LOWER_A <= c <= LOWER_F then Some((c - LOWER_A) as int as uint32 + 10)
    else if UPPER_A <= c <= UPPER_F then Some((c - UPPER_A) as int as uint32 + 10)
    else None
  }

  /** The lower-case digit written for a value below 16; it parses back to that value. */
  function HexChar(d: nat): (c: char16)
    requires d < 16
    ensures IsLowerHexDigit(c)
    ensures TryParseHexChar(c) == Some(d as uint32)
  {
    if d < 10 then DIGIT_0 + d as char16 else LOWER_A + (d - 10) as char16
  }

  /** The n lowest hexadecimal digits of v, most significant first. */
  function HexDigits(v: nat, n: nat): (s: CsString)
    ensures |s| == n
    ensures forall i :: 0 <= i < n ==> IsLowerHexDigit(s[i])
  {
    if n == 0 then [] else HexDigits(v / 16, n - 1) + [HexChar(v % 16)]
  }

  /** `UInt32.ToString("x8")`: eight lower-case hexadecimal digits, zero-padded. */
  function FormatHex8(u: uint32): (s: CsString)
    ensures |s| == 8
    ensures forall i :: 0 <= i < 8 ==> IsLowerHexDigit(s[i])
  {
    HexDigits(u as int, 8)
  }
}
