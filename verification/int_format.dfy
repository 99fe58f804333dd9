/** The integer half of `encodeValue` (`encodeUInt32` and `encodeInt`), which
    NvimSession.swift and NvimClient.swift carry verbatim, with an independent
    reader of the MessagePack int families as its specification. */
module IntFormat {
  import opened Wrappers
  import opened Bytes

  const INT32_MIN: int := -0x8000_0000

  /** `encodeUInt32`: the smallest of positive fixint, uint 8, uint 16 and
      uint 32 that holds `n`, multi-byte payloads big-endian. */
  function EncodeUInt32(n: nat): (r: Bytes)
    requires n < U32_LIMIT
    ensures n <= 0x7F ==> r == [n]
    ensures 0x7F < n <= 0xFF ==> r == [0xCC, n]
    ensures 0xFF < n <= 0xFFFF ==> |r| == 3 && r[0] == 0xCD
    ensures 0xFFFF < n ==> |r| == 5 && r[0] == 0xCE
  {
    if n <= 127 then [n]
    else if n <= 0xFF then [0xCC, n]
    else if n <= 0xFFFF then [0xCD] + Split16(n)
    else [0xCE] + Split32(n)
  }

  /** `encodeInt` as evidently intended: non-negative values go through
      `encodeUInt32`; negative ones use negative fixint, int 8, int 16 or
      int 32, whichever is smallest, with the big-endian two's-complement
      bytes of the value. */
  function EncodeInt(i: int): (r: Bytes)
    requires INT32_MIN <= i < U32_LIMIT
    ensures -32 <= i < 0 ==> r == [256 + i]
    ensures -128 <= i < -32 ==> r == [0xD0, 256 + i]
    ensures -32768 <= i < -128 ==> |r| == 3 && r[0] == 0xD1
    ensures i < -32768 ==> |r| == 5 && r[0] == 0xD2
  {
    if i >= 0 then EncodeUInt32(i)
    else if i >= -32 then [256 + i]
    else if i >= -128 then [0xD0, 256 + i]
    else if i >= -32768 then [0xD1] + Split16(i + U16_LIMIT)
    else [0xD2] + Split32(i + U32_LIMIT)
  }

  /** The outcome of running Swift code that may trap. */
  datatype Emitted = Bytes(bytes: Bytes) | Trapped

  /** `UInt8(x)`: traps unless `x` fits in an unsigned byte. */
  function UInt8Checked(x: int): Option<uint8> {
    if 0 <= x < 256 then Some(x) else None
  }

  /** The int 16 branch of `encodeInt` as written: `0xD1`, then
      `UInt8(int16Value >> 8)` and `UInt8(int16Value & 0xFF)`. */
  function EmitInt16(x: int): Emitted {
    match UInt8Checked(x / 0x100)
    case None => Trapped
    case Some(hi) => Bytes([0xD1, hi, x % 0x100])
  }

  /** The int 32 branch of `encodeInt` as written: `0xD2`, then
      `UInt8(int32Value >> 24)` and the three masked lower bytes. */
  function EmitInt32(x: int): Emitted {
    match UInt8Checked(x / 0x100_0000)
    case None => Trapped
    case Some(b0) => Bytes([0xD2, b0, (x / 0x1_0000) % 0x100, (x / 0x100) % 0x100, x % 0x100])
  }

  /** `encodeInt` exactly as written. `UInt32(value)` traps above 2^32 - 1 and
      `Int32(value)` below -2^31; and the int 16 and int 32 branches convert
      the arithmetic right shift of a negative value with `UInt8(_:)`, which
      traps on negative input. */
  function EncodeIntAsWritten(i: int): Emitted {
    if i >= 0 then
      if i < U32_LIMIT then Bytes(EncodeUInt32(i)) else Trapped
    else if i >= -32 then Bytes([0x100 + i])
    else if i >= -128 then Bytes([0xD0, 0x100 + i])
    else if i >= -32768 then EmitInt16(i)
    else if i < INT32_MIN then Trapped
    else EmitInt32(i)
  }

  /** The Swift encoder emits bytes exactly for -128 .. 2^32 - 1, and there it
      agrees with the intended encoding. */
  lemma AsWrittenTrapsBelowInt8(i: int)
    ensures EncodeIntAsWritten(i).Bytes? <==> -128 <= i < U32_LIMIT
    ensures -128 <= i < U32_LIMIT ==> EncodeIntAsWritten(i) == Bytes(EncodeInt(i))
  {
  }

  /** A concrete input: `encodeInt(-200)` traps instead of emitting
      `D1 FF 38`. */
  lemma AsWrittenTrapsOnMinus200()
    ensures EncodeIntAsWritten(-200) == Trapped
    ensures EncodeInt(-200) == [0xD1, 0xFF, 0x38]
  {
  }

  /** The two's-complement reading of the unsigned `u` of a field of
      `modulus` values. */
  function Signed(u: int, modulus: int): int {
    if 2 * u >= modulus then u - modulus else u
  }

  /** A reference reader for the integer formats of the MessagePack
      specification: the value encoded at the start of `s` and its length. */
  function ReadInt(s: Bytes): Option<(int, nat)> {
    if |s| == 0 then None
    else if s[0] <= 0x7F then Some((s[0], 1))
    else if s[0] >= 0xE0 then Some((s[0] as int - 256, 1))
    else if s[0] == 0xCC && |s| >= 2 then Some((s[1], 2))
    else if s[0] == 0xCD && |s| >= 3 then Some((BE16(s[1], s[2]), 3))
    else if s[0] == 0xCE && |s| >= 5 then Some((BE32(s[1], s[2], s[3], s[4]), 5))
    else if s[0] == 0xD0 && |s| >= 2 then Some((Signed(s[1], 0x100), 2))
    else if s[0] == 0xD1 && |s| >= 3 then Some((Signed(BE16(s[1], s[2]), U16_LIMIT), 3))
    else if s[0] == 0xD2 && |s| >= 5 then Some((Signed(BE32(s[1], s[2], s[3], s[4]), U32_LIMIT), 5))
    else None
  }

  /** The intended encoder is correct: a MessagePack reader recovers the
      integer, whatever follows it. */
  lemma EncodeIntRoundTrip(i: int, rest: Bytes)
    requires INT32_MIN <= i < U32_LIMIT
    ensures ReadInt(EncodeInt(i) + rest) == Some((i, |EncodeInt(i)|))
  {
    var e := EncodeInt(i);
    var s := e + rest;
    assert s[..|e|] == e;
    if i >= 0 && i > 0xFFFF {
      assert s[1..5] == Split32(i);
    } else if i >= 0 && i > 0xFF {
      assert s[1..3] == Split16(i);
    } else if i < -32768 {
      assert s[1..5] == Split32(i + U32_LIMIT);
    } else if i < -128 {
      assert s[1..3] == Split16(i + U16_LIMIT);
    }
  }
}
