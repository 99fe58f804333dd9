/** Octets, big-endian length fields and UTF-8 well-formedness: the byte-level
    vocabulary shared by both MessagePack codecs. */
module Bytes {

  type uint8 = x: int | 0 <= x < 256

  type Bytes = seq<uint8>

  const U16_LIMIT: int := 0x1_0000
  const U32_LIMIT: int := 0x1_0000_0000

  /** The unsigned value of two bytes read big-endian. */
  function BE16(hi: uint8, lo: uint8): (n: nat)
    ensures n < U16_LIMIT
  {
    hi * 256 + lo
  }

  /** The unsigned value of four bytes read big-endian. */
  function BE32(b0: uint8, b1: uint8, b2: uint8, b3: uint8): (n: nat)
    ensures n < U32_LIMIT
  {
    ((b0 * 256 + b1) * 256 + b2) * 256 + b3
  }

  /** The two big-endian bytes of `n`, the inverse of `BE16`. */
  function Split16(n: nat): (r: Bytes)
    requires n < U16_LIMIT
    ensures |r| == 2 && BE16(r[0], r[1]) == n
  {
    [n / 256, n % 256]
  }

  /** The four big-endian bytes of `n`, the inverse of `BE32`. */
  function Split32(n: nat): (r: Bytes)
    requires n < U32_LIMIT
    ensures |r| == 4 && BE32(r[0], r[1], r[2], r[3]) == n
  {
    var hi, lo := n / 0x1_0000, n % 0x1_0000;
    assert hi * 0x1_0000 + lo == n;
    Split16(hi) + Split16(lo)
  }

  predicate InRange(b: uint8, lo: int, hi: int) {
    lo <= b <= hi
  }

  /** Length of the well-formed UTF-8 encoding of one scalar value starting
      at `s[i]` (Unicode Standard, Table 3-7), or 0 if none starts there. */
  function Utf8CharLen(s: Bytes, i: nat): (k: nat)
    requires i <= |s|
    ensures i + k <= |s| && k <= 4
    ensures i < |s| && s[i] < 0x80 ==> k == 1
  {
    if i == |s| then 0
    else if s[i] <= 0x7F then 1
    else if InRange(s[i], 0xC2, 0xDF) then
      if i + 2 <= |s| && InRange(s[i + 1], 0x80, 0xBF) then 2 else 0
    else if InRange(s[i], 0xE0, 0xEF) then
      var lo := if s[i] == 0xE0 then 0xA0 else 0x80;
      var hi := if s[i] == 0xED then 0x9F else 0xBF;
      if i + 3 <= |s| && InRange(s[i + 1], lo, hi) && InRange(s[i + 2], 0x80, 0xBF) then 3 else 0
    else if InRange(s[i], 0xF0, 0xF4) then
      var lo := if s[i] == 0xF0 then 0x90 else 0x80;
      var hi := if s[i] == 0xF4 then 0x8F else 0xBF;
      if i + 4 <= |s| && InRange(s[i + 1], lo, hi) && InRange(s[i + 2], 0x80, 0xBF)
         && InRange(s[i + 3], 0x80, 0xBF) then 4 else 0
    else 0
  }

  /** `s[i..]` is a concatenation of well-formed UTF-8 code unit sequences. */
  predicate Utf8From(s: Bytes, i: nat)
    requires i <= |s|
    decreases |s| - i
  {
    i == |s| || (Utf8CharLen(s, i) > 0 && Utf8From(s, i + Utf8CharLen(s, i)))
  }

  /** `s` is well-formed UTF-8, which is what a Swift `String` always holds
      and what `String(data:encoding: .utf8)` accepts. */
  predicate ValidUtf8(s: Bytes) {
    Utf8From(s, 0)
  }

  predicate IsAscii(s: Bytes) {
    forall i :: 0 <= i < |s| ==> s[i] < 0x80
  }

  lemma {:induction false} AsciiFromIsUtf8(s: Bytes, i: nat)
    requires i <= |s| && IsAscii(s)
    ensures Utf8From(s, i)
    decreases |s| - i
  {
    if i < |s| {
      assert Utf8CharLen(s, i) == 1;
      AsciiFromIsUtf8(s, i + 1);
    }
  }

  lemma AsciiIsUtf8(s: Bytes)
    requires IsAscii(s)
    ensures ValidUtf8(s)
  {
    AsciiFromIsUtf8(s, 0);
  }

  /** ASCII checked byte by byte, as for a literal. */
  lemma AsciiBytesIsUtf8(s: Bytes)
    requires forall x :: x in s ==> x < 0x80
    ensures ValidUtf8(s)
  {
    forall i | 0 <= i < |s| ensures s[i] < 0x80 {
      assert s[i] in s;
    }
    AsciiIsUtf8(s);
  }

  /** The UTF-8 bytes of an ASCII text, as used for RPC method names and map
      keys. */
  function Ascii(s: string): (r: Bytes)
    requires forall i :: 0 <= i < |s| ==> s[i] as int < 0x80
    ensures |r| == |s| && IsAscii(r)
    ensures forall i :: 0 <= i < |s| ==> r[i] == s[i] as int
  {
    if |s| == 0 then [] else [s[0] as int] + Ascii(s[1..])
  }

  // ------------------------------------------------- slices of byte strings

  lemma SliceConcat(data: Bytes, off: nat, p: Bytes, q: Bytes)
    requires off + |p| + |q| <= |data|
    requires data[off..off + |p| + |q|] == p + q
    ensures data[off..off + |p|] == p
    ensures data[off + |p|..off + |p| + |q|] == q
  {
    var whole := data[off..off + |p| + |q|];
    assert data[off..off + |p|] == whole[..|p|];
    assert data[off + |p|..off + |p| + |q|] == whole[|p|..];
  }

  lemma SliceAt(data: Bytes, off: nat, e: Bytes, k: nat)
    requires off + |e| <= |data| && data[off..off + |e|] == e && k < |e|
    ensures data[off + k] == e[k]
  {
    assert data[off..off + |e|][k] == data[off + k];
  }

  lemma PrefixOfConcat(data: Bytes, off: nat, p: Bytes, q: Bytes)
    requires off <= |data| < off + |p| + |q|
    requires data[off..] == (p + q)[..|data| - off]
    ensures |data| - off < |p| ==> data[off..] == p[..|data| - off]
    ensures |data| - off >= |p| ==> data[off..off + |p|] == p && data[off + |p|..] == q[..|data| - off - |p|]
  {
    if |data| - off >= |p| {
      assert data[off..off + |p|] == data[off..][..|p|];
      assert data[off + |p|..] == data[off..][|p|..];
    }
  }

  lemma PrefixAt(data: Bytes, off: nat, e: Bytes, k: nat)
    requires off <= |data| < off + |e| && data[off..] == e[..|data| - off]
    requires off + k < |data|
    ensures data[off + k] == e[k]
  {
    assert data[off..][k] == data[off + k];
  }
}
