/** Bytes as a digest consumes them, Kotlin's 8-bit truncation `Int.toByte()`,
    and the two-characters-per-byte lowercase hex rendering of a digest. */
module Bytes {

  /** A byte, represented by its unsigned bit pattern. Kotlin's `Byte` is
      signed; the signed value b stands here as (b + 256) % 256, which is also
      what the `%02x` format prints for a negative `Byte`. */
  type Byte = b: int | 0 <= b < 256

  /** An MD5 digest: exactly 16 bytes. */
  type Digest = d: seq<Byte> | |d| == 16
    witness [0, 0, 0, 0, 0, 0, 0, 0, 0, 0, 0, 0, 0, 0, 0, 0]

  /** The signed value Kotlin's `Byte` holds for a bit pattern. */
  function Signed(b: Byte): (v: int)
    ensures -128 <= v < 128
    ensures (v - b) % 256 == 0
  {
    if b < 128 then b else b - 256
  }

  /** `Int.toByte()`: keeps the low 8 bits, i.e. the unique byte congruent to
      `n` modulo 256. */
  function ToByte(n: int): (b: Byte)
    ensures (b - n) % 256 == 0
  {
    n % 256
  }

  /** A value that already fits a signed byte survives `toByte()` unchanged. */
  lemma ToByteKeepsSmallValues(n: int)
    requires -128 <= n < 128
    ensures Signed(ToByte(n)) == n
  {
  }

  predicate IsLowerHexChar(c: char)
  {
    '0' <= c <= '9' || 'a' <= c <= 'f'
  }

  predicate IsLowerHex(s: string)
  {
    forall i :: 0 <= i < |s| ==> IsLowerHexChar(s[i])
  }

  /** The lowercase hex digit of a nibble. */
  function HexDigit(n: int): (c: char)
    requires 0 <= n < 16
    ensures IsLowerHexChar(c)
  {
    if n < 10 then ('0' as int + n) as char else ('a' as int + n - 10) as char
  }

  /** The nibble a lowercase hex digit denotes. */
  function HexValue(c: char): (n: int)
    requires IsLowerHexChar(c)
    ensures 0 <= n < 16
    ensures HexDigit(n) == c
  {
    if c <= '9' then c as int - '0' as int else c as int - 'a' as int + 10
  }

  /** `"%02x".format(b)`: two lowercase hex digits, high nibble first. */
  function HexByte(b: Byte): (s: string)
    ensures |s| == 2 && IsLowerHex(s)
    ensures HexValue(s[0]) * 16 + HexValue(s[1]) == b
  {
    [HexDigit(b / 16), HexDigit(b % 16)]
  }

  /** `joinToString("") { "%02x".format(it) }` over a byte array. */
  function Hex(bytes: seq<Byte>): (s: string)
    ensures |s| == 2 * |bytes|
    ensures IsLowerHex(s)
  {
    if bytes == [] then "" else HexByte(bytes[0]) + Hex(bytes[1..])
  }

  /** Reads a lowercase hex string back into bytes, two digits per byte. */
  function ParseHex(s: string): (bytes: seq<Byte>)
    requires |s| % 2 == 0 && IsLowerHex(s)
    ensures |bytes| == |s| / 2
  {
    if s == [] then [] else [HexValue(s[0]) * 16 + HexValue(s[1])] + ParseHex(s[2..])
  }

  /** Parsing undoes rendering: the hex text determines the digest. */
  lemma {:induction false} ParseHexInvertsHex(bytes: seq<Byte>)
    ensures ParseHex(Hex(bytes)) == bytes
  {
    if bytes != [] {
      var s := Hex(bytes);
      assert s[2..] == Hex(bytes[1..]);
      ParseHexInvertsHex(bytes[1..]);
    }
  }

  /** Rendering undoes parsing: every even-length lowercase hex string is the
      rendering of exactly one byte sequence. */
  lemma {:induction false} HexInvertsParseHex(s: string)
    requires |s| % 2 == 0 && IsLowerHex(s)
    ensures Hex(ParseHex(s)) == s
  {
    if s != [] {
      HexInvertsParseHex(s[2..]);
      var b: Byte := HexValue(s[0]) * 16 + HexValue(s[1]);
      assert b / 16 == HexValue(s[0]) && b % 16 == HexValue(s[1]);
    }
  }
}
