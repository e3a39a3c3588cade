/** `String.toByteArray(Charsets.UTF_8)` on strings of Unicode scalar values,
    together with a decoder that shows the encoding loses nothing. */
module Utf8 {
  import opened Options
  import opened Bytes

  /** The bytes of one scalar value: 1 byte below U+0080, 2 below U+0800,
      3 below U+10000, 4 otherwise. */
  function EncodeChar(c: char): (bs: seq<Byte>)
    ensures 1 <= |bs| <= 4
    ensures |bs| == 1 <==> c as int < 0x80
    ensures |bs| == 1 ==> bs[0] == c as int
    ensures LeadLength(bs[0]) == |bs|
    ensures forall i :: 1 <= i < |bs| ==> IsContinuation(bs[i])
  {
    var n := c as int;
    if n < 0x80 then
      [n]
    else if n < 0x800 then
      [0xC0 + n / 64, 0x80 + n % 64]
    else if n < 0x1_0000 then
      [0xE0 + n / 4096, 0x80 + n / 64 % 64, 0x80 + n % 64]
    else
      [0xF0 + n / 262144, 0x80 + n / 4096 % 64, 0x80 + n / 64 % 64, 0x80 + n % 64]
  }

  /** The UTF-8 bytes of a string: the characters' encodings, in order. */
  function Encode(s: string): (bs: seq<Byte>)
    ensures |s| <= |bs| <= 4 * |s|
  {
    if s == [] then [] else EncodeChar(s[0]) + Encode(s[1..])
  }

  /** Encoding commutes with concatenation, so encoding names one after
      another without separators is encoding their concatenation. */
  lemma {:induction false} EncodeAppend(a: string, b: string)
    ensures Encode(a + b) == Encode(a) + Encode(b)
  {
    if a != [] {
      assert (a + b)[0] == a[0];
      assert (a + b)[1..] == a[1..] + b;
      EncodeAppend(a[1..], b);
      calc {
        Encode(a + b);
        EncodeChar(a[0]) + Encode(a[1..] + b);
        EncodeChar(a[0]) + (Encode(a[1..]) + Encode(b));
        (EncodeChar(a[0]) + Encode(a[1..])) + Encode(b);
      }
    } else {
      assert a + b == b;
    }
  }

  /** An ASCII string encodes to its own character codes. */
  lemma {:induction false} EncodeAscii(s: string)
    requires forall i :: 0 <= i < |s| ==> s[i] as int < 0x80
    ensures |Encode(s)| == |s|
    ensures forall i :: 0 <= i < |s| ==> Encode(s)[i] == s[i] as int
  {
    if s != [] {
      EncodeAscii(s[1..]);
    }
  }

  predicate IsContinuation(b: Byte)
  {
    0x80 <= b < 0xC0
  }

  /** How many bytes a sequence starting with lead byte `b` occupies; 0 for a
      byte that cannot start one. */
  function LeadLength(b: Byte): nat
  {
    if b < 0x80 then 1
    else if 0xC0 <= b < 0xE0 then 2
    else if 0xE0 <= b < 0xF0 then 3
    else if 0xF0 <= b < 0xF8 then 4
    else 0
  }

  predicate IsScalar(n: int)
  {
    0 <= n < 0xD800 || 0xE000 <= n < 0x11_0000
  }

  /** The value of one complete byte sequence, before the range check. */
  function SequenceValue(bs: seq<Byte>): int
    requires 1 <= |bs| <= 4
  {
    var b: seq<int> := bs;
    if |b| == 1 then b[0]
    else if |b| == 2 then (b[0] - 0xC0) * 64 + b[1] % 64
    else if |b| == 3 then (b[0] - 0xE0) * 4096 + b[1] % 64 * 64 + b[2] % 64
    else (b[0] - 0xF0) * 262144 + b[1] % 64 * 4096 + b[2] % 64 * 64 + b[3] % 64
  }

  /** Decodes a byte sequence, or None when it is not well-formed. */
  function Decode(bs: seq<Byte>): Option<string>
  {
    if bs == [] then Some("")
    else
      var len := LeadLength(bs[0]);
      if len == 0 || |bs| < len then None
      else if exists i :: 1 <= i < len && !IsContinuation(bs[i]) then None
      else
        var n := SequenceValue(bs[..len]);
        if !IsScalar(n) then None
        else match Decode(bs[len..])
          case None => None
          case Some(rest) => Some([n as char] + rest)
  }

  /** A continuation byte carries its low six bits. */
  lemma ContinuationPayload(r: int)
    requires 0 <= r < 64
    ensures (0x80 + r) % 64 == r
  {
  }

  /** `n` in six-bit groups: what lies above the lowest one, two and three
      groups, and the group just below it. */
  lemma SixBitSplit(n: nat)
    ensures n == n / 64 * 64 + n % 64
    ensures n / 64 == n / 4096 * 64 + n / 64 % 64
    ensures n / 4096 == n / 262144 * 64 + n / 4096 % 64
  {
  }

  lemma EncodeTwoBytesValue(c: char)
    requires 0x80 <= c as int < 0x800
    ensures SequenceValue(EncodeChar(c)) == c as int
  {
    var n := c as int;
    assert EncodeChar(c) == [0xC0 + n / 64, 0x80 + n % 64];
    ContinuationPayload(n % 64);
    SixBitSplit(n);
  }

  lemma EncodeThreeBytesValue(c: char)
    requires 0x800 <= c as int < 0x1_0000
    ensures SequenceValue(EncodeChar(c)) == c as int
  {
    var n := c as int;
    assert EncodeChar(c) == [0xE0 + n / 4096, 0x80 + n / 64 % 64, 0x80 + n % 64];
    ContinuationPayload(n / 64 % 64);
    ContinuationPayload(n % 64);
    SixBitSplit(n);
  }

  lemma EncodeFourBytesValue(c: char)
    requires 0x1_0000 <= c as int
    ensures SequenceValue(EncodeChar(c)) == c as int
  {
    var n := c as int;
    assert EncodeChar(c) == [0xF0 + n / 262144, 0x80 + n / 4096 % 64, 0x80 + n / 64 % 64, 0x80 + n % 64];
    ContinuationPayload(n / 4096 % 64);
    ContinuationPayload(n / 64 % 64);
    ContinuationPayload(n % 64);
    SixBitSplit(n);
  }

  /** The bytes of a character carry its value. */
  lemma EncodeCharValue(c: char)
    ensures SequenceValue(EncodeChar(c)) == c as int
  {
    var n := c as int;
    if n < 0x80 {
    } else if n < 0x800 {
      EncodeTwoBytesValue(c);
    } else if n < 0x1_0000 {
      EncodeThreeBytesValue(c);
    } else {
      EncodeFourBytesValue(c);
    }
  }

  /** Decoding undoes encoding: UTF-8 is injective on strings. */
  lemma {:induction false} DecodeInvertsEncode(s: string)
    ensures Decode(Encode(s)) == Some(s)
  {
    if s != [] {
      var head := EncodeChar(s[0]);
      var bs := Encode(s);
      assert bs == head + Encode(s[1..]);
      assert bs[0] == head[0];
      assert bs[..|head|] == head;
      assert bs[|head|..] == Encode(s[1..]);
      EncodeCharValue(s[0]);
      DecodeInvertsEncode(s[1..]);
      assert [s[0]] + s[1..] == s;
    }
  }
}
