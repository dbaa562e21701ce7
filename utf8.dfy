/** `String.toByteArray()`: the UTF-8 encoding of section 3 of RFC 3629,
    with a decoder of well-formed UTF-8 as its partner. */
module Utf8 {
  import opened Basics

  /** The bytes of one Unicode scalar value: one byte below U+0080, two
      below U+0800, three below U+10000 and four above. */
  function EncodeChar(c: char): (b: seq<Byte>)
    ensures 1 <= |b| <= 4
    ensures |b| == 1 <==> c as int < 0x80
  {
    var v := c as int;
    if v < 0x80 then [v]
    else if v < 0x800 then [0xC0 + v / 64, 0x80 + v % 64]
    else if v < 0x10000 then [0xE0 + v / 4096, 0x80 + (v / 64) % 64, 0x80 + v % 64]
    else [0xF0 + v / 262144, 0x80 + (v / 4096) % 64, 0x80 + (v / 64) % 64, 0x80 + v % 64]
  }

  /** The encoding of a text, character by character. */
  function Encode(s: string): seq<Byte>
  {
    if |s| == 0 then [] else EncodeChar(s[0]) + Encode(s[1..])
  }

  /** The length of a sequence as its first byte announces it. */
  function LeadLength(b0: Byte): nat
  {
    if b0 < 0x80 then 1 else if b0 < 0xE0 then 2 else if b0 < 0xF0 then 3 else 4
  }

  /** The scalar value of one encoded character: the payload bits of the
      lead byte followed by six bits of each continuation byte. */
  function DecodeChar(b: seq<Byte>): int
    requires 1 <= |b| && |b| == LeadLength(b[0])
  {
    var b0 := b[0] as int;
    if |b| == 1 then b0
    else
      var b1 := b[1] as int;
      if |b| == 2 then (b0 % 32) * 64 + b1 % 64
      else
        var b2 := b[2] as int;
        if |b| == 3 then (b0 % 16) * 4096 + (b1 % 64) * 64 + b2 % 64
        else (b0 % 8) * 262144 + (b1 % 64) * 4096 + (b2 % 64) * 64 + (b[3] as int) % 64
  }

  /** The scalar values of a well-formed UTF-8 byte sequence; a truncated
      last character is dropped. */
  function Decode(b: seq<Byte>): seq<int>
    decreases |b|
  {
    if |b| == 0 then []
    else
      var n := LeadLength(b[0]);
      if |b| < n then [] else [DecodeChar(b[..n])] + Decode(b[n..])
  }

  /** The scalar values of a text. */
  function CodePoints(s: string): (r: seq<int>)
    ensures |r| == |s|
  {
    if |s| == 0 then [] else [s[0] as int] + CodePoints(s[1..])
  }

  /** A value below 2^24 in base 64: four six-bit digits. */
  lemma SixBitDigits(v: nat)
    requires v < 0x1000000
    ensures v / 4096 == (v / 64) / 64 && v / 262144 == ((v / 64) / 64) / 64
    ensures v == (v / 262144) * 262144 + ((v / 4096) % 64) * 4096 + ((v / 64) % 64) * 64 + v % 64
  {
    var d0, w1 := v % 64, v / 64;
    var d1, w2 := w1 % 64, w1 / 64;
    var d2, w3 := w2 % 64, w2 / 64;
    assert v == w1 * 64 + d0;
    assert w1 == w2 * 64 + d1;
    assert w2 == w3 * 64 + d2;
    DivUnique(v, 4096, w2, d1 * 64 + d0);
    DivUnique(v, 262144, w3, d2 * 4096 + d1 * 64 + d0);
  }

  /** Adding a multiple of the modulus leaves the remainder unchanged. */
  lemma LowBits(k: nat, m: nat, r: nat)
    requires m > 0 && r < m
    ensures (k * m + r) % m == r
  {
    DivUnique(k * m + r, m, k, r);
  }

  /** Each character decodes back to its scalar value. */
  lemma CharRoundTrip(c: char)
    ensures var b := EncodeChar(c);
      LeadLength(b[0]) == |b| && DecodeChar(b) == c as int
  {
    var v := c as int;
    if v >= 0x10000 {
      FourByteChar(v);
    } else if v >= 0x800 {
      ThreeByteChar(v);
    } else if v >= 0x80 {
      TwoByteChar(v);
    }
  }

  lemma TwoByteChar(v: nat)
    requires 0x80 <= v < 0x800
    ensures var b := [0xC0 + v / 64, 0x80 + v % 64];
      LeadLength(b[0]) == 2 && DecodeChar(b) == v
  {
    SixBitDigits(v);
    LowBits(2, 64, v % 64);
    LowBits(6, 32, v / 64);
  }

  lemma ThreeByteChar(v: nat)
    requires 0x800 <= v < 0x10000
    ensures var b := [0xE0 + v / 4096, 0x80 + (v / 64) % 64, 0x80 + v % 64];
      LeadLength(b[0]) == 3 && DecodeChar(b) == v
  {
    SixBitDigits(v);
    LowBits(2, 64, v % 64);
    LowBits(2, 64, (v / 64) % 64);
    LowBits(14, 16, v / 4096);
  }

  lemma FourByteChar(v: nat)
    requires 0x10000 <= v < 0x110000
    ensures var b := [0xF0 + v / 262144, 0x80 + (v / 4096) % 64, 0x80 + (v / 64) % 64, 0x80 + v % 64];
      LeadLength(b[0]) == 4 && DecodeChar(b) == v
  {
    SixBitDigits(v);
    LowBits(2, 64, v % 64);
    LowBits(2, 64, (v / 64) % 64);
    LowBits(2, 64, (v / 4096) % 64);
    LowBits(30, 8, v / 262144);
  }

  /** The encoding of a concatenation is the concatenation of the
      encodings. */
  lemma {:induction false} EncodeAppend(s: string, t: string)
    decreases |s|
    ensures Encode(s + t) == Encode(s) + Encode(t)
  {
    if |s| > 0 {
      EncodeAppend(s[1..], t);
      assert (s + t)[0] == s[0];
      assert (s + t)[1..] == s[1..] + t;
      assert Encode(s + t) == EncodeChar(s[0]) + Encode(s[1..] + t);
      assert Encode(s) == EncodeChar(s[0]) + Encode(s[1..]);
    } else {
      assert s + t == t;
    }
  }

  /** Decoding an encoding gives the scalar values back. */
  lemma {:induction false} RoundTrip(s: string)
    decreases |s|
    ensures Decode(Encode(s)) == CodePoints(s)
  {
    if |s| > 0 {
      var e, rest := EncodeChar(s[0]), Encode(s[1..]);
      CharRoundTrip(s[0]);
      RoundTrip(s[1..]);
      var b := e + rest;
      assert b[..|e|] == e;
      assert b[|e|..] == rest;
    }
  }

  /** Different texts have different encodings. */
  lemma Injective(s: string, t: string)
    requires Encode(s) == Encode(t)
    ensures s == t
  {
    RoundTrip(s);
    RoundTrip(t);
    CodePointsInjective(s, t);
  }

  lemma {:induction false} CodePointsInjective(s: string, t: string)
    requires CodePoints(s) == CodePoints(t)
    decreases |s|
    ensures s == t
  {
    if |s| > 0 {
      assert CodePoints(s)[0] == CodePoints(t)[0];
      assert CodePoints(s)[1..] == CodePoints(s[1..]);
      assert CodePoints(t)[1..] == CodePoints(t[1..]);
      CodePointsInjective(s[1..], t[1..]);
      assert s == [s[0]] + s[1..];
      assert t == [t[0]] + t[1..];
    }
  }

  /** An ASCII text encodes to its character codes, one byte each. */
  lemma {:induction false} AsciiIdentity(s: string)
    requires forall i :: 0 <= i < |s| ==> s[i] as int < 0x80
    decreases |s|
    ensures Encode(s) == CodePoints(s)
  {
    if |s| > 0 {
      AsciiIdentity(s[1..]);
    }
  }

  /** Characters of the examples in section 7 of RFC 3629: U+0391, U+65E5
      and U+233B4. */
  lemma Examples()
    ensures EncodeChar('\U{391}') == [0xCE, 0x91]
    ensures EncodeChar('\U{65E5}') == [0xE6, 0x97, 0xA5]
    ensures EncodeChar('\U{233B4}') == [0xF0, 0xA3, 0x8E, 0xB4]
  {
  }
}
