/** The Base64 encoding of section 4 of RFC 4648, with padding, as
    `java.util.Base64.getEncoder()` writes it, and its decoding. */
module Base64 {
  import opened Basics

  /** The digit for a 6-bit value: A-Z, a-z, 0-9, '+', '/' (table 1 of
      RFC 4648). */
  function Digit(v: nat): (c: char)
    requires v < 64
  {
    if v < 26 then ('A' as int + v) as char
    else if v < 52 then ('a' as int + (v - 26)) as char
    else if v < 62 then ('0' as int + (v - 52)) as char
    else if v == 62 then '+'
    else '/'
  }

  predicate IsDigit(c: char)
  {
    ('A' <= c <= 'Z') || ('a' <= c <= 'z') || ('0' <= c <= '9') || c == '+' || c == '/'
  }

  /** The 6-bit value of a digit; 0 for any other character. */
  function DigitValue(c: char): (v: nat)
    ensures v < 64
  {
    if 'A' <= c <= 'Z' then c as int - 'A' as int
    else if 'a' <= c <= 'z' then c as int - 'a' as int + 26
    else if '0' <= c <= '9' then c as int - '0' as int + 52
    else if c == '+' then 62
    else if c == '/' then 63
    else 0
  }

  lemma DigitRoundTrip(v: nat)
    requires v < 64
    ensures IsDigit(Digit(v)) && DigitValue(Digit(v)) == v
  {
  }

  const PAD: char := '='

  /** One group: three bytes become four digits, a final one or two bytes
      become two or three digits and the padding. */
  function EncodeGroup(b: seq<Byte>): (q: string)
    requires 1 <= |b| <= 3
    ensures |q| == 4
  {
    if |b| == 1 then
      [Digit(b[0] / 4), Digit((b[0] % 4) * 16), PAD, PAD]
    else if |b| == 2 then
      [Digit(b[0] / 4), Digit((b[0] % 4) * 16 + b[1] / 16), Digit((b[1] % 16) * 4), PAD]
    else
      [Digit(b[0] / 4), Digit((b[0] % 4) * 16 + b[1] / 16), Digit((b[1] % 16) * 4 + b[2] / 64), Digit(b[2] % 64)]
  }

  /** The encoding, group by group. */
  function Encode(b: seq<Byte>): (s: string)
    decreases |b|
  {
    if |b| == 0 then []
    else if |b| <= 3 then EncodeGroup(b)
    else EncodeGroup(b[..3]) + Encode(b[3..])
  }

  /** The bytes of one group of four characters. */
  function DecodeGroup(q: string): (b: seq<Byte>)
    requires |q| == 4
  {
    var v0, v1, v2, v3 := DigitValue(q[0]), DigitValue(q[1]), DigitValue(q[2]), DigitValue(q[3]);
    if q[2] == PAD then [v0 * 4 + v1 / 16]
    else if q[3] == PAD then [v0 * 4 + v1 / 16, (v1 % 16) * 16 + v2 / 4]
    else [v0 * 4 + v1 / 16, (v1 % 16) * 16 + v2 / 4, (v2 % 4) * 64 + v3]
  }

  /** Decoding, group by group; an incomplete last group is ignored. */
  function Decode(s: string): seq<Byte>
    decreases |s|
  {
    if |s| < 4 then [] else DecodeGroup(s[..4]) + Decode(s[4..])
  }

  lemma GroupOfThree(b0: Byte, b1: Byte, b2: Byte)
    ensures DecodeGroup(EncodeGroup([b0, b1, b2])) == [b0, b1, b2]
  {
    var v0, v1, v2, v3 := b0 / 4, (b0 % 4) * 16 + b1 / 16, (b1 % 16) * 4 + b2 / 64, b2 % 64;
    var q := EncodeGroup([b0, b1, b2]);
    assert q == [Digit(v0), Digit(v1), Digit(v2), Digit(v3)];
    DigitRoundTrip(v0); DigitRoundTrip(v1); DigitRoundTrip(v2); DigitRoundTrip(v3);
    assert DigitValue(q[0]) == v0 && DigitValue(q[1]) == v1;
    assert DigitValue(q[2]) == v2 && DigitValue(q[3]) == v3;
    assert q[2] != PAD && q[3] != PAD;
    ThreeBytes(b0, b1, b2);
    assert DecodeGroup(q) == [v0 * 4 + v1 / 16, (v1 % 16) * 16 + v2 / 4, (v2 % 4) * 64 + v3];
  }

  /** The arithmetic of a whole group: the four 6-bit values give the three
      bytes back. */
  lemma ThreeBytes(b0: Byte, b1: Byte, b2: Byte)
    ensures var v0, v1, v2, v3 := b0 / 4, (b0 % 4) * 16 + b1 / 16, (b1 % 16) * 4 + b2 / 64, b2 % 64;
      && v0 * 4 + v1 / 16 == b0
      && (v1 % 16) * 16 + v2 / 4 == b1
      && (v2 % 4) * 64 + v3 == b2
  {
    var v1, v2 := (b0 % 4) * 16 + b1 / 16, (b1 % 16) * 4 + b2 / 64;
    DivUnique(v1, 16, b0 % 4, b1 / 16);
    DivUnique(v2, 4, b1 % 16, b2 / 64);
  }

  lemma GroupOfTwo(b0: Byte, b1: Byte)
    ensures DecodeGroup(EncodeGroup([b0, b1])) == [b0, b1]
  {
    var v0, v1, v2 := b0 / 4, (b0 % 4) * 16 + b1 / 16, (b1 % 16) * 4;
    DigitRoundTrip(v0); DigitRoundTrip(v1); DigitRoundTrip(v2);
    DivUnique(v1, 16, b0 % 4, b1 / 16);
    DivUnique(v2, 4, b1 % 16, 0);
  }

  lemma GroupOfOne(b0: Byte)
    ensures DecodeGroup(EncodeGroup([b0])) == [b0]
  {
    var v0, v1 := b0 / 4, (b0 % 4) * 16;
    DigitRoundTrip(v0); DigitRoundTrip(v1);
    DivUnique(v1, 16, b0 % 4, 0);
  }

  /** Each group decodes back to its bytes. */
  lemma GroupRoundTrip(b: seq<Byte>)
    requires 1 <= |b| <= 3
    ensures DecodeGroup(EncodeGroup(b)) == b
  {
    if |b| == 3 {
      GroupOfThree(b[0], b[1], b[2]);
      assert b == [b[0], b[1], b[2]];
    } else if |b| == 2 {
      GroupOfTwo(b[0], b[1]);
      assert b == [b[0], b[1]];
    } else {
      GroupOfOne(b[0]);
      assert b == [b[0]];
    }
  }

  /** A group holds digits for its bytes, then the padding. */
  lemma GroupAlphabet(b: seq<Byte>)
    requires 1 <= |b| <= 3
    ensures var q := EncodeGroup(b);
      forall i :: 0 <= i < 4 ==> (IsDigit(q[i]) <==> i <= |b|) && (q[i] == PAD <==> i > |b|)
  {
    var b0 := b[0];
    var b1 := if |b| > 1 then b[1] else 0;
    var b2 := if |b| > 2 then b[2] else 0;
    DigitRoundTrip(b0 / 4);
    if |b| == 1 {
      DigitRoundTrip((b0 % 4) * 16);
    } else {
      DigitRoundTrip((b0 % 4) * 16 + b1 / 16);
      if |b| == 2 {
        DigitRoundTrip((b1 % 16) * 4);
      } else {
        DigitRoundTrip((b1 % 16) * 4 + b2 / 64);
        DigitRoundTrip(b2 % 64);
      }
    }
  }

  /** Decoding an encoding gives the bytes back. */
  lemma {:induction false} RoundTrip(b: seq<Byte>)
    decreases |b|
    ensures Decode(Encode(b)) == b
  {
    var s := Encode(b);
    if 1 <= |b| <= 3 {
      GroupRoundTrip(b);
      assert s[..4] == s;
      assert s[4..] == [];
    } else if |b| > 3 {
      GroupRoundTrip(b[..3]);
      RoundTrip(b[3..]);
      assert s[..4] == EncodeGroup(b[..3]);
      assert s[4..] == Encode(b[3..]);
      assert b == b[..3] + b[3..];
    }
  }

  /** Four characters for every started group of three bytes. */
  lemma {:induction false} EncodedLength(b: seq<Byte>)
    decreases |b|
    ensures |Encode(b)| == 4 * ((|b| + 2) / 3)
  {
    if |b| > 3 {
      EncodedLength(b[3..]);
      DivUnique(|b| + 2, 3, (|b| - 1) / 3 + 1, (|b| - 1) % 3);
    }
  }

  /** Only digits, except for padding in the last two places. */
  predicate Padded(s: string)
  {
    forall i :: 0 <= i < |s| ==> IsDigit(s[i]) || (s[i] == PAD && i >= |s| - 2)
  }

  /** The output holds only digits and the padding, and the padding only at
      the end. */
  lemma {:induction false} EncodedAlphabet(b: seq<Byte>)
    decreases |b|
    ensures Padded(Encode(b))
  {
    var s := Encode(b);
    if 1 <= |b| <= 3 {
      GroupAlphabet(b);
    } else if |b| > 3 {
      GroupAlphabet(b[..3]);
      EncodedAlphabet(b[3..]);
      var q, t := EncodeGroup(b[..3]), Encode(b[3..]);
      assert s == q + t;
      forall i | 0 <= i < |s|
        ensures IsDigit(s[i]) || (s[i] == PAD && i >= |s| - 2)
      {
        if i < 4 {
          assert s[i] == q[i];
        } else {
          assert s[i] == t[i - 4];
        }
      }
    }
  }

  /** One whole group in front encodes on its own. */
  lemma EncodeFront(a: seq<Byte>, b: seq<Byte>)
    requires |a| == 3
    ensures Encode(a + b) == EncodeGroup(a) + Encode(b)
  {
    var x := a + b;
    if |b| > 0 {
      assert x[..3] == a;
      assert x[3..] == b;
    } else {
      assert x == a;
    }
  }

  /** Encoding works group by group: whole groups in front encode on their
      own. */
  lemma {:induction false} EncodeAppend(a: seq<Byte>, b: seq<Byte>, groups: nat)
    requires |a| == 3 * groups
    decreases groups
    ensures Encode(a + b) == Encode(a) + Encode(b)
  {
    if groups > 0 {
      var h, t := a[..3], a[3..];
      assert a == h + t;
      assert a + b == h + (t + b);
      EncodeFront(h, t + b);
      EncodeFront(h, t);
      EncodeAppend(t, b, groups - 1);
    } else {
      assert a + b == b;
    }
  }

  /** The test vectors of section 10 of RFC 4648 for "f", "fo" and "foo". */
  lemma TestVectors()
    ensures Encode([102]) == "Zg=="
    ensures Encode([102, 111]) == "Zm8="
    ensures Encode([102, 111, 111]) == "Zm9v"
  {
  }
}
