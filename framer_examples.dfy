/** The frames the framer tests build (RtcmFramerTests.kt, buildRtcmFrame), the
    general facts about them, and the four test scenarios driven through
    `RtcmFramer.Push`. */
module FramerExamples {
  import opened Basics
  import Crc24Q
  import opened RtcmFraming

  /** Big-endian split of a 24-bit value into the three trailer bytes. */
  function TrailerBytes(crc: nat): (t: seq<Byte>)
    requires crc < 0x1000000
    ensures |t| == 3
  {
    [(crc / 65536) % 256, (crc / 256) % 256, crc % 256]
  }

  /** The three trailer bytes read back big-endian give the value that was split. */
  lemma TrailerRoundTrip(crc: nat)
    requires crc < 0x1000000
    ensures Trailer24(TrailerBytes(crc)[0], TrailerBytes(crc)[1], TrailerBytes(crc)[2]) == crc
  {
    var a, r := crc / 65536, crc % 65536;
    var b, c := r / 256, r % 256;
    assert crc == a * 65536 + b * 256 + c;
    BaseDigits(a, b, c);
  }

  /** Three base-256 digits are recovered by the shifts and masks. */
  lemma BaseDigits(a: nat, b: nat, c: nat)
    requires a < 256 && b < 256 && c < 256
    ensures var x := a * 65536 + b * 256 + c;
      (x / 65536) % 256 == a && (x / 256) % 256 == b && x % 256 == c
  {
    var x := a * 65536 + b * 256 + c;
    DivUnique(x, 65536, a, b * 256 + c);
    DivUnique(x, 256, a * 256 + b, c);
    DivUnique(a * 256 + b, 256, a, b);
    DivUnique(a, 256, 0, a);
  }

  /** buildRtcmFrame: preamble, the 10-bit length, the payload, and the CRC-24Q
      of header and payload as the trailer. */
  function BuildFrame(payload: seq<Byte>): (f: seq<Byte>)
    requires |payload| <= 1023
    ensures |f| == 6 + |payload| && f[0] == PREAMBLE
    ensures IsFrameSized(f) && DeclaredLength(f) == |payload|
    ensures f[3 .. 3 + |payload|] == payload
  {
    var head := [PREAMBLE, |payload| / 256, |payload| % 256] + payload;
    head + TrailerBytes(Crc24Q.Crc24(head))
  }

  /** crc24q_matchesFrameHeaderComputation, for every payload: the CRC over
      header and payload equals the trailer. */
  lemma BuiltTrailerMatches(payload: seq<Byte>)
    requires |payload| <= 1023
    ensures var f := BuildFrame(payload); var n := |payload|;
      Trailer24(f[n + 3], f[n + 4], f[n + 5]) == Crc24Q.Crc24(f[.. n + 3])
  {
    var head := [PREAMBLE, |payload| / 256, |payload| % 256] + payload;
    var f := BuildFrame(payload);
    assert f[.. |payload| + 3] == head;
    TrailerRoundTrip(Crc24Q.Crc24(head));
  }

  /** A built frame is accepted with a valid CRC and its payload intact. */
  lemma BuiltFrameIsValid(payload: seq<Byte>)
    requires |payload| <= 1023
    ensures MakeFrame(BuildFrame(payload)).crcValid
    ensures MakeFrame(BuildFrame(payload)).payload == payload
  {
    BuiltTrailerMatches(payload);
  }

  /** A whole frame scans to exactly that frame, with nothing left buffered. */
  lemma ScanWholeFrame(raw: RawFrame)
    requires raw[0] == PREAMBLE
    ensures Scan(raw).segments == [Framed(raw)] && Scan(raw).rest == []
  {
    assert raw[..FrameEnd(raw)] == raw;
    assert raw[FrameEnd(raw)..] == [];
  }

  lemma FramesOfWholeFrame(raw: RawFrame)
    requires raw[0] == PREAMBLE
    ensures FramesOf(Scan(raw).segments) == [MakeFrame(raw)] && Scan(raw).rest == []
  {
    ScanWholeFrame(raw);
    FramesOfFramed(raw, []);
  }

  /** A proper prefix of a frame that has its preamble emits nothing and stays buffered. */
  lemma ScanPrefixWaits(raw: RawFrame, k: nat)
    requires raw[0] == PREAMBLE && 1 <= k < |raw|
    ensures Scan(raw[..k]) == ScanResult([], raw[..k])
  {
    var p := raw[..k];
    if |p| >= 3 {
      assert p[1] == raw[1] && p[2] == raw[2];
    }
  }

  /** The last byte with its lowest bit flipped
      (`(frame.last().toInt() xor 0x01).toByte()`). */
  function FlipLowBit(b: Byte): (r: Byte)
    ensures r != b && (r - b == 1 || b - r == 1)
  {
    if b % 2 == 0 then b + 1 else b - 1
  }

  function Tamper(f: seq<Byte>): (t: seq<Byte>)
    requires |f| >= 1
    ensures |t| == |f| && t[..|f| - 1] == f[..|f| - 1]
  {
    f[..|f| - 1] + [FlipLowBit(f[|f| - 1])]
  }

  /** Flipping the last byte keeps header, payload and CRC range and moves the
      trailer value by one. */
  lemma TamperKeepsFrame(f: RawFrame)
    ensures IsFrameSized(Tamper(f)) && DeclaredLength(Tamper(f)) == DeclaredLength(f)
    ensures var n := DeclaredLength(f); var t := Tamper(f);
      && t[3 .. 3 + n] == f[3 .. 3 + n]
      && t[.. n + 3] == f[.. n + 3]
      && Trailer24(t[n + 3], t[n + 4], t[n + 5]) != Trailer24(f[n + 3], f[n + 4], f[n + 5])
  {
    var n := DeclaredLength(f);
    var t := Tamper(f);
    assert t[1] == f[1] && t[2] == f[2];
    assert t[n + 3] == f[n + 3] && t[n + 4] == f[n + 4] && t[n + 5] != f[n + 5];
    assert t[.. n + 3] == f[.. n + 3];
    assert t[3 .. 3 + n] == f[3 .. 3 + n];
  }

  /** A frame whose CRC matched no longer matches once its last byte is flipped. */
  lemma TamperedCrcFails(f: RawFrame)
    requires MakeFrame(f).crcValid
    ensures IsFrameSized(Tamper(f))
    ensures !MakeFrame(Tamper(f)).crcValid
    ensures MakeFrame(Tamper(f)).payload == MakeFrame(f).payload
  {
    TamperKeepsFrame(f);
  }

  /** framer_marksInvalidCrcWhenTampered, for every payload: a corrupted trailer
      byte still gives one frame with its payload, flagged as CRC-bad. */
  lemma TamperedFrameIsFlagged(payload: seq<Byte>)
    requires |payload| <= 1023
    ensures IsFrameSized(Tamper(BuildFrame(payload)))
    ensures !MakeFrame(Tamper(BuildFrame(payload))).crcValid
    ensures MakeFrame(Tamper(BuildFrame(payload))).payload == payload
  {
    BuiltFrameIsValid(payload);
    TamperedCrcFails(BuildFrame(payload));
  }

  /** The weight of bit k of a byte, counting from the most significant bit
      (k = 0), as BitBuffer numbers the bits. */
  function BitWeight(k: nat): nat
    requires k < 8
  {
    if k == 0 then 128 else if k == 1 then 64 else if k == 2 then 32 else if k == 3 then 16
    else if k == 4 then 8 else if k == 5 then 4 else if k == 6 then 2 else 1
  }

  /** Byte b with bit k flipped (`b xor (0x80 ushr k)`): the weight is added
      when the bit is 0 and taken away when it is 1. */
  function FlipBitOfByte(b: Byte, k: nat): (r: Byte)
    requires k < 8
    ensures r != b
  {
    var w := BitWeight(k);
    if (b / w) % 2 == 0 then b + w else b - w
  }

  /** Frame f with its bit i flipped, bits numbered MSB first across the bytes:
      bit i % 8 of byte i / 8. Every other byte is unchanged. */
  function FlipBit(f: seq<Byte>, i: nat): (t: seq<Byte>)
    requires i < 8 * |f|
    ensures |t| == |f| && t[i / 8] != f[i / 8]
    ensures forall j :: 0 <= j < |f| && j != i / 8 ==> t[j] == f[j]
  {
    f[i / 8 := FlipBitOfByte(f[i / 8], i % 8)]
  }

  /** The test's tampering is the flip of the very last bit of the frame. */
  lemma TamperIsLastBitFlip(f: seq<Byte>)
    requires |f| >= 1
    ensures Tamper(f) == FlipBit(f, 8 * |f| - 1)
  {
    DivUnique(8 * |f| - 1, 8, |f| - 1, 7);
    assert Tamper(f)[|f| - 1] == FlipBit(f, 8 * |f| - 1)[|f| - 1];
  }

  /** Two trailers that differ in one byte have different values. */
  lemma TrailerDiffers(a: seq<Byte>, b: seq<Byte>)
    requires |a| == 3 && |b| == 3 && a != b
    ensures Trailer24(a[0], a[1], a[2]) != Trailer24(b[0], b[1], b[2])
  {
    BaseDigits(a[0], a[1], a[2]);
    BaseDigits(b[0], b[1], b[2]);
    assert a[0] != b[0] || a[1] != b[1] || a[2] != b[2];
  }

  /** A changed byte after the length field, in the payload or at byte 3 of
      the header, changes the CRC and leaves the trailer as it was. */
  lemma ChangeInCoveredBytes(f: RawFrame, j: nat, x: Byte)
    requires var n := DeclaredLength(f); 3 <= j < n + 3 && x != f[j]
    ensures var n := DeclaredLength(f); var t := f[j := x];
      && t[n + 3 ..] == f[n + 3 ..]
      && Crc24Q.Crc24(t[.. n + 3]) != Crc24Q.Crc24(f[.. n + 3])
  {
    var n, t := DeclaredLength(f), f[j := x];
    assert t[n + 3 ..] == f[n + 3 ..];
    assert t[.. n + 3] == f[.. j] + [x] + f[j + 1 .. n + 3];
    assert f[.. n + 3] == f[.. j] + [f[j]] + f[j + 1 .. n + 3];
    Crc24Q.CrcDetectsByteChange(f[.. j], x, f[j], f[j + 1 .. n + 3]);
  }

  /** A changed trailer byte leaves the covered bytes and changes the trailer value. */
  lemma ChangeInTrailer(f: RawFrame, j: nat, x: Byte)
    requires var n := DeclaredLength(f); n + 3 <= j < |f| && x != f[j]
    ensures var n := DeclaredLength(f); var t := f[j := x];
      && t[.. n + 3] == f[.. n + 3]
      && Trailer24(t[n + 3], t[n + 4], t[n + 5]) != Trailer24(f[n + 3], f[n + 4], f[n + 5])
  {
    var n, t := DeclaredLength(f), f[j := x];
    assert t[.. n + 3] == f[.. n + 3];
    assert t[n + 3 ..] != f[n + 3 ..] by {
      assert t[n + 3 ..][j - (n + 3)] != f[n + 3 ..][j - (n + 3)];
    }
    TrailerDiffers(t[n + 3 ..], f[n + 3 ..]);
  }

  /** Changing any one byte after the length field, in the payload or in the
      CRC, of a frame whose CRC matched keeps its shape and makes the CRC fail. */
  lemma ChangedByteCrcFails(f: RawFrame, j: nat, x: Byte)
    requires MakeFrame(f).crcValid
    requires 3 <= j < |f| && x != f[j]
    ensures IsFrameSized(f[j := x]) && DeclaredLength(f[j := x]) == DeclaredLength(f)
    ensures !MakeFrame(f[j := x]).crcValid
  {
    var n, t := DeclaredLength(f), f[j := x];
    assert t[1] == f[1] && t[2] == f[2];
    if j < n + 3 {
      ChangeInCoveredBytes(f, j, x);
      assert t[n + 3] == f[n + 3] && t[n + 4] == f[n + 4] && t[n + 5] == f[n + 5] by {
        assert t[n + 3 ..][0] == f[n + 3 ..][0] && t[n + 3 ..][1] == f[n + 3 ..][1] && t[n + 3 ..][2] == f[n + 3 ..][2];
      }
    } else {
      ChangeInTrailer(f, j, x);
    }
  }

  /** Flipping any bit after the length field of a frame whose CRC matched
      keeps its shape and makes the CRC fail. */
  lemma FlippedCrcFails(f: RawFrame, i: nat)
    requires MakeFrame(f).crcValid
    requires 24 <= i < 8 * |f|
    ensures IsFrameSized(FlipBit(f, i)) && DeclaredLength(FlipBit(f, i)) == DeclaredLength(f)
    ensures !MakeFrame(FlipBit(f, i)).crcValid
  {
    DivUnique(i, 8, i / 8, i % 8);
    ChangedByteCrcFails(f, i / 8, FlipBitOfByte(f[i / 8], i % 8));
  }

  /** Every single-bit error in the payload or the CRC of a built frame is
      caught: the frame keeps its shape and is flagged CRC-bad. */
  lemma FlippedFrameIsFlagged(payload: seq<Byte>, i: nat)
    requires |payload| <= 1023
    requires 24 <= i < 8 * (|payload| + 6)
    ensures IsFrameSized(FlipBit(BuildFrame(payload), i))
    ensures DeclaredLength(FlipBit(BuildFrame(payload), i)) == |payload|
    ensures !MakeFrame(FlipBit(BuildFrame(payload), i)).crcValid
  {
    BuiltFrameIsValid(payload);
    FlippedCrcFails(BuildFrame(payload), i);
  }

  // The test scenarios, through the framer object. Each holds for every
  // payload the tests could choose; the comments give the ones they use.

  /** framer_parsesValidFrameWithCrc (payload 43 20 00 01). */
  method ParsesValidFrame(payload: seq<Byte>) returns (decoded: seq<RtcmFrame>)
    requires |payload| <= 1023
    ensures |decoded| == 1 && decoded[0].crcValid && decoded[0].payload == payload
  {
    var frame := BuildFrame(payload);
    var framer := new RtcmFramer();
    decoded := framer.Push(frame, |frame|);
    assert frame[..|frame|] == frame;
    assert [] + frame == frame;
    FramesOfWholeFrame(frame);
    BuiltFrameIsValid(payload);
  }

  /** framer_marksInvalidCrcWhenTampered (payload 10 20 30 40 50). */
  method MarksTamperedFrame(payload: seq<Byte>) returns (decoded: seq<RtcmFrame>)
    requires |payload| <= 1023
    ensures |decoded| == 1 && !decoded[0].crcValid && decoded[0].payload == payload
  {
    var frame := Tamper(BuildFrame(payload));
    TamperedFrameIsFlagged(payload);
    var framer := new RtcmFramer();
    decoded := framer.Push(frame, |frame|);
    assert frame[..|frame|] == frame;
    assert [] + frame == frame;
    FramesOfWholeFrame(frame);
  }

  /** framer_reassemblesFragmentedInput (payload 01 .. 06): pushes of bytes
      [0, 2), [2, 5) and the rest of the frame. */
  method ReassemblesFragments(payload: seq<Byte>) returns (first: seq<RtcmFrame>, second: seq<RtcmFrame>, third: seq<RtcmFrame>)
    requires |payload| <= 1023
    ensures first == [] && second == []
    ensures |third| == 1 && third[0].crcValid && third[0].payload == payload
  {
    var frame := BuildFrame(payload);
    var framer := new RtcmFramer();
    var a, b, c := frame[0 .. 2], frame[2 .. 5], frame[5 ..];
    assert a[..|a|] == a && b[..|b|] == b && c[..|c|] == c;
    first := framer.Push(a, |a|);
    FirstPush(frame, a);
    second := framer.Push(b, |b|);
    NextPush(frame, 2, 5);
    third := framer.Push(c, |c|);
    LastPush(frame, 5, c);
    BuiltFrameIsValid(payload);
  }

  lemma FirstPush(frame: RawFrame, a: seq<Byte>)
    requires frame[0] == PREAMBLE && a == frame[0 .. 2]
    ensures Scan([] + a) == ScanResult([], frame[..2])
  {
    assert [] + a == frame[..2];
    ScanPrefixWaits(frame, 2);
  }

  lemma NextPush(frame: RawFrame, k: nat, m: nat)
    requires frame[0] == PREAMBLE && 1 <= k <= m < |frame|
    ensures Scan(frame[..k] + frame[k..m]) == ScanResult([], frame[..m])
  {
    PrefixJoin(frame, k, m);
    ScanPrefixWaits(frame, m);
  }

  lemma LastPush(frame: RawFrame, k: nat, c: seq<Byte>)
    requires frame[0] == PREAMBLE && k <= |frame| && c == frame[k..]
    ensures FramesOf(Scan(frame[..k] + c).segments) == [MakeFrame(frame)]
    ensures Scan(frame[..k] + c).rest == []
  {
    assert frame[..k] + c == frame;
    FramesOfWholeFrame(frame);
  }

  /** framer_parsesTwoFramesInSingleBuffer (payloads 55 66 77 and 11 22 33 44). */
  method ParsesTwoFrames(payloadA: seq<Byte>, payloadB: seq<Byte>) returns (decoded: seq<RtcmFrame>)
    requires |payloadA| <= 1023 && |payloadB| <= 1023
    ensures |decoded| == 2 && decoded[0].crcValid && decoded[1].crcValid
    ensures decoded[0].payload == payloadA && decoded[1].payload == payloadB
  {
    var frameA, frameB := BuildFrame(payloadA), BuildFrame(payloadB);
    var stream := frameA + frameB;
    var framer := new RtcmFramer();
    decoded := framer.Push(stream, |stream|);
    assert stream[..|stream|] == stream && [] + stream == stream;
    TwoFrames(frameA, frameB);
    BuiltFrameIsValid(payloadA);
    BuiltFrameIsValid(payloadB);
  }

  /** Two whole frames back to back come out both, in order. */
  lemma TwoFrames(frameA: RawFrame, frameB: RawFrame)
    requires frameA[0] == PREAMBLE && frameB[0] == PREAMBLE
    ensures FramesOf(Scan(frameA + frameB).segments) == [MakeFrame(frameA), MakeFrame(frameB)]
  {
    FramesAppend(frameA, frameB);
    FramesOfWholeFrame(frameA);
    var second := Scan(frameA).rest + frameB;
    assert second == frameB;
    FramesOfWholeFrame(frameB);
    JoinOneAndOne(Scan(frameA + frameB), Scan(frameA), Scan(second), MakeFrame(frameA), MakeFrame(frameB));
  }

  /** One frame from each part makes two from the whole. */
  lemma JoinOneAndOne(whole: ScanResult, first: ScanResult, second: ScanResult, x: RtcmFrame, y: RtcmFrame)
    requires FramesOf(whole.segments) == FramesOf(first.segments) + FramesOf(second.segments)
    requires FramesOf(first.segments) == [x] && FramesOf(second.segments) == [y]
    ensures FramesOf(whole.segments) == [x, y]
  {
  }
}
