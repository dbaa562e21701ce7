/** Frames of the RTCM 10403 transport layer (rtcm/RtcmMessage.kt, rtcm/RtcmFramer.kt):
    a 0xD3 preamble, 6 reserved bits and a 10-bit payload length, the payload,
    and a 24-bit CRC-24Q trailer.

    `Scan(buf)` is the specification of one `push`: it cuts a byte string into
    noise (bytes before a preamble, dropped), frames, and a rest that stays
    buffered for the next push. */
module RtcmFraming {
  import opened Basics
  import Crc24Q

  const PREAMBLE: Byte := 0xD3

  /** A frame as `push` emits it. */
  datatype RtcmFrame = RtcmFrame(rawFrame: seq<Byte>, payload: seq<Byte>, crcValid: bool)

  /** The 10-bit length of a header: the low two bits of byte 1, then byte 2. */
  function DeclaredLength(buf: seq<Byte>): (n: nat)
    requires |buf| >= 3
    ensures n <= 1023
  {
    (buf[1] as int % 4) * 256 + buf[2] as int
  }

  /** The big-endian 24-bit value of three bytes. */
  function Trailer24(b0: Byte, b1: Byte, b2: Byte): (v: nat)
    ensures v < 0x1000000
  {
    b0 as int * 65536 + b1 as int * 256 + b2 as int
  }

  /** A byte string exactly as long as its header declares: 3 header bytes,
      the payload, 3 CRC bytes. */
  predicate IsFrameSized(raw: seq<Byte>)
  {
    |raw| >= 6 && |raw| == 6 + DeclaredLength(raw)
  }

  type RawFrame = raw: seq<Byte> | IsFrameSized(raw) witness [PREAMBLE, 0, 0, 0, 0, 0]

  /** What a frame satisfies when it comes out of the framer. */
  ghost predicate WellFormed(f: RtcmFrame)
  {
    && |f.rawFrame| >= 6
    && f.rawFrame[0] == PREAMBLE
    && |f.rawFrame| == 6 + DeclaredLength(f.rawFrame)
    && f.payload == f.rawFrame[3 .. 3 + DeclaredLength(f.rawFrame)]
    && var n := DeclaredLength(f.rawFrame);
       (f.crcValid <==> Trailer24(f.rawFrame[n + 3], f.rawFrame[n + 4], f.rawFrame[n + 5]) == Crc24Q.Crc24(f.rawFrame[.. n + 3]))
  }

  /** The frame cut from a complete buffer head: payload is kept whatever the CRC says. */
  function MakeFrame(raw: RawFrame): (f: RtcmFrame)
    ensures f.rawFrame == raw
  {
    var n := DeclaredLength(raw);
    RtcmFrame(raw, raw[3 .. 3 + n], Trailer24(raw[n + 3], raw[n + 4], raw[n + 5]) == Crc24Q.Crc24(raw[.. n + 3]))
  }

  /** A frame cut at a preamble is well formed. */
  lemma MakeFrameWellFormed(raw: RawFrame)
    requires raw[0] == PREAMBLE
    ensures WellFormed(MakeFrame(raw))
  {
  }

  /** A piece of the input: one dropped byte of noise, or the bytes of an emitted frame. */
  datatype Segment = Noise(byte: Byte) | Framed(raw: RawFrame)

  datatype ScanResult = ScanResult(segments: seq<Segment>, rest: seq<Byte>)

  /** Header, payload and trailer: `3 + payloadLength + 3` bytes. */
  function FrameEnd(buf: seq<Byte>): (n: nat)
    requires |buf| >= 3
    ensures 6 <= n <= 1029
  {
    6 + DeclaredLength(buf)
  }

  /** A buffer that cannot yet hold a frame: too short for a header, or for the declared length. */
  predicate Incomplete(buf: seq<Byte>)
  {
    |buf| < 3 || |buf| < FrameEnd(buf)
  }

  /** The framing of a whole buffer: bytes ahead of a preamble are dropped, a
      complete frame at a preamble is cut off, an incomplete one stays buffered.
      Dropping the bytes before the first preamble one at a time has the same
      outcome as the `removeAt(0)` loop and the `clear()` of `push`. */
  function Scan(buf: seq<Byte>): ScanResult
    decreases |buf|
  {
    if buf == [] then ScanResult([], [])
    else if buf[0] != PREAMBLE then
      var r := Scan(buf[1..]);
      ScanResult([Noise(buf[0])] + r.segments, r.rest)
    else if Incomplete(buf) then
      ScanResult([], buf)
    else
      var r := Scan(buf[FrameEnd(buf)..]);
      ScanResult([Framed(buf[..FrameEnd(buf)])] + r.segments, r.rest)
  }

  /** The frames the segments stand for, in order. */
  function FramesOf(segs: seq<Segment>): (fs: seq<RtcmFrame>)
    ensures |fs| <= |segs|
  {
    if segs == [] then []
    else (if segs[0].Framed? then [MakeFrame(segs[0].raw)] else []) + FramesOf(segs[1..])
  }

  /** The bytes the segments stand for, concatenated. */
  function Concat(segs: seq<Segment>): seq<Byte>
  {
    if segs == [] then []
    else (if segs[0].Noise? then [segs[0].byte] else segs[0].raw) + Concat(segs[1..])
  }

  lemma FramesOfAppend(a: seq<Segment>, b: seq<Segment>)
    ensures FramesOf(a + b) == FramesOf(a) + FramesOf(b)
  {
    if a == [] {
      assert a + b == b;
    } else {
      assert (a + b)[0] == a[0];
      assert (a + b)[1..] == a[1..] + b;
      FramesOfAppend(a[1..], b);
    }
  }

  lemma FramesOfNoise(b: Byte, segs: seq<Segment>)
    ensures FramesOf([Noise(b)] + segs) == FramesOf(segs)
  {
    FramesOfAppend([Noise(b)], segs);
    assert [Noise(b)][1..] == [];
  }

  lemma FramesOfFramed(raw: RawFrame, segs: seq<Segment>)
    ensures FramesOf([Framed(raw)] + segs) == [MakeFrame(raw)] + FramesOf(segs)
  {
    FramesOfAppend([Framed(raw)], segs);
    assert [Framed(raw)][1..] == [];
  }

  /** What stays buffered is empty or starts at a preamble with no complete frame. */
  lemma {:induction false} ScanRest(buf: seq<Byte>)
    ensures var rest := Scan(buf).rest;
      rest == [] || (rest[0] == PREAMBLE && Incomplete(rest))
    decreases |buf|
  {
    if buf != [] && buf[0] != PREAMBLE {
      ScanRest(buf[1..]);
    } else if buf != [] && !Incomplete(buf) {
      ScanRest(buf[FrameEnd(buf)..]);
    }
  }

  /** Every emitted frame is well formed: preamble, 10-bit length, payload slice,
      and a CRC flag that says exactly whether the trailer matches. */
  lemma {:induction false} ScanFramesWellFormed(buf: seq<Byte>)
    ensures forall f :: f in FramesOf(Scan(buf).segments) ==> WellFormed(f)
    decreases |buf|
  {
    if buf != [] && buf[0] != PREAMBLE {
      ScanFramesWellFormed(buf[1..]);
      FramesOfNoise(buf[0], Scan(buf[1..]).segments);
    } else if buf != [] && !Incomplete(buf) {
      ScanFramesWellFormed(buf[FrameEnd(buf)..]);
      MakeFrameWellFormed(buf[..FrameEnd(buf)]);
      FramesOfFramed(buf[..FrameEnd(buf)], Scan(buf[FrameEnd(buf)..]).segments);
    }
  }

  /** Dropped bytes are never a preamble. */
  ghost predicate GoodNoise(segs: seq<Segment>)
  {
    forall i :: 0 <= i < |segs| && segs[i].Noise? ==> segs[i].byte != PREAMBLE
  }

  lemma GoodNoiseCons(s: Segment, segs: seq<Segment>)
    requires s.Noise? ==> s.byte != PREAMBLE
    requires GoodNoise(segs)
    ensures GoodNoise([s] + segs)
  {
    var all := [s] + segs;
    forall i | 0 <= i < |all| && all[i].Noise?
      ensures all[i].byte != PREAMBLE
    {
      if i > 0 {
        assert all[i] == segs[i - 1];
      }
    }
  }

  lemma ConcatAppend(a: seq<Segment>, b: seq<Segment>)
    ensures Concat(a + b) == Concat(a) + Concat(b)
  {
    if a == [] {
      assert a + b == b;
    } else {
      assert (a + b)[0] == a[0];
      assert (a + b)[1..] == a[1..] + b;
      ConcatAppend(a[1..], b);
    }
  }

  lemma ConcatOne(s: Segment)
    ensures Concat([s]) == (if s.Noise? then [s.byte] else s.raw)
  {
    assert [s][1..] == [];
  }

  lemma SeqAssoc(a: seq<Byte>, b: seq<Byte>, c: seq<Byte>)
    ensures (a + b) + c == a + (b + c)
  {
  }

  /** Prepending a segment whose bytes are the head of buf keeps the cover property. */
  lemma CoverStep(buf: seq<Byte>, k: nat, s: Segment, r: ScanResult)
    requires k <= |buf|
    requires (if s.Noise? then [s.byte] else s.raw) == buf[..k]
    requires Concat(r.segments) + r.rest == buf[k..]
    ensures Concat([s] + r.segments) + r.rest == buf
  {
    ConcatAppend([s], r.segments);
    ConcatOne(s);
    SeqAssoc(buf[..k], Concat(r.segments), r.rest);
    assert buf[..k] + buf[k..] == buf;
  }

  /** Every byte of the input is dropped noise ahead of a preamble, part of an
      emitted frame, or still buffered, and they come in stream order. */
  lemma {:induction false} ScanCovers(buf: seq<Byte>)
    ensures Concat(Scan(buf).segments) + Scan(buf).rest == buf
    ensures GoodNoise(Scan(buf).segments)
    decreases |buf|
  {
    if buf != [] && buf[0] != PREAMBLE {
      var r := Scan(buf[1..]);
      ScanCovers(buf[1..]);
      CoverStep(buf, 1, Noise(buf[0]), r);
      GoodNoiseCons(Noise(buf[0]), r.segments);
    } else if buf != [] && !Incomplete(buf) {
      ScanCovers(buf[FrameEnd(buf)..]);
      CoverStep(buf, FrameEnd(buf), Framed(buf[..FrameEnd(buf)]), Scan(buf[FrameEnd(buf)..]));
      GoodNoiseCons(Framed(buf[..FrameEnd(buf)]), Scan(buf[FrameEnd(buf)..]).segments);
    }
  }

  /** Bytes ahead of the first preamble contribute no frame and leave no trace
      in what stays buffered. */
  lemma {:induction false} DropNoise(buf: seq<Byte>, p: nat)
    requires p <= |buf| && NoPreamble(buf[..p])
    ensures FramesOf(Scan(buf).segments) == FramesOf(Scan(buf[p..]).segments)
    ensures Scan(buf).rest == Scan(buf[p..]).rest
    decreases p
  {
    if p > 0 {
      assert buf[0] == buf[..p][0];
      assert buf[1..][..p - 1] == buf[..p][1..];
      DropNoise(buf[1..], p - 1);
      assert buf[1..][p - 1..] == buf[p..];
      FramesOfNoise(buf[0], Scan(buf[1..]).segments);
    }
  }

  /** The two conclusions of ScanAppend for one pair of inputs. */
  ghost predicate AppendHolds(a: seq<Byte>, b: seq<Byte>)
  {
    && Scan(a + b).segments == Scan(a).segments + Scan(Scan(a).rest + b).segments
    && Scan(a + b).rest == Scan(Scan(a).rest + b).rest
  }

  /** Scan at a byte that is not a preamble, as an equation. */
  lemma ScanNoiseCase(buf: seq<Byte>)
    requires buf != [] && buf[0] != PREAMBLE
    ensures Scan(buf).segments == [Noise(buf[0])] + Scan(buf[1..]).segments
    ensures Scan(buf).rest == Scan(buf[1..]).rest
  {
  }

  lemma NoiseHeadAppend(a: seq<Byte>, b: seq<Byte>)
    requires a != []
    ensures (a + b) != [] && (a + b)[0] == a[0]
    ensures (a + b)[1..] == a[1..] + b
  {
  }

  lemma AppendNoiseStep(a: seq<Byte>, b: seq<Byte>)
    requires a != [] && a[0] != PREAMBLE
    requires AppendHolds(a[1..], b)
    ensures AppendHolds(a, b)
  {
    NoiseHeadAppend(a, b);
    ScanNoiseCase(a);
    ScanNoiseCase(a + b);
    var n := [Noise(a[0])];
    var x := Scan(a[1..]).segments;
    var y := Scan(Scan(a[1..]).rest + b).segments;
    assert n + x + y == n + (x + y);
  }

  /** Scan at a complete frame, as an equation. */
  lemma ScanFrameCase(buf: seq<Byte>)
    requires buf != [] && buf[0] == PREAMBLE && !Incomplete(buf)
    ensures Scan(buf).segments == [Framed(buf[..FrameEnd(buf)])] + Scan(buf[FrameEnd(buf)..]).segments
    ensures Scan(buf).rest == Scan(buf[FrameEnd(buf)..]).rest
  {
  }

  /** A frame at the head of a is at the head of a + b too. */
  lemma FrameHeadAppend(a: seq<Byte>, b: seq<Byte>)
    requires a != [] && a[0] == PREAMBLE && !Incomplete(a)
    ensures (a + b) != [] && (a + b)[0] == PREAMBLE && !Incomplete(a + b)
    ensures FrameEnd(a + b) == FrameEnd(a)
    ensures (a + b)[..FrameEnd(a + b)] == a[..FrameEnd(a)]
    ensures (a + b)[FrameEnd(a + b)..] == a[FrameEnd(a)..] + b
  {
    assert (a + b)[1] == a[1] && (a + b)[2] == a[2];
  }

  lemma AppendFrameStep(a: seq<Byte>, b: seq<Byte>)
    requires a != [] && a[0] == PREAMBLE && !Incomplete(a)
    requires AppendHolds(a[FrameEnd(a)..], b)
    ensures AppendHolds(a, b)
  {
    FrameHeadAppend(a, b);
    ScanFrameCase(a);
    ScanFrameCase(a + b);
    var tail := a[FrameEnd(a)..];
    Combine(Scan(a + b), Scan(a), Scan(tail + b), Scan(tail), Scan(Scan(tail).rest + b), [Framed(a[..FrameEnd(a)])]);
  }

  /** The bookkeeping of AppendFrameStep: the same frame in front of both
      scans, and the scan of the tail splitting as the hypothesis says. */
  lemma Combine(ab: ScanResult, a: ScanResult, tb: ScanResult, t: ScanResult, r: ScanResult, f: seq<Segment>)
    requires ab.segments == f + tb.segments && ab.rest == tb.rest
    requires a.segments == f + t.segments && a.rest == t.rest
    requires tb.segments == t.segments + r.segments && tb.rest == r.rest
    ensures ab.segments == a.segments + r.segments && ab.rest == r.rest
  {
    assert f + (t.segments + r.segments) == (f + t.segments) + r.segments;
  }

  /** Framing does not depend on how the stream is cut into pushes: scanning a + b
      gives the segments of a, then those of what a left buffered followed by b. */
  lemma {:induction false} ScanAppend(a: seq<Byte>, b: seq<Byte>)
    ensures Scan(a + b).segments == Scan(a).segments + Scan(Scan(a).rest + b).segments
    ensures Scan(a + b).rest == Scan(Scan(a).rest + b).rest
    decreases |a|
  {
    if a == [] {
      assert a + b == b;
    } else if a[0] != PREAMBLE {
      ScanAppend(a[1..], b);
      AppendNoiseStep(a, b);
    } else if Incomplete(a) {
      assert Scan(a) == ScanResult([], a);
    } else {
      ScanAppend(a[FrameEnd(a)..], b);
      AppendFrameStep(a, b);
    }
  }

  /** The frames of a stream cut into two pushes are the frames of the whole. */
  lemma FramesAppend(a: seq<Byte>, b: seq<Byte>)
    ensures FramesOf(Scan(a + b).segments) == FramesOf(Scan(a).segments) + FramesOf(Scan(Scan(a).rest + b).segments)
    ensures Scan(a + b).rest == Scan(Scan(a).rest + b).rest
  {
    ScanAppend(a, b);
    FramesOfAppend(Scan(a).segments, Scan(Scan(a).rest + b).segments);
  }

  /** A buffered rest is a fixpoint: scanning it again emits nothing and keeps it. */
  lemma RestIsStable(buf: seq<Byte>)
    ensures Scan(Scan(buf).rest) == ScanResult([], Scan(buf).rest)
  {
    ScanRest(buf);
  }

  predicate NoPreamble(s: seq<Byte>)
  {
    forall j :: 0 <= j < |s| ==> s[j] != PREAMBLE
  }

  /** `indexOfFirst { it == 0xD3 }`: the first preamble position, or -1 when there is none. */
  ghost predicate IsPreambleIndex(buf: seq<Byte>, index: int)
  {
    if index < 0 then index == -1 && NoPreamble(buf)
    else index < |buf| && buf[index] == PREAMBLE && NoPreamble(buf[..index])
  }

  /** `indexOfFirst` as the loop it is. */
  method IndexOfFirstPreamble(buf: seq<Byte>) returns (index: int)
    ensures IsPreambleIndex(buf, index)
  {
    var i := 0;
    while i < |buf| && buf[i] != PREAMBLE
      invariant 0 <= i <= |buf|
      invariant NoPreamble(buf[..i])
    {
      assert buf[..i + 1] == buf[..i] + [buf[i]];
      i := i + 1;
    }
    if i < |buf| {
      index := i;
    } else {
      assert buf[..i] == buf;
      index := -1;
    }
  }

  /** Cutting the complete frame at the head of buf off accounts for its first
      frame and leaves the scan of the remainder. */
  lemma CutFrame(buf: seq<Byte>, raw: seq<Byte>)
    requires buf != [] && buf[0] == PREAMBLE && !Incomplete(buf)
    requires raw == buf[..FrameEnd(buf)]
    ensures IsFrameSized(raw) && DeclaredLength(raw) == DeclaredLength(buf)
    ensures FramesOf(Scan(buf).segments) == [MakeFrame(raw)] + FramesOf(Scan(buf[FrameEnd(buf)..]).segments)
    ensures Scan(buf).rest == Scan(buf[FrameEnd(buf)..]).rest
  {
    ScanFrameCase(buf);
    FramesOfFramed(raw, Scan(buf[FrameEnd(buf)..]).segments);
  }

  /** The fields `push` computes for a cut frame are those of MakeFrame. */
  lemma FrameFields(raw: RawFrame, payloadLength: nat, frame: RtcmFrame, computedCrc: int)
    requires payloadLength == DeclaredLength(raw)
    requires computedCrc == Crc24Q.Crc24(raw[0 .. 0 + (3 + payloadLength)])
    requires frame == RtcmFrame(raw, raw[3 .. 3 + payloadLength],
      Trailer24(raw[3 + payloadLength], raw[3 + payloadLength + 1], raw[3 + payloadLength + 2]) == computedCrc)
    ensures frame == MakeFrame(raw)
  {
    assert raw[0 .. 0 + (3 + payloadLength)] == raw[.. 3 + payloadLength];
  }

  lemma AppendFrameAssoc(frames: seq<RtcmFrame>, f: RtcmFrame, more: seq<RtcmFrame>)
    ensures frames + ([f] + more) == (frames + [f]) + more
  {
  }

  /** `repeat(count) { buffer.removeAt(0) }`. */
  method RemoveFront(buf: seq<Byte>, count: nat) returns (r: seq<Byte>)
    requires count <= |buf|
    ensures r == buf[count..]
  {
    r := buf;
    var removed := 0;
    while removed < count
      invariant 0 <= removed <= count
      invariant r == buf[removed..]
    {
      r := r[1..];
      removed := removed + 1;
    }
  }

  /** The copy of the first count bytes into a fresh `ByteArray`. */
  method CopyFront(buf: seq<Byte>, count: nat) returns (r: seq<Byte>)
    requires count <= |buf|
    ensures r == buf[..count]
  {
    var frameBytes := new Byte[count];
    for idx := 0 to count
      invariant frameBytes[..idx] == buf[..idx]
    {
      frameBytes[idx] := buf[idx];
    }
    r := frameBytes[..];
  }

  /** The first half of a turn of the `push` loop: `indexOfFirst`, then
      `clear()` when there is no preamble or the `removeAt(0)` loop before it. */
  method SkipNoise(buf: seq<Byte>) returns (rest: seq<Byte>)
    ensures rest == [] || rest[0] == PREAMBLE
    ensures |rest| <= |buf|
    ensures FramesOf(Scan(buf).segments) == FramesOf(Scan(rest).segments)
    ensures Scan(buf).rest == Scan(rest).rest
  {
    var preambleIndex := IndexOfFirstPreamble(buf);
    if preambleIndex < 0 {
      DropNoise(buf, |buf|);
      assert buf[|buf|..] == [];
      rest := [];
    } else if preambleIndex > 0 {
      DropNoise(buf, preambleIndex);
      rest := RemoveFront(buf, preambleIndex);
    } else {
      rest := buf;
    }
  }

  /** The second half, at a preamble: read the 10-bit length and, when the
      whole frame is buffered, copy it out, remove it and check its CRC. None
      means the loop breaks with buf left buffered. */
  method CutAtPreamble(buf: seq<Byte>) returns (frame: Option<RtcmFrame>, rest: seq<Byte>)
    requires buf != [] && buf[0] == PREAMBLE
    ensures frame.None? ==> FramesOf(Scan(buf).segments) == [] && rest == buf == Scan(buf).rest
    ensures frame.Some? ==> |rest| < |buf|
    ensures frame.Some? ==> FramesOf(Scan(buf).segments) == [frame.value] + FramesOf(Scan(rest).segments)
    ensures frame.Some? ==> Scan(rest).rest == Scan(buf).rest
  {
    if |buf| < 3 {
      return None, buf;
    }
    // `(lenHigh shl 8) or lenLow`: the two parts occupy disjoint bits
    var lenHigh := buf[1] % 4;
    var lenLow := buf[2];
    var payloadLength := lenHigh as int * 256 + lenLow as int;
    var totalFrameLength := 3 + payloadLength + 3;
    if |buf| < totalFrameLength {
      return None, buf;
    }
    var raw := CopyFront(buf, totalFrameLength);
    CutFrame(buf, raw);
    rest := RemoveFront(buf, totalFrameLength);
    var payload := raw[3 .. 3 + payloadLength];
    var expectedCrc := Trailer24(raw[3 + payloadLength], raw[3 + payloadLength + 1], raw[3 + payloadLength + 2]);
    var computedCrc := Crc24Q.Calculate(raw, 0, 3 + payloadLength);
    frame := Some(RtcmFrame(raw, payload, expectedCrc == computedCrc));
    FrameFields(raw, payloadLength, frame.value, computedCrc);
  }

  /** One turn of the `while (true)` loop of `push` on buffer contents buf.
      None means the loop breaks, with rest left buffered. */
  method NextFrame(buf: seq<Byte>) returns (frame: Option<RtcmFrame>, rest: seq<Byte>)
    ensures frame.None? ==> FramesOf(Scan(buf).segments) == [] && rest == Scan(buf).rest
    ensures frame.Some? ==> |rest| < |buf|
    ensures frame.Some? ==> FramesOf(Scan(buf).segments) == [frame.value] + FramesOf(Scan(rest).segments)
    ensures frame.Some? ==> Scan(rest).rest == Scan(buf).rest
  {
    rest := SkipNoise(buf);
    if rest == [] {
      return None, [];
    }
    frame, rest := CutAtPreamble(rest);
  }

  /** The framer: a byte accumulator that survives between pushes. */
  /** The bytes `for (index in 0 until length)` appends: the first length
      of them, none when length is not positive. */
  function Appended(bytes: seq<Byte>, length: int): seq<Byte>
    requires length <= |bytes|
  {
    if length <= 0 then [] else bytes[..length]
  }

  class RtcmFramer {
    var buffer: seq<Byte>

    constructor ()
      ensures buffer == []
    {
      buffer := [];
    }

    /** push(bytes, length): append bytes[0 .. length) (nothing for a
        negative length), then cut frames off the head until the buffer holds
        no complete frame. */
    method Push(bytes: seq<Byte>, length: int) returns (frames: seq<RtcmFrame>)
      requires length <= |bytes|
      modifies this
      ensures buffer == Scan(old(buffer) + Appended(bytes, length)).rest
      ensures frames == FramesOf(Scan(old(buffer) + Appended(bytes, length)).segments)
    {
      var index := 0;
      while index < length
        invariant 0 <= index <= (if length < 0 then 0 else length)
        invariant buffer == old(buffer) + bytes[..index]
      {
        buffer := buffer + [bytes[index]];
        index := index + 1;
        assert bytes[..index] == bytes[..index - 1] + [bytes[index - 1]];
      }
      assert buffer == old(buffer) + Appended(bytes, length);
      frames := [];
      ghost var all := buffer;
      while true
        invariant FramesOf(Scan(all).segments) == frames + FramesOf(Scan(buffer).segments)
        invariant Scan(buffer).rest == Scan(all).rest
        decreases |buffer|
      {
        var next, rest := NextFrame(buffer);
        ghost var previous := buffer;
        buffer := rest;
        if next.None? {
          break;
        }
        AppendFrameAssoc(frames, next.value, FramesOf(Scan(buffer).segments));
        frames := frames + [next.value];
      }
    }
  }
}
