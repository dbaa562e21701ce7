# NTRIP-ANALYSER core in Dafny

This project models the core of NTRIP-ANALYSER, an Android client for NTRIP casters. The client connects to a caster, asks for a mountpoint's RTCM 3 correction stream, and decodes that stream into typed messages.

**RTCM side**
- **Bit reader.** `BitBuffer` reads big-endian bit fields, unsigned and two's-complement, from a payload.
- **CRC.** The CRC-24Q checksum.
- **Framer.** `RtcmFramer` cuts a byte stream into frames. A frame is the 0xD3 preamble, a 10-bit length, the payload and a 24-bit CRC. The framer drops noise between frames and keeps incomplete tails for the next push.
- **Decoders.** Messages 1006, 1012, 1033, 1230 and the MSM1..MSM7 family. Each builds the same record the Kotlin map holds.
- **Registry.** `RtcmDecoderRegistry` dispatches a frame on its 12-bit message number. Unknown numbers become an "unsupported" record carrying the payload in hex.

**NTRIP side**
- **Response headers.** `consumeHeadersOrThrow` reads up to the first CRLF CRLF and checks the status line.
- **Source table.** The parser keeps the `STR;` records.
- **Requests.** The two request texts `NtripClient` writes, with `basicAuth`: Base64 of the UTF-8 bytes.
- **Back-off.** The `ReconnectPolicy` schedule.

**Form of the model**
- Where the source changes state, the model is imperative: `Bits.BitBuffer`, `RtcmFraming.RtcmFramer`, `NtripHttp.ByteStream` and the `Registry` table are classes.
- The decoding routines are methods, with loops wherever the source loops. Each is proved equal to a pure specification function (`ensures r == Spec(payload)`).
- The properties the source promises are lemmas about those functions:
  - bounds and fields read back;
  - round trips against a bit builder like the tests' `BitPayloadBuilder`;
  - exactly when a decode fails;
  - frames reassembled across pushes.
- The pure Kotlin helpers are functions: `Trim`, `lineSequence`, `split`, CRC folding, Base64, UTF-8 and the delay formula.

## Model

| member | source | states |
|---|---|---|
| Bits.BitOfByte | app/src/main/java/com/rattall/ntripanalyser/rtcm/BitBuffer.kt:31-34 | bit k of a byte, most significant first, is 0 or 1 |
| Bits.Bit | app/src/main/java/com/rattall/ntripanalyser/rtcm/BitBuffer.kt:31-34 | bit i of the payload (byte i/8, MSB first) is 0 or 1 |
| Bits.BitAt | app/src/main/java/com/rattall/ntripanalyser/rtcm/BitBuffer.kt:31-34 | bit i of the payload is bit i % 8, counted from the most significant end, of byte i / 8 |
| Bits.Value | app/src/main/java/com/rattall/ntripanalyser/rtcm/BitBuffer.kt:8-12 | the n bits from start, MSB first, form a number below 2^n |
| Bits.SignBit | app/src/main/java/com/rattall/ntripanalyser/rtcm/BitBuffer.kt:17-18 | the top bit of an n-bit value is clear exactly when the value is below 2^(n-1) |
| Bits.ToSigned | app/src/main/java/com/rattall/ntripanalyser/rtcm/BitBuffer.kt:15-23 | two's-complement reading lies in [-2^(n-1), 2^(n-1)), is non-negative iff the sign bit is clear, and differs from the raw value by 0 or 2^n |
| Bits.FromSigned | app/src/main/java/com/rattall/ntripanalyser/rtcm/BitBuffer.kt:15-23 | the n-bit pattern of a signed value in range is below 2^n |
| Bits.SignedRoundTrip | app/src/main/java/com/rattall/ntripanalyser/rtcm/BitBuffer.kt:15-23 | encoding a signed value and reading it back with readSigned's rule gives it back |
| Bits.UnsignedRoundTrip | app/src/main/java/com/rattall/ntripanalyser/rtcm/BitBuffer.kt:15-23 | every n-bit pattern is the encoding of its signed reading (the two maps are inverse) |
| Bits.BitBuffer.constructor | app/src/main/java/com/rattall/ntripanalyser/rtcm/BitBuffer.kt:3-4 | a new reader is over the payload at bit 0 |
| Bits.BitBuffer.BitsRemaining | app/src/main/java/com/rattall/ntripanalyser/rtcm/BitBuffer.kt:25 | the remaining count lies between 0 and the payload's bits, and is 0 only at the end |
| Bits.BitBuffer.ReadBit | app/src/main/java/com/rattall/ntripanalyser/rtcm/BitBuffer.kt:27-35 | returns the bit at the cursor and advances the cursor by one |
| Bits.BitBuffer.ReadUnsigned | app/src/main/java/com/rattall/ntripanalyser/rtcm/BitBuffer.kt:6-13 | returns Value of the next bitCount bits (below 2^bitCount) and advances by bitCount |
| Bits.BitBuffer.ReadSigned | app/src/main/java/com/rattall/ntripanalyser/rtcm/BitBuffer.kt:15-23 | returns the two's-complement reading of the next bitCount bits, within the signed range, and advances by bitCount |
| Crc24Q.Fold | app/src/main/java/com/rattall/ntripanalyser/rtcm/Crc24Q.kt:8-16 | model of the byte loop of `calculate`, one Step per byte from the given register value; its properties are FoldBounded and FoldAppend |
| Crc24Q.FoldBounded | app/src/main/java/com/rattall/ntripanalyser/rtcm/Crc24Q.kt:8-16 | the register shifted per bit with polynomial 0x1864CFB never leaves 24 bits |
| Crc24Q.FoldAppend | app/src/main/java/com/rattall/ntripanalyser/rtcm/Crc24Q.kt:8-16 | folding a concatenation is folding the second part from the state after the first |
| Crc24Q.Crc24 | app/src/main/java/com/rattall/ntripanalyser/rtcm/Crc24Q.kt:6-18 | the checksum is a 24-bit value and is 0 for no bytes |
| Crc24Q.CrcOfConcat | app/src/main/java/com/rattall/ntripanalyser/rtcm/Crc24Q.kt:6-18 | the checksum of a + b continues from the checksum of a |
| Crc24Q.Calculate | app/src/main/java/com/rattall/ntripanalyser/rtcm/Crc24Q.kt:6-18 | for a positive length, the loop over buffer[offset, offset+length) returns Crc24 of that slice, below 2^24; for a length of zero or less the range is empty and the result is 0 |
| Crc24Q.ShiftDiffers | app/src/main/java/com/rattall/ntripanalyser/rtcm/Crc24Q.kt:10-15 | one turn of the shift-and-reduce loop maps different 24-bit registers to different registers |
| Crc24Q.ShiftsDiffer | app/src/main/java/com/rattall/ntripanalyser/rtcm/Crc24Q.kt:10-15 | any number of turns keeps two different 24-bit registers apart |
| Crc24Q.StepSeparatesStates | app/src/main/java/com/rattall/ntripanalyser/rtcm/Crc24Q.kt:9-15 | the same byte fed into two different registers leaves them different |
| Crc24Q.FoldSeparatesStates | app/src/main/java/com/rattall/ntripanalyser/rtcm/Crc24Q.kt:8-16 | the same bytes fed into two different registers leave them different |
| Crc24Q.ByteBitsDiffer | app/src/main/java/com/rattall/ntripanalyser/rtcm/Crc24Q.kt:9 | different bytes give different `and 0xFF` bit patterns |
| Crc24Q.StepSeparatesBytes | app/src/main/java/com/rattall/ntripanalyser/rtcm/Crc24Q.kt:9-15 | two different bytes fed into the same register lead to different registers |
| Crc24Q.CrcDetectsByteChange | app/src/main/java/com/rattall/ntripanalyser/rtcm/Crc24Q.kt:6-18 | two byte strings that differ in exactly one byte have different checksums, so every single-bit error is detected |
| RtcmFraming.DeclaredLength | app/src/main/java/com/rattall/ntripanalyser/rtcm/RtcmFramer.kt:25-27 | the 10-bit length of bytes 1 and 2 is at most 1023 |
| RtcmFraming.Trailer24 | app/src/main/java/com/rattall/ntripanalyser/rtcm/RtcmFramer.kt:40-42 | the three trailer bytes form a 24-bit value |
| RtcmFraming.FrameEnd | app/src/main/java/com/rattall/ntripanalyser/rtcm/RtcmFramer.kt:28 | a frame takes 6 to 1029 bytes |
| RtcmFraming.MakeFrame | app/src/main/java/com/rattall/ntripanalyser/rtcm/RtcmFramer.kt:39-49 | the frame keeps its raw bytes; its payload and CRC flag come from them |
| RtcmFraming.MakeFrameWellFormed | app/src/main/java/com/rattall/ntripanalyser/rtcm/RtcmFramer.kt:39-49 | the frame starts with the preamble, its payload is bytes 3..3+length, and crcValid holds iff the trailer equals the CRC of header and payload |
| RtcmFraming.Scan | app/src/main/java/com/rattall/ntripanalyser/rtcm/RtcmFramer.kt:12-50 | model of the scan loop of `push`: noise bytes, complete frames and the buffered tail; its properties are the Scan lemmas below |
| RtcmFraming.ScanRest | app/src/main/java/com/rattall/ntripanalyser/rtcm/RtcmFramer.kt:12-31 | what is kept is empty, or starts with the preamble and is an incomplete frame |
| RtcmFraming.ScanFramesWellFormed | app/src/main/java/com/rattall/ntripanalyser/rtcm/RtcmFramer.kt:33-49 | every emitted frame is well formed |
| RtcmFraming.ScanCovers | app/src/main/java/com/rattall/ntripanalyser/rtcm/RtcmFramer.kt:12-50 | the dropped noise bytes, the frames and the kept rest spell the input in order, and no dropped byte is a preamble |
| RtcmFraming.DropNoise | app/src/main/java/com/rattall/ntripanalyser/rtcm/RtcmFramer.kt:13-20 | dropping a preamble-free prefix changes neither the frames nor the rest |
| RtcmFraming.ScanAppend | app/src/main/java/com/rattall/ntripanalyser/rtcm/RtcmFramer.kt:6-53 | scanning a + b is scanning a, then the rest of a followed by b |
| RtcmFraming.FramesAppend | app/src/main/java/com/rattall/ntripanalyser/rtcm/RtcmFramer.kt:6-53 | the frames of successive pushes are the frames of the whole stream: splitting input across pushes changes nothing |
| RtcmFraming.RestIsStable | app/src/main/java/com/rattall/ntripanalyser/rtcm/RtcmFramer.kt:21-31 | scanning the kept rest again yields no frame and keeps it whole |
| RtcmFraming.IndexOfFirstPreamble | app/src/main/java/com/rattall/ntripanalyser/rtcm/RtcmFramer.kt:13 | returns the first index holding 0xD3, or -1 when there is none |
| RtcmFraming.RemoveFront | app/src/main/java/com/rattall/ntripanalyser/rtcm/RtcmFramer.kt:19 | the remove-at-0 loop leaves buf without its first count bytes |
| RtcmFraming.CopyFront | app/src/main/java/com/rattall/ntripanalyser/rtcm/RtcmFramer.kt:33-36 | the copy loop yields the first count bytes |
| RtcmFraming.SkipNoise | app/src/main/java/com/rattall/ntripanalyser/rtcm/RtcmFramer.kt:13-20 | the result is empty or starts with the preamble, and has the same frames and rest as the input |
| RtcmFraming.CutAtPreamble | app/src/main/java/com/rattall/ntripanalyser/rtcm/RtcmFramer.kt:21-49 | either the frame is incomplete and everything is kept, or the first frame is cut off and the rest is strictly shorter |
| RtcmFraming.NextFrame | app/src/main/java/com/rattall/ntripanalyser/rtcm/RtcmFramer.kt:12-50 | one turn of the loop: no frame and the final rest, or the next frame and a shorter buffer with the same later frames |
| RtcmFraming.RtcmFramer.constructor | app/src/main/java/com/rattall/ntripanalyser/rtcm/RtcmFramer.kt:4 | the buffer starts empty |
| RtcmFraming.RtcmFramer.Push | app/src/main/java/com/rattall/ntripanalyser/rtcm/RtcmFramer.kt:6-53 | appends the first length bytes (none for a negative length), returns the frames Scan finds in the old buffer plus them, and keeps exactly Scan's rest |
| FramerExamples.TrailerRoundTrip | app/src/test/java/com/rattall/ntripanalyser/rtcm/RtcmFramerTests.kt:88-102 | the three big-endian trailer bytes of a CRC read back as that CRC |
| FramerExamples.BuildFrame | app/src/test/java/com/rattall/ntripanalyser/rtcm/RtcmFramerTests.kt:88-102 | buildRtcmFrame: preamble, declared length, the payload at 3, six bytes of overhead |
| FramerExamples.BuiltFrameIsValid | app/src/test/java/com/rattall/ntripanalyser/rtcm/RtcmFramerTests.kt:74-86 | a built frame's trailer is its CRC, so the frame is valid and carries the payload |
| FramerExamples.TamperedFrameIsFlagged | app/src/test/java/com/rattall/ntripanalyser/rtcm/RtcmFramerTests.kt:24-35 | flipping the low bit of the last byte keeps the frame's shape and payload but makes crcValid false |
| FramerExamples.FlipBitOfByte | app/src/test/java/com/rattall/ntripanalyser/rtcm/RtcmFramerTests.kt:27 | flipping one bit of a byte (`xor` with its weight) always changes the byte |
| FramerExamples.FlipBit | app/src/test/java/com/rattall/ntripanalyser/rtcm/RtcmFramerTests.kt:27 | flipping bit i of a frame, MSB first, changes byte i/8 and no other byte |
| FramerExamples.TamperIsLastBitFlip | app/src/test/java/com/rattall/ntripanalyser/rtcm/RtcmFramerTests.kt:24-35 | the test's tampering of the last byte is the flip of the frame's last bit |
| FramerExamples.ChangedByteCrcFails | app/src/main/java/com/rattall/ntripanalyser/rtcm/RtcmFramer.kt:39-48 | changing any one byte after the length field of a CRC-valid frame keeps its declared length and makes crcValid false |
| FramerExamples.FlippedCrcFails | app/src/main/java/com/rattall/ntripanalyser/rtcm/RtcmFramer.kt:39-48 | flipping any bit after the length field, in the payload or the CRC, of a CRC-valid frame makes crcValid false |
| FramerExamples.FlippedFrameIsFlagged | app/src/test/java/com/rattall/ntripanalyser/rtcm/RtcmFramerTests.kt:74-102 | for every payload and every bit i from 24 to 8·(length+6), a built frame with bit i flipped keeps its declared length and has crcValid false |
| FramerExamples.ParsesValidFrame | app/src/test/java/com/rattall/ntripanalyser/rtcm/RtcmFramerTests.kt:11-21 | pushing one built frame yields exactly that frame, valid, with its payload |
| FramerExamples.MarksTamperedFrame | app/src/test/java/com/rattall/ntripanalyser/rtcm/RtcmFramerTests.kt:24-35 | pushing a tampered frame yields one frame flagged invalid with the original payload |
| FramerExamples.ReassemblesFragments | app/src/test/java/com/rattall/ntripanalyser/rtcm/RtcmFramerTests.kt:38-53 | pushing a frame in three pieces yields nothing, nothing, then the whole valid frame |
| FramerExamples.ScanPrefixWaits | app/src/test/java/com/rattall/ntripanalyser/rtcm/RtcmFramerTests.kt:38-53 | any proper prefix of a frame yields no frame and is kept whole |
| FramerExamples.ParsesTwoFrames | app/src/test/java/com/rattall/ntripanalyser/rtcm/RtcmFramerTests.kt:56-71 | pushing two built frames together yields both, in order, valid, with their payloads |
| FramerExamples.TwoFrames | app/src/test/java/com/rattall/ntripanalyser/rtcm/RtcmFramerTests.kt:56-71 | two back-to-back frames scan to exactly those two frames |
| BitPayloadBuilder.UnsignedBits | app/src/test/java/com/rattall/ntripanalyser/rtcm/RtcmDecoderTests.kt:164-171 | appendUnsigned writes exactly width bits |
| BitPayloadBuilder.NatOfUnsignedBits | app/src/test/java/com/rattall/ntripanalyser/rtcm/RtcmDecoderTests.kt:164-171 | the bits appendUnsigned writes, read MSB first, are the value |
| BitPayloadBuilder.SignedBits | app/src/test/java/com/rattall/ntripanalyser/rtcm/RtcmDecoderTests.kt:177-182 | appendSigned writes width bits for a value in the signed range |
| BitPayloadBuilder.ToByteArray | app/src/test/java/com/rattall/ntripanalyser/rtcm/RtcmDecoderTests.kt:184-194 | toByteArray pads with zeros to whole bytes: ceil(bits/8) bytes |
| BitPayloadBuilder.ByteArrayCarries | app/src/test/java/com/rattall/ntripanalyser/rtcm/RtcmDecoderTests.kt:184-194 | every appended bit is the bit BitBuffer reads at that position |
| BitPayloadBuilder.ReadBackUnsigned | app/src/test/java/com/rattall/ntripanalyser/rtcm/RtcmDecoderTests.kt:164-194 | an unsigned field appended anywhere reads back with readUnsigned at its offset |
| BitPayloadBuilder.ReadBackSigned | app/src/test/java/com/rattall/ntripanalyser/rtcm/RtcmDecoderTests.kt:177-194 | a signed field appended anywhere reads back with readSigned at its offset |
| MsmCells.MaskIdsExact | app/src/main/java/com/rattall/ntripanalyser/rtcm/decoders/MsmDecoder.kt:60-69 | the ids are strictly increasing, in base..base+size-1, and id is listed exactly when its mask bit is set |
| MsmCells.MaskBits | app/src/main/java/com/rattall/ntripanalyser/rtcm/decoders/MsmDecoder.kt:24-28 | the cell-mask list has one entry per bit, true exactly when the bit is 1 |
| MsmCells.GridAt | app/src/main/java/com/rattall/ntripanalyser/rtcm/decoders/MsmDecoder.kt:71-87 | position i*|signals|+j of the satellite-major grid is (satellite i, signal j) |
| MsmCells.SelectCount | app/src/main/java/com/rattall/ntripanalyser/rtcm/decoders/MsmDecoder.kt:71-87 | there are as many active cells as set mask bits |
| MsmCells.SelectMember | app/src/main/java/com/rattall/ntripanalyser/rtcm/decoders/MsmDecoder.kt:71-87 | a cell is active exactly when some set mask position holds it |
| MsmCells.ActiveCellsExact | app/src/main/java/com/rattall/ntripanalyser/rtcm/decoders/MsmDecoder.kt:71-87 | (sats[i], sigs[j]) is active iff mask bit i*|sigs|+j is set |
| MsmCells.ActiveCellsIncreasing | app/src/main/java/com/rattall/ntripanalyser/rtcm/decoders/MsmDecoder.kt:71-87 | active cells come ordered by satellite, then signal, without repeats |
| MsmCells.ReadMaskIds | app/src/main/java/com/rattall/ntripanalyser/rtcm/decoders/MsmDecoder.kt:60-69 | the mask loop returns MaskIds of the next size bits and advances by size |
| MsmCells.ReadCellMask | app/src/main/java/com/rattall/ntripanalyser/rtcm/decoders/MsmDecoder.kt:24-28 | the cell-mask loop returns the next n bits as booleans and advances by n |
| MsmCells.BuildActiveCells | app/src/main/java/com/rattall/ntripanalyser/rtcm/decoders/MsmDecoder.kt:71-87 | the nested loops return exactly ActiveCells: the grid cells whose bit is set, in order |
| MsmLists.ListValuesAt | app/src/main/java/com/rattall/ntripanalyser/rtcm/decoders/MsmDecoder.kt:171-191 | entry i is present iff i whole entries of width bits fit after it is reached, and then is the value at pos + i*width |
| MsmLists.EntryFitsWidth | app/src/main/java/com/rattall/ntripanalyser/rtcm/decoders/MsmDecoder.kt:171-191 | a present entry fits its width, unsigned or two's complement |
| MsmLists.AbsentSuffix | app/src/main/java/com/rattall/ntripanalyser/rtcm/decoders/MsmDecoder.kt:176-178 | once an entry is missing (bits ran out) every later entry is missing |
| MsmLists.ZeroWidth | app/src/main/java/com/rattall/ntripanalyser/rtcm/decoders/MsmDecoder.kt:172-174 | width 0 gives all-null entries and reads nothing |
| MsmLists.ListConsumed | app/src/main/java/com/rattall/ntripanalyser/rtcm/decoders/MsmDecoder.kt:171-191 | the list reads exactly width bits per present entry, and the present entries are as many as fit |
| MsmLists.ReadUnsignedList | app/src/main/java/com/rattall/ntripanalyser/rtcm/decoders/MsmDecoder.kt:171-180 | readUnsignedList returns ListValues (unsigned) and leaves the cursor at ListEnd |
| MsmLists.ReadSignedList | app/src/main/java/com/rattall/ntripanalyser/rtcm/decoders/MsmDecoder.kt:182-191 | readSignedList returns ListValues (signed) and leaves the cursor at ListEnd |
| MsmLists.ZeroOrEmpty | app/src/main/java/com/rattall/ntripanalyser/rtcm/decoders/MsmDecoder.kt:172-174 | the early return (width 0 or count 0) agrees with ListValues and reads nothing |
| MsmDecoder.RoughRangeWidth | app/src/main/java/com/rattall/ntripanalyser/rtcm/decoders/MsmDecoder.kt:90-96 | 8 bits of rough range for MSM4..7, none otherwise; read by SatelliteWidth |
| MsmDecoder.ExtendedInfoWidth | app/src/main/java/com/rattall/ntripanalyser/rtcm/decoders/MsmDecoder.kt:91-97 | 4 bits of extended information for MSM5 and MSM7 only |
| MsmDecoder.RangeModuloWidth | app/src/main/java/com/rattall/ntripanalyser/rtcm/decoders/MsmDecoder.kt:93-98 | 10 bits of range modulo for MSM1..7 |
| MsmDecoder.RoughRateWidth | app/src/main/java/com/rattall/ntripanalyser/rtcm/decoders/MsmDecoder.kt:92-99 | 14 bits of rough phase-range rate for MSM5 and MSM7 only |
| MsmDecoder.PseudorangeWidth | app/src/main/java/com/rattall/ntripanalyser/rtcm/decoders/MsmDecoder.kt:118-122 | 15 bits for MSM1, 3, 4, 5; 20 for MSM6, 7; none for MSM2 |
| MsmDecoder.PhaseWidth | app/src/main/java/com/rattall/ntripanalyser/rtcm/decoders/MsmDecoder.kt:123-127 | 22 bits for MSM2..5, 24 for MSM6, 7, none for MSM1 |
| MsmDecoder.LockWidth | app/src/main/java/com/rattall/ntripanalyser/rtcm/decoders/MsmDecoder.kt:128-132 | 4 bits for MSM2..5, 10 for MSM6, 7, none for MSM1 |
| MsmDecoder.HalfCycleWidth | app/src/main/java/com/rattall/ntripanalyser/rtcm/decoders/MsmDecoder.kt:133-136 | 1 bit for MSM2..7, none for MSM1 |
| MsmDecoder.CnrWidth | app/src/main/java/com/rattall/ntripanalyser/rtcm/decoders/MsmDecoder.kt:137-141 | 6 bits for MSM4, 5, 10 for MSM6, 7, none below |
| MsmDecoder.FineRateWidth | app/src/main/java/com/rattall/ntripanalyser/rtcm/decoders/MsmDecoder.kt:142-145 | 15 bits of fine phase-range rate for MSM5 and MSM7 only |
| MsmDecoder.DecodeSpec | app/src/main/java/com/rattall/ntripanalyser/rtcm/decoders/MsmDecoder.kt:7-58 | model of `decode`: Failure(OutOfBits) when the header, the masks or the cell mask do not fit, else the message of the payload; its properties are the MsmProperties lemmas |
| MsmDecoder.ReadHeaderStart | app/src/main/java/com/rattall/ntripanalyser/rtcm/decoders/MsmDecoder.kt:9-11 | returns the station (bits 12..23) and the epoch (bits 24..53) and leaves the cursor at bit 54 |
| MsmDecoder.ReadHeaderMiddle | app/src/main/java/com/rattall/ntripanalyser/rtcm/decoders/MsmDecoder.kt:12-14 | returns the multiple-message flag, IODS and the reserved field of bits 54..64 and leaves the cursor at bit 65 |
| MsmDecoder.ReadHeaderEnd | app/src/main/java/com/rattall/ntripanalyser/rtcm/decoders/MsmDecoder.kt:15-18 | returns clock steering, external clock and the smoothing fields of bits 65..72 and leaves the cursor at bit 73 |
| MsmDecoder.ReadHeader | app/src/main/java/com/rattall/ntripanalyser/rtcm/decoders/MsmDecoder.kt:9-18 | the header reads return the fields at bits 12..72 and leave the cursor at 73 |
| MsmDecoder.ReadMasks | app/src/main/java/com/rattall/ntripanalyser/rtcm/decoders/MsmDecoder.kt:21-22 | the two mask reads return the satellite and signal ids of the 64- and 32-bit masks |
| MsmDecoder.ReadActiveCells | app/src/main/java/com/rattall/ntripanalyser/rtcm/decoders/MsmDecoder.kt:24-34 | the cell-mask read and buildActiveCells return the payload's active cells |
| MsmDecoder.AssembleSatelliteRows | app/src/main/java/com/rattall/ntripanalyser/rtcm/decoders/MsmDecoder.kt:101-109 | the row loop zips the satellite ids and the four lists |
| MsmDecoder.AssembleCellRows | app/src/main/java/com/rattall/ntripanalyser/rtcm/decoders/MsmDecoder.kt:154-168 | the row loop zips the active cells and the six lists |
| MsmDecoder.DecodeSatelliteData | app/src/main/java/com/rattall/ntripanalyser/rtcm/decoders/MsmDecoder.kt:89-111 | decodeSatelliteData returns SatelliteData and leaves the cursor at SatelliteEnd |
| MsmDecoder.DecodeCellData | app/src/main/java/com/rattall/ntripanalyser/rtcm/decoders/MsmDecoder.kt:113-169 | decodeCellData returns CellData and leaves the cursor at CellEnd |
| MsmDecoder.DecodeBlocks | app/src/main/java/com/rattall/ntripanalyser/rtcm/decoders/MsmDecoder.kt:30-57 | from the end of the cell mask, builds exactly the message of the payload |
| MsmDecoder.DecodeBody | app/src/main/java/com/rattall/ntripanalyser/rtcm/decoders/MsmDecoder.kt:24-57 | from the end of the masks, returns DecodeSpec: Failure(OutOfBits) iff the cell mask does not fit |
| MsmDecoder.Decode | app/src/main/java/com/rattall/ntripanalyser/rtcm/decoders/MsmDecoder.kt:7-58 | decode returns DecodeSpec of the payload |
| MsmProperties.DecodeFailsIff | app/src/main/java/com/rattall/ntripanalyser/rtcm/decoders/MsmDecoder.kt:9-28 | MSM decode fails exactly when the header, the two masks and the cell mask do not fit |
| MsmProperties.LongPayloadDecodes | app/src/main/java/com/rattall/ntripanalyser/rtcm/decoders/MsmDecoder.kt:9-28 | a payload of at least 169 + 64*32 bits always decodes |
| MsmProperties.SatelliteIdsExact | app/src/main/java/com/rattall/ntripanalyser/rtcm/decoders/MsmDecoder.kt:21 | satelliteIds are strictly increasing, in 1..64, and id is listed iff its satellite-mask bit is set |
| MsmProperties.SignalIdsExact | app/src/main/java/com/rattall/ntripanalyser/rtcm/decoders/MsmDecoder.kt:22 | signalIds are strictly increasing, in 1..32, and id is listed iff its signal-mask bit is set |
| MsmProperties.RowCellsAreActive | app/src/main/java/com/rattall/ntripanalyser/rtcm/decoders/MsmDecoder.kt:30-37 | the cell rows carry exactly the active cells, in order |
| MsmProperties.SatelliteRowsCarryIds | app/src/main/java/com/rattall/ntripanalyser/rtcm/decoders/MsmDecoder.kt:20-41 | one satellite row per id, carrying that id; messageType is the decoder's and msmType its last digit |
| MsmProperties.CellRowsOrdered | app/src/main/java/com/rattall/ntripanalyser/rtcm/decoders/MsmDecoder.kt:30-53 | activeCellCount equals the number of cell rows and of set cell-mask bits; rows are ordered and unique |
| MsmProperties.ActiveCellIffBit | app/src/main/java/com/rattall/ntripanalyser/rtcm/decoders/MsmDecoder.kt:71-87 | (satellite i, signal j) is active iff cell-mask bit i*|signals|+j of the payload is set |
| MsmProperties.CellRowIffMaskBit | app/src/main/java/com/rattall/ntripanalyser/rtcm/decoders/MsmDecoder.kt:24-37 | a cell row for (satelliteIds[i], signalIds[j]) exists iff its cell-mask bit is set |
| MsmProperties.SatelliteColumnIsList | app/src/main/java/com/rattall/ntripanalyser/rtcm/decoders/MsmDecoder.kt:89-111 | each satellite field column is the list read for it, at its width for the MSM number |
| MsmProperties.CellColumnIsList | app/src/main/java/com/rattall/ntripanalyser/rtcm/decoders/MsmDecoder.kt:113-169 | each cell field column is the list read for it, at its width for the MSM number |
| MsmProperties.MessageSatelliteColumn | app/src/main/java/com/rattall/ntripanalyser/rtcm/decoders/MsmDecoder.kt:36 | in a decoded message, each satellite column is its list read from the satellite-data start |
| MsmProperties.MessageCellColumn | app/src/main/java/com/rattall/ntripanalyser/rtcm/decoders/MsmDecoder.kt:37 | in a decoded message, each cell column is its list read from the cell-data start |
| MsmProperties.SatelliteWidth | app/src/main/java/com/rattall/ntripanalyser/rtcm/decoders/MsmDecoder.kt:90-93 | the satellite width table gives widths the readers accept |
| MsmProperties.CellWidth | app/src/main/java/com/rattall/ntripanalyser/rtcm/decoders/MsmDecoder.kt:118-145 | the cell width table gives widths the readers accept |
| MsmProperties.SatelliteFieldAbsent | app/src/main/java/com/rattall/ntripanalyser/rtcm/decoders/MsmDecoder.kt:90-99 | a satellite field of width 0 for this MSM number is null in every row |
| MsmProperties.CellFieldAbsent | app/src/main/java/com/rattall/ntripanalyser/rtcm/decoders/MsmDecoder.kt:118-152 | a cell field of width 0 for this MSM number is null in every row |
| MsmProperties.SatelliteTruncationSuffix | app/src/main/java/com/rattall/ntripanalyser/rtcm/decoders/MsmDecoder.kt:176-178 | once a satellite field is null in a row, it is null in every later row |
| MsmProperties.CellTruncationSuffix | app/src/main/java/com/rattall/ntripanalyser/rtcm/decoders/MsmDecoder.kt:176-178 | once a cell field is null in a row, it is null in every later row |
| MsmProperties.SatelliteFieldRange | app/src/main/java/com/rattall/ntripanalyser/rtcm/decoders/MsmDecoder.kt:96-99 | a present satellite field fits its width (signed for the rough rate) |
| MsmProperties.CellFieldRange | app/src/main/java/com/rattall/ntripanalyser/rtcm/decoders/MsmDecoder.kt:147-152 | a present cell field fits its width (signed for the fine fields) |
| MsmProperties.SatelliteEndIsUsed | app/src/main/java/com/rattall/ntripanalyser/rtcm/decoders/MsmDecoder.kt:89-111 | the satellite block reads exactly the width of each present field |
| MsmProperties.CellEndIsUsed | app/src/main/java/com/rattall/ntripanalyser/rtcm/decoders/MsmDecoder.kt:113-169 | the cell block reads exactly the width of each present field |
| MsmProperties.BitsRemainingIsUnread | app/src/main/java/com/rattall/ntripanalyser/rtcm/decoders/MsmDecoder.kt:56 | bitsRemaining is the payload's bits less the header, masks, cell mask and every present field |
| Decoder1006.Spec | app/src/main/java/com/rattall/ntripanalyser/rtcm/decoders/Decoders1006.kt:7-36 | model of `decode`: Failure(OutOfBits) below 168 bits, else the fields at their positions; its properties are DecodeOutcome, CarrierDecodes and RoundTrip |
| Decoder1006.ReadStation | app/src/main/java/com/rattall/ntripanalyser/rtcm/decoders/Decoders1006.kt:9-16 | the reads return the station, ITRF year and flags at their fixed offsets, skipping the reserved bit |
| Decoder1006.ReadPosition | app/src/main/java/com/rattall/ntripanalyser/rtcm/decoders/Decoders1006.kt:17-22 | the reads return the three signed 38-bit coordinates and the antenna height, skipping the reserved bits |
| Decoder1006.Decode | app/src/main/java/com/rattall/ntripanalyser/rtcm/decoders/Decoders1006.kt:7-36 | decode returns Spec of the payload |
| Decoder1006.DecodeOutcome | app/src/main/java/com/rattall/ntripanalyser/rtcm/decoders/Decoders1006.kt:7-36 | decode fails exactly on payloads under 21 bytes; a decoded message's fields fit their widths |
| Decoder1006.CarrierDecodes | app/src/main/java/com/rattall/ntripanalyser/rtcm/decoders/Decoders1006.kt:7-36 | any 21-byte payload carrying a message's bits decodes to that message |
| Decoder1006.RoundTrip | app/src/main/java/com/rattall/ntripanalyser/rtcm/decoders/Decoders1006.kt:7-36 | decoding the payload the test builder makes for a message gives the message back |
| Decoder1012.Spec | app/src/main/java/com/rattall/ntripanalyser/rtcm/decoders/Decoders1012.kt:7-70 | model of `decode`: Failure(OutOfBits) below the 61-bit header, else the header, the blocks that fit and the bits left; its properties are the lemmas below |
| Decoder1012.ReadHeader | app/src/main/java/com/rattall/ntripanalyser/rtcm/decoders/Decoders1012.kt:9-15 | the header reads return the fields at bits 12..60 and leave the cursor at 61 |
| Decoder1012.ReadL1 | app/src/main/java/com/rattall/ntripanalyser/rtcm/decoders/Decoders1012.kt:28-35 | returns the eight L1 fields at their offsets in the block and moves the cursor by 79 bits |
| Decoder1012.ReadL2 | app/src/main/java/com/rattall/ntripanalyser/rtcm/decoders/Decoders1012.kt:36-40 | returns the five L2 fields at their offsets and moves the cursor by 51 bits |
| Decoder1012.ReadSatellite | app/src/main/java/com/rattall/ntripanalyser/rtcm/decoders/Decoders1012.kt:28-40 | one block reads the thirteen fields of a satellite in 130 bits |
| Decoder1012.NextRow | app/src/main/java/com/rattall/ntripanalyser/rtcm/decoders/Decoders1012.kt:19-57 | one loop turn: a truncated row when fewer than 130 bits remain, else the next block |
| Decoder1012.ReadSatellites | app/src/main/java/com/rattall/ntripanalyser/rtcm/decoders/Decoders1012.kt:18-58 | the repeat loop returns the Satellites rows and reads 130 bits per decoded block |
| Decoder1012.Decode | app/src/main/java/com/rattall/ntripanalyser/rtcm/decoders/Decoders1012.kt:7-70 | decode returns Spec of the payload |
| Decoder1012.DecodeFailsIff | app/src/main/java/com/rattall/ntripanalyser/rtcm/decoders/Decoders1012.kt:9-15 | decode fails exactly on payloads under eight bytes |
| Decoder1012.SatelliteList | app/src/main/java/com/rattall/ntripanalyser/rtcm/decoders/Decoders1012.kt:18-58 | one row per announced satellite, each with its own index |
| Decoder1012.ObservedIffRoom | app/src/main/java/com/rattall/ntripanalyser/rtcm/decoders/Decoders1012.kt:19-26 | satellite i is decoded iff the header and i+1 whole blocks fit, else it is a truncated row |
| Decoder1012.TruncatedSuffix | app/src/main/java/com/rattall/ntripanalyser/rtcm/decoders/Decoders1012.kt:19-26 | after the first truncated row every later row is truncated |
| Decoder1012.TruncatedRemainder | app/src/main/java/com/rattall/ntripanalyser/rtcm/decoders/Decoders1012.kt:19-26 | a truncated row reports the final bitsRemaining, below 130 |
| Decoder1012.BitsAccounted | app/src/main/java/com/rattall/ntripanalyser/rtcm/decoders/Decoders1012.kt:68 | payload bits = header + 130 per decoded satellite + bitsRemaining |
| Decoder1012.SatelliteRanges | app/src/main/java/com/rattall/ntripanalyser/rtcm/decoders/Decoders1012.kt:28-40 | every decoded field fits its width, signed ones as two's complement |
| Decoder1012.CarrierDecodes | app/src/main/java/com/rattall/ntripanalyser/rtcm/decoders/Decoders1012.kt:7-70 | a payload carrying a message's bits and fewer than 130 more decodes to that message |
| Decoder1012.RoundTrip | app/src/test/java/com/rattall/ntripanalyser/rtcm/RtcmDecoderTests.kt:52-92 | decoding the test builder's payload for any encodable message gives it back (with the padding as bitsRemaining) |
| Decoder1033.Spec | app/src/main/java/com/rattall/ntripanalyser/rtcm/decoders/Decoders1033.kt:7-32 | model of `decode`: Failure(OutOfBits) where a count or a string does not fit, else the five strings; its properties are the lemmas below |
| Decoder1033.Ascii | app/src/main/java/com/rattall/ntripanalyser/rtcm/decoders/Decoders1033.kt:26-32 | readAscii's string has count characters |
| Decoder1033.AsciiAt | app/src/main/java/com/rattall/ntripanalyser/rtcm/decoders/Decoders1033.kt:28-30 | character i is the 8-bit code at start + 8i |
| Decoder1033.ReadAscii | app/src/main/java/com/rattall/ntripanalyser/rtcm/decoders/Decoders1033.kt:26-32 | the loop returns Ascii of the next 8*count bits and advances by them |
| Decoder1033.Decode | app/src/main/java/com/rattall/ntripanalyser/rtcm/decoders/Decoders1033.kt:7-24 | decode returns Spec of the payload |
| Decoder1033.DecodeOutcome | app/src/main/java/com/rattall/ntripanalyser/rtcm/decoders/Decoders1033.kt:7-24 | decode fails exactly when the head, the descriptor with the setup fields, or the serial does not fit; the strings have the announced lengths and every bit is accounted for |
| Decoder1033.ShortDescriptor | app/src/main/java/com/rattall/ntripanalyser/rtcm/decoders/Decoders1033.kt:12-13 | too few bits for the announced descriptor fails |
| Decoder1033.ShortSerial | app/src/main/java/com/rattall/ntripanalyser/rtcm/decoders/Decoders1033.kt:14-15 | too few bits for the announced serial fails |
| Decoder1033.CarrierDecodes | app/src/main/java/com/rattall/ntripanalyser/rtcm/decoders/Decoders1033.kt:7-24 | a payload carrying a message's bits decodes to it, with the extra bits as bitsRemaining |
| Decoder1033.RoundTrip | app/src/main/java/com/rattall/ntripanalyser/rtcm/decoders/Decoders1033.kt:7-32 | the built payload of any message with 8-bit strings decodes back to it with no bits left |
| Decoder1230.Spec | app/src/main/java/com/rattall/ntripanalyser/rtcm/decoders/Decoders1230.kt:7-21 | model of `decode`: Failure(OutOfBits) below 33 bits, else the three fields and the bits left; its properties are DecodeOutcome, FieldsRead and RoundTrip |
| Decoder1230.Decode | app/src/main/java/com/rattall/ntripanalyser/rtcm/decoders/Decoders1230.kt:7-21 | decode returns Spec of the payload |
| Decoder1230.DecodeOutcome | app/src/main/java/com/rattall/ntripanalyser/rtcm/decoders/Decoders1230.kt:7-21 | decode fails exactly on payloads under five bytes; the masks fit 4 bits and bitsRemaining is what follows the 33 bits read |
| Decoder1230.FieldsRead | app/src/main/java/com/rattall/ntripanalyser/rtcm/decoders/Decoders1230.kt:9-13 | a payload carrying a message's bits reads each field back at its offset |
| Decoder1230.RoundTrip | app/src/main/java/com/rattall/ntripanalyser/rtcm/decoders/Decoders1230.kt:7-21 | the built payload decodes back to the message with the seven padding bits remaining |
| RtcmDecoderRegistry.Lookup | app/src/main/java/com/rattall/ntripanalyser/rtcm/RtcmDecoderRegistry.kt:12-23 | model of the map: 1004, 1005, 1006, 1012, 1033, 1230 and the four MSM ranges; FixedDispatch and MsmDispatch state what it holds |
| RtcmDecoderRegistry.DecodeSpec | app/src/main/java/com/rattall/ntripanalyser/rtcm/RtcmDecoderRegistry.kt:25-39 | model of `decode`; Registry.Decode is proved equal to it and its properties are the lemmas below |
| RtcmDecoderRegistry.Hex | app/src/main/java/com/rattall/ntripanalyser/rtcm/RtcmDecoderRegistry.kt:31 | the hex text has two characters per payload byte |
| RtcmDecoderRegistry.HexAt | app/src/main/java/com/rattall/ntripanalyser/rtcm/RtcmDecoderRegistry.kt:31 | byte i is written at positions 2i and 2i+1 as upper-case "%02X" |
| RtcmDecoderRegistry.HexRoundTrip | app/src/main/java/com/rattall/ntripanalyser/rtcm/RtcmDecoderRegistry.kt:31 | reading the digit pairs back gives the payload |
| RtcmDecoderRegistry.PutMsmRange | app/src/main/java/com/rattall/ntripanalyser/rtcm/RtcmDecoderRegistry.kt:19-22 | each for-loop adds one MSM decoder per type of its range, keeping the table exact |
| RtcmDecoderRegistry.PutFixed | app/src/main/java/com/rattall/ntripanalyser/rtcm/RtcmDecoderRegistry.kt:13-18 | the six puts give the six fixed decoders |
| RtcmDecoderRegistry.FixedTable | app/src/main/java/com/rattall/ntripanalyser/rtcm/RtcmDecoderRegistry.kt:13-18 | the six fixed entries are exactly the registered decoders below 1071 and that of 1230 |
| RtcmDecoderRegistry.BuildMap | app/src/main/java/com/rattall/ntripanalyser/rtcm/RtcmDecoderRegistry.kt:12-23 | buildMap holds exactly the registered types, each with its decoder: 34 entries |
| RtcmDecoderRegistry.Registry.Decode | app/src/main/java/com/rattall/ntripanalyser/rtcm/RtcmDecoderRegistry.kt:25-39 | decode returns DecodeSpec of the frame |
| RtcmDecoderRegistry.DecodeWithMethod | app/src/main/java/com/rattall/ntripanalyser/rtcm/RtcmDecoderRegistry.kt:28 | running the decoder's method equals its specification |
| RtcmDecoderRegistry.DecodeOutcome | app/src/main/java/com/rattall/ntripanalyser/rtcm/RtcmDecoderRegistry.kt:25-39 | the type is the first 12 bits; decode fails iff the payload is shorter or the chosen decoder fails; crcValid and payloadLength are copied |
| RtcmDecoderRegistry.UnsupportedNeverFails | app/src/main/java/com/rattall/ntripanalyser/rtcm/RtcmDecoderRegistry.kt:28-32 | an unregistered type gives the unsupported record whose hex spells the payload back |
| RtcmDecoderRegistry.MsmDispatch | app/src/main/java/com/rattall/ntripanalyser/rtcm/RtcmDecoderRegistry.kt:19-22 | a type has an MSM decoder iff it is in 1071-1077, 1081-1087, 1091-1097 or 1121-1127, built with that type |
| RtcmDecoderRegistry.FixedDispatch | app/src/main/java/com/rattall/ntripanalyser/rtcm/RtcmDecoderRegistry.kt:13-18 | the fixed decoders sit exactly under 1004, 1005, 1006, 1012, 1033 and 1230 |
| RtcmDecoderRegistry.Dispatch | app/src/main/java/com/rattall/ntripanalyser/rtcm/RtcmDecoderRegistry.kt:28-38 | a registered type's result holds its decoder's fields, or its decoder's failure |
| RtcmDecoderRegistry.Decodes1006 | app/src/main/java/com/rattall/ntripanalyser/rtcm/RtcmDecoderRegistry.kt:25-39 | a framed 1006 payload is dispatched to the 1006 decoder and decodes to its message |
| Text.IsWhitespace | app/src/main/java/com/rattall/ntripanalyser/network/NtripHttpResponseParser.kt:26-27 | the ASCII whitespace of `trim` and `isBlank`: tab through carriage return, 28..31 and the space |
| Text.Trim | app/src/main/java/com/rattall/ntripanalyser/network/NtripHttpResponseParser.kt:26 | model of `trim`; its properties are TrimShape, TrimBlank and TrimIdempotent |
| Text.Lines | app/src/main/java/com/rattall/ntripanalyser/network/NtripSourceTableParser.kt:7-8 | model of `lineSequence`: at least one line; its properties are LinesShape and LineThen |
| Text.Split | app/src/main/java/com/rattall/ntripanalyser/network/NtripSourceTableParser.kt:11 | model of `split`: at least one piece; its properties are SplitJoin and JoinSplit |
| Text.LeadingWhitespace | app/src/main/java/com/rattall/ntripanalyser/network/NtripHttpResponseParser.kt:26 | counts exactly the whitespace run at the front |
| Text.TrimShape | app/src/main/java/com/rattall/ntripanalyser/network/NtripHttpResponseParser.kt:26 | trim keeps a contiguous run, cuts only whitespace and leaves none at either end |
| Text.TrimBlank | app/src/main/java/com/rattall/ntripanalyser/network/NtripHttpResponseParser.kt:27 | a text trims to empty iff it is all whitespace |
| Text.TrimIdempotent | app/src/main/java/com/rattall/ntripanalyser/network/NtripClient.kt:54 | trimming twice equals trimming once |
| Text.FirstLine | app/src/main/java/com/rattall/ntripanalyser/network/NtripHttpResponseParser.kt:26 | the first line is the prefix up to the first line break |
| Text.LinesShape | app/src/main/java/com/rattall/ntripanalyser/network/NtripSourceTableParser.kt:7-8 | lineSequence's lines hold no line break and the first is FirstLine |
| Text.LineThen | app/src/main/java/com/rattall/ntripanalyser/network/NtripSourceTableParser.kt:7-8 | a line followed by CRLF, LF or a lone CR is split off as one line |
| Text.SplitJoin | app/src/main/java/com/rattall/ntripanalyser/network/NtripSourceTableParser.kt:11 | split gives one piece more than separators, none holds the separator, and joining gives the text back |
| Text.JoinSplit | app/src/main/java/com/rattall/ntripanalyser/network/NtripSourceTableParser.kt:11 | splitting joined separator-free pieces gives the pieces back |
| NtripHttp.ByteStream.Read | app/src/main/java/com/rattall/ntripanalyser/network/NtripHttpResponseParser.kt:13-16 | read returns the next byte and advances, or -1 at the end |
| NtripHttp.FirstTerminator | app/src/main/java/com/rattall/ntripanalyser/network/NtripHttpResponseParser.kt:10-23 | the header section ends just after the first CRLF CRLF, or there is none |
| NtripHttp.Overlap | app/src/main/java/com/rattall/ntripanalyser/network/NtripHttpResponseParser.kt:9-22 | the longest end of the bytes read that begins the terminator |
| NtripHttp.UpdateKeepsOverlap | app/src/main/java/com/rattall/ntripanalyser/network/NtripHttpResponseParser.kt:18-22 | the matched-counter update (advance, else 1 on CR, else 0) keeps matched equal to that longest end |
| NtripHttp.FullOverlap | app/src/main/java/com/rattall/ntripanalyser/network/NtripHttpResponseParser.kt:12 | matched reaches 4 exactly when the bytes end with CRLF CRLF |
| NtripHttp.ReadHeaderSection | app/src/main/java/com/rattall/ntripanalyser/network/NtripHttpResponseParser.kt:8-23 | the loop reads up to and including the first CRLF CRLF, or everything when there is none |
| NtripHttp.ConsumeHeadersOrThrow | app/src/main/java/com/rattall/ntripanalyser/network/NtripHttpResponseParser.kt:7-40 | returns HeaderOutcome of the unread bytes and reads exactly HeaderConsumed of them |
| NtripHttp.AsTextCodes | app/src/main/java/com/rattall/ntripanalyser/network/NtripHttpResponseParser.kt:25 | one character per header byte, each with that byte's code |
| NtripHttp.BodyLeftUnread | app/src/test/java/com/rattall/ntripanalyser/network/NtripHttpResponseParserTests.kt:10-25 | after a header section the body stays unread and the outcome depends on the header only |
| NtripHttp.NoTerminatorFails | app/src/main/java/com/rattall/ntripanalyser/network/NtripHttpResponseParser.kt:14-16 | a stream without CRLF CRLF fails with "no HTTP response body" after reading everything |
| NtripHttp.StatusLineShape | app/src/main/java/com/rattall/ntripanalyser/network/NtripHttpResponseParser.kt:26 | the status line has no line break, no surrounding whitespace, and lies in the first header line |
| NtripHttp.BlankMeansEmpty | app/src/main/java/com/rattall/ntripanalyser/network/NtripHttpResponseParser.kt:27-29 | isBlank of the trimmed status line means it is empty |
| NtripHttp.CheckStatus | app/src/main/java/com/rattall/ntripanalyser/network/NtripHttpResponseParser.kt:25-39 | model of the status check: a blank line fails as missing, a line outside the three accepted prefixes is rejected with it; its properties are OutcomeCases and RejectionNamesStatus |
| NtripHttp.HeaderOutcome | app/src/main/java/com/rattall/ntripanalyser/network/NtripHttpResponseParser.kt:7-40 | model of the outcome of `consumeHeadersOrThrow`: no terminator fails, else CheckStatus of the header; ConsumeHeadersOrThrow is proved equal to it |
| NtripHttp.OutcomeCases | app/src/main/java/com/rattall/ntripanalyser/network/NtripHttpResponseParser.kt:25-39 | success iff a header section exists and its status line starts with ICY 200, HTTP/1.0 200 or HTTP/1.1 200; the value is that non-empty line; a refusal carries it |
| NtripHttp.RejectionNamesStatus | app/src/test/java/com/rattall/ntripanalyser/network/NtripHttpResponseParserTests.kt:40-57 | the rejection message ends with the refused status line |
| SourceTable.RecordOf | app/src/main/java/com/rattall/ntripanalyser/network/NtripSourceTableParser.kt:10-25 | model of the body of `mapNotNull`; its properties are RecordCases and ParseRecord |
| SourceTable.Parse | app/src/main/java/com/rattall/ntripanalyser/network/NtripSourceTableParser.kt:5-27 | model of `parse`; its properties are ParseLinesAppend, EntriesFromStrLines, AtMostOnePerStrLine and ParseFirstLine |
| SourceTable.Coordinate | app/src/main/java/com/rattall/ntripanalyser/network/NtripSourceTableParser.kt:21-22 | a present coordinate is non-empty number text |
| SourceTable.BlankCoordinate | app/src/main/java/com/rattall/ntripanalyser/network/NtripSourceTableParser.kt:21-22 | an empty or all-space field gives no coordinate |
| SourceTable.PaddedCoordinate | app/src/test/java/com/rattall/ntripanalyser/network/NtripSourceTableParserTests.kt:14 | spaces around a number do not change it |
| SourceTable.FilterMembers | app/src/main/java/com/rattall/ntripanalyser/network/NtripSourceTableParser.kt:9 | filter keeps exactly the elements that satisfy the test |
| SourceTable.MapNotNullMembers | app/src/main/java/com/rattall/ntripanalyser/network/NtripSourceTableParser.kt:10-25 | mapNotNull yields exactly the present results |
| SourceTable.RecordCases | app/src/main/java/com/rattall/ntripanalyser/network/NtripSourceTableParser.kt:11-13 | a line gives an entry iff it has at least nine separators (ten fields) |
| SourceTable.ParseRecord | app/src/main/java/com/rattall/ntripanalyser/network/NtripSourceTableParser.kt:15-23 | fields 1, 2, 3, 6 and 8 land in the entry; 9 and 10 are the coordinates |
| SourceTable.ParseLinesAppend | app/src/main/java/com/rattall/ntripanalyser/network/NtripSourceTableParser.kt:5-27 | entries keep the order of their lines |
| SourceTable.EntriesFromStrLines | app/src/main/java/com/rattall/ntripanalyser/network/NtripSourceTableParser.kt:5-27 | an entry is in the result iff some STR; line of the text yields it |
| SourceTable.AtMostOnePerStrLine | app/src/main/java/com/rattall/ntripanalyser/network/NtripSourceTableParser.kt:9-25 | there are no more entries than STR; lines |
| SourceTable.ParseFirstLine | app/src/main/java/com/rattall/ntripanalyser/network/NtripSourceTableParser.kt:7-26 | the entries of the first line come first, then those of the rest |
| SourceTable.ShortRecordDropped | app/src/test/java/com/rattall/ntripanalyser/network/NtripSourceTableParserTests.kt:36-47 | the three-field STR line is dropped |
| SourceTable.EmptyPosition | app/src/main/java/com/rattall/ntripanalyser/network/NtripSourceTableParser.kt:21-22 | an eleven-field record with empty position fields gives an entry without latitude and longitude |
| SourceTable.RecordWithoutPosition | app/src/test/java/com/rattall/ntripanalyser/network/NtripSourceTableParserTests.kt:16 | the MOUNT2 record of the test table has no position |
| Base64.Encode | app/src/main/java/com/rattall/ntripanalyser/network/NtripClient.kt:89 | model of `Base64.getEncoder().encodeToString`, group by group; its properties are the lemmas below |
| Base64.Decode | app/src/main/java/com/rattall/ntripanalyser/network/NtripClient.kt:89 | the inverse that RoundTrip pairs with Encode |
| Base64.DigitRoundTrip | app/src/main/java/com/rattall/ntripanalyser/network/NtripClient.kt:89 | each 6-bit value's digit (RFC 4648 table 1) reads back as the value |
| Base64.GroupRoundTrip | app/src/main/java/com/rattall/ntripanalyser/network/NtripClient.kt:89 | each group of one to three bytes decodes back from its four characters |
| Base64.RoundTrip | app/src/main/java/com/rattall/ntripanalyser/network/NtripClient.kt:89 | decoding the encoding gives the bytes back |
| Base64.EncodedLength | app/src/main/java/com/rattall/ntripanalyser/network/NtripClient.kt:89 | four characters per started group of three bytes |
| Base64.EncodedAlphabet | app/src/main/java/com/rattall/ntripanalyser/network/NtripClient.kt:89 | only digits, with '=' padding only in the last two places |
| Base64.EncodeAppend | app/src/main/java/com/rattall/ntripanalyser/network/NtripClient.kt:89 | whole groups in front encode on their own |
| Base64.TestVectors | app/src/main/java/com/rattall/ntripanalyser/network/NtripClient.kt:89 | "f", "fo", "foo" encode as in section 10 of RFC 4648 |
| Utf8.Encode | app/src/main/java/com/rattall/ntripanalyser/network/NtripClient.kt:89 | model of `toByteArray()`, character by character; its properties are the lemmas below |
| Utf8.Decode | app/src/main/java/com/rattall/ntripanalyser/network/NtripClient.kt:89 | the inverse that RoundTrip pairs with Encode |
| Utf8.EncodeChar | app/src/main/java/com/rattall/ntripanalyser/network/NtripClient.kt:89 | one to four bytes, one exactly below U+0080 |
| Utf8.CharRoundTrip | app/src/main/java/com/rattall/ntripanalyser/network/NtripClient.kt:89 | the lead byte announces the length and the bytes decode to the scalar value |
| Utf8.EncodeAppend | app/src/main/java/com/rattall/ntripanalyser/network/NtripClient.kt:88-89 | the encoding of a concatenation is the concatenation of encodings |
| Utf8.RoundTrip | app/src/main/java/com/rattall/ntripanalyser/network/NtripClient.kt:89 | decoding the encoding gives the text's scalar values |
| Utf8.Injective | app/src/main/java/com/rattall/ntripanalyser/network/NtripClient.kt:89 | different texts have different encodings |
| Utf8.AsciiIdentity | app/src/main/java/com/rattall/ntripanalyser/network/NtripClient.kt:89 | an ASCII text encodes to its character codes |
| Utf8.Examples | app/src/main/java/com/rattall/ntripanalyser/network/NtripClient.kt:89 | U+0391, U+65E5 and U+233B4 encode as in section 7 of RFC 3629 |
| NtripRequests.BasicAuth | app/src/main/java/com/rattall/ntripanalyser/network/NtripClient.kt:87-90 | the credential decodes back to the code points of username:password, is padded Base64, and holds no line break |
| NtripRequests.BasicAuthExample | app/src/main/java/com/rattall/ntripanalyser/network/NtripClient.kt:87-90 | credentials a and b travel as YTpi |
| NtripRequests.NormalizeMountpoint | app/src/main/java/com/rattall/ntripanalyser/network/NtripClient.kt:54 | model of `trim().trimStart('/')`; its properties are MountpointShape and the lemmas after it |
| NtripRequests.TrimStartSlash | app/src/main/java/com/rattall/ntripanalyser/network/NtripClient.kt:54 | trimStart('/') keeps a suffix that does not start with a slash, removing only slashes |
| NtripRequests.MountpointShape | app/src/main/java/com/rattall/ntripanalyser/network/NtripClient.kt:54 | the mountpoint sent is the trimmed one less its leading slashes |
| NtripRequests.MountpointNoLineBreak | app/src/main/java/com/rattall/ntripanalyser/network/NtripClient.kt:54 | a mountpoint without line breaks stays without them |
| NtripRequests.MountpointLeadingSlashes | app/src/main/java/com/rattall/ntripanalyser/network/NtripClient.kt:54 | "//A" is sent as "A" |
| NtripRequests.MountpointInnerSpace | app/src/main/java/com/rattall/ntripanalyser/network/NtripClient.kt:54 | "/ A" is sent as " A": the trim comes before the slash strip |
| NtripRequests.StreamRequestLines | app/src/main/java/com/rattall/ntripanalyser/network/NtripClient.kt:55-70 | read as lines, the stream request is its header lines in order, then the empty line |
| NtripRequests.SourceTableRequestLines | app/src/main/java/com/rattall/ntripanalyser/network/NtripClient.kt:28-35 | read as lines, the source-table request is its six header lines, then the empty line |
| NtripRequests.StreamRequest | app/src/main/java/com/rattall/ntripanalyser/network/NtripClient.kt:55-70 | model of the request `openStream` writes; its properties are StreamRequestLines, RequestLineVersion, NtripVersionIffRev2 and StreamRequestEnd |
| NtripRequests.SourceTableRequest | app/src/main/java/com/rattall/ntripanalyser/network/NtripClient.kt:28-35 | model of the request `fetchSourceTable` writes; its properties are SourceTableRequestLines and SourceTableRequestEnd |
| NtripRequests.RequestLineVersion | app/src/main/java/com/rattall/ntripanalyser/network/NtripClient.kt:60-63 | the request line is GET /mountpoint with HTTP/1.1 exactly for revision 2 and HTTP/1.0 exactly for revision 1 |
| NtripRequests.NtripVersionIffRev2 | app/src/main/java/com/rattall/ntripanalyser/network/NtripClient.kt:55-59 | the Ntrip-Version header is sent iff the protocol is revision 2 |
| NtripRequests.StreamRequestEnd | app/src/main/java/com/rattall/ntripanalyser/network/NtripClient.kt:69 | the stream request ends with Connection: keep-alive and the empty line |
| NtripRequests.SourceTableRequestEnd | app/src/main/java/com/rattall/ntripanalyser/network/NtripClient.kt:34 | the source-table request ends with Connection: close and the empty line |
| ReconnectPolicy.Make | app/src/main/java/com/rattall/ntripanalyser/domain/ReconnectPolicy.kt:8-12 | construction succeeds iff the three init checks hold, and reports the first that fails |
| ReconnectPolicy.DelayForAttempt | app/src/main/java/com/rattall/ntripanalyser/domain/ReconnectPolicy.kt:14-18 | model of `delayForAttempt`: Failure for an attempt below 1; its properties are DelayBounds, Doubling, DelayMonotonic and DelaySettles |
| ReconnectPolicy.DefaultIsValid | app/src/main/java/com/rattall/ntripanalyser/domain/ReconnectPolicy.kt:3-7 | the defaults 5, 1000 and 15000 pass the init checks |
| ReconnectPolicy.DelayBounds | app/src/main/java/com/rattall/ntripanalyser/domain/ReconnectPolicy.kt:14-18 | an attempt below 1 is refused; every other delay lies between base and cap |
| ReconnectPolicy.Doubling | app/src/main/java/com/rattall/ntripanalyser/domain/ReconnectPolicy.kt:16-17 | up to the 21st attempt each delay is twice the previous one, capped |
| ReconnectPolicy.DelayMonotonic | app/src/main/java/com/rattall/ntripanalyser/domain/ReconnectPolicy.kt:14-18 | a later attempt never waits less |
| ReconnectPolicy.DelaySettles | app/src/main/java/com/rattall/ntripanalyser/domain/ReconnectPolicy.kt:16 | from the 21st attempt on the delay no longer changes |
| ReconnectPolicy.ExampleCapAt10000 | app/src/test/java/com/rattall/ntripanalyser/domain/ReconnectPolicyTests.kt:8-18 | base 1000 and cap 10000 give 1000, 2000, 4000, 8000, 10000, 10000 |
| ReconnectPolicy.ExampleSmallBase | app/src/test/java/com/rattall/ntripanalyser/domain/ReconnectPolicyTests.kt:20-27 | base 250 and cap 1000 give 250, 500, 1000 |

## Left out

- Sockets, TLS, the response reader and the session wrapper are not modelled. This covers `createSocket`, the socket and flush calls of `fetchSourceTable` and `openStream`, and `NtripSession`. They are I/O. The request texts, the header parsing and the source-table parsing they feed are modelled.
- The text `fetchSourceTable` reads line by line and re-joins with LF is not modelled as I/O. `SourceTable.ParseFirstLine` covers LF-joined text.
- `StreamController`, the UI, view model and credential store are not modelled. They are coroutines, clocks and persistence outside the decode pipeline.
- Messages 1004 and 1005 are not modelled: their decoder sources are not part of this model. The registry maps them to a `NotModelled` record, and their dispatch is proved. The stand-in never fails, so for these two types `RtcmDecoderRegistry.DecodeOutcome` ("fails iff the chosen decoder fails") holds only because of the stand-in. The real decoders throw on a payload too short for their reads, and that failure is not modelled.
- The message arrival time of `RtcmDecodedMessage` is dropped, because it comes from the clock.
- The decoders turn out-of-bits exceptions into `Failure(OutOfBits)`. In the source, a payload too short for a decoder's reads makes `readBit` throw. The model's decoders check the remaining bits before each block, which gives the same outcome.
- The argument checks of `BitBuffer` and of `push` are preconditions, not `Failure` results. These are `require(bitCount in 1..64)`, the throw in `readBit` and the index check of `push`. Because of the bit checks above, the model's decoders always meet the `BitBuffer` preconditions.
- RtcmFraming.RtcmFramer.Push: a `length` above `bytes.size` is excluded by the precondition. Kotlin appends the whole array, then throws `ArrayIndexOutOfBoundsException` with the buffer already grown, and this partial update is not modelled. Its only caller, `StreamController`, passes a count from `InputStream.read` into the same buffer: at most its size, and pushed only when positive. A negative `length` is modelled: nothing is appended and the scan still runs.
- Bits.BitBuffer.ReadUnsigned: integers are unbounded. The 64-bit `Long` wrap of a 64-bit read is not modelled, and no decoder reads more than 38 bits at once.
- Bits.BitBuffer.ReadSigned: stated for 1 to 63 bits. A 64-bit signed read, whose `1L shl 64` is 1 on the JVM, is not modelled, and no decoder performs one.
- BitPayloadBuilder.UnsignedBits: takes width 0 and only non-negative values. The test builder's `appendUnsigned` demands `width > 0` and masks any `Long`, negative ones included. The round-trip lemmas write non-negative values only.
- BitPayloadBuilder.SignedBits: requires a value inside the width's two's-complement range. The test builder's `appendSigned` also accepts values outside it and writes their low `width` bits.
- ReconnectPolicy.DelayForAttempt: the product `base * 2^20` is not wrapped to 64 bits. A JVM overflow for a base beyond 2^43 ms is not modelled.
- SourceTable.Coordinate: latitude and longitude are kept as number text, not parsed to `Double`; floating point is out of scope. The accepted shapes are an optional sign, then `NaN`, `Infinity`, or decimal digits with an optional fraction, exponent and `f`/`F`/`d`/`D` suffix. Java's hexadecimal floating-point spelling (`0x1p3`) is not accepted.
- Text.IsWhitespace: `trim` and `isBlank` use ASCII whitespace only. The Unicode space separators of `Char.isWhitespace` are not modelled.
- NtripHttp.AsTextCodes: header bytes are turned into text one character per byte. Multi-byte UTF-8 in a header is read as Latin-1. The status checks compare ASCII prefixes, so their outcome is the same for ASCII status lines.
- Utf8.Decode does not reject ill-formed byte sequences, because only well-formed encodings reach it. Kotlin strings may hold unpaired UTF-16 surrogates, which `toByteArray` replaces with '?'. Dafny characters are scalar values, so such strings do not arise here.
- The `Base64.Decode` function exists only as the partner of the encoder: the client never decodes.
- The MSM test `decodeMsm1074_masksAndCellData` with its concrete payload is not restated. Its properties (ids, rows, widths, presence, signs) are proved for all payloads by the `MsmProperties` lemmas.
