# Snappy block decoder, modelled in Dafny

This project models the pure-Python Snappy decompressor of `python_snappy`:
the raw block format only, no framing format and no compressor. A block is a
varint holding the uncompressed length, then a sequence of elements. Each
element starts with a tag byte whose low two bits select the kind:

- a literal (`00`) copies bytes from the input;
- a copy (`01`, `10`, `11`) repeats output bytes from `offset` bytes back,
  with a 1-, 2- or 4-byte offset field.

The decoder writes into a buffer sized by the declared length. It rejects
truncated elements, zero offsets, offsets reaching before the start of the
output, and writes past the declared length. It succeeds only when the output
is exactly full.

Modules, following the structure of `python_snappy/snappy.py`:

- `SnappyTypes` (`snappy_types.dfy`): bytes as integers 0..255, one error
  constructor per failure the source raises, a `Result` type, and
  little-endian reading.
- `Varint` (`varint.dfy`): `_decode_varint`. It is a recursive function with
  its characterisation and value lemmas. It is also the source's loop as the
  method `ReadVarint`, next to a reference encoder and the round trip.
- `Elements` (`elements.dfy`): reading one element from the input (tag
  dispatch, literal length, offset fields), a reference element encoder, and
  the element round trip.
- `BackCopy` (`back_copy.dfy`): the forward, possibly overlapping copy,
  defined byte by byte. Its lemmas give the periodic closed form, run-length
  expansion, the non-overlapping case, and uniqueness of the index-wise
  description.
- `Decoder` (`decoder.dfy`): applying an element to the output with the
  source's checks in the source's order, the element loop, and `decompress`.
- `DecoderBuffer` (`decoder_buffer.dfy`): the same decoder over one
  pre-sized mutable array, with the copy done in place. It is proved equal
  to `Decoder.Decompress`.
- `StreamRoundTrip` (`stream.dfy`): a block encoder over arbitrary valid
  element sequences. It proves that decoding returns exactly the sequence's
  expansion. A literal-only compressor is a corollary.
- `DecoderExamples` (`decoder_examples.dfy`): concrete blocks, including the
  repository's two malformed-input tests.

Bit operations on bytes are written as their arithmetic equivalents:

- `tag & 3` is `tag % 4`;
- `tag >> 2` is `tag / 4`;
- `(tag >> 2) & 7` is `(tag / 4) % 8`;
- `tag >> 5` is `tag / 32`;
- `(a << 8) | b` with `b < 256` is `256 * a + b`.

The varint accumulator's `|=` is a sum, because each new seven-bit group
lies above all earlier ones. The multi-byte little-endian fields (literal
length bytes, copy-2 and copy-4 offsets) all use one `LittleEndian` function.

Reading an element (`ParseElement`) does the input-side checks: the
truncations, including the literal payload check. `Apply` does the
output-side checks. In the source the literal payload check comes before the
literal overflow check, so this split keeps every check in its original
order. All failures return an error and no output.

Where the code and the format's documentation differ, the model follows the
code. The documentation describes the length prefix as a 32-bit value with
at most five bytes. The code stops only after a fifth byte that still has its
continuation bit set. So a five-byte prefix whose last byte is at most 0x7F
is accepted, and it can declare up to 2^35 - 1 bytes
(`DecoderExamples.WideVarintExample`). The model keeps that behaviour and
adds no cap.

## Model

| member | source | states |
|---|---|---|
| Varint.DecodeVarint | python_snappy/snappy.py:11-31 | On success the position advanced by 1 to 5 bytes and the value is below 2^35. The only failures are VarintTooLarge and TruncatedVarint. |
| Varint.DecodeVarintSpec | python_snappy/snappy.py:11-31 | On success every byte read but the last has the high bit set and the last has it clear. The value is those bytes' low seven bits, least-significant group first. It fails with VarintTooLarge exactly when five bytes with the high bit set are present. It fails with TruncatedVarint exactly when the input ends, within five bytes, before a byte with the high bit clear. |
| Varint.DecodeVarintStopsAt | python_snappy/snappy.py:20-31 | Conversely, n bytes (1 to 5) of which only the last has the high bit clear are read as one prefix. Its value is their groups in base 128, and reading stops just past them. |
| Varint.SingleByteVarint | python_snappy/snappy.py:23-27 | A byte below 0x80 is a whole prefix whose value is the byte itself. |
| Varint.DecodeFromStops | python_snappy/snappy.py:20-30 | The loop entered after `group` bytes stops within `5 - group` more bytes, right after the first byte with the high bit clear. It fails as too large or truncated under exactly the conditions above. |
| Varint.DecodeFromValue | python_snappy/snappy.py:18-27 | The loop's result is the accumulator plus each later group weighted by 128 to the power of its position. |
| Varint.ReadVarint | python_snappy/snappy.py:18-31 | The source's while-true loop (shift += 7, fail when shift > 32, return from inside) computes the same result as the functional reader, error cases included. |
| Varint.VarintRoundTrip | python_snappy/snappy.py:18-31 | Every value below 2^35, written as a base-128 varint anywhere in the input, is read back with the position just past its last byte. |
| Varint.DecodeVarintExtend | python_snappy/snappy.py:20-27 | A prefix that reads successfully reads the same whatever bytes follow it. |
| Varint.EncodeVarintLength | python_snappy/snappy.py:28-30 | A value below 128^k needs at most k varint bytes, so the five-byte limit admits every value below 2^35. |
| Elements.LiteralLength | python_snappy/snappy.py:76-88 | If `(tag >> 2) + 1` is at most 60, that is the length and nothing is read. Otherwise the excess is 1 to 4. It fails exactly when that many bytes are missing. Otherwise the length is one more than their little-endian value. Every length is between 1 and 2^32. |
| Elements.ParseElement | python_snappy/snappy.py:70-153 | It consumes at least the tag and never reads past the input. The element is a literal exactly when the tag's low bits are 0. A literal's payload is the input bytes just before the new position, starting 1 to 5 bytes after the tag. Its length is the one `LiteralLength` reads from the tag and length bytes. A copy has the kind the tag selects and consumes 1, 2 or 4 offset bytes. Copy-1 lengths are 4..11 with offsets below 2048. Copy-2 and copy-4 lengths are 1..64 with offsets fitting their width. The only failures are truncations, and a copy fails exactly when its offset bytes are missing. |
| Elements.ParseLiteral | python_snappy/snappy.py:74-97 | A literal read after its tag has the length `LiteralLength` reads from the tag and length bytes. Its payload is that many input bytes, starting right after the length bytes, and reading ends just past them inside the input. Its only failures are TruncatedLiteralLength and TruncatedLiteralData. |
| Elements.LiteralOutcome | python_snappy/snappy.py:74-97 | For a literal tag, reading fails with TruncatedLiteralLength exactly when the length bytes are missing. It fails with TruncatedLiteralData exactly when the length reads but the payload runs past the input. Otherwise the payload has the length read, and the next tag follows it. |
| Elements.ParseLiteralAt | python_snappy/snappy.py:74-97 | A literal tag whose length reads, with room for the payload, reads as the literal of those input bytes, ending just past them. |
| Elements.ParseCopy | python_snappy/snappy.py:100-153 | A copy read after its tag has the kind the tag's low bits select and consumes exactly 1, 2 or 4 offset bytes. It fails exactly when those bytes are missing, with TruncatedOffset of that kind. |
| Elements.ParseWideCopyAt | python_snappy/snappy.py:123-153 | A copy-2 or copy-4 tag gives length `(tag >> 2) + 1` and the little-endian offset in the next 2 or 4 bytes. |
| Elements.ParseCopy2At | python_snappy/snappy.py:123-129 | A copy-2 offset is the first byte after the tag plus 256 times the second. |
| Elements.Copy1Tag | python_snappy/snappy.py:100-106 | A copy-1 tag built from a length of 4..11 and an offset below 2048 gives back that length from bits 2 to 4 and that offset from bits 5 to 7 and the next byte. |
| Elements.LongLiteralLength | python_snappy/snappy.py:76-88 | A tag with excess w followed by the w-byte little-endian form of n gives the literal length n + 1. |
| Elements.ParseEncoded | python_snappy/snappy.py:70-153 | Round trip. Every well-formed element, encoded and placed anywhere in the input, is read back as itself with the next tag right after it. This covers short and long literals and all three copy kinds. |
| BackCopy.CopyBack | python_snappy/snappy.py:118-121 | The copy appends exactly `length` bytes and leaves the existing output unchanged. |
| BackCopy.CopyBackIndex | python_snappy/snappy.py:118-121 | Each new byte at index k equals the byte at k - offset, including bytes written by the same copy. |
| BackCopy.CopyBackPeriodic | python_snappy/snappy.py:118-121 | The new byte at index k is `out[len - offset + (k - len) % offset]`. The copy repeats its `offset`-byte window periodically. |
| BackCopy.CopyBackRunLength | python_snappy/snappy.py:118-121 | With offset 1, every new byte equals the last byte written before the copy. |
| BackCopy.CopyBackDisjoint | python_snappy/snappy.py:118-121 | When length is at most offset, the copy appends the `length` bytes that start `offset` back, as a block copy would. |
| BackCopy.CopyBackUnique | python_snappy/snappy.py:118-121 | Any sequence that extends the output by `length` bytes, each equal to the byte `offset` before it, is this copy. |
| Decoder.Apply | python_snappy/snappy.py:93-167 | A literal fails with LiteralOverflow exactly when it would pass the declared length, and otherwise appends its payload. A copy fails with ZeroOffset on offset 0. It fails with OffsetBeyondOutput when the offset exceeds the output written so far. With a valid offset it fails with CopyOverflow of its kind exactly when it would pass the declared length. Otherwise the result is `CopyBack` of the output, so each new byte equals the byte `offset` back. On success, the bytes already written are unchanged and the length grows by the element's length. |
| Decoder.DecodeLoop | python_snappy/snappy.py:69-172 | Success always has exactly the declared length and keeps every byte already written. A full output returns at once, even with input left. Input exhausted with the output short is SizeMismatch. |
| Decoder.Decompress | python_snappy/snappy.py:34-174 | Empty input decodes to empty output without reading a prefix. A failing length prefix fails the call with its error. Every success has the length the prefix declares. |
| Decoder.ParseElementExtend | python_snappy/snappy.py:70-153 | An element that reads successfully reads the same whatever bytes follow it. |
| Decoder.DecodeLoopExtend | python_snappy/snappy.py:69-172 | A loop run that succeeds gives the same result with bytes appended to the input. |
| Decoder.TrailingInputIgnored | python_snappy/snappy.py:57-172 | Appending bytes to a non-empty block that decodes gives the same result. The decoder stops once the declared length is produced. |
| Decoder.DecodeLoopErrors | python_snappy/snappy.py:69-172 | The loop fails only with a truncation, LiteralOverflow, ZeroOffset, OffsetBeyondOutput, CopyOverflow or SizeMismatch, never with a length-prefix error. |
| StreamRoundTrip.ApplyExpands | python_snappy/snappy.py:91-167 | Within the declared length, an element whose copy reaches only into written output passes every check. Its effect is its expansion. |
| StreamRoundTrip.StreamParse | python_snappy/snappy.py:70-153 | In an encoded sequence the first element reads back as itself. The rest of the sequence is encoded from where reading stops. |
| StreamRoundTrip.StreamApply | python_snappy/snappy.py:93-167 | When the expansion fits in the declared length, a valid sequence's first element passes every check and applies as its expansion. The rest stays valid. |
| StreamRoundTrip.EncodedParses | python_snappy/snappy.py:69-153 | The reader, run element after element over an encoded sequence of well-formed elements, recovers that sequence and ends at the end of the input. |
| StreamRoundTrip.DecodeLoopParsed | python_snappy/snappy.py:69-172 | Over input that reads to its end as a valid sequence whose expansion fits the declared length, the loop returns that expansion when it fills the declared length. Otherwise the input runs out first and the loop fails with SizeMismatch, whatever kind of element came last. |
| StreamRoundTrip.ParsesToForward | python_snappy/snappy.py:69-71 | Reading elements only moves forward: each element consumes at least its tag byte, so a non-empty sequence ends strictly after it starts. |
| StreamRoundTrip.DecodeLoopFails | python_snappy/snappy.py:69-167 | If the input reads as a valid sequence up to `end`, whose expansion is still short of the declared length, then the element at `end` decides the outcome. If it fails to read (a truncated length, payload or offset), the loop fails with that read error. If it reads but is rejected against the output, the loop fails with that rejection. |
| StreamRoundTrip.DecodeLoopStream | python_snappy/snappy.py:69-174 | The loop over the encoding of a valid element sequence returns exactly the sequence's expansion, when the declared length is that expansion's length. |
| StreamRoundTrip.DecompressCompress | python_snappy/snappy.py:34-174 | Round trip for whole blocks. Take any valid element sequence whose expanded length is below 2^35. Write it with the reference encoder, which uses the shortest varint and the fewest literal length bytes. It decompresses to exactly its expansion. |
| StreamRoundTrip.LiteralChunksExpand | python_snappy/snappy.py:74-98 | Cutting bytes into literals of at most 60 bytes gives a valid sequence that expands to those bytes. |
| StreamRoundTrip.LiteralRoundTrip | python_snappy/snappy.py:74-98 | Any byte string shorter than 2^35, compressed into literals only, decompresses to itself. |
| StreamRoundTrip.RunLengthStream | tests/test_snappy.py:183-188 | One literal byte followed by an offset-1 copy of n bytes expands to that byte n + 1 times. |
| DecoderBuffer.CopyInPlace | python_snappy/snappy.py:118-121 | The in-place forward loop over the array turns the committed prefix into `CopyBack` of it and writes nothing past the copy. |
| DecoderBuffer.WriteLiteral | python_snappy/snappy.py:96 | The slice assignment places the payload right after the committed prefix and leaves every array cell past the payload as it was. |
| DecoderBuffer.ApplyInPlace | python_snappy/snappy.py:90-167 | Against the array, an element gives the same result as `Apply`. On failure the buffer is unchanged. On success nothing past the new output position is written. |
| DecoderBuffer.DecompressInPlace | python_snappy/snappy.py:57-174 | The decoder over one pre-sized array with cursors `pos` and `out_pos` returns exactly what `Decompress` returns, on every input. |
| DecoderExamples.TruncatedVarintExample | tests/test_snappy.py:208-214 | `b"\x80"` fails with TruncatedVarint. |
| DecoderExamples.TruncatedLiteralExample | tests/test_snappy.py:216-222 | `b"\x0a\x04"` fails with TruncatedLiteralData. |
| DecoderExamples.TruncatedCopy1Example | python_snappy/snappy.py:100-105 | `b"\x05\x01"` fails with TruncatedOffset(Copy1): the one-byte offset is missing. |
| DecoderExamples.TruncatedCopy2Example | python_snappy/snappy.py:122-127 | `b"\x05\x02\x00"` fails with TruncatedOffset(Copy2): one of the two offset bytes is missing. |
| DecoderExamples.TruncatedCopy4Example | python_snappy/snappy.py:144-149 | `b"\x05\x03\x00\x00\x00"` fails with TruncatedOffset(Copy4): one of the four offset bytes is missing. |
| DecoderExamples.TruncatedLiteralLengthExample | python_snappy/snappy.py:74-84 | `b"\x05\xf0"` fails with TruncatedLiteralLength: the tag announces one extra length byte that is not there. |
| DecoderExamples.TruncatedAfterLiteralExample | python_snappy/snappy.py:69-127 | `b"\x05\x00\x41\x02\x01"` fails with TruncatedOffset(Copy2): the literal is applied, then the cut copy's read error ends the block. |
| DecoderExamples.VarintTooLargeExample | python_snappy/snappy.py:28-30 | Five bytes with the continuation bit set fail with VarintTooLarge. |
| DecoderExamples.WideVarintExample | python_snappy/snappy.py:18-31 | `FF FF FF FF 7F` is accepted as 2^35 - 1. |
| DecoderExamples.HelloWorldExample | python_snappy/snappy.py:74-98 | Length 13, tag 0x30 and "Hello, World!" decode to "Hello, World!". |
| DecoderExamples.SizeMismatchExample | python_snappy/snappy.py:169-172 | A block declaring 10 bytes whose only element yields 2 fails with SizeMismatch. |
| DecoderExamples.CopyEndsShortExample | python_snappy/snappy.py:69-172 | `b"\x09\x00\x41\x01\x01"` fails with SizeMismatch: a literal and a copy-1 of length 4 at offset 1 read and apply, giving 5 of 9 declared bytes, and then the input ends. |
| DecoderExamples.RunOfSix | python_snappy/snappy.py:140-143 | Copying one byte back five times after a single byte gives six of that byte. |
| DecoderExamples.RunLengthExample | python_snappy/snappy.py:140-143 | A 1-byte literal then a copy-2 of 5 bytes at offset 1 yields the byte six times. |
| DecoderExamples.ZeroOffsetExample | python_snappy/snappy.py:131-132 | A copy with offset 0 fails with ZeroOffset. |
| DecoderExamples.OffsetBeyondOutputExample | python_snappy/snappy.py:133-136 | A copy reaching 2 back after 1 byte fails with OffsetBeyondOutput. |
| DecoderExamples.TrailingByteExample | python_snappy/snappy.py:69 | A stray byte after a complete 1-byte block is not read. |
| DecoderExamples.LiteralLengthBoundary | python_snappy/snappy.py:76-88 | Tag 0xEC is a 60-byte literal with no length byte. Tag 0xF0 reads one length byte, and 60 there means 61. |

## Left out

- `python_snappy/__init__.py` only re-exports `decompress` and the error
  classes. It has no logic.
- The `exceptions` module is not part of this model. Failures are `Error`
  constructors, one per distinct message. The message text and the
  `algorithm="snappy"` tag are dropped.
- Memory allocation for `bytearray(uncompressed_len)` is not modelled.
  Lengths are unbounded naturals, and no allocation failure or size cap is
  modelled, because the code has none.
- The round-trip tests in `tests/test_snappy.py` use the C-backed
  `snappy.compress` as an oracle. That encoder is not modelled. Its role is
  taken by the reference element encoder and `StreamRoundTrip.DecompressCompress`.
  They cover every encoder that emits valid element sequences and writes
  each length in the fewest bytes, as the C encoder does.
- StreamRoundTrip.DecompressCompress: covers only blocks whose lengths are
  written in the fewest bytes. The reader also accepts longer spellings,
  such as `80 00` for a length prefix of 0, or tag `0xF0` with length byte
  9 for a 10-byte literal. No `Compress` output has that form.
  `StreamRoundTrip.DecodeLoopParsed` still covers such input once its
  elements read as a valid sequence.
- Compression and the Snappy framing format are not implemented by the
  repository, so they are not modelled.
- The `for i in range(extra_bytes)` sum for a literal's length bytes, and the
  explicit or-of-shifts for copy-2 and copy-4 offsets, are modelled by the
  single `LittleEndian` function. They are not separate loops.
- `DecoderBuffer.DecompressInPlace` reads elements with the functional
  `ParseElement` rather than repeating the tag decoding inline. The imperative
  part it refines is the output buffer: in-place literal writes and the
  overlapping forward copy.
- DecoderBuffer.WriteLiteral, DecoderBuffer.CopyInPlace, DecoderBuffer.ApplyInPlace: their contracts
  relate the array before and after the call. They are stated with `old` and
  `modifies`, and what they promise is carried into
  `DecoderBuffer.DecompressInPlace`, whose contract is the full one.
