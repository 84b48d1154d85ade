/**
 Concrete blocks and what the decoder does with them: the repository's two
 malformed-input cases, a literal-only block, a run-length copy, and one
 block for each rejection the element loop can make.
 */
module DecoderExamples {
  import opened SnappyTypes
  import opened Varint
  import opened Elements
  import opened BackCopy
  import opened Decoder
  import opened StreamRoundTrip

  /** "Hello, World!" as bytes. */
  const Hello: seq<byte> := [72, 101, 108, 108, 111, 44, 32, 87, 111, 114, 108, 100, 33]

  /** A continuation bit with no byte after it is a truncated length prefix. */
  lemma TruncatedVarintExample()
    ensures Decompress([0x80]) == Err(TruncatedVarint)
  {
  }

  /** Five bytes that all carry the continuation bit are rejected as too large. */
  lemma VarintTooLargeExample()
    ensures Decompress([0x80, 0x80, 0x80, 0x80, 0x80]) == Err(VarintTooLarge)
  {
  }

  /** The reader accepts a fifth byte up to 0x7F, so a prefix may declare up to 2^35 - 1 bytes. */
  lemma WideVarintExample()
    ensures DecodeVarint([0xFF, 0xFF, 0xFF, 0xFF, 0x7F], 0) == Ok((0x7_FFFF_FFFF, 5))
  {
    var data: seq<byte> := [0xFF, 0xFF, 0xFF, 0xFF, 0x7F];
    assert data[0..5] == data;
    assert Base128(data[4..]) == 127;
    assert Base128(data[3..]) == 127 + 128 * 127;
  }

  /** Declared length 10, then a literal tag for 2 bytes with no payload. */
  lemma TruncatedLiteralExample()
    ensures Decompress([0x0A, 0x04]) == Err(TruncatedLiteralData)
  {
  }

  /** A copy tag whose one offset byte is missing. */
  lemma TruncatedCopy1Example()
    ensures Decompress([0x05, 0x01]) == Err(TruncatedOffset(Copy1))
  {
  }

  /** A copy tag whose two-byte offset is cut after one byte. */
  lemma TruncatedCopy2Example()
    ensures Decompress([0x05, 0x02, 0x00]) == Err(TruncatedOffset(Copy2))
  {
  }

  /** A copy tag whose four-byte offset is cut after three bytes. */
  lemma TruncatedCopy4Example()
    ensures Decompress([0x05, 0x03, 0x00, 0x00, 0x00]) == Err(TruncatedOffset(Copy4))
  {
  }

  /** A literal tag announcing one extra length byte that is not there. */
  lemma TruncatedLiteralLengthExample()
    ensures Decompress([0x05, 0xF0]) == Err(TruncatedLiteralLength)
  {
  }

  /** A good literal followed by a copy cut short: the copy's read error is the block's error. */
  lemma TruncatedAfterLiteralExample()
    ensures Decompress([0x05, 0x00, 0x41, 0x02, 0x01]) == Err(TruncatedOffset(Copy2))
  {
    var data: seq<byte> := [0x05, 0x00, 0x41, 0x02, 0x01];
    var es := [Literal([0x41])];
    assert data[1..3] == [0x00, 0x41];
    ParseShortLiteral([0x41], data, 1);
    ParsesToStep(data, 1, es, 3, 3);
    assert ValidStream(es, 0) && Expand(es, []) == [0x41];
    SingleByteVarint(data, 0);
    DecompressHeader(data, 5, 1);
    DecodeLoopFails(es, data, 1, [], 5, 3);
  }

  /**
   A block whose elements all read and apply, ending with a copy, but whose
   output stays short of the declared length: SizeMismatch.
   */
  lemma CopyEndsShortExample()
    ensures Decompress([0x09, 0x00, 0x41, 0x01, 0x01]) == Err(SizeMismatch)
  {
    var data: seq<byte> := [0x09, 0x00, 0x41, 0x01, 0x01];
    var es := [Literal([0x41]), Copy(Copy1, 4, 1)];
    assert data[1..3] == [0x00, 0x41];
    ParseShortLiteral([0x41], data, 1);
    assert data[3..5] == [0x01, 0x01];
    ParseCopy1(4, 1, data, 3);
    ParsesToStep(data, 3, es[1..], 5, 5);
    ParsesToStep(data, 1, es, 3, 5);
    assert ValidStream(es, 0) && |Expand(es, [])| == 5;
    SingleByteVarint(data, 0);
    DecompressHeader(data, 9, 1);
    DecodeLoopParsed(es, data, 1, [], 9);
  }

  /** Length 13, tag `(13 - 1) << 2`, then the 13 bytes. */
  lemma HelloWorldExample()
    ensures Decompress([0x0D, 0x30] + Hello) == Ok(Hello)
  {
    var data := [0x0D, 0x30] + Hello;
    assert data[2..15] == Hello;
  }

  /** Declared length 10, but the only element produces 2 bytes before the input ends. */
  lemma SizeMismatchExample()
    ensures Decompress([0x0A, 0x04, 0x41, 0x42]) == Err(SizeMismatch)
  {
    var data: seq<byte> := [0x0A, 0x04, 0x41, 0x42];
    assert data[2..4] == [0x41, 0x42];
  }

  /** Copying one byte back five times after a single byte gives six of it. */
  lemma RunOfSix(x: byte)
    ensures CopyBack([x], 1, 5) == [x, x, x, x, x, x]
  {
    var r := CopyBack([x], 1, 5);
    CopyBackRunLength([x], 5);
    assert r[0] == x;
  }

  /** One literal byte, then a two-byte-offset copy of 5 bytes at offset 1. */
  lemma RunLengthExample()
    ensures Decompress([0x06, 0x00, 0x58, 0x12, 0x01, 0x00]) == Ok([0x58, 0x58, 0x58, 0x58, 0x58, 0x58])
  {
    var data: seq<byte> := [0x06, 0x00, 0x58, 0x12, 0x01, 0x00];
    var six: seq<byte> := [0x58, 0x58, 0x58, 0x58, 0x58, 0x58];
    assert ParseElement(data, 1) == Ok((Literal([0x58]), 3)) by {
      assert data[1..3] == [0x00, 0x58];
      ParseShortLiteral([0x58], data, 1);
    }
    assert ParseElement(data, 3) == Ok((Copy(Copy2, 5, 1), 6)) by {
      ParseCopy2At(data, 3);
    }
    assert DecodeLoop(data, 3, [0x58], 6) == Ok(six) by {
      RunOfSix(0x58);
      DecodeLoopStep(data, 3, [0x58], 6, Copy(Copy2, 5, 1), 6, six);
    }
    DecodeLoopStep(data, 1, [], 6, Literal([0x58]), 3, [0x58]);
    SingleByteVarint(data, 0);
    DecompressHeader(data, 6, 1);
  }

  /** A copy with offset 0 is rejected. */
  lemma ZeroOffsetExample()
    ensures Decompress([0x05, 0x00, 0x41, 0x02, 0x00, 0x00]) == Err(ZeroOffset)
  {
    var data: seq<byte> := [0x05, 0x00, 0x41, 0x02, 0x00, 0x00];
    assert data[1..3] == [0x00, 0x41];
    ParseShortLiteral([0x41], data, 1);
    ParseCopy2At(data, 3);
    SingleByteVarint(data, 0);
    DecompressHeader(data, 5, 1);
    DecodeLoopStep(data, 1, [], 5, Literal([0x41]), 3, [0x41]);
    DecodeLoopReject(data, 3, [0x41], 5, Copy(Copy2, 1, 0), 6, ZeroOffset);
  }

  /** A copy reaching two bytes back when only one has been written is rejected. */
  lemma OffsetBeyondOutputExample()
    ensures Decompress([0x05, 0x00, 0x41, 0x02, 0x02, 0x00]) == Err(OffsetBeyondOutput)
  {
    var data: seq<byte> := [0x05, 0x00, 0x41, 0x02, 0x02, 0x00];
    assert data[1..3] == [0x00, 0x41];
    ParseShortLiteral([0x41], data, 1);
    ParseCopy2At(data, 3);
    SingleByteVarint(data, 0);
    DecompressHeader(data, 5, 1);
    DecodeLoopStep(data, 1, [], 5, Literal([0x41]), 3, [0x41]);
    DecodeLoopReject(data, 3, [0x41], 5, Copy(Copy2, 1, 2), 6, OffsetBeyondOutput);
  }

  /** Once the declared length is reached, a leftover byte is not read. */
  lemma TrailingByteExample()
    ensures Decompress([0x01, 0x00, 0x41, 0xFF]) == Ok([0x41])
  {
    var data: seq<byte> := [0x01, 0x00, 0x41, 0xFF];
    assert data[2..3] == [0x41];
  }

  /** Tag 0xEC encodes a 60-byte literal with no length byte; tag 0xF0 reads one, holding `61 - 1`. */
  lemma LiteralLengthBoundary(data: seq<byte>, pos: nat)
    requires pos < |data| && data[pos] == 60
    ensures LiteralLength(data, pos, 0xEC) == Ok((60, pos))
    ensures LiteralLength(data, pos, 0xF0) == Ok((61, pos + 1))
  {
    assert data[pos..pos + 1] == [60];
    assert LittleEndian([60]) == 60;
  }
}
