/**
 A reference encoder for whole blocks and the round trip it completes with
 the decoder: a sequence of well-formed elements whose copies only reach
 into output already produced, written after the varint of the length it
 expands to, decompresses to exactly that expansion. The encoder is free in
 how it chooses its elements, but writes every length in the fewest bytes:
 the shortest varint, and a literal's length inline up to 60 and otherwise
 in the fewest length bytes. The reader also accepts longer spellings of
 the same lengths; for those, `DecodeLoopParsed` still applies to whatever
 element bytes the reader recovers.
 */
module StreamRoundTrip {
  import opened SnappyTypes
  import opened Varint
  import opened Elements
  import opened BackCopy
  import opened Decoder

  /** Every element of `es` is within the ranges its tag can express. */
  predicate AllWellFormed(es: seq<Element>) {
    forall i :: 0 <= i < |es| ==> WellFormed(es[i])
  }

  /** Applied in order to an output of `n` bytes, every copy reaches only into bytes already produced. */
  predicate BackReferencesValid(es: seq<Element>, n: nat)
    decreases |es|
  {
    |es| == 0 ||
    ((es[0].Copy? ==> 1 <= es[0].offset <= n) && BackReferencesValid(es[1..], n + es[0].Length()))
  }

  predicate ValidStream(es: seq<Element>, n: nat) {
    AllWellFormed(es) && BackReferencesValid(es, n)
  }

  /** What one element means, with no size limit: append the literal, or copy back. */
  function ExpandElement(e: Element, out: seq<byte>): seq<byte>
    requires e.Copy? ==> 1 <= e.offset <= |out|
  {
    match e
    case Literal(payload) => out + payload
    case Copy(_, length, offset) => CopyBack(out, offset, length)
  }

  /** What a whole element sequence means, applied to `out`. */
  function Expand(es: seq<Element>, out: seq<byte>): (r: seq<byte>)
    requires BackReferencesValid(es, |out|)
    ensures |r| >= |out|
    decreases |es|
  {
    if |es| == 0 then out else Expand(es[1..], ExpandElement(es[0], out))
  }

  /** The elements' encodings, one after another. */
  function EncodeElements(es: seq<Element>): seq<byte>
    requires AllWellFormed(es)
    decreases |es|
  {
    if |es| == 0 then [] else EncodeElement(es[0]) + EncodeElements(es[1..])
  }

  /** A whole block: the varint of the expanded length, then the elements. */
  function Compress(es: seq<Element>): seq<byte>
    requires ValidStream(es, 0)
  {
    EncodeVarint(|Expand(es, [])|) + EncodeElements(es)
  }

  /** Dropping the first element keeps every remaining element well formed. */
  lemma AllWellFormedTail(es: seq<Element>)
    requires AllWellFormed(es) && |es| > 0
    ensures AllWellFormed(es[1..])
  {
    forall i | 0 <= i < |es[1..]|
      ensures WellFormed(es[1..][i])
    {
      assert es[1..][i] == es[i + 1];
    }
  }

  /** Within the declared length, applying a valid element is its expansion. */
  lemma ApplyExpands(e: Element, out: seq<byte>, total: nat)
    requires e.Copy? ==> 1 <= e.offset <= |out|
    requires |out| + e.Length() <= total
    ensures Apply(e, out, total) == Ok(ExpandElement(e, out))
  {
  }

  /**
   The first element of an encoded sequence reads back as itself, and the
   rest of the sequence is encoded from the position where reading stops.
   */
  lemma {:induction false} StreamParse(es: seq<Element>, data: seq<byte>, pos: nat) returns (next: nat)
    requires AllWellFormed(es) && |es| > 0
    requires pos <= |data| && data[pos..] == EncodeElements(es)
    ensures pos < next <= |data|
    ensures ParseElement(data, pos) == Ok((es[0], next))
    ensures AllWellFormed(es[1..])
    ensures data[next..] == EncodeElements(es[1..])
  {
    AllWellFormedTail(es);
    next := pos + |EncodeElement(es[0])|;
    SuffixParts(data, pos, EncodeElement(es[0]), EncodeElements(es[1..]));
    ParseEncoded(es[0], data, pos);
  }

  /**
   Under the declared length of the whole expansion, the first element of a
   valid sequence applies as its expansion and leaves the rest valid.
   */
  lemma StreamApply(es: seq<Element>, out: seq<byte>, total: nat)
    requires ValidStream(es, |out|) && |es| > 0
    requires |Expand(es, out)| <= total
    ensures Apply(es[0], out, total) == Ok(ExpandElement(es[0], out))
    ensures |out| < |ExpandElement(es[0], out)| <= total
    ensures ValidStream(es[1..], |ExpandElement(es[0], out)|)
    ensures Expand(es, out) == Expand(es[1..], ExpandElement(es[0], out))
  {
    var e := es[0];
    var out' := ExpandElement(e, out);
    assert WellFormed(e);
    assert |out'| == |out| + e.Length();
    assert Expand(es, out) == Expand(es[1..], out');
    AllWellFormedTail(es);
    ApplyExpands(e, out, total);
  }

  /** Reading elements from `pos` onwards yields exactly `es`, and the last one ends at `end`. */
  predicate ParsesTo(data: seq<byte>, pos: nat, es: seq<Element>, end: nat)
    decreases |es|
  {
    if |es| == 0 then
      pos == end
    else
      && pos < |data|
      && ParseElement(data, pos).Ok?
      && ParseElement(data, pos).value.0 == es[0]
      && ParsesTo(data, ParseElement(data, pos).value.1, es[1..], end)
  }

  /** An element read at `pos`, followed by input that reads as the rest. */
  lemma ParsesToStep(data: seq<byte>, pos: nat, es: seq<Element>, next: nat, end: nat)
    requires |es| > 0 && pos < |data|
    requires ParseElement(data, pos) == Ok((es[0], next))
    requires ParsesTo(data, next, es[1..], end)
    ensures ParsesTo(data, pos, es, end)
  {
  }

  /** Reading moves forward: where a sequence of elements ends is never before where it starts. */
  lemma {:induction false} ParsesToForward(data: seq<byte>, pos: nat, es: seq<Element>, end: nat)
    requires ParsesTo(data, pos, es, end)
    ensures pos <= end
    ensures |es| > 0 ==> pos < end
    decreases |es|
  {
    if |es| > 0 {
      ParsesToForward(data, ParseElement(data, pos).value.1, es[1..], end);
    }
  }

  /** The reader recovers an encoded sequence of well-formed elements, element by element. */
  lemma {:induction false} EncodedParses(es: seq<Element>, data: seq<byte>, pos: nat)
    requires AllWellFormed(es)
    requires pos <= |data| && data[pos..] == EncodeElements(es)
    ensures ParsesTo(data, pos, es, |data|)
    decreases |es|
  {
    if |es| == 0 {
      assert |data[pos..]| == 0;
    } else {
      var next := StreamParse(es, data, pos);
      EncodedParses(es[1..], data, next);
      ParsesToStep(data, pos, es, next, |data|);
    }
  }

  /**
   The element loop over input that reads to its end as a valid sequence
   within the declared length: it produces that sequence's expansion when
   the expansion fills the declared length, and fails with SizeMismatch when
   the input runs out first.
   */
  lemma {:induction false} DecodeLoopParsed(es: seq<Element>, data: seq<byte>, pos: nat, out: seq<byte>, total: nat)
    requires pos <= |data| && ParsesTo(data, pos, es, |data|)
    requires ValidStream(es, |out|) && |Expand(es, out)| <= total
    ensures DecodeLoop(data, pos, out, total) ==
      if |Expand(es, out)| == total then Ok(Expand(es, out)) else Err(SizeMismatch)
    decreases |es|
  {
    if |es| > 0 {
      var (e, next) := ParseElement(data, pos).value;
      StreamApply(es, out, total);
      var out' := ExpandElement(e, out);
      DecodeLoopParsed(es[1..], data, next, out', total);
      DecodeLoopStep(data, pos, out, total, e, next, out');
    }
  }

  /**
   The error path of the loop: when the input reads as a valid sequence up
   to `end`, whose expansion stays below the declared length, and the next
   element there fails to read, or reads but fails against the output, the
   loop fails with exactly that element's error.
   */
  lemma {:induction false} DecodeLoopFails(es: seq<Element>, data: seq<byte>, pos: nat, out: seq<byte>, total: nat, end: nat)
    requires end < |data| && ParsesTo(data, pos, es, end)
    requires ValidStream(es, |out|) && |Expand(es, out)| < total
    ensures ParseElement(data, end).Err? ==>
      DecodeLoop(data, pos, out, total) == Err(ParseElement(data, end).error)
    ensures ParseElement(data, end).Ok? && Apply(ParseElement(data, end).value.0, Expand(es, out), total).Err? ==>
      DecodeLoop(data, pos, out, total) == Err(Apply(ParseElement(data, end).value.0, Expand(es, out), total).error)
    decreases |es|
  {
    ParsesToForward(data, pos, es, end);
    if |es| > 0 {
      var (e, next) := ParseElement(data, pos).value;
      StreamApply(es, out, total);
      var out' := ExpandElement(e, out);
      DecodeLoopFails(es[1..], data, next, out', total, end);
      DecodeLoopStep(data, pos, out, total, e, next, out');
    }
  }

  /** The element loop reproduces the expansion of an encoded valid element sequence. */
  lemma DecodeLoopStream(es: seq<Element>, data: seq<byte>, pos: nat, out: seq<byte>, total: nat)
    requires ValidStream(es, |out|)
    requires pos <= |data| && data[pos..] == EncodeElements(es)
    requires |Expand(es, out)| == total
    ensures DecodeLoop(data, pos, out, total) == Ok(Expand(es, out))
  {
    EncodedParses(es, data, pos);
    DecodeLoopParsed(es, data, pos, out, total);
  }

  /**
   Round trip for whole blocks: the decoder returns exactly what the element
   sequence expands to, for every valid sequence whose expansion the length
   prefix can declare.
   */
  lemma DecompressCompress(es: seq<Element>)
    requires ValidStream(es, 0)
    requires |Expand(es, [])| < Pow128(MaxVarintBytes)
    ensures Decompress(Compress(es)) == Ok(Expand(es, []))
  {
    var total := |Expand(es, [])|;
    var header := EncodeVarint(total);
    var data := Compress(es);
    assert data[0..|header|] == header;
    VarintRoundTrip(total, data, 0);
    assert data[|header|..] == EncodeElements(es);
    DecodeLoopStream(es, data, |header|, [], total);
  }

  /** The simplest encoder: the input cut into literals of at most 60 bytes. */
  function LiteralChunks(b: seq<byte>): seq<Element>
    decreases |b|
  {
    if |b| == 0 then []
    else if |b| <= MaxInlineLiteral then [Literal(b)]
    else [Literal(b[..MaxInlineLiteral])] + LiteralChunks(b[MaxInlineLiteral..])
  }

  /** The literal chunks are valid and expand to the bytes they were cut from. */
  lemma {:induction false} LiteralChunksExpand(b: seq<byte>, out: seq<byte>)
    ensures ValidStream(LiteralChunks(b), |out|)
    ensures Expand(LiteralChunks(b), out) == out + b
    decreases |b|
  {
    var es := LiteralChunks(b);
    if |b| > MaxInlineLiteral {
      var head, tail := b[..MaxInlineLiteral], b[MaxInlineLiteral..];
      LiteralChunksExpand(tail, out + head);
      assert es[1..] == LiteralChunks(tail);
      assert out + head + tail == out + b by {
        assert head + tail == b;
      }
    } else if |b| > 0 {
      assert es[1..] == [];
    }
  }

  /** Decompressing the literal-only encoding of any input gives the input back. */
  lemma LiteralRoundTrip(b: seq<byte>)
    requires |b| < Pow128(MaxVarintBytes)
    ensures ValidStream(LiteralChunks(b), 0)
    ensures Decompress(Compress(LiteralChunks(b))) == Ok(b)
  {
    LiteralChunksExpand(b, []);
    assert [] + b == b;
    DecompressCompress(LiteralChunks(b));
  }

  /**
   Run-length expansion through a stream: one literal byte followed by a
   copy with offset 1 decodes to that byte repeated.
   */
  lemma {:induction false} RunLengthStream(x: byte, n: nat)
    requires 1 <= n <= 64
    ensures ValidStream([Literal([x]), Copy(Copy2, n, 1)], 0)
    ensures var out := Expand([Literal([x]), Copy(Copy2, n, 1)], []);
      |out| == n + 1 && forall k :: 0 <= k < |out| ==> out[k] == x
  {
    var es := [Literal([x]), Copy(Copy2, n, 1)];
    var run := CopyBack([x], 1, n);
    assert es[1..] == [Copy(Copy2, n, 1)] && es[1..][1..] == [];
    assert Pow256(2) == 65536;
    assert Expand(es[1..], [x]) == run;
    assert Expand(es, []) == run by {
      assert ExpandElement(es[0], []) == [x];
    }
    CopyBackRunLength([x], n);
  }
}
