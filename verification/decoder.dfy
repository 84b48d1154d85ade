/**
 The Snappy block decoder: read the length prefix, then apply elements to
 the output until it holds the declared number of bytes or the input runs
 out, and succeed only if the output is then exactly the declared size.
 Every failure is final and yields no output.
 */
module Decoder {
  import opened SnappyTypes
  import opened Varint
  import opened Elements
  import opened BackCopy

  /**
   Applies one element to the committed output `out` under the declared
   length `total`. A literal fails if it would pass `total`; a copy fails,
   in this order, on offset 0, on an offset reaching before the start of
   the output, and on passing `total`. Nothing is written on failure.
   */
  function Apply(e: Element, out: seq<byte>, total: nat): (r: Result<seq<byte>>)
    ensures r.Ok? ==> |r.value| == |out| + e.Length() <= total && r.value[..|out|] == out
    ensures r.Ok? && e.Literal? ==> r.value == out + e.payload
    ensures r.Ok? && e.Copy? ==>
      1 <= e.offset <= |out| && r.value == CopyBack(out, e.offset, e.length)
    ensures e.Literal? ==>
      (r.Err? <==> |out| + |e.payload| > total) && (r.Err? ==> r.error == LiteralOverflow)
    ensures e.Copy? && e.offset == 0 ==> r == Err(ZeroOffset)
    ensures e.Copy? && e.offset > |out| ==> r == Err(OffsetBeyondOutput)
    ensures e.Copy? && 1 <= e.offset <= |out| ==>
      (r.Err? <==> |out| + e.length > total) && (r.Err? ==> r.error == CopyOverflow(e.kind))
  {
    match e
    case Literal(payload) =>
      if |out| + |payload| > total then Err(LiteralOverflow) else Ok(out + payload)
    case Copy(kind, length, offset) =>
      if offset == 0 then
        Err(ZeroOffset)
      else if offset > |out| then
        Err(OffsetBeyondOutput)
      else if |out| + length > total then
        Err(CopyOverflow(kind))
      else
        Ok(CopyBack(out, offset, length))
  }

  /**
   The element loop, from input position `pos` with `out` committed. It
   runs while input remains and the output is short of `total`; on exit it
   succeeds exactly when the output has reached `total`.
   */
  function DecodeLoop(data: seq<byte>, pos: nat, out: seq<byte>, total: nat): (r: Result<seq<byte>>)
    requires pos <= |data| && |out| <= total
    ensures r.Ok? ==> |r.value| == total && r.value[..|out|] == out
    ensures |out| == total ==> r == Ok(out)
    ensures pos == |data| && |out| < total ==> r == Err(SizeMismatch)
    decreases |data| - pos
  {
    if pos < |data| && |out| < total then
      var parsed := ParseElement(data, pos);
      if parsed.Err? then
        Err(parsed.error)
      else
        var (e, next) := parsed.value;
        var applied := Apply(e, out, total);
        if applied.Err? then
          Err(applied.error)
        else
          DecodeLoop(data, next, applied.value, total)
    else if |out| != total then
      Err(SizeMismatch)
    else
      Ok(out)
  }

  /**
   Decompresses one Snappy block. Empty input is the empty block and reads
   no length prefix; otherwise a failed length prefix fails the call, and
   a success has exactly the length the prefix declares.
   */
  function Decompress(data: seq<byte>): (r: Result<seq<byte>>)
    ensures |data| == 0 ==> r == Ok([])
    ensures |data| > 0 && DecodeVarint(data, 0).Err? ==> r == Err(DecodeVarint(data, 0).error)
    ensures |data| > 0 && r.Ok? ==>
      DecodeVarint(data, 0).Ok? && |r.value| == DecodeVarint(data, 0).value.0
  {
    if |data| == 0 then
      Ok([])
    else
      var header := DecodeVarint(data, 0);
      if header.Err? then
        Err(header.error)
      else
        var (total, pos) := header.value;
        DecodeLoop(data, pos, [], total)
  }

  /** One turn of the loop: read an element, apply it, continue after it. */
  lemma DecodeLoopStep(data: seq<byte>, pos: nat, out: seq<byte>, total: nat, e: Element, next: nat, out': seq<byte>)
    requires pos < |data| && |out| < total
    requires ParseElement(data, pos) == Ok((e, next))
    requires Apply(e, out, total) == Ok(out')
    ensures DecodeLoop(data, pos, out, total) == DecodeLoop(data, next, out', total)
  {
  }

  /** A loop turn whose element the output cannot take ends the loop with that element's error. */
  lemma DecodeLoopReject(data: seq<byte>, pos: nat, out: seq<byte>, total: nat, e: Element, next: nat, err: Error)
    requires pos < |data| && |out| < total
    requires ParseElement(data, pos) == Ok((e, next))
    requires Apply(e, out, total) == Err(err)
    ensures DecodeLoop(data, pos, out, total) == Err(err)
  {
  }

  /** After a length prefix that reads, decompression is the element loop from the empty output. */
  lemma DecompressHeader(data: seq<byte>, total: nat, pos: nat)
    requires |data| > 0 && DecodeVarint(data, 0) == Ok((total, pos))
    ensures Decompress(data) == DecodeLoop(data, pos, [], total)
  {
  }

  /** Bytes appended after a successfully read element do not change how it reads. */
  lemma ParseElementExtend(data: seq<byte>, extra: seq<byte>, pos: nat)
    requires pos < |data| && ParseElement(data, pos).Ok?
    ensures ParseElement(data + extra, pos) == ParseElement(data, pos)
  {
    var d := data + extra;
    assert d[pos] == data[pos];
    if data[pos] % 4 == 0 {
      LiteralExtend(data, extra, pos + 1, data[pos]);
    } else {
      CopyExtend(data, extra, pos + 1, data[pos]);
    }
  }

  lemma LiteralExtend(data: seq<byte>, extra: seq<byte>, p: nat, tag: byte)
    requires p <= |data| && ParseLiteral(data, p, tag).Ok?
    ensures ParseLiteral(data + extra, p, tag) == ParseLiteral(data, p, tag)
  {
    var next := ParseLiteral(data, p, tag).value.1;
    var d := data + extra;
    forall a, b | p <= a <= b <= next
      ensures d[a..b] == data[a..b]
    {
      assert forall i :: a <= i < b ==> d[i] == data[i];
    }
  }

  lemma CopyExtend(data: seq<byte>, extra: seq<byte>, p: nat, tag: byte)
    requires tag % 4 != 0 && ParseCopy(data, p, tag).Ok?
    ensures ParseCopy(data + extra, p, tag) == ParseCopy(data, p, tag)
  {
    var next := ParseCopy(data, p, tag).value.1;
    var d := data + extra;
    assert d[p..next] == data[p..next];
  }

  /**
   The loop stops as soon as the output is full: once it succeeds, bytes
   appended to the input are never read, and the result is the same.
   */
  lemma {:induction false} DecodeLoopExtend(data: seq<byte>, extra: seq<byte>, pos: nat, out: seq<byte>, total: nat)
    requires pos <= |data| && |out| <= total
    requires DecodeLoop(data, pos, out, total).Ok?
    ensures DecodeLoop(data + extra, pos, out, total) == DecodeLoop(data, pos, out, total)
    decreases |data| - pos
  {
    if pos < |data| && |out| < total {
      ParseElementExtend(data, extra, pos);
      var (e, next) := ParseElement(data, pos).value;
      DecodeLoopExtend(data, extra, next, Apply(e, out, total).value, total);
    }
  }

  /**
   Trailing bytes after a complete non-empty block are ignored. (The empty
   input is special: it is the empty block only because nothing follows.)
   */
  lemma TrailingInputIgnored(data: seq<byte>, extra: seq<byte>)
    requires |data| > 0 && Decompress(data).Ok?
    ensures Decompress(data + extra) == Decompress(data)
  {
    var header := DecodeVarint(data, 0);
    DecodeVarintExtend(data, extra, 0);
    DecodeLoopExtend(data, extra, header.value.1, [], header.value.0);
  }

  /**
   The loop fails only on a truncated element, an element the output
   cannot take, or a short output at the end; the two length-prefix errors
   come from the prefix alone.
   */
  lemma {:induction false} DecodeLoopErrors(data: seq<byte>, pos: nat, out: seq<byte>, total: nat)
    requires pos <= |data| && |out| <= total
    ensures var r := DecodeLoop(data, pos, out, total);
      r.Err? ==> IsTruncation(r.error) || r.error in {LiteralOverflow, ZeroOffset, OffsetBeyondOutput, SizeMismatch} || r.error.CopyOverflow?
    decreases |data| - pos
  {
    if pos < |data| && |out| < total {
      var parsed := ParseElement(data, pos);
      if parsed.Ok? {
        var (e, next) := parsed.value;
        var applied := Apply(e, out, total);
        if applied.Ok? {
          DecodeLoopErrors(data, next, applied.value, total);
        }
      }
    }
  }
}
