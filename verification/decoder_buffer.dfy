/**
 The decoder as the source runs it: one output buffer of the declared size,
 allocated up front, an output cursor, literal bytes written in place, and
 copies performed byte by byte in increasing order inside the buffer, so
 that a copy whose offset is shorter than its length reads bytes it has
 just written. It computes exactly what the functional decoder defines.
 */
module DecoderBuffer {
  import opened SnappyTypes
  import opened Varint
  import opened Elements
  import opened BackCopy
  import opened Decoder

  /**
   Copies `length` bytes forward inside `output`, from `offset` bytes back
   to `outPos`, one byte at a time. The committed prefix `output[..outPos]`
   becomes `CopyBack` of itself.
   */
  method CopyInPlace(output: array<byte>, outPos: nat, offset: nat, length: nat)
    requires 1 <= offset <= outPos && outPos + length <= output.Length
    modifies output
    ensures output[..outPos + length] == CopyBack(old(output[..outPos]), offset, length)
    ensures output[outPos + length..] == old(output[outPos + length..])
  {
    ghost var committed := output[..outPos];
    var i := 0;
    while i < length
      invariant 0 <= i <= length
      invariant output[..outPos + i] == CopyBack(committed, offset, i)
      invariant output[outPos + length..] == old(output[outPos + length..])
    {
      ghost var before := output[..outPos + i];
      output[outPos + i] := output[outPos - offset + i];
      assert output[..outPos + i + 1] == before + [before[|before| - offset]];
      i := i + 1;
    }
  }

  /** Writes a literal's bytes at `outPos`: the slice assignment of the literal branch. */
  method WriteLiteral(output: array<byte>, outPos: nat, payload: seq<byte>)
    requires outPos + |payload| <= output.Length
    modifies output
    ensures output[..outPos + |payload|] == old(output[..outPos]) + payload
    ensures output[outPos + |payload|..] == old(output[outPos + |payload|..])
  {
    forall i | 0 <= i < |payload| {
      output[outPos + i] := payload[i];
    }
  }

  /**
   One element against the buffer, with the checks in the source's order
   before anything is written. On success returns the new output cursor.
   */
  method ApplyInPlace(output: array<byte>, outPos: nat, e: Element) returns (res: Result<nat>)
    requires outPos <= output.Length
    modifies output
    ensures res.Ok? ==> outPos <= res.value <= output.Length
    ensures res.Err? ==> unchanged(output)
    ensures res.Ok? ==> output[res.value..] == old(output[res.value..])
    ensures Apply(e, old(output[..outPos]), output.Length) ==
      if res.Ok? then Ok(output[..res.value]) else Err(res.error)
  {
    var total := output.Length;
    match e {
      case Literal(payload) =>
        if outPos + |payload| > total {
          return Err(LiteralOverflow);
        }
        WriteLiteral(output, outPos, payload);
        return Ok(outPos + |payload|);
      case Copy(kind, length, offset) =>
        if offset == 0 {
          return Err(ZeroOffset);
        }
        if offset > outPos {
          return Err(OffsetBeyondOutput);
        }
        if outPos + length > total {
          return Err(CopyOverflow(kind));
        }
        CopyInPlace(output, outPos, offset, length);
        return Ok(outPos + length);
    }
  }

  /** Decompresses one Snappy block in a pre-sized buffer; the same result as `Decompress`. */
  method DecompressInPlace(data: seq<byte>) returns (r: Result<seq<byte>>)
    ensures r == Decompress(data)
  {
    if |data| == 0 {
      return Ok([]);
    }
    var header := ReadVarint(data, 0);
    if header.Err? {
      return Err(header.error);
    }
    var total := header.value.0;
    var pos := header.value.1;
    var output := new byte[total](_ => 0);
    var outPos := 0;
    while pos < |data| && outPos < total
      invariant pos <= |data| && outPos <= total == output.Length
      invariant DecodeLoop(data, pos, output[..outPos], total) == Decompress(data)
      decreases |data| - pos
    {
      var parsed := ParseElement(data, pos);
      if parsed.Err? {
        return Err(parsed.error);
      }
      var (e, next) := parsed.value;
      ghost var committed := output[..outPos];
      var applied := ApplyInPlace(output, outPos, e);
      if applied.Err? {
        return Err(applied.error);
      }
      outPos := applied.value;
      DecodeLoopStep(data, pos, committed, total, e, next, output[..outPos]);
      pos := next;
    }
    if outPos != total {
      return Err(SizeMismatch);
    }
    assert output[..] == output[..outPos];
    return Ok(output[..]);
  }
}
