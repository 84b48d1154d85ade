/**
 The elements of a Snappy block after the length prefix. Each starts with a
 tag byte whose low two bits select the kind: 0 a literal, 1 a copy with a
 one-byte offset, 2 a copy with a two-byte offset, 3 a copy with a four-byte
 offset. Reading an element looks only at the input; the checks against the
 output (zero offset, offset past the output, overflow) belong to the decoder.

 The source manipulates tag bits with `&`, `>>` and `<<`; on byte values these
 are the arithmetic operations written here: `tag & 3` is `tag % 4`,
 `tag >> 2` is `tag / 4`, `(tag >> 2) & 7` is `(tag / 4) % 8`, `tag >> 5` is
 `tag / 32`, and or-ing a byte below a value shifted left by 8 adds it.
 */
module Elements {
  import opened SnappyTypes

  /** A decoded element: literal bytes taken from the input, or a back reference into the output. */
  datatype Element =
    | Literal(payload: seq<byte>)
    | Copy(kind: CopyKind, length: nat, offset: nat)
  {
    /** How many output bytes the element produces. */
    function Length(): nat {
      match this
      case Literal(payload) => |payload|
      case Copy(_, length, _) => length
    }
  }

  /** Literal lengths up to this value are written in the tag itself. */
  const MaxInlineLiteral: nat := 60

  /** Number of offset bytes that follow a copy tag. */
  function OffsetWidth(kind: CopyKind): nat {
    match kind
    case Copy1 => 1
    case Copy2 => 2
    case Copy4 => 4
  }

  /** The copy kind selected by the low two bits of a tag, for the values 1, 2 and 3. */
  function KindOfTag(tag: byte): CopyKind
    requires tag % 4 != 0
  {
    if tag % 4 == 1 then Copy1 else if tag % 4 == 2 then Copy2 else Copy4
  }

  /**
   The field ranges the tag encoding allows: a literal of 1 to 2^32 bytes; a
   one-byte-offset copy of 4 to 11 bytes with an offset below 2048; a
   two- or four-byte-offset copy of 1 to 64 bytes with an offset that fits
   in its two or four bytes.
   */
  predicate WellFormed(e: Element) {
    match e
    case Literal(payload) => 1 <= |payload| <= Pow256(4)
    case Copy(Copy1, length, offset) => 4 <= length <= 11 && offset < 2048
    case Copy(Copy2, length, offset) => 1 <= length <= 64 && offset < Pow256(2)
    case Copy(Copy4, length, offset) => 1 <= length <= 64 && offset < Pow256(4)
  }

  /** The failures reading an element can produce: all of them mean the input ended too soon. */
  predicate IsTruncation(e: Error) {
    e == TruncatedLiteralLength || e == TruncatedLiteralData || e.TruncatedOffset?
  }

  /**
   A literal's length, read after its tag (`pos` is just past the tag). Up
   to 60 it is `(tag >> 2) + 1` and nothing more is read; above that the
   excess, 1 to 4, counts the bytes that follow, and the length is one more
   than their little-endian value. Returns the length and the position
   after the length bytes.
   */
  function LiteralLength(data: seq<byte>, pos: nat, tag: byte): (r: Result<(nat, nat)>)
    requires pos <= |data|
    ensures r.Ok? || r == Err(TruncatedLiteralLength)
    ensures r.Ok? ==> 1 <= r.value.0 <= Pow256(4) && pos <= r.value.1 <= |data|
    ensures tag / 4 + 1 <= MaxInlineLiteral ==> r == Ok((tag / 4 + 1, pos))
    ensures tag / 4 + 1 > MaxInlineLiteral ==>
      var extra := tag / 4 + 1 - MaxInlineLiteral;
      && 1 <= extra <= 4
      && (r.Err? <==> pos + extra > |data|)
      && (r.Ok? ==> r.value == (1 + LittleEndian(data[pos..pos + extra]), pos + extra))
  {
    var length := tag / 4 + 1;
    if length <= MaxInlineLiteral then
      Ok((length, pos))
    else
      var extra := length - MaxInlineLiteral;
      if pos + extra > |data| then
        Err(TruncatedLiteralLength)
      else
        LittleEndianBound(data[pos..pos + extra]);
        assert Pow256(extra) <= Pow256(4);
        Ok((1 + LittleEndian(data[pos..pos + extra]), pos + extra))
  }

  /**
   Reads the element whose tag is at `pos`; on success returns it and the
   position of the next tag. Only truncation can fail here.
   */
  function ParseElement(data: seq<byte>, pos: nat): (r: Result<(Element, nat)>)
    requires pos < |data|
    ensures r.Ok? ==> pos < r.value.1 <= |data|
    ensures r.Ok? ==> WellFormed(r.value.0)
    ensures r.Ok? ==> (r.value.0.Literal? <==> data[pos] % 4 == 0)
    ensures r.Ok? && r.value.0.Literal? ==>
      var n := |r.value.0.payload|;
      && pos + 1 <= r.value.1 - n <= pos + 5
      && r.value.0.payload == data[r.value.1 - n..r.value.1]
      && LiteralLength(data, pos + 1, data[pos]) == Ok((n, r.value.1 - n))
    ensures r.Ok? && r.value.0.Copy? ==>
      && r.value.0.kind == KindOfTag(data[pos])
      && r.value.1 == pos + 1 + OffsetWidth(r.value.0.kind)
    ensures r.Err? ==> IsTruncation(r.error)
    ensures data[pos] % 4 != 0 ==>
      (r.Err? <==> pos + 1 + OffsetWidth(KindOfTag(data[pos])) > |data|)
  {
    var tag := data[pos];
    if tag % 4 == 0 then ParseLiteral(data, pos + 1, tag) else ParseCopy(data, pos + 1, tag)
  }

  /**
   A literal, read after its tag (`p` is just past the tag): its length,
   then that many bytes taken from the input as they stand.
   */
  function ParseLiteral(data: seq<byte>, p: nat, tag: byte): (r: Result<(Element, nat)>)
    requires p <= |data|
    ensures r.Ok? ==> r.value.0.Literal? && WellFormed(r.value.0)
    ensures r.Ok? ==>
      var n := |r.value.0.payload|;
      && p <= r.value.1 - n <= p + 4 && r.value.1 <= |data|
      && r.value.0.payload == data[r.value.1 - n..r.value.1]
    ensures r.Ok? ==>
      && LiteralLength(data, p, tag).Ok?
      && |r.value.0.payload| == LiteralLength(data, p, tag).value.0
      && r.value.1 == LiteralLength(data, p, tag).value.1 + |r.value.0.payload|
    ensures r.Err? ==> r.error == TruncatedLiteralLength || r.error == TruncatedLiteralData
  {
    var ll := LiteralLength(data, p, tag);
    if ll.Err? then
      Err(ll.error)
    else
      var (length, q) := ll.value;
      if q + length > |data| then
        Err(TruncatedLiteralData)
      else
        Ok((Literal(data[q..q + length]), q + length))
  }

  /**
   A copy, read after its tag (`p` is just past the tag). A one-byte-offset
   copy takes its length, 4 to 11, from bits 2 to 4 of the tag and the high
   three bits of its offset from bits 5 to 7; the others take a length of 1
   to 64 from the upper six bits and a two- or four-byte little-endian offset.
   */
  function ParseCopy(data: seq<byte>, p: nat, tag: byte): (r: Result<(Element, nat)>)
    requires tag % 4 != 0
    ensures r.Ok? ==>
      && r.value.0.Copy? && WellFormed(r.value.0)
      && r.value.0.kind == KindOfTag(tag)
      && r.value.1 == p + OffsetWidth(KindOfTag(tag))
    ensures r.Err? <==> p + OffsetWidth(KindOfTag(tag)) > |data|
    ensures r.Err? ==> r.error == TruncatedOffset(KindOfTag(tag))
  {
    if tag % 4 == 1 then
      var length := (tag / 4) % 8 + 4;
      if p >= |data| then
        Err(TruncatedOffset(Copy1))
      else
        Ok((Copy(Copy1, length, (tag as int / 32) * 256 + data[p] as int), p + 1))
    else if tag % 4 == 2 then
      var length := tag / 4 + 1;
      if p + 2 > |data| then
        Err(TruncatedOffset(Copy2))
      else
        LittleEndianBound(data[p..p + 2]);
        Ok((Copy(Copy2, length, LittleEndian(data[p..p + 2])), p + 2))
    else
      var length := tag / 4 + 1;
      if p + 4 > |data| then
        Err(TruncatedOffset(Copy4))
      else
        LittleEndianBound(data[p..p + 4]);
        Ok((Copy(Copy4, length, LittleEndian(data[p..p + 4])), p + 4))
  }

  /** Bytes needed for a literal's `length - 1` when it is written after the tag. */
  function LengthWidth(n: nat): (w: nat)
    requires n < Pow256(4)
    ensures 1 <= w <= 4 && n < Pow256(w)
  {
    if n < Pow256(1) then 1
    else if n < Pow256(2) then 2
    else if n < Pow256(3) then 3
    else 4
  }

  /**
   Reference encoder for one element: the tag, then the literal's extra
   length bytes or the copy's offset bytes, then the literal's payload.
   */
  function EncodeElement(e: Element): (s: seq<byte>)
    requires WellFormed(e)
    ensures |s| >= 2
  {
    match e
    case Literal(payload) =>
      var n := |payload| - 1;
      if |payload| <= MaxInlineLiteral then
        [4 * n] + payload
      else
        var w := LengthWidth(n);
        [4 * (MaxInlineLiteral - 1 + w)] + EncodeLittleEndian(n, w) + payload
    case Copy(Copy1, length, offset) =>
      [1 + 4 * (length - 4) + 32 * (offset / 256), offset % 256]
    case Copy(Copy2, length, offset) =>
      [2 + 4 * (length - 1)] + EncodeLittleEndian(offset, 2)
    case Copy(Copy4, length, offset) =>
      [3 + 4 * (length - 1)] + EncodeLittleEndian(offset, 4)
  }

  /**
   Round trip: an encoded well-formed element placed at `pos` reads back as
   itself, with the next tag just past its encoding.
   */
  lemma ParseEncoded(e: Element, data: seq<byte>, pos: nat)
    requires WellFormed(e)
    requires pos + |EncodeElement(e)| <= |data|
    requires data[pos..pos + |EncodeElement(e)|] == EncodeElement(e)
    ensures ParseElement(data, pos) == Ok((e, pos + |EncodeElement(e)|))
  {
    match e
    case Literal(payload) =>
      if |payload| <= MaxInlineLiteral {
        ParseShortLiteral(payload, data, pos);
      } else {
        ParseLongLiteral(payload, data, pos);
      }
    case Copy(Copy1, length, offset) =>
      ParseCopy1(length, offset, data, pos);
    case Copy(Copy2, length, offset) =>
      ParseWideCopy(Copy2, length, offset, data, pos);
    case Copy(Copy4, length, offset) =>
      ParseWideCopy(Copy4, length, offset, data, pos);
  }

  lemma ParseShortLiteral(payload: seq<byte>, data: seq<byte>, pos: nat)
    requires 1 <= |payload| <= MaxInlineLiteral
    requires pos + 1 + |payload| <= |data|
    requires data[pos..pos + 1 + |payload|] == [4 * (|payload| - 1)] + payload
    ensures ParseElement(data, pos) == Ok((Literal(payload), pos + 1 + |payload|))
  {
    var enc := [4 * (|payload| - 1)] + payload;
    assert data[pos] == enc[0];
    assert data[pos + 1..pos + 1 + |payload|] == enc[1..];
  }

  /**
   A two-byte-offset copy reads its length from the tag's upper six bits and
   its offset from the next two bytes, low byte first.
   */
  lemma ParseCopy2At(data: seq<byte>, pos: nat)
    requires pos + 3 <= |data| && data[pos] % 4 == 2
    ensures ParseElement(data, pos) ==
      Ok((Copy(Copy2, data[pos] / 4 + 1, data[pos + 1] as int + 256 * data[pos + 2] as int), pos + 3))
  {
    ParseWideCopyAt(Copy2, data, pos);
    var s := data[pos + 1..pos + 3];
    assert s[1..][1..] == [];
    assert LittleEndian(s[1..]) == s[1] + 256 * LittleEndian(s[1..][1..]) == s[1];
    assert LittleEndian(s) == data[pos + 1] as int + 256 * data[pos + 2] as int;
  }

  /**
   How a literal can end: with TruncatedLiteralLength exactly when its
   length bytes are missing, with TruncatedLiteralData exactly when its
   length reads but the payload is not all there, and otherwise with the
   payload of that length.
   */
  lemma LiteralOutcome(data: seq<byte>, pos: nat)
    requires pos < |data| && data[pos] % 4 == 0
    ensures var ll := LiteralLength(data, pos + 1, data[pos]);
      && (ParseElement(data, pos) == Err(TruncatedLiteralLength) <==> ll.Err?)
      && (ParseElement(data, pos) == Err(TruncatedLiteralData) <==>
            ll.Ok? && ll.value.1 + ll.value.0 > |data|)
      && (ParseElement(data, pos).Ok? ==>
            ll.Ok? && ParseElement(data, pos).value.1 == ll.value.1 + ll.value.0
            && |ParseElement(data, pos).value.0.payload| == ll.value.0)
  {
  }

  /** A literal tag, its length as `LiteralLength` reads it, and room for the payload: the literal read. */
  lemma ParseLiteralAt(data: seq<byte>, pos: nat, length: nat, q: nat)
    requires pos < |data| && data[pos] % 4 == 0
    requires LiteralLength(data, pos + 1, data[pos]) == Ok((length, q))
    requires q + length <= |data|
    ensures ParseElement(data, pos) == Ok((Literal(data[q..q + length]), q + length))
  {
  }

  /** Where the parts of a long literal's encoding sit once it is placed at `pos`. */
  lemma LongLiteralLayout(payload: seq<byte>, data: seq<byte>, pos: nat)
    requires MaxInlineLiteral < |payload| <= Pow256(4)
    requires pos + |EncodeElement(Literal(payload))| <= |data|
    requires data[pos..pos + |EncodeElement(Literal(payload))|] == EncodeElement(Literal(payload))
    ensures var w := LengthWidth(|payload| - 1);
      && |EncodeElement(Literal(payload))| == 1 + w + |payload|
      && data[pos] == 4 * (MaxInlineLiteral - 1 + w)
      && data[pos + 1..pos + 1 + w] == EncodeLittleEndian(|payload| - 1, w)
      && data[pos + 1 + w..pos + 1 + w + |payload|] == payload
  {
    var n := |payload| - 1;
    var w := LengthWidth(n);
    var lenBytes := EncodeLittleEndian(n, w);
    var enc := [4 * (MaxInlineLiteral - 1 + w)] + lenBytes + payload;
    assert enc == EncodeElement(Literal(payload));
    WindowParts(data, pos, [enc[0]], lenBytes, payload);
    assert data[pos] == data[pos..pos + 1][0];
  }

  /** The length a long literal's tag and length bytes spell out. */
  lemma LongLiteralLength(data: seq<byte>, p: nat, n: nat, w: nat)
    requires 1 <= w <= 4 && n < Pow256(w)
    requires p + w <= |data| && data[p..p + w] == EncodeLittleEndian(n, w)
    ensures LiteralLength(data, p, 4 * (MaxInlineLiteral - 1 + w)) == Ok((n + 1, p + w))
  {
    var tag := 4 * (MaxInlineLiteral - 1 + w);
    assert tag / 4 + 1 == MaxInlineLiteral + w;
    LittleEndianRoundTrip(n, w);
  }

  lemma ParseLongLiteral(payload: seq<byte>, data: seq<byte>, pos: nat)
    requires MaxInlineLiteral < |payload| <= Pow256(4)
    requires pos + |EncodeElement(Literal(payload))| <= |data|
    requires data[pos..pos + |EncodeElement(Literal(payload))|] == EncodeElement(Literal(payload))
    ensures ParseElement(data, pos) == Ok((Literal(payload), pos + |EncodeElement(Literal(payload))|))
  {
    var n := |payload| - 1;
    var w := LengthWidth(n);
    LongLiteralLayout(payload, data, pos);
    LongLiteralLength(data, pos + 1, n, w);
    ParseLiteralAt(data, pos, |payload|, pos + 1 + w);
  }

  /** The tag of a one-byte-offset copy carries the length and the offset's high three bits. */
  lemma Copy1Tag(length: nat, offset: nat)
    requires 4 <= length <= 11 && offset < 2048
    ensures var tag := 1 + 4 * (length - 4) + 32 * (offset / 256);
      && tag < 256 && tag % 4 == 1 && (tag / 4) % 8 + 4 == length
      && (tag / 32) * 256 + offset % 256 == offset
  {
    var hi := offset / 256;
    var tag := 1 + 4 * (length - 4) + 32 * hi;
    assert tag == 1 + 4 * ((length - 4) + 8 * hi);
    assert tag / 4 == (length - 4) + 8 * hi;
    assert tag / 32 == hi;
  }

  lemma ParseCopy1(length: nat, offset: nat, data: seq<byte>, pos: nat)
    requires 4 <= length <= 11 && offset < 2048
    requires pos + 2 <= |data|
    requires data[pos..pos + 2] == [1 + 4 * (length - 4) + 32 * (offset / 256), offset % 256]
    ensures ParseElement(data, pos) == Ok((Copy(Copy1, length, offset), pos + 2))
  {
    Copy1Tag(length, offset);
    assert data[pos] == data[pos..pos + 2][0];
    assert data[pos + 1] == data[pos..pos + 2][1];
  }

  /** A two- or four-byte-offset copy tag and the offset bytes after it. */
  lemma ParseWideCopyAt(kind: CopyKind, data: seq<byte>, pos: nat)
    requires kind != Copy1 && pos + 1 + OffsetWidth(kind) <= |data|
    requires data[pos] % 4 == (if kind == Copy2 then 2 else 3)
    ensures ParseElement(data, pos) ==
      Ok((Copy(kind, data[pos] / 4 + 1, LittleEndian(data[pos + 1..pos + 1 + OffsetWidth(kind)])),
          pos + 1 + OffsetWidth(kind)))
  {
  }

  lemma ParseWideCopy(kind: CopyKind, length: nat, offset: nat, data: seq<byte>, pos: nat)
    requires kind != Copy1
    requires WellFormed(Copy(kind, length, offset))
    requires pos + |EncodeElement(Copy(kind, length, offset))| <= |data|
    requires data[pos..pos + |EncodeElement(Copy(kind, length, offset))|] == EncodeElement(Copy(kind, length, offset))
    ensures ParseElement(data, pos) == Ok((Copy(kind, length, offset), pos + 1 + OffsetWidth(kind)))
  {
    var w := OffsetWidth(kind);
    var tag := (if kind == Copy2 then 2 else 3) + 4 * (length - 1);
    var offsetBytes := EncodeLittleEndian(offset, w);
    assert EncodeElement(Copy(kind, length, offset)) == [tag] + offsetBytes + [];
    WindowParts(data, pos, [tag], offsetBytes, []);
    assert data[pos] == data[pos..pos + 1][0] == tag;
    assert tag % 4 == (if kind == Copy2 then 2 else 3) && tag / 4 + 1 == length;
    LittleEndianRoundTrip(offset, w);
    ParseWideCopyAt(kind, data, pos);
  }

}
