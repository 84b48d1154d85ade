/**
 Shared vocabulary of the Snappy block decoder: bytes, the error kinds the
 decoder can report, the result type that carries them, and little-endian
 byte-group arithmetic used by the length and offset fields.
 */
module SnappyTypes {

  /** One element of a Python `bytes` value: an integer in 0..255. */
  type byte = b: int | 0 <= b < 256

  /** The three copy element kinds, named after the width of their offset field. */
  datatype CopyKind = Copy1 | Copy2 | Copy4

  /** One constructor per distinct failure the decoder raises. */
  datatype Error =
    | TruncatedVarint          // input ended inside the length prefix
    | VarintTooLarge           // a fifth length-prefix byte still had its continuation bit set
    | TruncatedLiteralLength   // input ended inside a literal's extra length bytes
    | TruncatedLiteralData     // input ended inside a literal's payload
    | LiteralOverflow          // a literal would write past the declared length
    | TruncatedOffset(kind: CopyKind)  // input ended inside a copy's offset bytes
    | ZeroOffset               // a copy with offset 0
    | OffsetBeyondOutput       // a copy reaching back before the start of the output
    | CopyOverflow(kind: CopyKind)     // a copy would write past the declared length
    | SizeMismatch             // the loop ended short of the declared length

  /** Bytes on success, an error and no output on failure. */
  datatype Result<+T> = Ok(value: T) | Err(error: Error)

  /** 256^n, the number of values `n` bytes can hold. */
  function Pow256(n: nat): nat {
    if n == 0 then 1 else 256 * Pow256(n - 1)
  }

  /** The unsigned integer whose little-endian byte representation is `s`. */
  function LittleEndian(s: seq<byte>): nat {
    if |s| == 0 then 0 else s[0] + 256 * LittleEndian(s[1..])
  }

  /** The `width` low-order bytes of `n`, least significant first. */
  function EncodeLittleEndian(n: nat, width: nat): (s: seq<byte>)
    ensures |s| == width
  {
    if width == 0 then [] else [n % 256] + EncodeLittleEndian(n / 256, width - 1)
  }

  lemma {:induction false} LittleEndianBound(s: seq<byte>)
    ensures LittleEndian(s) < Pow256(|s|)
  {
    if |s| > 0 {
      LittleEndianBound(s[1..]);
    }
  }

  /** Writing `n` in `width` bytes and reading it back gives `n` whenever it fits. */
  lemma {:induction false} LittleEndianRoundTrip(n: nat, width: nat)
    requires n < Pow256(width)
    ensures LittleEndian(EncodeLittleEndian(n, width)) == n
  {
    if width > 0 {
      var s := EncodeLittleEndian(n, width);
      assert s[1..] == EncodeLittleEndian(n / 256, width - 1);
      LittleEndianRoundTrip(n / 256, width - 1);
    }
  }

  /** A suffix of `data` that is `a + b` has `a` where it starts and `b` right after it. */
  lemma SuffixParts<T>(data: seq<T>, pos: nat, a: seq<T>, b: seq<T>)
    requires pos <= |data| && data[pos..] == a + b
    ensures pos + |a| <= |data|
    ensures data[pos..pos + |a|] == a
    ensures data[pos + |a|..] == b
  {
    assert data[pos..pos + |a|] == data[pos..][..|a|];
    assert data[pos + |a|..] == data[pos..][|a|..];
  }

  /** A window of `data` that holds `a + b + c` holds each part where it falls. */
  lemma WindowParts<T>(data: seq<T>, pos: nat, a: seq<T>, b: seq<T>, c: seq<T>)
    requires pos + |a| + |b| + |c| <= |data|
    requires data[pos..pos + |a| + |b| + |c|] == a + b + c
    ensures data[pos..pos + |a|] == a
    ensures data[pos + |a|..pos + |a| + |b|] == b
    ensures data[pos + |a| + |b|..pos + |a| + |b| + |c|] == c
  {
    var w := a + b + c;
    var i, j, k := pos + |a|, pos + |a| + |b|, pos + |a| + |b| + |c|;
    assert forall t :: pos <= t < k ==> data[t] == w[t - pos];
    assert data[pos..i] == a by {
      assert forall t :: 0 <= t < |a| ==> data[pos..i][t] == w[t] == a[t];
    }
    assert data[i..j] == b by {
      assert forall t :: 0 <= t < |b| ==> data[i..j][t] == w[|a| + t] == b[t];
    }
    assert data[j..k] == c by {
      assert forall t :: 0 <= t < |c| ==> data[j..k][t] == w[|a| + |b| + t] == c[t];
    }
  }
}
