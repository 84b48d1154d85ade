/**
 The length prefix of a Snappy block: an unsigned integer written in
 little-endian base 128, seven value bits per byte, the high bit of a byte
 set when another byte follows. The reader stops after at most five bytes.
 */
module Varint {
  import opened SnappyTypes

  /** The most bytes the reader accepts before reporting `VarintTooLarge`. */
  const MaxVarintBytes: nat := 5

  /** The high bit of a length-prefix byte: another byte follows. */
  predicate HasMore(b: byte) {
    b >= 128
  }

  /** Reference value of a group sequence: the low seven bits of each byte,
      least significant group first. */
  function Base128(s: seq<byte>): nat {
    if |s| == 0 then 0 else s[0] % 128 + 128 * Base128(s[1..])
  }

  /** 128^n = 2^(7n): the weight of the group that sits at shift `7 * n`. */
  function Pow128(n: nat): nat {
    if n == 0 then 1 else 128 * Pow128(n - 1)
  }

  lemma {:induction false} Pow128Positive(n: nat)
    ensures Pow128(n) >= 1
  {
    if n > 0 {
      Pow128Positive(n - 1);
    }
  }

  lemma {:induction false} Pow128Monotone(a: nat, b: nat)
    requires a <= b
    ensures Pow128(a) <= Pow128(b)
    decreases b
  {
    if a < b {
      Pow128Monotone(a, b - 1);
      Pow128Positive(b - 1);
    }
  }

  /** `n` groups of seven bits hold less than 2^(7n). */
  lemma {:induction false} Base128Bound(s: seq<byte>)
    ensures Base128(s) < Pow128(|s|)
  {
    if |s| > 0 {
      Base128Bound(s[1..]);
    }
  }

  /** The low seven bits of `b` placed as group number `group`, at bit `7 * group`. */
  function GroupValue(b: byte, group: nat): nat {
    (b % 128) * Pow128(group)
  }

  /**
   The reader's loop, entered with `acc` already holding the `group` seven-bit
   groups read so far, so that the next group lands at bit `7 * group` (the
   source's `shift`). Each step fails on end of input, folds in the low seven
   bits of the next byte, stops on a byte whose high bit is clear, and fails
   once the shift would pass 32. The source accumulates with a bitwise or;
   every earlier group lies below bit `7 * group`, so that or is the sum
   written here.
   */
  function DecodeFrom(data: seq<byte>, pos: nat, acc: nat, group: nat): (r: Result<(nat, nat)>)
    requires group < MaxVarintBytes
    ensures r.Ok? ==> pos < r.value.1 <= |data|
    ensures r.Ok? || r == Err(VarintTooLarge) || r == Err(TruncatedVarint)
    decreases MaxVarintBytes - group
  {
    if pos >= |data| then
      Err(TruncatedVarint)
    else
      var b := data[pos];
      var acc' := acc + GroupValue(b, group);
      if !HasMore(b) then
        Ok((acc', pos + 1))
      else if 7 * (group + 1) > 32 then
        Err(VarintTooLarge)
      else
        DecodeFrom(data, pos + 1, acc', group + 1)
  }

  /** Once `group` groups are read, at most `5 - group` bytes remain to be read. */
  function Left(group: nat): nat
    requires group <= MaxVarintBytes
  {
    MaxVarintBytes - group
  }

  /**
   Where the loop stops, stated without the loop: it succeeds exactly when a
   byte with the high bit clear turns up among the next `Left(group)` bytes,
   and then stops just past that byte; it reports `VarintTooLarge` when all
   of those bytes are present and carry the high bit, and `TruncatedVarint`
   when the input ends first.
   */
  lemma {:induction false} DecodeFromStops(data: seq<byte>, pos: nat, acc: nat, group: nat)
    requires group < MaxVarintBytes
    ensures var r := DecodeFrom(data, pos, acc, group);
      r.Ok? ==>
        && r.value.1 - pos <= Left(group)
        && (forall i :: pos <= i < r.value.1 - 1 ==> HasMore(data[i]))
        && !HasMore(data[r.value.1 - 1])
    ensures DecodeFrom(data, pos, acc, group) == Err(VarintTooLarge) <==>
      && pos + Left(group) <= |data|
      && forall i :: pos <= i < pos + Left(group) ==> HasMore(data[i])
    ensures DecodeFrom(data, pos, acc, group) == Err(TruncatedVarint) <==>
      && |data| < pos + Left(group)
      && forall i :: pos <= i < |data| ==> HasMore(data[i])
    decreases MaxVarintBytes - group
  {
    if pos < |data| && HasMore(data[pos]) && group + 1 < MaxVarintBytes {
      var acc' := acc + GroupValue(data[pos], group);
      DecodeFromStops(data, pos + 1, acc', group + 1);
    }
  }

  /** The value the loop returns: `acc` plus the groups it read, each at its
      own bit position. */
  lemma {:induction false} DecodeFromValue(data: seq<byte>, pos: nat, acc: nat, group: nat)
    requires group < MaxVarintBytes
    ensures var r := DecodeFrom(data, pos, acc, group);
      r.Ok? ==> r.value.0 == acc + Pow128(group) * Base128(data[pos..r.value.1])
    decreases MaxVarintBytes - group
  {
    var r := DecodeFrom(data, pos, acc, group);
    if pos < |data| {
      var b := data[pos];
      var acc' := acc + GroupValue(b, group);
      if !HasMore(b) {
        assert data[pos..pos + 1] == [b];
        assert Base128([b]) == b % 128;
      } else if group + 1 < MaxVarintBytes {
        DecodeFromValue(data, pos + 1, acc', group + 1);
        if r.Ok? {
          var p := r.value.1;
          assert r == DecodeFrom(data, pos + 1, acc', group + 1);
          ValueCons(data, pos, p, acc, group, r.value.0);
        }
      }
    }
  }

  /** One more group in front: the value read from `pos` in terms of the value read from `pos + 1`. */
  lemma ValueCons(data: seq<byte>, pos: nat, p: nat, acc: nat, group: nat, v: nat)
    requires pos < p <= |data|
    requires v == acc + GroupValue(data[pos], group) + Pow128(group + 1) * Base128(data[pos + 1..p])
    ensures v == acc + Pow128(group) * Base128(data[pos..p])
  {
    Base128Cons(data, pos, p);
    ValueStep(acc, Pow128(group), data[pos] % 128, Base128(data[pos + 1..p]), v);
  }

  /** Peeling the first group off a slice. */
  lemma Base128Cons(data: seq<byte>, pos: nat, p: nat)
    requires pos < p <= |data|
    ensures Base128(data[pos..p]) == data[pos] % 128 + 128 * Base128(data[pos + 1..p])
  {
    assert data[pos..p][1..] == data[pos + 1..p];
  }

  /** One more group `x` of weight `w` in front of the groups `rest`. */
  lemma ValueStep(acc: int, w: int, x: int, rest: int, total: int)
    requires total == (acc + x * w) + (128 * w) * rest
    ensures total == acc + w * (x + 128 * rest)
  {
    calc {
      w * (x + 128 * rest);
      w * x + w * (128 * rest);
      x * w + (128 * w) * rest;
    }
  }

  /** Up to five groups hold less than 2^35. */
  lemma DecodeVarintBound(data: seq<byte>, pos: nat, p: nat)
    requires pos < p <= |data| && p - pos <= MaxVarintBytes
    ensures Base128(data[pos..p]) < Pow128(MaxVarintBytes)
  {
    Base128Bound(data[pos..p]);
    Pow128Monotone(p - pos, MaxVarintBytes);
  }

  /**
   Reads one length prefix starting at `pos`: on success the value and the
   position just after its last byte. `DecodeVarintSpec` says which bytes
   it reads and what they mean.
   */
  function DecodeVarint(data: seq<byte>, pos: nat): (r: Result<(nat, nat)>)
    ensures r.Ok? ==>
      && pos < r.value.1 <= |data|
      && r.value.1 - pos <= MaxVarintBytes
      && r.value.0 < Pow128(MaxVarintBytes)
    ensures r.Ok? || r == Err(VarintTooLarge) || r == Err(TruncatedVarint)
  {
    var r := DecodeFrom(data, pos, 0, 0);
    DecodeFromStops(data, pos, 0, 0);
    DecodeFromValue(data, pos, 0, 0);
    if r.Ok? then
      DecodeVarintBound(data, pos, r.value.1);
      r
    else
      r
  }

  /**
   The length prefix without the loop: a success reads up to five bytes,
   all but the last with the high bit set, and its value is their seven-bit
   groups in little-endian order; `VarintTooLarge` means five bytes with the
   high bit set are present, and `TruncatedVarint` means the input ends,
   within five bytes, before a byte with the high bit clear.
   */
  lemma DecodeVarintSpec(data: seq<byte>, pos: nat)
    ensures var r := DecodeVarint(data, pos);
      r.Ok? ==>
        && (forall i :: pos <= i < r.value.1 - 1 ==> HasMore(data[i]))
        && !HasMore(data[r.value.1 - 1])
        && r.value.0 == Base128(data[pos..r.value.1])
    ensures DecodeVarint(data, pos) == Err(VarintTooLarge) <==>
      && pos + MaxVarintBytes <= |data|
      && forall i :: pos <= i < pos + MaxVarintBytes ==> HasMore(data[i])
    ensures DecodeVarint(data, pos) == Err(TruncatedVarint) <==>
      && |data| < pos + MaxVarintBytes
      && forall i :: pos <= i < |data| ==> HasMore(data[i])
  {
    DecodeFromStops(data, pos, 0, 0);
    DecodeFromValue(data, pos, 0, 0);
  }

  /**
   The converse of `DecodeVarintSpec` for success: up to five bytes, all but
   the last with the high bit set, are read as one length prefix.
   */
  lemma DecodeVarintStopsAt(data: seq<byte>, pos: nat, n: nat)
    requires 1 <= n <= MaxVarintBytes && pos + n <= |data|
    requires forall i :: pos <= i < pos + n - 1 ==> HasMore(data[i])
    requires !HasMore(data[pos + n - 1])
    ensures DecodeVarint(data, pos) == Ok((Base128(data[pos..pos + n]), pos + n))
  {
    DecodeVarintSpec(data, pos);
  }

  /** A byte with the high bit clear is a whole length prefix, holding its own value. */
  lemma SingleByteVarint(data: seq<byte>, pos: nat)
    requires pos < |data| && !HasMore(data[pos])
    ensures DecodeVarint(data, pos) == Ok((data[pos], pos + 1))
  {
    assert GroupValue(data[pos], 0) == data[pos];
  }

  /** Bytes appended after a complete length prefix do not change how it reads. */
  lemma {:induction false} DecodeFromExtend(data: seq<byte>, extra: seq<byte>, pos: nat, acc: nat, group: nat)
    requires group < MaxVarintBytes
    requires DecodeFrom(data, pos, acc, group).Ok?
    ensures DecodeFrom(data + extra, pos, acc, group) == DecodeFrom(data, pos, acc, group)
    decreases MaxVarintBytes - group
  {
    assert (data + extra)[pos] == data[pos];
    if HasMore(data[pos]) {
      DecodeFromExtend(data, extra, pos + 1, acc + GroupValue(data[pos], group), group + 1);
    }
  }

  lemma DecodeVarintExtend(data: seq<byte>, extra: seq<byte>, pos: nat)
    requires DecodeVarint(data, pos).Ok?
    ensures DecodeVarint(data + extra, pos) == DecodeVarint(data, pos)
  {
    DecodeFromExtend(data, extra, pos, 0, 0);
  }

  /**
   The reader written as the source writes it: a loop over the input with
   an accumulator and a shift, returning from inside the loop.
   */
  method ReadVarint(data: seq<byte>, start: nat) returns (r: Result<(nat, nat)>)
    ensures r == DecodeVarint(data, start)
  {
    var result: nat := 0;
    var shift: nat := 0;
    var pos: nat := start;
    var group: nat := 0;  // shift / 7
    ghost var target := DecodeFrom(data, start, 0, 0);
    while true
      invariant group < MaxVarintBytes && shift == 7 * group
      invariant DecodeFrom(data, pos, result, group) == target
      decreases MaxVarintBytes - group
    {
      if pos >= |data| {
        return Err(TruncatedVarint);
      }
      var b := data[pos];
      pos := pos + 1;
      result := result + GroupValue(b, group);
      if !HasMore(b) {
        return Ok((result, pos));
      }
      shift := shift + 7;
      group := group + 1;
      if shift > 32 {
        return Err(VarintTooLarge);
      }
    }
  }

  /** Reference encoder: seven bits per byte, least significant group first,
      the high bit set on every byte but the last. */
  function EncodeVarint(v: nat): (s: seq<byte>)
    ensures |s| >= 1
    decreases v
  {
    if v < 128 then [v] else [v % 128 + 128] + EncodeVarint(v / 128)
  }

  /** The encoder's output has exactly the shape the reader looks for. */
  lemma {:induction false} EncodeVarintShape(v: nat)
    ensures Base128(EncodeVarint(v)) == v
    ensures forall i :: 0 <= i < |EncodeVarint(v)| - 1 ==> HasMore(EncodeVarint(v)[i])
    ensures !HasMore(EncodeVarint(v)[|EncodeVarint(v)| - 1])
    decreases v
  {
    if v >= 128 {
      var s := EncodeVarint(v);
      var t := EncodeVarint(v / 128);
      assert s == [v % 128 + 128] + t;
      assert s[1..] == t;
      EncodeVarintShape(v / 128);
      assert (v % 128 + 128) % 128 == v % 128;
      assert Base128(s) == v % 128 + 128 * Base128(t);
      forall i | 0 <= i < |s| - 1
        ensures HasMore(s[i])
      {
        if i > 0 {
          assert s[i] == t[i - 1];
        }
      }
      assert s[|s| - 1] == t[|t| - 1];
    }
  }

  /** A value below 128^k takes at most `k` bytes. */
  lemma {:induction false} EncodeVarintLength(v: nat, k: nat)
    requires k >= 1 && v < Pow128(k)
    ensures |EncodeVarint(v)| <= k
    decreases k
  {
    if v >= 128 {
      if k > 1 {
        EncodeVarintLength(v / 128, k - 1);
      }
    }
  }

  /**
   Round trip: every value the reader can return, once encoded and placed
   at `pos`, is read back with the position just past its encoding.
   */
  lemma VarintRoundTrip(v: nat, data: seq<byte>, pos: nat)
    requires v < Pow128(MaxVarintBytes)
    requires pos + |EncodeVarint(v)| <= |data|
    requires data[pos..pos + |EncodeVarint(v)|] == EncodeVarint(v)
    ensures DecodeVarint(data, pos) == Ok((v, pos + |EncodeVarint(v)|))
  {
    var e := EncodeVarint(v);
    var n := |e|;
    EncodeVarintShape(v);
    EncodeVarintLength(v, MaxVarintBytes);
    assert forall i :: pos <= i < pos + n ==> data[i] == e[i - pos];
    DecodeVarintStopsAt(data, pos, n);
  }
}
