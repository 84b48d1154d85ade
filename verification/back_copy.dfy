/**
 The copy element's effect on the output: append `length` bytes, each equal
 to the byte `offset` positions before it. The bytes are produced one at a
 time in increasing order, so when `offset < length` a copy reads bytes it
 wrote itself earlier, which repeats the last `offset` bytes as a pattern.
 */
module BackCopy {
  import opened SnappyTypes

  /**
   `out` followed by `length` copied bytes. Each step appends the byte that
   sits `offset` positions before the new end, exactly as the forward loop
   `output[out_pos + i] = output[out_pos - offset + i]` does.
   */
  function CopyBack(out: seq<byte>, offset: nat, length: nat): (r: seq<byte>)
    requires 1 <= offset <= |out|
    ensures |r| == |out| + length
    ensures r[..|out|] == out
    decreases length
  {
    if length == 0 then
      out
    else
      var s := CopyBack(out, offset, length - 1);
      s + [s[|s| - offset]]
  }

  /**
   The copy, index by index: every new byte equals the byte `offset`
   positions before it, including bytes the same copy wrote.
   */
  lemma {:induction false} CopyBackIndex(out: seq<byte>, offset: nat, length: nat)
    requires 1 <= offset <= |out|
    ensures forall k :: |out| <= k < |out| + length ==>
      CopyBack(out, offset, length)[k] == CopyBack(out, offset, length)[k - offset]
    decreases length
  {
    if length > 0 {
      var s := CopyBack(out, offset, length - 1);
      var r := CopyBack(out, offset, length);
      CopyBackIndex(out, offset, length - 1);
      assert r == s + [s[|s| - offset]];
      forall k | |out| <= k < |r|
        ensures r[k] == r[k - offset]
      {
        if k < |s| {
          assert r[k] == s[k] && r[k - offset] == s[k - offset];
        }
      }
    }
  }

  /**
   Closed form of the copy: the new byte at index `k` repeats the window
   `out[|out| - offset..]` periodically, starting from its first byte.
   */
  lemma {:induction false} CopyBackPeriodic(out: seq<byte>, offset: nat, length: nat, k: nat)
    requires 1 <= offset <= |out|
    requires |out| <= k < |out| + length
    ensures CopyBack(out, offset, length)[k] == out[|out| - offset + (k - |out|) % offset]
    decreases k
  {
    var r := CopyBack(out, offset, length);
    CopyBackIndex(out, offset, length);
    assert r[k] == r[k - offset];
    if k - offset < |out| {
      assert r[k - offset] == r[..|out|][k - offset];
      ModBelow(k - |out|, offset);
    } else {
      CopyBackPeriodic(out, offset, length, k - offset);
      ModMinus(k - |out|, offset);
    }
  }

  lemma ModBelow(x: nat, m: nat)
    requires x < m
    ensures x % m == x
  {
  }

  lemma ModMinus(x: nat, m: nat)
    requires 1 <= m <= x
    ensures (x - m) % m == x % m
  {
    var q, r := (x - m) / m, (x - m) % m;
    assert x - m == m * q + r;
    assert x == m * (q + 1) + r by {
      assert m * (q + 1) == m * q + m;
    }
    ModUnique(x, m, q + 1, r);
  }

  /** Euclidean remainders are unique. */
  lemma ModUnique(x: int, m: int, q: int, r: int)
    requires m > 0 && 0 <= r < m && x == m * q + r
    ensures x % m == r
  {
    var q', r' := x / m, x % m;
    assert m * q' + r' == m * q + r;
    if q' > q {
      MulAtLeast(m, q' - q);
    } else if q' < q {
      MulAtLeast(m, q - q');
    }
  }

  lemma MulAtLeast(m: int, a: int)
    requires m > 0 && a >= 1
    ensures m * a >= m
  {
  }

  /** Offset 1 is run-length expansion: every new byte repeats the last byte of `out`. */
  lemma CopyBackRunLength(out: seq<byte>, length: nat)
    requires 1 <= |out|
    ensures forall k :: |out| <= k < |out| + length ==> CopyBack(out, 1, length)[k] == out[|out| - 1]
  {
    forall k | |out| <= k < |out| + length
      ensures CopyBack(out, 1, length)[k] == out[|out| - 1]
    {
      CopyBackPeriodic(out, 1, length, k);
    }
  }

  /**
   When the source and destination ranges do not overlap (`length <= offset`)
   the copy appends the `length` bytes that start `offset` bytes back, as a
   plain block copy would.
   */
  lemma CopyBackDisjoint(out: seq<byte>, offset: nat, length: nat)
    requires 1 <= offset <= |out| && length <= offset
    ensures CopyBack(out, offset, length) == out + out[|out| - offset..|out| - offset + length]
  {
    var r := CopyBack(out, offset, length);
    var w := out[|out| - offset..|out| - offset + length];
    forall k | |out| <= k < |r|
      ensures r[k] == (out + w)[k]
    {
      CopyBackPeriodic(out, offset, length, k);
    }
    forall k | 0 <= k < |out|
      ensures r[k] == (out + w)[k]
    {
      assert r[k] == r[..|out|][k];
    }
  }

  /** The index-wise description determines the copy: no other sequence meets it. */
  lemma CopyBackUnique(out: seq<byte>, offset: nat, length: nat, s: seq<byte>)
    requires 1 <= offset <= |out|
    requires |s| == |out| + length && s[..|out|] == out
    requires forall k :: |out| <= k < |s| ==> s[k] == s[k - offset]
    ensures s == CopyBack(out, offset, length)
  {
    var r := CopyBack(out, offset, length);
    CopyBackIndex(out, offset, length);
    forall k | 0 <= k < |s|
      ensures s[k] == r[k]
    {
      AgreeAt(out, offset, s, r, k);
    }
  }

  /** Two sequences that extend `out` by the same back-reference rule agree everywhere. */
  lemma {:induction false} AgreeAt(out: seq<byte>, offset: nat, s: seq<byte>, t: seq<byte>, k: nat)
    requires 1 <= offset <= |out|
    requires |s| == |t| && |out| <= |s|
    requires s[..|out|] == out && t[..|out|] == out
    requires forall j :: |out| <= j < |s| ==> s[j] == s[j - offset]
    requires forall j :: |out| <= j < |t| ==> t[j] == t[j - offset]
    requires k < |s|
    ensures s[k] == t[k]
    decreases k
  {
    if k < |out| {
      assert s[k] == s[..|out|][k];
      assert t[k] == t[..|out|][k];
    } else {
      AgreeAt(out, offset, s, t, k - offset);
    }
  }
}
