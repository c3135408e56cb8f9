/** Machine types, powers of two, errors and result carriers shared by the
    genesis and query codecs. */
module Base {

  const TWO_7: int := 0x80
  const TWO_31: int := 0x8000_0000
  const TWO_32: int := 0x1_0000_0000
  const TWO_63: int := 0x8000_0000_0000_0000
  const TWO_64: int := 0x1_0000_0000_0000_0000

  /** Go's byte (uint8). */
  type byte = b: int | 0 <= b < 0x100
  /** Go's uint64. */
  type u64 = x: int | 0 <= x < TWO_64
  /** Go's int64. */
  type i64 = x: int | -TWO_63 <= x < TWO_63

  /** int64(x) for a uint64 x: the two's complement reading. */
  function ToI64(x: u64): (s: i64)
    ensures s >= 0 <==> x < TWO_63
  {
    if x < TWO_63 then x else x - TWO_64
  }

  /** uint64(s) for an int64 s: its two's complement bit pattern. */
  function ToU64(s: i64): (x: u64)
    ensures ToI64(x) == s
    ensures (x == 0) == (s == 0)
  {
    if s >= 0 then s else s + TWO_64
  }

  datatype Option<T> = None | Some(value: T)

  /** The errors the codecs return. The generated files declare the
      length, overflow and end-of-group sentinels once per file with the same
      text; they are one constructor each here. */
  datatype Error =
    | IntOverflow                                        // ErrIntOverflow*: a varint longer than ten bytes
    | UnexpectedEOF                                      // io.ErrUnexpectedEOF
    | InvalidLength                                      // ErrInvalidLength*: negative or overflowing length
    | UnexpectedEndOfGroup                               // ErrUnexpectedEndOfGroup*
    | IllegalWireType(wireType: nat)                     // "proto: illegal wireType %d"
    | EndGroupForNonGroup(message: string)               // "proto: M: wiretype end group for non-group"
    | IllegalTag(message: string, fieldNum: int, wire: nat) // "proto: M: illegal tag %d (wire type %d)"
    | WrongWireType(field: string, wireType: nat)        // "proto: wrong wireType = %d for field F"

  datatype Result<T> = Ok(value: T) | Err(error: Error)

  /** The state after one field of a message has been read: the receiver's
      new value, where the next field starts, and the error if reading
      stopped. On error the receiver keeps whatever was already written. */
  datatype Step<M> = Step(msg: M, next: nat, err: Option<Error>)

  /** The outcome of Unmarshal: the receiver's final value and the error. */
  datatype Decoded<M> = Decoded(msg: M, err: Option<Error>)

  /** An embedded message whose own codec is not part of this model
      (Validator, Params, PageRequest, PageResponse). It is represented by
      the bytes of its encoding: its Size is their number, its
      MarshalToSizedBuffer copies them, and its Unmarshal of a body into an
      existing value appends the body, which is how protobuf merges a
      repeated occurrence of an embedded message. */
  datatype Nested = Nested(wire: seq<byte>)

  function MergeNested(n: Nested, body: seq<byte>): (r: Nested)
    ensures |r.wire| == |n.wire| + |body|
  {
    Nested(n.wire + body)
  }

  /** data[i..] begins with bs. The quantifier fires only on indexes into
      bs, so the bytes of data are related to bs only where a proof asks. */
  predicate StartsWith(data: seq<byte>, i: nat, bs: seq<byte>)
  {
    i + |bs| <= |data| && forall k {:trigger bs[k]} :: 0 <= k < |bs| ==> data[i + k] == bs[k]
  }

  lemma StartsWithSplit(data: seq<byte>, i: nat, a: seq<byte>, b: seq<byte>)
    requires StartsWith(data, i, a + b)
    ensures StartsWith(data, i, a) && StartsWith(data, i + |a|, b)
  {
    forall k | 0 <= k < |a|
      ensures data[i + k] == a[k]
    {
      assert (a + b)[k] == a[k];
    }
    forall k | 0 <= k < |b|
      ensures data[i + |a| + k] == b[k]
    {
      assert (a + b)[|a| + k] == b[k];
    }
  }

  lemma StartsWithJoin(data: seq<byte>, i: nat, a: seq<byte>, b: seq<byte>)
    requires StartsWith(data, i, a) && StartsWith(data, i + |a|, b)
    ensures StartsWith(data, i, a + b)
  {
    forall k | 0 <= k < |a + b|
      ensures data[i + k] == (a + b)[k]
    {
      if k < |a| {
        assert a[k] == (a + b)[k];
      } else {
        assert b[k - |a|] == (a + b)[k];
      }
    }
  }

  /** The slice that StartsWith describes. */
  lemma StartsWithSlice(data: seq<byte>, i: nat, bs: seq<byte>)
    requires StartsWith(data, i, bs)
    ensures data[i..i + |bs|] == bs
  {
    forall k | 0 <= k < |bs|
      ensures data[i..i + |bs|][k] == bs[k]
    {
      assert data[i + k] == bs[k];
    }
  }

  lemma SliceStartsWith(data: seq<byte>, i: nat, j: nat)
    requires i <= j <= |data|
    ensures StartsWith(data, i, data[i..j])
  {
    forall k | 0 <= k < j - i
      ensures data[i + k] == data[i..j][k]
    {
    }
  }

  lemma StartsWithPrefix(a: seq<byte>, b: seq<byte>)
    ensures StartsWith(a + b, 0, a)
  {
    forall k | 0 <= k < |a|
      ensures (a + b)[k] == a[k]
    {
    }
  }

  lemma StartsWithAfter(a: seq<byte>, b: seq<byte>)
    ensures StartsWith(a + b, |a|, b)
  {
    forall k | 0 <= k < |b|
      ensures (a + b)[|a| + k] == b[k]
    {
    }
  }

  lemma StartsWithWhole(data: seq<byte>)
    ensures StartsWith(data, 0, data)
  {
    forall k | 0 <= k < |data|
      ensures data[0 + k] == data[k]
    {
    }
  }

  /** Five consecutive pieces, each at its own start index. */
  lemma StartsWithFive(data: seq<byte>, i: nat, i1: nat, i2: nat, i3: nat, i4: nat,
                       a: seq<byte>, b: seq<byte>, c: seq<byte>, d: seq<byte>, x: seq<byte>)
    requires StartsWith(data, i, a + b + c + d + x)
    requires i1 == i + |a| && i2 == i1 + |b| && i3 == i2 + |c| && i4 == i3 + |d|
    ensures StartsWith(data, i, a) && StartsWith(data, i1, b) && StartsWith(data, i2, c)
    ensures StartsWith(data, i3, d) && StartsWith(data, i4, x)
  {
    StartsWithSplit(data, i, a + b + c + d, x);
    StartsWithSplit(data, i, a + b + c, d);
    StartsWithSplit(data, i, a + b, c);
    StartsWithSplit(data, i, a, b);
  }

  lemma StartsWithSuffix(data: seq<byte>, i: nat, bs: seq<byte>)
    requires StartsWith(data, i, bs)
    ensures StartsWith(data[i..], 0, bs)
  {
    forall k | 0 <= k < |bs|
      ensures data[i..][k] == bs[k]
    {
      assert data[i + k] == bs[k];
    }
  }

  /** Appending the first element of b and then the rest is appending b. */
  lemma AppendFirst<T>(a: seq<T>, b: seq<T>)
    requires |b| > 0
    ensures a + [b[0]] + b[1..] == a + b
  {
    assert [b[0]] + b[1..] == b;
  }

  /** Five pieces written back to front are the same bytes as the pieces
      concatenated front to back. */
  lemma ConcatFive(a: seq<byte>, b: seq<byte>, c: seq<byte>, d: seq<byte>, e: seq<byte>)
    ensures a + (b + (c + (d + e))) == a + b + c + d + e
  {
    assert b + (c + (d + e)) == b + c + d + e;
  }

  /** Buffer s differs from s0 only in [lo, hi), which holds bs. */
  ghost predicate Written(s0: seq<byte>, s: seq<byte>, lo: nat, hi: nat, bs: seq<byte>)
  {
    lo <= hi <= |s| == |s0| && s[lo..hi] == bs && s[..lo] == s0[..lo] && s[hi..] == s0[hi..]
  }

  /** Two writes that each change one range of a buffer, the second just
      below the first: together they write both, and nothing else changes. */
  lemma AdjacentWrites(s0: seq<byte>, s1: seq<byte>, s2: seq<byte>, lo: nat, mid: nat, hi: nat, x: seq<byte>, y: seq<byte>)
    requires lo <= mid <= hi <= |s0| == |s1| == |s2|
    requires s1[mid..hi] == y && s1[..mid] == s0[..mid] && s1[hi..] == s0[hi..]
    requires s2[lo..mid] == x && s2[..lo] == s1[..lo] && s2[mid..] == s1[mid..]
    ensures s2[lo..hi] == x + y && s2[..lo] == s0[..lo] && s2[hi..] == s0[hi..]
  {
    forall k | lo <= k < hi
      ensures s2[k] == (x + y)[k - lo]
    {
      if k < mid {
        assert s2[k] == s2[lo..mid][k - lo];
      } else {
        assert s2[k] == s2[mid..][k - mid] == s1[mid..][k - mid] == s1[mid..hi][k - mid];
      }
    }
    forall k | 0 <= k < lo
      ensures s2[k] == s0[k]
    {
      assert s2[k] == s2[..lo][k] == s1[..lo][k] == s1[..mid][k] == s0[..mid][k];
    }
    forall k | hi <= k < |s2|
      ensures s2[k] == s0[k]
    {
      assert s2[k] == s2[mid..][k - mid] == s1[mid..][k - mid] == s1[hi..][k - hi] == s0[hi..][k - hi];
    }
  }

  lemma WrittenJoin(s0: seq<byte>, s1: seq<byte>, s2: seq<byte>, lo: nat, mid: nat, hi: nat, x: seq<byte>, y: seq<byte>)
    requires Written(s0, s1, mid, hi, y) && Written(s1, s2, lo, mid, x)
    ensures Written(s0, s2, lo, hi, x + y)
  {
    AdjacentWrites(s0, s1, s2, lo, mid, hi, x, y);
  }

  function Pow2(n: nat): (r: nat)
    ensures r >= 1
  {
    if n == 0 then 1 else 2 * Pow2(n - 1)
  }

  lemma {:induction false} Pow2Add(a: nat, b: nat)
    ensures Pow2(a + b) == Pow2(a) * Pow2(b)
  {
    if a > 0 {
      Pow2Add(a - 1, b);
      assert Pow2(a + b) == 2 * Pow2(a - 1 + b);
    }
  }

  lemma {:induction false} Pow2Monotone(a: nat, b: nat)
    requires a <= b
    ensures Pow2(a) <= Pow2(b)
  {
    if a < b {
      Pow2Monotone(a, b - 1);
    }
  }

  lemma Pow2Seven()
    ensures Pow2(7) == TWO_7
  {
    assert Pow2(3) == 8 by {
      assert Pow2(1) == 2;
      assert Pow2(2) == 4;
    }
    assert Pow2(4) == 16;
    assert Pow2(5) == 32;
    assert Pow2(6) == 64;
  }

  lemma Pow2TwentyEight()
    ensures Pow2(28) == 0x1000_0000
  {
    Pow2Seven();
    Pow2Add(7, 7);
    assert Pow2(14) == 0x4000;
    Pow2Add(14, 14);
  }

  lemma Pow2Constants()
    ensures Pow2(7) == TWO_7
    ensures Pow2(63) == TWO_63
    ensures Pow2(64) == TWO_64
  {
    Pow2Seven();
    Pow2TwentyEight();
    Pow2Add(28, 28);
    assert Pow2(56) == 0x100_0000_0000_0000;
    Pow2Add(56, 7);
    assert Pow2(64) == 2 * Pow2(63);
  }
}
