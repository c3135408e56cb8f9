/** Base-128 varints: sovGenesis/sovQuery, sozGenesis/sozQuery,
    encodeVarintGenesis/encodeVarintQuery and the decode loop that every
    Unmarshal and skip function repeats inline. */
module Varint {
  import opened Base

  /** math_bits.Len64: the number of binary digits of x (0 for 0). */
  function BitLen(x: nat): nat
  {
    if x == 0 then 0 else 1 + BitLen(x / 2)
  }

  /** x has BitLen(x) binary digits: 2^(n-1) <= x < 2^n. */
  lemma {:induction false} BitLenBounds(x: nat)
    ensures x < Pow2(BitLen(x))
    ensures x > 0 ==> BitLen(x) >= 1 && Pow2(BitLen(x) - 1) <= x
  {
    if x > 0 {
      BitLenBounds(x / 2);
    }
  }

  /** x|1 */
  function SetLowBit(x: nat): (r: nat)
    ensures r % 2 == 1 && x <= r <= x + 1
  {
    if x % 2 == 0 then x + 1 else x
  }

  /** sovGenesis, sovQuery: (bits.Len64(x|1) + 6) / 7, the number of bytes
      of the varint of x. */
  function Sov(x: nat): nat
  {
    (BitLen(SetLowBit(x)) + 6) / 7
  }

  lemma BitLenOfSetLowBit(y: nat)
    requires y >= 1
    ensures BitLen(SetLowBit(y)) == BitLen(y)
  {
    if y % 2 == 0 {
      assert (y + 1) / 2 == y / 2;
    }
  }

  lemma BitLenShift7(x: nat)
    requires x >= 0x80
    ensures BitLen(x) == 7 + BitLen(x / 0x80)
  {
    var x1 := x / 2;
    var x2 := x1 / 2;
    var x3 := x2 / 2;
    var x4 := x3 / 2;
    var x5 := x4 / 2;
    var x6 := x5 / 2;
    var x7 := x6 / 2;
    assert x7 == x / 0x80 && x6 > 0;
    assert BitLen(x) == 1 + BitLen(x1);
    assert BitLen(x1) == 1 + BitLen(x2);
    assert BitLen(x2) == 1 + BitLen(x3);
    assert BitLen(x3) == 1 + BitLen(x4);
    assert BitLen(x4) == 1 + BitLen(x5);
    assert BitLen(x5) == 1 + BitLen(x6);
    assert BitLen(x6) == 1 + BitLen(x7);
  }

  /** One more byte is needed exactly when x does not fit in seven bits. */
  lemma SovStep(x: nat)
    ensures x < 0x80 ==> Sov(x) == 1
    ensures x >= 0x80 ==> Sov(x) == 1 + Sov(x / 0x80)
  {
    if x < 0x80 {
      SovOfSmall(x);
    } else {
      SovOfLarge(x);
    }
  }

  lemma SovOfSmall(x: nat)
    requires x < 0x80
    ensures Sov(x) == 1
  {
    var n := BitLen(SetLowBit(x));
    BitLenBounds(SetLowBit(x));
    if n > 7 {
      Pow2Monotone(7, n - 1);
      Pow2Constants();
    }
  }

  lemma SovOfLarge(x: nat)
    requires x >= 0x80
    ensures Sov(x) == 1 + Sov(x / 0x80)
  {
    BitLenOfSetLowBit(x);
    BitLenOfSetLowBit(x / 0x80);
    BitLenShift7(x);
  }

  /** sovGenesis(x) is the least n >= 1 such that x < 2^(7n). */
  lemma {:induction false} SovIsLeastGroupCount(x: nat)
    ensures Sov(x) >= 1
    ensures x < Pow2(7 * Sov(x))
    ensures Sov(x) > 1 ==> Pow2(7 * (Sov(x) - 1)) <= x
    decreases x
  {
    SovStep(x);
    Pow2Seven();
    if x >= 0x80 {
      var q := x / 0x80;
      var s := Sov(q);
      SovIsLeastGroupCount(q);
      Pow2Add(7 * s, 7);
      var hi := Pow2(7 * s);
      assert Pow2(7 * Sov(x)) == hi * 0x80 by {
        assert 7 * Sov(x) == 7 * s + 7;
      }
      assert x < hi * 0x80 by {
        assert x < (q + 1) * 0x80;
        assert q + 1 <= hi;
      }
      if s > 1 {
        Pow2Add(7 * (s - 1), 7);
        assert Pow2(7 * (Sov(x) - 1)) == Pow2(7 * (s - 1)) * 0x80 by {
          assert 7 * (Sov(x) - 1) == 7 * (s - 1) + 7;
        }
      }
    }
  }

  /** For a uint64 the varint takes between one and ten bytes. */
  lemma SovRange(x: u64)
    ensures 1 <= Sov(x) <= 10
  {
    SovIsLeastGroupCount(x);
    if Sov(x) > 10 {
      Pow2Monotone(64, 7 * (Sov(x) - 1));
      Pow2Constants();
    }
  }

  /** A uint64 with bit 63 set, such as the bit pattern of a negative
      int64, takes the full ten bytes. */
  lemma SovOfHighBit(x: u64)
    requires x >= TWO_63
    ensures Sov(x) == 10
  {
    SovRange(x);
    SovIsLeastGroupCount(x);
    if Sov(x) < 10 {
      Pow2Monotone(7 * Sov(x), 63);
      Pow2Constants();
    }
  }

  /** uint64((x << 1) ^ uint64(int64(x) >> 63)): the zig-zag image of x.
      The shift drops bit 63; the arithmetic shift of the sign gives all ones
      exactly when that bit is set, and XOR with all ones complements. */
  function ZigZag(x: u64): u64
  {
    var shifted := (2 * x) % TWO_64;
    if x < TWO_63 then shifted else TWO_64 - 1 - shifted
  }

  /** sozGenesis, sozQuery */
  function Soz(x: u64): nat
  {
    Sov(ZigZag(x))
  }

  /** Zig-zag maps 0, -1, 1, -2, ... to 0, 1, 2, 3, ... */
  lemma ZigZagOfSigned(s: i64)
    ensures ZigZag(ToU64(s)) == if s >= 0 then 2 * s else -2 * s - 1
    ensures Soz(ToU64(s)) == Sov(if s >= 0 then 2 * s else -2 * s - 1)
  {
  }

  /** The bytes encodeVarintGenesis writes for v: seven bits per byte,
      least significant group first, bit 0x80 on every byte but the last. */
  function VarintBytes(v: nat): seq<byte>
    decreases v
  {
    if v < 0x80 then [v] else [v % 0x80 + 0x80] + VarintBytes(v / 0x80)
  }

  /** sovGenesis(v) is the length of the varint encodeVarintGenesis writes. */
  lemma {:induction false} VarintBytesLength(v: nat)
    ensures |VarintBytes(v)| == Sov(v)
    decreases v
  {
    SovStep(v);
    if v >= 0x80 {
      VarintBytesLength(v / 0x80);
    }
  }

  /** The number that little-endian base-128 digits stand for. */
  function Base128Value(bs: seq<byte>): nat
  {
    if bs == [] then 0 else bs[0] % 0x80 + 0x80 * Base128Value(bs[1..])
  }

  /** The groups of VarintBytes(v), least significant first, make up v. */
  lemma {:induction false} VarintValue(v: nat)
    ensures Base128Value(VarintBytes(v)) == v
    decreases v
  {
    var r := VarintBytes(v);
    if v >= 0x80 {
      VarintValue(v / 0x80);
      assert r[1..] == VarintBytes(v / 0x80);
      assert r[0] % 0x80 == v % 0x80;
    } else {
      assert r[1..] == [];
    }
  }

  /** Every byte of VarintBytes(v) but the last carries the continuation
      bit 0x80; the last does not. */
  lemma {:induction false} VarintContinuation(v: nat, k: nat)
    requires k < |VarintBytes(v)|
    ensures VarintBytes(v)[k] >= 0x80 <==> k < |VarintBytes(v)| - 1
    decreases v
  {
    if v >= 0x80 && k > 0 {
      VarintContinuation(v / 0x80, k - 1);
      assert VarintBytes(v)[k] == VarintBytes(v / 0x80)[k - 1];
    }
  }

  /** x << n on unbounded integers: x * 2^n. */
  function Shl(x: nat, n: nat): nat
  {
    if n == 0 then x else 2 * Shl(x, n - 1)
  }

  lemma {:induction false} ShlAdd(x: nat, y: nat, n: nat)
    ensures Shl(x + y, n) == Shl(x, n) + Shl(y, n)
  {
    if n > 0 {
      ShlAdd(x, y, n - 1);
    }
  }

  lemma {:induction false} ShlMonotone(x: nat, y: nat, n: nat)
    requires x <= y
    ensures Shl(x, n) <= Shl(y, n)
  {
    if n > 0 {
      ShlMonotone(x, y, n - 1);
    }
  }

  lemma {:induction false} ShlOne(n: nat)
    ensures Shl(1, n) == Pow2(n)
  {
    if n > 0 {
      ShlOne(n - 1);
    }
  }

  /** Shifting by seven more is shifting a 0x80-fold value. */
  lemma {:induction false} ShlSeven(x: nat, n: nat)
    ensures Shl(x, n + 7) == Shl(0x80 * x, n)
  {
    if n > 0 {
      ShlSeven(x, n - 1);
    } else {
      assert Shl(x, 7) == 2 * Shl(x, 6) == 4 * Shl(x, 5) == 8 * Shl(x, 4) == 16 * Shl(x, 3);
      assert Shl(x, 3) == 2 * Shl(x, 2) == 4 * Shl(x, 1) == 8 * Shl(x, 0);
    }
  }

  /** v << shift is its low group << shift plus the rest << (shift + 7). */
  lemma ShlSplit(v: nat, shift: nat)
    ensures Shl(v, shift) == Shl(v % 0x80, shift) + Shl(v / 0x80, shift + 7)
  {
    assert v == v % 0x80 + 0x80 * (v / 0x80);
    ShlAdd(v % 0x80, 0x80 * (v / 0x80), shift);
    ShlSeven(v / 0x80, shift);
  }

  /** Where the decode loop stops: the value so far (the source ORs each
      7-bit group into a uint64; the groups are disjoint, so this is their
      sum, truncated to 64 bits), the index after the last byte read, and
      the error, if any. */
  datatype Varint = Varint(value: u64, next: nat, err: Option<Error>)

  function ReadVarintFrom(data: seq<byte>, i: nat, shift: nat, acc: u64): (r: Varint)
    ensures i <= r.next
    ensures r.err.None? ==> i < r.next <= |data| && data[r.next - 1] < 0x80
    decreases 64 - shift
  {
    if shift >= 64 then Varint(acc, i, Some(IntOverflow))
    else if i >= |data| then Varint(acc, i, Some(UnexpectedEOF))
    else
      var b := data[i];
      var acc' := (acc + Shl(b % 0x80, shift)) % TWO_64;
      if b < 0x80 then Varint(acc', i + 1, None)
      else ReadVarintFrom(data, i + 1, shift + 7, acc')
  }

  /** The varint that starts at data[i]. */
  function ReadVarint(data: seq<byte>, i: nat): (r: Varint)
    ensures i <= r.next
    ensures r.err.None? ==> i < r.next <= |data| && data[r.next - 1] < 0x80
  {
    ReadVarintFrom(data, i, 0, 0)
  }

  /** The inline decode loop `for shift := uint(0); ; shift += 7 { ... }`. */
  method DecodeVarint(data: seq<byte>, start: nat) returns (value: u64, next: nat, err: Option<Error>)
    ensures Varint(value, next, err) == ReadVarint(data, start)
  {
    value, next := 0, start;
    var shift: nat := 0;
    while true
      invariant ReadVarintFrom(data, next, shift, value) == ReadVarint(data, start)
      decreases 64 - shift
    {
      if shift >= 64 {
        return value, next, Some(IntOverflow);
      }
      if next >= |data| {
        return value, next, Some(UnexpectedEOF);
      }
      var b := data[next];
      next := next + 1;
      value := (value + Shl(b % 0x80, shift)) % TWO_64;
      if b < 0x80 {
        return value, next, None;
      }
      shift := shift + 7;
    }
  }

  /** encodeVarintGenesis, encodeVarintQuery: writes the varint of v so that
      it ends just before offset and returns where it starts. */
  method EncodeVarint(a: array<byte>, offset: nat, v: u64) returns (base: nat)
    requires Sov(v) <= offset <= a.Length
    modifies a
    ensures base == offset - Sov(v)
    ensures a[base..offset] == VarintBytes(v)
    ensures a[..base] == old(a[..base]) && a[offset..] == old(a[offset..])
  {
    VarintBytesLength(v);
    base := offset - Sov(v);
    var o: nat, w: nat := base, v;
    while w >= 0x80
      invariant base <= o && o + |VarintBytes(w)| == offset
      invariant a[base..o] + VarintBytes(w) == VarintBytes(v)
      invariant a[..base] == old(a[..base]) && a[offset..] == old(a[offset..])
      decreases w
    {
      ghost var prefix := a[base..o];
      a[o] := w % 0x80 + 0x80;
      assert a[base..o + 1] == prefix + [w % 0x80 + 0x80];
      VarintBytesStep(prefix, w);
      o, w := o + 1, w / 0x80;
    }
    a[o] := w;
    assert a[base..o + 1] == a[base..o] + [a[o]];
  }

  /** One loop turn of the encoder: the low group goes out with the
      continuation bit, and the rest follows. */
  lemma VarintBytesStep(prefix: seq<byte>, w: nat)
    requires w >= 0x80
    ensures prefix + [w % 0x80 + 0x80] + VarintBytes(w / 0x80) == prefix + VarintBytes(w)
  {
    assert VarintBytes(w) == [w % 0x80 + 0x80] + VarintBytes(w / 0x80);
  }

  /** encodeVarint seen as a write of the bytes of v just below offset. */
  method PutVarint(a: array<byte>, offset: nat, v: u64) returns (base: nat)
    requires |VarintBytes(v)| <= offset <= a.Length
    modifies a
    ensures base == offset - |VarintBytes(v)|
    ensures Written(old(a[..]), a[..], base, offset, VarintBytes(v))
  {
    VarintBytesLength(v);
    base := EncodeVarint(a, offset, v);
  }

  /** One turn of the decode loop, unfolded once, when the group read does
      not overflow the accumulator. */
  lemma ReadVarintFromStep(data: seq<byte>, i: nat, shift: nat, acc: u64, acc': nat)
    requires shift < 64 && i < |data|
    requires acc' == acc + Shl(data[i] % 0x80, shift) && acc' < TWO_64
    ensures data[i] < 0x80 ==> ReadVarintFrom(data, i, shift, acc) == Varint(acc', i + 1, None)
    ensures data[i] >= 0x80 ==> ReadVarintFrom(data, i, shift, acc) == ReadVarintFrom(data, i + 1, shift + 7, acc')
  {
    assert acc' % TWO_64 == acc';
  }

  /** What the bytes of v at data[i..] say about data[i] and what follows. */
  lemma VarintBytesAt(data: seq<byte>, i: nat, v: nat)
    requires StartsWith(data, i, VarintBytes(v))
    ensures i < |data| && data[i] % 0x80 == v % 0x80
    ensures v < 0x80 ==> data[i] == v && |VarintBytes(v)| == 1
    ensures v >= 0x80 ==> data[i] == v % 0x80 + 0x80
    ensures v >= 0x80 ==> |VarintBytes(v)| == 1 + |VarintBytes(v / 0x80)|
    ensures v >= 0x80 ==> StartsWith(data, i + 1, VarintBytes(v / 0x80))
  {
    var bytes := VarintBytes(v);
    assert data[i] == bytes[0];
    if v >= 0x80 {
      assert bytes == [v % 0x80 + 0x80] + VarintBytes(v / 0x80);
      StartsWithSplit(data, i, [v % 0x80 + 0x80], VarintBytes(v / 0x80));
    }
  }

  /** A value with more than one group, shifted by shift, fits in 64 bits
      only if the next group's shift is below 64. */
  lemma ContinuationFits(acc: nat, v: nat, shift: nat)
    requires v >= 0x80 && acc + Shl(v, shift) < TWO_64
    ensures shift + 7 < 64
  {
    ShlSplit(v, shift);
    if shift + 7 >= 64 {
      ShlMonotone(1, v / 0x80, shift + 7);
      ShlOne(shift + 7);
      Pow2Monotone(64, shift + 7);
      Pow2Constants();
    }
  }

  /** Decoding the bytes of v, from any shift at which v still fits in 64
      bits, adds v's groups to what was read before. */
  lemma {:induction false} ReadVarintFromBytes(data: seq<byte>, i: nat, shift: nat, acc: u64, v: nat)
    requires shift < 64 && acc + Shl(v, shift) < TWO_64
    requires StartsWith(data, i, VarintBytes(v))
    ensures ReadVarintFrom(data, i, shift, acc) == Varint(acc + Shl(v, shift), i + |VarintBytes(v)|, None)
    decreases v
  {
    VarintBytesAt(data, i, v);
    ShlSplit(v, shift);
    var acc' := acc + Shl(v % 0x80, shift);
    ReadVarintFromStep(data, i, shift, acc, acc');
    if v >= 0x80 {
      ContinuationFits(acc, v, shift);
      ReadVarintFromBytes(data, i + 1, shift + 7, acc', v / 0x80);
    } else {
      assert v % 0x80 == v;
    }
  }

  /** Varint round trip: the decode loop recovers every uint64 from the bytes
      encodeVarintGenesis writes, and stops right after them. */
  lemma ReadVarintOfBytes(data: seq<byte>, i: nat, v: u64)
    requires StartsWith(data, i, VarintBytes(v))
    ensures ReadVarint(data, i) == Varint(v, i + |VarintBytes(v)|, None)
  {
    ReadVarintFromBytes(data, i, 0, 0, v);
  }

  lemma {:induction false} ReadVarintFromTruncated(data: seq<byte>, i: nat, shift: nat, acc: u64)
    requires shift <= 63
    requires |data| < i + (70 - shift) / 7
    requires forall k :: i <= k < |data| ==> data[k] >= 0x80
    ensures ReadVarintFrom(data, i, shift, acc).err == Some(UnexpectedEOF)
    decreases |data| - i
  {
    if i < |data| {
      var acc' := (acc + Shl(data[i] % 0x80, shift)) % TWO_64;
      ReadVarintFromTruncated(data, i + 1, shift + 7, acc');
    }
  }

  /** Input that ends inside a varint (fewer than ten bytes, each with the
      continuation bit) fails with io.ErrUnexpectedEOF. */
  lemma ReadVarintTruncated(data: seq<byte>, i: nat)
    requires |data| < i + 10
    requires forall k :: i <= k < |data| ==> data[k] >= 0x80
    ensures ReadVarint(data, i).err == Some(UnexpectedEOF)
  {
    ReadVarintFromTruncated(data, i, 0, 0);
  }

  /** w mod (a*b) splits into the low digit in base a and the next digits
      mod b, shifted by a. */
  lemma ModOfProduct(w: nat, a: nat, b: nat)
    requires a > 0 && b > 0
    ensures w % (a * b) == w % a + a * ((w / a) % b)
  {
    var q, r := w / a, w % a;
    var t, s := q / b, q % b;
    var c := a * s + r;
    assert w == (a * b) * t + c by {
      assert w == a * q + r;
      assert a * q == a * (b * t) + a * s;
      assert a * (b * t) == (a * b) * t;
    }
    assert c < a * b by {
      assert a * s <= a * (b - 1);
    }
    ModUnique(w, a * b, t, c);
  }

  lemma ModUnique(w: nat, n: nat, t: nat, c: nat)
    requires n > 0 && c < n && w == n * t + c
    ensures w % n == c
  {
    var q, r := w / n, w % n;
    assert w == n * q + r;
    if q < t {
      MulStep(n, q, t);
    } else if q > t {
      MulStep(n, t, q);
    }
  }

  /** n * x + n <= n * y when x < y. */
  lemma MulStep(n: nat, x: nat, y: nat)
    requires x < y
    ensures n * x + n <= n * y
  {
    var d := y - x - 1;
    assert n * y == n * x + n + n * d;
  }

  lemma ShlZero(n: nat)
    ensures Shl(0, n) == 0
  {
    ShlAdd(0, 0, n);
  }

  /** The low k groups of w, taken from its low 7k bits, are the low group
      and the low k-1 groups of the rest. */
  lemma LowGroups(w: nat, k: nat, shift: nat)
    requires k > 0
    ensures Shl(w % Pow2(7 * k), shift) == Shl(w % 0x80, shift) + Shl((w / 0x80) % Pow2(7 * (k - 1)), shift + 7)
  {
    var rest := (w / 0x80) % Pow2(7 * (k - 1));
    assert w % Pow2(7 * k) == w % 0x80 + 0x80 * rest by {
      Pow2Add(7, 7 * (k - 1));
      Pow2Seven();
      assert 7 * k == 7 + 7 * (k - 1);
      ModOfProduct(w, 0x80, Pow2(7 * (k - 1)));
    }
    ShlAdd(w % 0x80, 0x80 * rest, shift);
    ShlSeven(rest, shift);
  }

  /** The first k bytes of VarintBytes(w), followed by the end of the input,
      leave the low k groups of w added to the accumulator. */
  lemma {:induction false} ReadVarintFromPrefix(data: seq<byte>, i: nat, shift: nat, acc: u64, w: nat, k: nat)
    requires shift < 64 && acc + Shl(w, shift) < TWO_64
    requires k < |VarintBytes(w)| && |data| == i + k
    requires StartsWith(data, i, VarintBytes(w)[..k])
    ensures ReadVarintFrom(data, i, shift, acc).value == acc + Shl(w % Pow2(7 * k), shift)
    ensures ReadVarintFrom(data, i, shift, acc).next == i + k
    ensures ReadVarintFrom(data, i, shift, acc).err == Some(UnexpectedEOF)
    decreases k
  {
    if k == 0 {
      ShlZero(shift);
    } else {
      var bytes := VarintBytes(w);
      assert w >= 0x80;
      var tail := VarintBytes(w / 0x80);
      assert bytes[..k] == [w % 0x80 + 0x80] + tail[..k - 1] by {
        assert bytes == [w % 0x80 + 0x80] + tail;
      }
      StartsWithSplit(data, i, [w % 0x80 + 0x80], tail[..k - 1]);
      assert data[i] == [w % 0x80 + 0x80][0];
      ShlSplit(w, shift);
      ContinuationFits(acc, w, shift);
      var acc' := acc + Shl(w % 0x80, shift);
      ReadVarintFromStep(data, i, shift, acc, acc');
      ReadVarintFromPrefix(data, i + 1, shift + 7, acc', w / 0x80, k - 1);
      LowGroups(w, k, shift);
    }
  }

  /** Input that ends after k < Sov(v) bytes of the varint of v fails with
      io.ErrUnexpectedEOF, holding the k low groups of v read so far. */
  lemma ReadVarintOfPrefix(data: seq<byte>, i: nat, v: u64, k: nat)
    requires k < |VarintBytes(v)| && |data| == i + k
    requires StartsWith(data, i, VarintBytes(v)[..k])
    ensures ReadVarint(data, i).value == v % Pow2(7 * k)
    ensures ReadVarint(data, i).next == |data|
    ensures ReadVarint(data, i).err == Some(UnexpectedEOF)
  {
    ReadVarintFromPrefix(data, i, 0, 0, v, k);
  }

  lemma {:induction false} ReadVarintFromTooLong(data: seq<byte>, i: nat, shift: nat, acc: u64)
    requires shift <= 70
    requires i + (70 - shift) / 7 <= |data|
    requires forall k :: i <= k < i + (70 - shift) / 7 ==> data[k] >= 0x80
    ensures ReadVarintFrom(data, i, shift, acc).err == Some(IntOverflow)
    decreases 64 - shift
  {
    if shift < 64 {
      var acc' := (acc + Shl(data[i] % 0x80, shift)) % TWO_64;
      ReadVarintFromTooLong(data, i + 1, shift + 7, acc');
    }
  }

  /** Ten bytes that all carry the continuation bit make the shift reach 64:
      ErrIntOverflowGenesis. */
  lemma ReadVarintTooLong(data: seq<byte>, i: nat)
    requires i + 10 <= |data|
    requires forall k :: i <= k < i + 10 ==> data[k] >= 0x80
    ensures ReadVarint(data, i).err == Some(IntOverflow)
  {
    ReadVarintFromTooLong(data, i, 0, 0);
  }
}
