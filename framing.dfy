/** Field keys, length prefixes and length-delimited fields: the framing
    every Marshal, Size and Unmarshal of the genesis and query messages
    repeats inline. */
module Framing {
  import opened Base
  import opened Varint

  /** A value read from the input and the index just after it. */
  datatype At<T> = At(value: T, next: nat)

  /** int32(x) for the low 32 bits x of a uint64. */
  function ToI32(x: nat): (s: int)
    requires x < TWO_32
    ensures -TWO_31 <= s < TWO_31
    ensures s >= 0 <==> x < TWO_31
  {
    if x < TWO_31 then x else x - TWO_32
  }

  /** A field key as the switch of every Unmarshal sees it:
      fieldNum = int32(wire >> 3), wireType = int(wire & 0x7), and the
      whole wire value, which the illegal-tag message prints. */
  datatype Key = Key(fieldNum: int, wireType: nat, wire: u64)

  function KeyOf(wire: u64): (k: Key)
    ensures k.wire == wire && k.wireType < 8
    ensures wire == 8 * (wire / 8) + k.wireType
    ensures wire / 8 < TWO_31 ==> k.fieldNum == wire / 8
  {
    Key(ToI32((wire / 8) % TWO_32), wire % 8, wire)
  }

  /** The key at data[i] and the two checks every Unmarshal makes before its
      switch: wire type 4 (end group) is refused at the top level, and so is
      a field number that is not positive. */
  function ReadKey(data: seq<byte>, i: nat, message: string): (r: Result<At<Key>>)
    ensures r.Ok? ==> i < r.value.next <= |data|
    ensures r.Ok? ==> r.value.value.wireType != 4 && r.value.value.fieldNum > 0
    ensures r.Ok? <==>
      ReadVarint(data, i).err.None? &&
      KeyOf(ReadVarint(data, i).value).wireType != 4 && KeyOf(ReadVarint(data, i).value).fieldNum > 0
  {
    var v := ReadVarint(data, i);
    if v.err.Some? then Err(v.err.value)
    else
      var k := KeyOf(v.value);
      if k.wireType == 4 then Err(EndGroupForNonGroup(message))
      else if k.fieldNum <= 0 then Err(IllegalTag(message, k.fieldNum, k.wire))
      else Ok(At(k, v.next))
  }

  /** A length prefix (msglen, stringLen) and the checks on it. The prefix is
      read as a Go int: if that is negative, or the end index iNdEx + length
      wraps past the int range, the length is invalid; an end index beyond
      the input is io.ErrUnexpectedEOF. On success the value is the length
      and next is where the body starts. */
  function ReadLength(data: seq<byte>, i: nat): (r: Result<At<nat>>)
    ensures r.Ok? ==> i < r.value.next && r.value.next + r.value.value <= |data|
    ensures r.Ok? ==> r.value.next + r.value.value < TWO_63
    ensures r.Err? && ReadVarint(data, i).err.None? ==>
      r.error == (if ReadVarint(data, i).next + ReadVarint(data, i).value < TWO_63 then UnexpectedEOF else InvalidLength)
  {
    var v := ReadVarint(data, i);
    if v.err.Some? then Err(v.err.value)
    else if ToI64(v.value) < 0 then Err(InvalidLength)
    else if v.next + v.value >= TWO_63 then Err(InvalidLength)
    else if v.next + v.value > |data| then Err(UnexpectedEOF)
    else Ok(At(v.value, v.next))
  }

  /** The body a successful ReadLength delimits. */
  function Body(data: seq<byte>, at: At<nat>): seq<byte>
    requires at.next + at.value <= |data|
  {
    data[at.next..at.next + at.value]
  }

  /** A length-delimited field with a one-byte key: the key, the varint of
      the body's length, the body. */
  function LengthDelimited(tag: byte, body: seq<byte>): seq<byte>
  {
    [tag] + VarintBytes(|body|) + body
  }

  /** A string field as proto3 writes it: nothing when empty. */
  function StringField(tag: byte, s: seq<byte>): (r: seq<byte>)
    ensures |s| == 0 <==> r == []
  {
    if |s| == 0 then [] else LengthDelimited(tag, s)
  }

  /** A repeated embedded message: one length-delimited field per element,
      in order. */
  function Repeated(tag: byte, bodies: seq<seq<byte>>): seq<byte>
  {
    if bodies == [] then [] else LengthDelimited(tag, bodies[0]) + Repeated(tag, bodies[1..])
  }

  /** The encodings of embedded messages whose codec is not modelled. */
  function Wires(ns: seq<Nested>): (r: seq<seq<byte>>)
    ensures |r| == |ns| && forall k :: 0 <= k < |ns| ==> r[k] == ns[k].wire
  {
    seq(|ns|, k requires 0 <= k < |ns| => ns[k].wire)
  }

  lemma {:induction false} RepeatedAppend(tag: byte, a: seq<seq<byte>>, b: seq<seq<byte>>)
    ensures Repeated(tag, a + b) == Repeated(tag, a) + Repeated(tag, b)
  {
    if a == [] {
      assert a + b == b;
    } else {
      assert (a + b)[0] == a[0] && (a + b)[1..] == a[1..] + b;
      RepeatedAppend(tag, a[1..], b);
    }
  }

  /** The element at k comes first in the fields from k on. */
  lemma RepeatedFrom(tag: byte, bodies: seq<seq<byte>>, k: nat)
    requires k < |bodies|
    ensures Repeated(tag, bodies[k..]) == LengthDelimited(tag, bodies[k]) + Repeated(tag, bodies[k + 1..])
  {
    assert bodies[k..][0] == bodies[k] && bodies[k..][1..] == bodies[k + 1..];
  }

  /** The fields up to k + 1 are those up to k and the element at k. */
  lemma RepeatedUpTo(tag: byte, bodies: seq<seq<byte>>, k: nat)
    requires k < |bodies|
    ensures Repeated(tag, bodies[..k + 1]) == Repeated(tag, bodies[..k]) + LengthDelimited(tag, bodies[k])
  {
    assert bodies[..k + 1] == bodies[..k] + [bodies[k]];
    RepeatedAppend(tag, bodies[..k], [bodies[k]]);
    var last: seq<seq<byte>> := [bodies[k]];
    assert last[1..] == [];
  }

  lemma WiresTail(ns: seq<Nested>)
    requires |ns| > 0
    ensures Wires(ns)[1..] == Wires(ns[1..])
  {
  }

  /** The first element of a repeated field on the wire, and the rest. */
  lemma RepeatedSplit(data: seq<byte>, i: nat, mid: nat, e: nat, tag: byte, bodies: seq<seq<byte>>)
    requires |bodies| > 0
    requires StartsWith(data, i, Repeated(tag, bodies))
    requires mid == i + |LengthDelimited(tag, bodies[0])|
    requires e == i + |Repeated(tag, bodies)|
    ensures StartsWith(data, i, LengthDelimited(tag, bodies[0]))
    ensures StartsWith(data, mid, Repeated(tag, bodies[1..]))
    ensures e == mid + |Repeated(tag, bodies[1..])|
  {
    StartsWithSplit(data, i, LengthDelimited(tag, bodies[0]), Repeated(tag, bodies[1..]));
  }

  /** The key that a one-byte tag stands for. */
  lemma ReadKeyOfTag(data: seq<byte>, i: nat, tag: byte, message: string)
    requires 8 <= tag < 0x80 && tag % 8 != 4
    requires i < |data| && data[i] == tag
    ensures ReadKey(data, i, message) == Ok(At(Key(tag / 8, tag % 8, tag), i + 1))
  {
    ReadVarintFromStep(data, i, 0, 0, tag);
  }

  /** A length prefix written by encodeVarint is read back, and delimits
      exactly the body that follows it. */
  lemma ReadLengthOfPrefix(data: seq<byte>, i: nat, body: seq<byte>)
    requires |data| < TWO_63
    requires StartsWith(data, i, VarintBytes(|body|) + body)
    ensures ReadLength(data, i) == Ok(At(|body|, i + |VarintBytes(|body|)|))
    ensures Body(data, At(|body|, i + |VarintBytes(|body|)|)) == body
  {
    StartsWithSplit(data, i, VarintBytes(|body|), body);
    ReadVarintOfBytes(data, i, |body|);
    StartsWithSlice(data, i + |VarintBytes(|body|)|, body);
  }

  /** A one-byte key followed by a varint: the key is read, and the varint
      starts at index 1. */
  lemma ReadTagThenVarint(tag: byte, v: u64, rest: seq<byte>, message: string)
    requires 8 <= tag < 0x80 && tag % 8 != 4
    ensures ReadKey([tag] + VarintBytes(v) + rest, 0, message) == Ok(At(Key(tag / 8, tag % 8, tag), 1))
    ensures StartsWith([tag] + VarintBytes(v) + rest, 1, VarintBytes(v))
    ensures |[tag] + VarintBytes(v) + rest| == 1 + |VarintBytes(v)| + |rest|
  {
    var data := [tag] + VarintBytes(v) + rest;
    assert data == [tag] + (VarintBytes(v) + rest);
    StartsWithAfter([tag], VarintBytes(v) + rest);
    StartsWithSplit(data, 1, VarintBytes(v), rest);
    ReadKeyOfTag(data, 0, tag, message);
  }

  /** A key whose field number, truncated to a Go int32, is negative. */
  lemma ReadKeyOfNegativeField(data: seq<byte>, i: nat, n: nat, wireType: nat, message: string)
    requires TWO_31 <= n < TWO_32 && wireType < 8 && wireType != 4
    requires StartsWith(data, i, VarintBytes(n * 8 + wireType))
    ensures ReadKey(data, i, message) == Err(IllegalTag(message, n - TWO_32, n * 8 + wireType))
  {
    var w := n * 8 + wireType;
    assert KeyOf(w) == Key(n - TWO_32, wireType, w) by {
      assert w / 8 == n && w % 8 == wireType;
      assert n % TWO_32 == n;
    }
    ReadVarintOfBytes(data, i, w);
  }

  /** A length prefix that is negative as a Go int is refused. */
  lemma ReadLengthNegative(data: seq<byte>, i: nat, length: u64)
    requires StartsWith(data, i, VarintBytes(length)) && length >= TWO_63
    ensures ReadLength(data, i) == Err(InvalidLength)
  {
    ReadVarintOfBytes(data, i, length);
  }

  /** A length prefix whose body would end past the input is
      io.ErrUnexpectedEOF, as long as the end index fits a Go int. */
  lemma ReadLengthPastEnd(data: seq<byte>, i: nat, length: u64)
    requires StartsWith(data, i, VarintBytes(length))
    requires |data| < i + |VarintBytes(length)| + length < TWO_63
    ensures ReadLength(data, i) == Err(UnexpectedEOF)
  {
    ReadVarintOfBytes(data, i, length);
  }

  /** A whole length-delimited field is read back: its key, its length and
      its body, and the next field starts right after it. */
  lemma ReadLengthDelimited(data: seq<byte>, i: nat, tag: byte, body: seq<byte>, message: string)
    requires |data| < TWO_63 && 8 <= tag < 0x80 && tag % 8 != 4
    requires StartsWith(data, i, LengthDelimited(tag, body))
    ensures ReadKey(data, i, message) == Ok(At(Key(tag / 8, tag % 8, tag), i + 1))
    ensures ReadLength(data, i + 1) == Ok(At(|body|, i + 1 + |VarintBytes(|body|)|))
    ensures i + 1 + |VarintBytes(|body|)| + |body| == i + |LengthDelimited(tag, body)|
    ensures Body(data, At(|body|, i + 1 + |VarintBytes(|body|)|)) == body
  {
    var rest := VarintBytes(|body|) + body;
    assert LengthDelimited(tag, body) == [tag] + rest;
    StartsWithSplit(data, i, [tag], rest);
    assert |[tag]| == 1 && data[i] == [tag][0];
    ReadKeyOfTag(data, i, tag, message);
    assert StartsWith(data, i + 1, rest);
    ReadLengthOfPrefix(data, i + 1, body);
  }

  /** The key read with the checks ReadKey states. */
  method DecodeKey(data: seq<byte>, i: nat, message: string) returns (r: Result<At<Key>>)
    ensures r == ReadKey(data, i, message)
  {
    var wire, next, err := DecodeVarint(data, i);
    if err.Some? {
      return Err(err.value);
    }
    var fieldNum := ToI32((wire / 8) % TWO_32);
    var wireType := wire % 8;
    if wireType == 4 {
      return Err(EndGroupForNonGroup(message));
    }
    if fieldNum <= 0 {
      return Err(IllegalTag(message, fieldNum, wire));
    }
    return Ok(At(Key(fieldNum, wireType, wire), next));
  }

  /** The length prefix read with the checks ReadLength states. */
  method DecodeLength(data: seq<byte>, i: nat) returns (r: Result<At<nat>>)
    ensures r == ReadLength(data, i)
  {
    var length, next, err := DecodeVarint(data, i);
    if err.Some? {
      return Err(err.value);
    }
    if ToI64(length) < 0 {
      return Err(InvalidLength);
    }
    var postIndex := next + length;
    if postIndex >= TWO_63 {
      return Err(InvalidLength);
    }
    if postIndex > |data| {
      return Err(UnexpectedEOF);
    }
    return Ok(At(length, next));
  }

  /** copy(dAtA[i:], bs) after i -= len(bs): the bytes end just before offset. */
  method PutBytes(a: array<byte>, offset: nat, bs: seq<byte>) returns (base: nat)
    requires |bs| <= offset <= a.Length
    modifies a
    ensures base == offset - |bs|
    ensures a[base..offset] == bs
    ensures a[..base] == old(a[..base]) && a[offset..] == old(a[offset..])
    ensures Written(old(a[..]), a[..], base, offset, bs)
  {
    base := offset - |bs|;
    var k := 0;
    while k < |bs|
      invariant 0 <= k <= |bs|
      invariant a[base..base + k] == bs[..k]
      invariant a[..base] == old(a[..base]) && a[offset..] == old(a[offset..])
    {
      a[base + k] := bs[k];
      assert a[base..base + k + 1] == a[base..base + k] + [bs[k]];
      assert bs[..k + 1] == bs[..k] + [bs[k]];
      k := k + 1;
    }
    assert bs[..k] == bs;
  }

  /** i--; dAtA[i] = tag. */
  method PutTag(a: array<byte>, offset: nat, tag: byte) returns (base: nat)
    requires 1 <= offset <= a.Length
    modifies a
    ensures base == offset - 1
    ensures a[base..offset] == [tag]
    ensures a[..base] == old(a[..base]) && a[offset..] == old(a[offset..])
    ensures Written(old(a[..]), a[..], base, offset, [tag])
  {
    base := offset - 1;
    a[base] := tag;
  }

  /** A body, the varint of its length below it and the key below that
      make up the length-delimited field. */
  lemma JoinLengthDelimited(s0: seq<byte>, s1: seq<byte>, s2: seq<byte>, s3: seq<byte>,
                            lo: nat, j: nat, i: nat, hi: nat, tag: byte, body: seq<byte>)
    requires Written(s0, s1, i, hi, body)
    requires Written(s1, s2, j, i, VarintBytes(|body|))
    requires Written(s2, s3, lo, j, [tag])
    ensures Written(s0, s3, lo, hi, LengthDelimited(tag, body))
  {
    WrittenJoin(s0, s1, s2, j, i, hi, VarintBytes(|body|), body);
    WrittenJoin(s0, s2, s3, lo, j, hi, [tag], VarintBytes(|body|) + body);
    assert LengthDelimited(tag, body) == [tag] + (VarintBytes(|body|) + body);
  }

  /** A string field or an embedded message written backwards: the body,
      then the varint of its length, then the key. */
  method PutLengthDelimited(a: array<byte>, offset: nat, tag: byte, body: seq<byte>) returns (base: nat)
    requires |body| < TWO_64
    requires |LengthDelimited(tag, body)| <= offset <= a.Length
    modifies a
    ensures base == offset - |LengthDelimited(tag, body)|
    ensures Written(old(a[..]), a[..], base, offset, LengthDelimited(tag, body))
  {
    ghost var s0 := a[..];
    var i := PutBytes(a, offset, body);
    ghost var s1 := a[..];
    var j := PutVarint(a, i, |body|);
    ghost var s2 := a[..];
    base := PutTag(a, j, tag);
    JoinLengthDelimited(s0, s1, s2, a[..], base, j, i, offset, tag, body);
  }

  /** A repeated embedded message written backwards, the last element
      first, so that the elements end up in order. */
  method PutRepeated(a: array<byte>, offset: nat, tag: byte, bodies: seq<seq<byte>>) returns (base: nat)
    requires a.Length < TWO_63
    requires |Repeated(tag, bodies)| <= offset <= a.Length
    modifies a
    ensures base == offset - |Repeated(tag, bodies)|
    ensures Written(old(a[..]), a[..], base, offset, Repeated(tag, bodies))
  {
    ghost var s0 := a[..];
    base := offset;
    var k := |bodies|;
    assert bodies[..k] == bodies && bodies[k..] == [];
    while k > 0
      invariant 0 <= k <= |bodies|
      invariant |Repeated(tag, bodies[..k])| <= base
      invariant Written(s0, a[..], base, offset, Repeated(tag, bodies[k..]))
    {
      k := k - 1;
      RepeatedUpTo(tag, bodies, k);
      RepeatedFrom(tag, bodies, k);
      ghost var s1 := a[..];
      ghost var mid := base;
      base := PutLengthDelimited(a, base, tag, bodies[k]);
      WrittenJoin(s0, s1, a[..], base, mid, offset, LengthDelimited(tag, bodies[k]), Repeated(tag, bodies[k + 1..]));
    }
    assert bodies[k..] == bodies;
  }

  /** A string field written backwards, or nothing when it is empty. */
  method PutStringField(a: array<byte>, offset: nat, tag: byte, s: seq<byte>) returns (base: nat)
    requires a.Length < TWO_63
    requires |StringField(tag, s)| <= offset <= a.Length
    modifies a
    ensures base == offset - |StringField(tag, s)|
    ensures Written(old(a[..]), a[..], base, offset, StringField(tag, s))
  {
    base := offset;
    if |s| > 0 {
      base := PutLengthDelimited(a, offset, tag, s);
    }
  }
}
