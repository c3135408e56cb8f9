/** Unknown fields as they appear on the wire, and what skipGenesis and
    skipQuery do with them: each encoded field, groups included, is stepped
    over exactly. */
module Unknown {
  import opened Base
  import opened Varint
  import opened Framing
  import opened Skip

  /** A field of any number and wire type, as a sender that knows more
      fields than this codec could write it. */
  datatype Field =
    | VarintField(number: nat, value: u64)                 // wire type 0
    | Fixed64Field(number: nat, bytes: seq<byte>)          // wire type 1
    | BytesField(number: nat, body: seq<byte>)             // wire type 2
    | GroupField(number: nat, fields: seq<Field>)          // wire types 3 ... 4
    | Fixed32Field(number: nat, bytes: seq<byte>)          // wire type 5

  /** Field numbers run from 1 to 2^29 - 1; fixed-size values have their
      size. */
  predicate WellFormed(f: Field)
    decreases f
  {
    1 <= f.number < 0x2000_0000 &&
    match f
    case VarintField(_, _) => true
    case Fixed64Field(_, bytes) => |bytes| == 8
    case BytesField(_, _) => true
    case GroupField(_, fields) => forall k :: 0 <= k < |fields| ==> WellFormed(fields[k])
    case Fixed32Field(_, bytes) => |bytes| == 4
  }

  predicate AllWellFormed(fs: seq<Field>)
  {
    forall k :: 0 <= k < |fs| ==> WellFormed(fs[k])
  }

  /** Well-formed fields whose numbers are all above n: fields a message
      whose last field is numbered n does not know. */
  predicate AllNumberedAbove(fs: seq<Field>, n: nat)
  {
    forall k :: 0 <= k < |fs| ==> WellFormed(fs[k]) && fs[k].number > n
  }

  lemma AllNumberedAboveTail(fs: seq<Field>, n: nat)
    requires |fs| > 0 && AllNumberedAbove(fs, n)
    ensures WellFormed(fs[0]) && fs[0].number > n && AllNumberedAbove(fs[1..], n)
  {
    forall k | 0 <= k < |fs[1..]|
      ensures WellFormed(fs[1..][k]) && fs[1..][k].number > n
    {
      assert fs[1..][k] == fs[k + 1];
    }
  }

  /** The varint of number << 3 | wireType. */
  function KeyBytes(number: nat, wireType: nat): seq<byte>
  {
    VarintBytes(number * 8 + wireType)
  }

  function EncodeField(f: Field): seq<byte>
    decreases f, 1
  {
    match f
    case VarintField(n, v) => KeyBytes(n, 0) + VarintBytes(v)
    case Fixed64Field(n, bytes) => KeyBytes(n, 1) + bytes
    case BytesField(n, body) => KeyBytes(n, 2) + VarintBytes(|body|) + body
    case GroupField(n, fields) => KeyBytes(n, 3) + EncodeFields(fields) + KeyBytes(n, 4)
    case Fixed32Field(n, bytes) => KeyBytes(n, 5) + bytes
  }

  function EncodeFields(fs: seq<Field>): seq<byte>
    decreases fs, 0
  {
    if fs == [] then [] else EncodeField(fs[0]) + EncodeFields(fs[1..])
  }

  /** What the loop of skipGenesis does after a field that ends at j at depth
      depth: return j at depth zero, go on with the next key otherwise. */
  function Continue(data: seq<byte>, j: nat, depth: nat): Result<nat>
  {
    if depth == 0 then Ok(j) else SkipFrom(data, j, depth)
  }

  /** A key written for a field number and a wire type is read back as both. */
  lemma ReadKeyBytes(data: seq<byte>, i: nat, number: nat, wireType: nat)
    requires number < 0x2000_0000 && wireType < 8
    requires StartsWith(data, i, KeyBytes(number, wireType))
    ensures ReadVarint(data, i) == Varint(number * 8 + wireType, i + |KeyBytes(number, wireType)|, None)
    ensures i < i + |KeyBytes(number, wireType)| <= |data|
    ensures ReadVarint(data, i).value % 8 == wireType && ReadVarint(data, i).value / 8 == number
  {
    KeyArithmetic(number, wireType);
    ReadVarintOfBytes(data, i, number * 8 + wireType);
  }

  /** The key value is a uint64 from which the field number and the wire
      type come back by shifting and masking. */
  lemma KeyArithmetic(number: nat, wireType: nat)
    requires number < 0x2000_0000 && wireType < 8
    ensures number * 8 + wireType < TWO_64
    ensures (number * 8 + wireType) % 8 == wireType && (number * 8 + wireType) / 8 == number
  {
  }

  /** A key with a field number from 1 to 2^29 - 1 and a wire type other
      than 4 passes the two checks every Unmarshal makes before its switch. */
  lemma ReadKeyOfKeyBytes(data: seq<byte>, i: nat, number: nat, wireType: nat, message: string)
    requires 1 <= number < 0x2000_0000 && wireType < 8 && wireType != 4
    requires StartsWith(data, i, KeyBytes(number, wireType))
    ensures ReadKey(data, i, message) == Ok(At(Key(number, wireType, number * 8 + wireType), i + |KeyBytes(number, wireType)|))
  {
    ReadKeyBytes(data, i, number, wireType);
  }

  function WireType(f: Field): (t: nat)
    ensures t < 6 && t != 4
  {
    match f
    case VarintField(_, _) => 0
    case Fixed64Field(_, _) => 1
    case BytesField(_, _) => 2
    case GroupField(_, _) => 3
    case Fixed32Field(_, _) => 5
  }

  /** Every encoded field begins with its key. */
  lemma FieldKey(data: seq<byte>, i: nat, f: Field)
    requires StartsWith(data, i, EncodeField(f))
    ensures StartsWith(data, i, KeyBytes(f.number, WireType(f)))
  {
    var key := KeyBytes(f.number, WireType(f));
    match f
    case VarintField(n, v) =>
      StartsWithSplit(data, i, key, VarintBytes(v));
    case Fixed64Field(n, bytes) =>
      StartsWithSplit(data, i, key, bytes);
    case BytesField(n, body) =>
      StartsWithSplit(data, i, key + VarintBytes(|body|), body);
      StartsWithSplit(data, i, key, VarintBytes(|body|));
    case GroupField(n, fields) =>
      StartsWithSplit(data, i, key + EncodeFields(fields), KeyBytes(n, 4));
      StartsWithSplit(data, i, key, EncodeFields(fields));
    case Fixed32Field(n, bytes) =>
      StartsWithSplit(data, i, key, bytes);
  }

  /** The key of an encoded field, as the switch of Unmarshal sees it. */
  lemma ReadKeyOfField(data: seq<byte>, i: nat, f: Field, message: string)
    requires WellFormed(f)
    requires StartsWith(data, i, EncodeField(f))
    ensures ReadKey(data, i, message).Ok?
    ensures ReadKey(data, i, message).value.value.fieldNum == f.number
  {
    FieldKey(data, i, f);
    ReadKeyOfKeyBytes(data, i, f.number, WireType(f), message);
  }

  /** One turn of the loop of skipGenesis, one lemma per wire type: the key
      at data[i] is read without error and ends at j, and the value it
      announces ends at next. */
  lemma SkipFromVarintStep(data: seq<byte>, i: nat, depth: nat, j: nat, next: nat)
    requires i < |data| && ReadVarint(data, i).err.None? && ReadVarint(data, i).next == j
    requires ReadVarint(data, i).value % 8 == 0
    requires ReadVarint(data, j).err.None? && ReadVarint(data, j).next == next < TWO_63
    ensures SkipFrom(data, i, depth) == Continue(data, next, depth)
  {
  }

  lemma SkipFromFixedStep(data: seq<byte>, i: nat, depth: nat, j: nat, next: nat)
    requires i < |data| && ReadVarint(data, i).err.None? && ReadVarint(data, i).next == j
    requires (ReadVarint(data, i).value % 8 == 1 && next == j + 8) || (ReadVarint(data, i).value % 8 == 5 && next == j + 4)
    requires next < TWO_63
    ensures SkipFrom(data, i, depth) == Continue(data, next, depth)
  {
  }

  lemma SkipFromLengthStep(data: seq<byte>, i: nat, depth: nat, j: nat, next: nat)
    requires i < |data| && ReadVarint(data, i).err.None? && ReadVarint(data, i).next == j
    requires ReadVarint(data, i).value % 8 == 2
    requires ReadVarint(data, j).err.None? && ReadVarint(data, j).value < TWO_63
    requires ReadVarint(data, j).next + ReadVarint(data, j).value == next < TWO_63
    ensures SkipFrom(data, i, depth) == Continue(data, next, depth)
  {
  }

  lemma SkipFromStartStep(data: seq<byte>, i: nat, depth: nat, j: nat)
    requires i < |data| && ReadVarint(data, i).err.None? && ReadVarint(data, i).next == j
    requires ReadVarint(data, i).value % 8 == 3 && j < TWO_63
    ensures SkipFrom(data, i, depth) == SkipFrom(data, j, depth + 1)
  {
  }

  lemma SkipFromEndStep(data: seq<byte>, i: nat, depth: nat, j: nat, next: nat)
    requires i < |data| && ReadVarint(data, i).err.None? && ReadVarint(data, i).next == j
    requires ReadVarint(data, i).value % 8 == 4 && depth > 0 && j == next < TWO_63
    ensures SkipFrom(data, i, depth) == Continue(data, next, depth - 1)
  {
  }

  /** The value of a varint field is stepped over. */
  lemma SkipFromVarintField(data: seq<byte>, i: nat, e: nat, depth: nat, n: nat, v: u64)
    requires |data| < TWO_63 && 1 <= n < 0x2000_0000
    requires StartsWith(data, i, EncodeField(VarintField(n, v)))
    requires e == i + |EncodeField(VarintField(n, v))|
    ensures SkipFrom(data, i, depth) == Continue(data, e, depth)
  {
    var key, value := KeyBytes(n, 0), VarintBytes(v);
    assert EncodeField(VarintField(n, v)) == key + value;
    StartsWithSplit(data, i, key, value);
    ReadKeyBytes(data, i, n, 0);
    ReadVarintOfBytes(data, i + |key|, v);
    SkipFromVarintStep(data, i, depth, i + |key|, e);
  }

  /** The value of a length-delimited field is stepped over. */
  lemma SkipFromBytesField(data: seq<byte>, i: nat, e: nat, depth: nat, n: nat, body: seq<byte>)
    requires |data| < TWO_63 && 1 <= n < 0x2000_0000
    requires StartsWith(data, i, EncodeField(BytesField(n, body)))
    requires e == i + |EncodeField(BytesField(n, body))|
    ensures SkipFrom(data, i, depth) == Continue(data, e, depth)
  {
    var key, prefix := KeyBytes(n, 2), VarintBytes(|body|);
    assert EncodeField(BytesField(n, body)) == key + prefix + body;
    StartsWithSplit(data, i, key + prefix, body);
    StartsWithSplit(data, i, key, prefix);
    var j := i + |key|;
    assert e == j + |prefix| + |body|;
    ReadKeyBytes(data, i, n, 2);
    ReadVarintOfBytes(data, j, |body|);
    SkipFromLengthStep(data, i, depth, j, e);
  }

  /** The value of a fixed-size field (wire types 1 and 5) is stepped over. */
  lemma SkipFromFixedField(data: seq<byte>, i: nat, e: nat, depth: nat, n: nat, wireType: nat, bytes: seq<byte>)
    requires |data| < TWO_63 && 1 <= n < 0x2000_0000
    requires (wireType == 1 && |bytes| == 8) || (wireType == 5 && |bytes| == 4)
    requires StartsWith(data, i, KeyBytes(n, wireType) + bytes)
    requires e == i + |KeyBytes(n, wireType) + bytes|
    ensures SkipFrom(data, i, depth) == Continue(data, e, depth)
  {
    var key := KeyBytes(n, wireType);
    StartsWithSplit(data, i, key, bytes);
    ReadKeyBytes(data, i, n, wireType);
    SkipFromFixedStep(data, i, depth, i + |key|, e);
  }

  /** What the bytes of a group say about the reads skipGenesis makes: a
      start key that ends at j1, the encoded fields from j1 to j2, and an
      end key at j2 that ends at e. */
  lemma GroupReads(data: seq<byte>, i: nat, j1: nat, j2: nat, e: nat, n: nat, fields: seq<Field>)
    requires 1 <= n < 0x2000_0000
    requires StartsWith(data, i, EncodeField(GroupField(n, fields)))
    requires j1 == i + |KeyBytes(n, 3)| && j2 == j1 + |EncodeFields(fields)|
    requires e == i + |EncodeField(GroupField(n, fields))|
    ensures i < |data| && ReadVarint(data, i).err.None? && ReadVarint(data, i).next == j1
    ensures ReadVarint(data, i).value % 8 == 3
    ensures StartsWith(data, j1, EncodeFields(fields))
    ensures j2 < |data| && ReadVarint(data, j2).err.None? && ReadVarint(data, j2).next == e
    ensures ReadVarint(data, j2).value % 8 == 4
  {
    var start, inner, end := KeyBytes(n, 3), EncodeFields(fields), KeyBytes(n, 4);
    assert StartsWith(data, i, start) && StartsWith(data, j1, inner) && StartsWith(data, j2, end) by {
      assert EncodeField(GroupField(n, fields)) == start + inner + end;
      StartsWithSplit(data, i, start + inner, end);
      StartsWithSplit(data, i, start, inner);
    }
    assert e == j2 + |end|;
    ReadKeyBytes(data, i, n, 3);
    ReadKeyBytes(data, j2, n, 4);
  }

  /** A start key, a run of fields that leaves the depth it opened, and an
      end key: skipGenesis goes on after the end key at the depth it began. */
  lemma SkipFromGroupSteps(data: seq<byte>, i: nat, j1: nat, j2: nat, e: nat, depth: nat)
    requires i < |data| && ReadVarint(data, i).err.None? && ReadVarint(data, i).next == j1
    requires ReadVarint(data, i).value % 8 == 3 && j1 < TWO_63
    requires SkipFrom(data, j1, depth + 1) == SkipFrom(data, j2, depth + 1)
    requires j2 < |data| && ReadVarint(data, j2).err.None? && ReadVarint(data, j2).next == e
    requires ReadVarint(data, j2).value % 8 == 4 && e < TWO_63
    ensures SkipFrom(data, i, depth) == Continue(data, e, depth)
  {
    SkipFromStartStep(data, i, depth, j1);
    SkipFromEndStep(data, j2, depth + 1, e, e);
  }

  /** A group is stepped over: its start key opens it, its fields are
      stepped over inside it, and its end key closes it. */
  lemma {:induction false} SkipFromGroup(data: seq<byte>, i: nat, e: nat, depth: nat, n: nat, fields: seq<Field>)
    requires |data| < TWO_63 && WellFormed(GroupField(n, fields))
    requires StartsWith(data, i, EncodeField(GroupField(n, fields)))
    requires e == i + |EncodeField(GroupField(n, fields))|
    ensures SkipFrom(data, i, depth) == Continue(data, e, depth)
    decreases GroupField(n, fields), 0
  {
    var j1 := i + |KeyBytes(n, 3)|;
    var j2 := j1 + |EncodeFields(fields)|;
    GroupReads(data, i, j1, j2, e, n, fields);
    assert SkipFrom(data, j1, depth + 1) == SkipFrom(data, j2, depth + 1) by {
      assert AllWellFormed(fields);
      SkipFromFields(data, j1, j2, depth + 1, fields);
    }
    SkipFromGroupSteps(data, i, j1, j2, e, depth);
  }

  /** skipGenesis steps over one encoded field, at any depth, and then
      carries on as its loop does. */
  lemma {:induction false} SkipFromField(data: seq<byte>, i: nat, e: nat, depth: nat, f: Field)
    requires |data| < TWO_63 && WellFormed(f)
    requires StartsWith(data, i, EncodeField(f))
    requires e == i + |EncodeField(f)|
    ensures SkipFrom(data, i, depth) == Continue(data, e, depth)
    decreases f, 1
  {
    match f
    case GroupField(n, fields) =>
      SkipFromGroup(data, i, e, depth, n, fields);
    case VarintField(n, v) =>
      SkipFromVarintField(data, i, e, depth, n, v);
    case BytesField(n, body) =>
      SkipFromBytesField(data, i, e, depth, n, body);
    case Fixed64Field(n, bytes) =>
      SkipFromFixedField(data, i, e, depth, n, 1, bytes);
    case Fixed32Field(n, bytes) =>
      SkipFromFixedField(data, i, e, depth, n, 5, bytes);
  }

  /** Inside an open group, skipGenesis steps over a run of encoded fields. */
  lemma {:induction false} SkipFromFields(data: seq<byte>, i: nat, e: nat, depth: nat, fs: seq<Field>)
    requires |data| < TWO_63 && depth >= 1 && AllWellFormed(fs)
    requires StartsWith(data, i, EncodeFields(fs))
    requires e == i + |EncodeFields(fs)|
    ensures SkipFrom(data, i, depth) == SkipFrom(data, e, depth)
    decreases fs, 2
  {
    if fs == [] {
      assert e == i;
    } else {
      var head, tail := EncodeField(fs[0]), EncodeFields(fs[1..]);
      var m := i + |head|;
      assert StartsWith(data, i, head) && StartsWith(data, m, tail) && e == m + |tail| by {
        assert EncodeFields(fs) == head + tail;
        StartsWithSplit(data, i, head, tail);
      }
      assert SkipFrom(data, i, depth) == SkipFrom(data, m, depth) by {
        SkipFromField(data, i, m, depth, fs[0]);
      }
      assert AllWellFormed(fs[1..]) by {
        forall k | 0 <= k < |fs[1..]|
          ensures WellFormed(fs[1..][k])
        {
          assert fs[1..][k] == fs[k + 1];
        }
      }
      SkipFromFields(data, m, e, depth, fs[1..]);
    }
  }

  /** The length skipGenesis returns for an encoded field is exactly its
      length, whatever follows it. */
  lemma SkipFieldOfEncoding(f: Field, rest: seq<byte>)
    requires WellFormed(f) && |EncodeField(f)| + |rest| < TWO_63
    ensures SkipField(EncodeField(f) + rest) == Ok(|EncodeField(f)|)
  {
    var data := EncodeField(f) + rest;
    StartsWithPrefix(EncodeField(f), rest);
    SkipFromField(data, 0, |EncodeField(f)|, 0, f);
  }

  /** The default arm of Unmarshal steps over an encoded field in place. */
  lemma SkipUnknownOfEncoding(data: seq<byte>, i: nat, f: Field)
    requires |data| < TWO_63 && WellFormed(f)
    requires StartsWith(data, i, EncodeField(f))
    ensures SkipUnknown(data, i) == Ok(i + |EncodeField(f)|)
  {
    StartsWithSuffix(data, i, EncodeField(f));
    SkipFromField(data[i..], 0, |EncodeField(f)|, 0, f);
  }

  /** A group that is opened and never closed runs skipGenesis out of input:
      io.ErrUnexpectedEOF. */
  lemma SkipFieldOfUnterminatedGroup(n: nat, fs: seq<Field>)
    requires 1 <= n < 0x2000_0000 && AllWellFormed(fs)
    requires |KeyBytes(n, 3)| + |EncodeFields(fs)| < TWO_63
    ensures SkipField(KeyBytes(n, 3) + EncodeFields(fs)) == Err(UnexpectedEOF)
  {
    var start := KeyBytes(n, 3);
    var data := start + EncodeFields(fs);
    assert StartsWith(data, 0, data);
    StartsWithSplit(data, 0, start, EncodeFields(fs));
    ReadKeyBytes(data, 0, n, 3);
    SkipFromStartStep(data, 0, 0, |start|);
    SkipFromFields(data, |start|, |data|, 1, fs);
  }

  /** An end-group key with no group open is ErrUnexpectedEndOfGroup. */
  lemma SkipFieldOfStrayEndGroup(n: nat, rest: seq<byte>)
    requires 1 <= n < 0x2000_0000
    ensures SkipField(KeyBytes(n, 4) + rest) == Err(UnexpectedEndOfGroup)
  {
    var data := KeyBytes(n, 4) + rest;
    StartsWithPrefix(KeyBytes(n, 4), rest);
    ReadKeyBytes(data, 0, n, 4);
  }

  /** Wire types 6 and 7 do not exist: "proto: illegal wireType". */
  lemma SkipFieldOfIllegalWireType(n: nat, wireType: nat, rest: seq<byte>)
    requires 1 <= n < 0x2000_0000 && 6 <= wireType < 8
    ensures SkipField(KeyBytes(n, wireType) + rest) == Err(IllegalWireType(wireType))
  {
    var data := KeyBytes(n, wireType) + rest;
    StartsWithPrefix(KeyBytes(n, wireType), rest);
    ReadKeyBytes(data, 0, n, wireType);
  }
}
