/** What the query codec promises: Unmarshal reads back what Marshal
    writes, merging it into the receiver the way protobuf merges messages;
    unknown fields are stepped over; malformed input is refused with the
    error the generated code returns. */
module QueryLaws {
  import opened Base
  import opened Varint
  import opened Framing
  import opened Skip
  import opened Unknown
  import opened Query

  /** A length-delimited field with a one-byte key passes the key checks
      and the body checks of any of the query messages. */
  lemma ReadBodyOfField(data: seq<byte>, i: nat, tag: byte, body: seq<byte>, field: string, message: string)
    requires |data| < TWO_63 && (tag == 0x0a || tag == 0x12)
    requires StartsWith(data, i, LengthDelimited(tag, body))
    ensures ReadKey(data, i, message) == Ok(At(Key(tag / 8, 2, tag), i + 1))
    ensures ReadBody(data, i + 1, 2, field) == Ok(At(body, i + |LengthDelimited(tag, body)|))
  {
    ReadLengthDelimited(data, i, tag, body, message);
  }

  /** Protobuf merge of a decoded pointer field p into o: a pagination that
      the input carries is merged into the one already there, allocated
      empty if it was nil. */
  function MergePagination(o: Option<Nested>, p: Option<Nested>): (r: Option<Nested>)
    ensures o.None? ==> r == p
    ensures p.None? ==> r == o
  {
    if p.None? then o
    else
      assert [] + p.value.wire == p.value.wire;
      Some(MergeNested(Allocated(o), p.value.wire))
  }

  // ---------------------------------------------------------------------
  // QueryValidatorsRequest

  function MergeValidatorsRequest(m: QueryValidatorsRequest, x: QueryValidatorsRequest): (r: QueryValidatorsRequest)
    ensures m == EmptyValidatorsRequest ==> r == x
  {
    QueryValidatorsRequest(MergePagination(m.pagination, x.pagination))
  }

  lemma ValidatorsRequestStep(data: seq<byte>, i: nat, m: QueryValidatorsRequest, e: nat, m': QueryValidatorsRequest)
    requires i < |data|
    requires ValidatorsRequestField(data, i, m).err.None?
    requires ValidatorsRequestField(data, i, m).next == e && ValidatorsRequestField(data, i, m).msg == m'
    ensures e <= |data|
    ensures ParseValidatorsRequestFrom(data, i, m) == ParseValidatorsRequestFrom(data, e, m')
  {
  }

  /** The encoding of x, wherever it sits in the input, is read as x merged
      into the receiver, and the loop goes on right after it. */
  lemma ParseValidatorsRequestOfEncoding(data: seq<byte>, i: nat, e: nat, m: QueryValidatorsRequest, x: QueryValidatorsRequest)
    requires |data| < TWO_63
    requires StartsWith(data, i, EncodeValidatorsRequest(x))
    requires e == i + |EncodeValidatorsRequest(x)|
    ensures e <= |data|
    ensures ParseValidatorsRequestFrom(data, i, m) == ParseValidatorsRequestFrom(data, e, MergeValidatorsRequest(m, x))
  {
    if x.pagination.Some? {
      ReadBodyOfField(data, i, 0x0a, x.pagination.value.wire, "Pagination", "QueryValidatorsRequest");
      ValidatorsRequestStep(data, i, m, e, MergeValidatorsRequest(m, x));
    }
  }

  /** Round trip: Unmarshal of Marshal's output gives x merged into the
      receiver, and x itself for a fresh receiver; a nil pagination stays
      nil and an empty one stays allocated. */
  lemma ValidatorsRequestRoundTrip(x: QueryValidatorsRequest, m: QueryValidatorsRequest)
    requires |EncodeValidatorsRequest(x)| < TWO_63
    ensures ParseValidatorsRequest(EncodeValidatorsRequest(x), m) == Decoded(MergeValidatorsRequest(m, x), None)
    ensures ParseValidatorsRequest(EncodeValidatorsRequest(x), EmptyValidatorsRequest) == Decoded(x, None)
  {
    StartsWithWhole(EncodeValidatorsRequest(x));
    ParseValidatorsRequestOfEncoding(EncodeValidatorsRequest(x), 0, |EncodeValidatorsRequest(x)|, m, x);
    ParseValidatorsRequestOfEncoding(EncodeValidatorsRequest(x), 0, |EncodeValidatorsRequest(x)|, EmptyValidatorsRequest, x);
  }

  /** A refused key stops the loop with the receiver unchanged. */
  lemma ValidatorsRequestStopsAtKey(data: seq<byte>, m: QueryValidatorsRequest)
    requires |data| > 0 && ReadKey(data, 0, "QueryValidatorsRequest").Err?
    ensures ParseValidatorsRequest(data, m) == Decoded(m, Some(ReadKey(data, 0, "QueryValidatorsRequest").error))
  {
  }

  /** Wire type 4 is refused at the top level, for any field number. */
  lemma ValidatorsRequestRejectsEndGroup(n: nat, rest: seq<byte>, m: QueryValidatorsRequest)
    requires n < 0x2000_0000
    ensures ParseValidatorsRequest(KeyBytes(n, 4) + rest, m) ==
      Decoded(m, Some(EndGroupForNonGroup("QueryValidatorsRequest")))
  {
    StartsWithPrefix(KeyBytes(n, 4), rest);
    ReadKeyBytes(KeyBytes(n, 4) + rest, 0, n, 4);
    ValidatorsRequestStopsAtKey(KeyBytes(n, 4) + rest, m);
  }

  /** Field number 0 is an illegal tag. */
  lemma ValidatorsRequestRejectsFieldZero(wireType: nat, rest: seq<byte>, m: QueryValidatorsRequest)
    requires wireType < 8 && wireType != 4
    ensures ParseValidatorsRequest(KeyBytes(0, wireType) + rest, m) ==
      Decoded(m, Some(IllegalTag("QueryValidatorsRequest", 0, wireType)))
  {
    StartsWithPrefix(KeyBytes(0, wireType), rest);
    ReadKeyBytes(KeyBytes(0, wireType) + rest, 0, 0, wireType);
    ValidatorsRequestStopsAtKey(KeyBytes(0, wireType) + rest, m);
  }

  /** Field 1 with another wire type than 2 is refused. */
  lemma ValidatorsRequestRejectsWrongWireType(wireType: nat, rest: seq<byte>, m: QueryValidatorsRequest)
    requires wireType < 8 && wireType != 4 && wireType != 2
    ensures ParseValidatorsRequest(KeyBytes(1, wireType) + rest, m) ==
      Decoded(m, Some(WrongWireType("Pagination", wireType)))
  {
    StartsWithPrefix(KeyBytes(1, wireType), rest);
    ReadKeyOfKeyBytes(KeyBytes(1, wireType) + rest, 0, 1, wireType, "QueryValidatorsRequest");
  }

  /** A key cut short, input that ends inside the key's varint, is
      io.ErrUnexpectedEOF. */
  lemma ValidatorsRequestRejectsTruncatedKey(data: seq<byte>, m: QueryValidatorsRequest)
    requires 0 < |data| < 10
    requires forall k :: 0 <= k < |data| ==> data[k] >= 0x80
    ensures ParseValidatorsRequest(data, m) == Decoded(m, Some(UnexpectedEOF))
  {
    ReadVarintTruncated(data, 0);
    ValidatorsRequestStopsAtKey(data, m);
  }

  /** Every proper, non-empty prefix of an encoded request is
      io.ErrUnexpectedEOF, whether it ends inside the length prefix or
      inside the body, and the receiver is left unchanged: the body's end is
      checked before the pagination is allocated. */
  lemma ValidatorsRequestRejectsPrefix(x: QueryValidatorsRequest, k: nat, m: QueryValidatorsRequest)
    requires x.pagination.Some? && |EncodeValidatorsRequest(x)| < TWO_63
    requires 0 < k < |EncodeValidatorsRequest(x)|
    ensures ParseValidatorsRequest(EncodeValidatorsRequest(x)[..k], m) == Decoded(m, Some(UnexpectedEOF))
  {
    var body := x.pagination.value.wire;
    var len := VarintBytes(|body|);
    var enc := EncodeValidatorsRequest(x);
    assert enc == [0x0a] + len + body;
    var data := enc[..k];
    assert |data| == k && data[0] == 0x0a;
    ReadKeyOfTag(data, 0, 0x0a, "QueryValidatorsRequest");
    if k - 1 < |len| {
      assert data == [0x0a] + len[..k - 1];
      StartsWithAfter([0x0a], len[..k - 1]);
      ReadVarintOfPrefix(data, 1, |body|, k - 1);
    } else {
      assert data == [0x0a] + len + body[..k - 1 - |len|];
      StartsWithPrefix([0x0a] + len, body[..k - 1 - |len|]);
      StartsWithSplit(data, 0, [0x0a], len);
      ReadLengthPastEnd(data, 1, |body|);
    }
  }

  /** A pagination whose length prefix runs past the end of the input is
      io.ErrUnexpectedEOF. */
  lemma ValidatorsRequestRejectsTruncatedBody(length: nat, body: seq<byte>, m: QueryValidatorsRequest)
    requires |body| < length < TWO_63 - 11
    ensures ParseValidatorsRequest([0x0a] + VarintBytes(length) + body, m) == Decoded(m, Some(UnexpectedEOF))
  {
    var data := [0x0a] + VarintBytes(length) + body;
    ReadTagThenVarint(0x0a, length, body, "QueryValidatorsRequest");
    VarintBytesLength(length);
    SovRange(length);
    ReadLengthPastEnd(data, 1, length);
  }

  // ---------------------------------------------------------------------
  // QueryValidatorsResponse

  function MergeValidatorsResponse(m: QueryValidatorsResponse, x: QueryValidatorsResponse): (r: QueryValidatorsResponse)
    ensures m == EmptyValidatorsResponse ==> r == x
  {
    QueryValidatorsResponse(m.validators + x.validators, MergePagination(m.pagination, x.pagination))
  }

  lemma ValidatorsResponseStep(data: seq<byte>, i: nat, m: QueryValidatorsResponse, e: nat, m': QueryValidatorsResponse)
    requires i < |data|
    requires ValidatorsResponseField(data, i, m).err.None?
    requires ValidatorsResponseField(data, i, m).next == e && ValidatorsResponseField(data, i, m).msg == m'
    ensures e <= |data|
    ensures ParseValidatorsResponseFrom(data, i, m) == ParseValidatorsResponseFrom(data, e, m')
  {
  }

  /** Field 1 appends a validator with that encoding. */
  lemma ParseValidatorsResponseOfValidator(data: seq<byte>, i: nat, e: nat, m: QueryValidatorsResponse, v: Nested)
    requires |data| < TWO_63
    requires StartsWith(data, i, LengthDelimited(0x0a, v.wire))
    requires e == i + |LengthDelimited(0x0a, v.wire)|
    ensures e <= |data|
    ensures ParseValidatorsResponseFrom(data, i, m) == ParseValidatorsResponseFrom(data, e, m.(validators := m.validators + [v]))
  {
    ReadBodyOfField(data, i, 0x0a, v.wire, "Validators", "QueryValidatorsResponse");
    assert MergeNested(Nested([]), v.wire) == v;
    ValidatorsResponseStep(data, i, m, e, m.(validators := m.validators + [v]));
  }

  /** The validators, one field 1 each, are appended in order. */
  lemma {:induction false} ParseValidatorsResponseOfValidators(data: seq<byte>, i: nat, e: nat, m: QueryValidatorsResponse, vs: seq<Nested>)
    requires |data| < TWO_63
    requires StartsWith(data, i, Repeated(0x0a, Wires(vs)))
    requires e == i + |Repeated(0x0a, Wires(vs))|
    ensures e <= |data|
    ensures ParseValidatorsResponseFrom(data, i, m) == ParseValidatorsResponseFrom(data, e, m.(validators := m.validators + vs))
    decreases |vs|
  {
    if vs == [] {
      assert e == i;
      assert m.(validators := m.validators + vs) == m;
    } else {
      var mid := i + |LengthDelimited(0x0a, vs[0].wire)|;
      assert StartsWith(data, i, LengthDelimited(0x0a, vs[0].wire)) && StartsWith(data, mid, Repeated(0x0a, Wires(vs[1..])))
        && e == mid + |Repeated(0x0a, Wires(vs[1..]))| by {
        WiresTail(vs);
        RepeatedSplit(data, i, mid, e, 0x0a, Wires(vs));
      }
      var m1 := m.(validators := m.validators + [vs[0]]);
      assert ParseValidatorsResponseFrom(data, i, m) == ParseValidatorsResponseFrom(data, mid, m1) by {
        ParseValidatorsResponseOfValidator(data, i, mid, m, vs[0]);
      }
      ParseValidatorsResponseOfValidators(data, mid, e, m1, vs[1..]);
      AppendFirst(m.validators, vs);
    }
  }

  /** Field 2, when there, is merged into the pagination. */
  lemma ParseValidatorsResponseOfPagination(data: seq<byte>, i: nat, e: nat, m: QueryValidatorsResponse, p: Option<Nested>)
    requires |data| < TWO_63
    requires StartsWith(data, i, OptionalField(0x12, p))
    requires e == i + |OptionalField(0x12, p)|
    ensures ParseValidatorsResponseFrom(data, i, m) == ParseValidatorsResponseFrom(data, e, m.(pagination := MergePagination(m.pagination, p)))
  {
    if p.Some? {
      ReadBodyOfField(data, i, 0x12, p.value.wire, "Pagination", "QueryValidatorsResponse");
      ValidatorsResponseStep(data, i, m, e, m.(pagination := MergePagination(m.pagination, p)));
    }
  }

  lemma ParseValidatorsResponseOfEncoding(data: seq<byte>, i: nat, e: nat, m: QueryValidatorsResponse, x: QueryValidatorsResponse)
    requires |data| < TWO_63
    requires StartsWith(data, i, EncodeValidatorsResponse(x))
    requires e == i + |EncodeValidatorsResponse(x)|
    ensures e <= |data|
    ensures ParseValidatorsResponseFrom(data, i, m) == ParseValidatorsResponseFrom(data, e, MergeValidatorsResponse(m, x))
  {
    var validators, pagination := Repeated(0x0a, Wires(x.validators)), OptionalField(0x12, x.pagination);
    var mid := i + |validators|;
    assert StartsWith(data, i, validators) && StartsWith(data, mid, pagination) && e == mid + |pagination| by {
      StartsWithSplit(data, i, validators, pagination);
    }
    var m1 := m.(validators := m.validators + x.validators);
    assert ParseValidatorsResponseFrom(data, i, m) == ParseValidatorsResponseFrom(data, mid, m1) by {
      ParseValidatorsResponseOfValidators(data, i, mid, m, x.validators);
    }
    assert m1.(pagination := MergePagination(m1.pagination, x.pagination)) == MergeValidatorsResponse(m, x);
    ParseValidatorsResponseOfPagination(data, mid, e, m1, x.pagination);
  }

  /** Round trip: the validators come back in order after the receiver's,
      the pagination as it was written. */
  lemma ValidatorsResponseRoundTrip(x: QueryValidatorsResponse, m: QueryValidatorsResponse)
    requires |EncodeValidatorsResponse(x)| < TWO_63
    ensures ParseValidatorsResponse(EncodeValidatorsResponse(x), m) == Decoded(MergeValidatorsResponse(m, x), None)
    ensures ParseValidatorsResponse(EncodeValidatorsResponse(x), EmptyValidatorsResponse) == Decoded(x, None)
  {
    StartsWithWhole(EncodeValidatorsResponse(x));
    ParseValidatorsResponseOfEncoding(EncodeValidatorsResponse(x), 0, |EncodeValidatorsResponse(x)|, m, x);
    ParseValidatorsResponseOfEncoding(EncodeValidatorsResponse(x), 0, |EncodeValidatorsResponse(x)|, EmptyValidatorsResponse, x);
  }

  /** Two responses one after the other are read as two merges: all the
      validators in order, and the two paginations merged. */
  lemma ValidatorsResponseConcatenation(x1: QueryValidatorsResponse, x2: QueryValidatorsResponse, m: QueryValidatorsResponse)
    requires |EncodeValidatorsResponse(x1)| + |EncodeValidatorsResponse(x2)| < TWO_63
    ensures ParseValidatorsResponse(EncodeValidatorsResponse(x1) + EncodeValidatorsResponse(x2), m) ==
      Decoded(MergeValidatorsResponse(MergeValidatorsResponse(m, x1), x2), None)
  {
    var data := EncodeValidatorsResponse(x1) + EncodeValidatorsResponse(x2);
    StartsWithPrefix(EncodeValidatorsResponse(x1), EncodeValidatorsResponse(x2));
    StartsWithAfter(EncodeValidatorsResponse(x1), EncodeValidatorsResponse(x2));
    ParseValidatorsResponseOfEncoding(data, 0, |EncodeValidatorsResponse(x1)|, m, x1);
    ParseValidatorsResponseOfEncoding(data, |EncodeValidatorsResponse(x1)|, |data|, MergeValidatorsResponse(m, x1), x2);
  }

  /** A field numbered above 2 is stepped over whole and changes nothing. */
  lemma ValidatorsResponseSkipsUnknownField(data: seq<byte>, i: nat, e: nat, m: QueryValidatorsResponse, f: Field)
    requires |data| < TWO_63 && WellFormed(f) && f.number > 2
    requires StartsWith(data, i, EncodeField(f))
    requires e == i + |EncodeField(f)|
    ensures e <= |data|
    ensures ParseValidatorsResponseFrom(data, i, m) == ParseValidatorsResponseFrom(data, e, m)
  {
    ReadKeyOfField(data, i, f, "QueryValidatorsResponse");
    SkipUnknownOfEncoding(data, i, f);
    ValidatorsResponseStep(data, i, m, e, m);
  }

  lemma {:induction false} ValidatorsResponseSkipsUnknownFields(data: seq<byte>, i: nat, e: nat, m: QueryValidatorsResponse, fs: seq<Field>)
    requires |data| < TWO_63 && AllNumberedAbove(fs, 2)
    requires StartsWith(data, i, EncodeFields(fs))
    requires e == i + |EncodeFields(fs)|
    ensures e <= |data|
    ensures ParseValidatorsResponseFrom(data, i, m) == ParseValidatorsResponseFrom(data, e, m)
    decreases |fs|
  {
    if fs == [] {
      assert e == i;
    } else {
      var head, tail := EncodeField(fs[0]), EncodeFields(fs[1..]);
      var mid := i + |head|;
      assert StartsWith(data, i, head) && StartsWith(data, mid, tail) && e == mid + |tail| by {
        assert EncodeFields(fs) == head + tail;
        StartsWithSplit(data, i, head, tail);
      }
      AllNumberedAboveTail(fs, 2);
      assert ParseValidatorsResponseFrom(data, i, m) == ParseValidatorsResponseFrom(data, mid, m) by {
        ValidatorsResponseSkipsUnknownField(data, i, mid, m, fs[0]);
      }
      ValidatorsResponseSkipsUnknownFields(data, mid, e, m, fs[1..]);
    }
  }

  /** Forward compatibility: fields of a newer response, written after the
      known ones, do not change what is read. */
  lemma ValidatorsResponseIgnoresNewerFields(x: QueryValidatorsResponse, fs: seq<Field>, m: QueryValidatorsResponse)
    requires |EncodeValidatorsResponse(x)| + |EncodeFields(fs)| < TWO_63 && AllNumberedAbove(fs, 2)
    ensures ParseValidatorsResponse(EncodeValidatorsResponse(x) + EncodeFields(fs), m) == Decoded(MergeValidatorsResponse(m, x), None)
  {
    var data := EncodeValidatorsResponse(x) + EncodeFields(fs);
    StartsWithPrefix(EncodeValidatorsResponse(x), EncodeFields(fs));
    StartsWithAfter(EncodeValidatorsResponse(x), EncodeFields(fs));
    ParseValidatorsResponseOfEncoding(data, 0, |EncodeValidatorsResponse(x)|, m, x);
    ValidatorsResponseSkipsUnknownFields(data, |EncodeValidatorsResponse(x)|, |data|, MergeValidatorsResponse(m, x), fs);
  }

  /** The field names of the wrong-wire-type errors. */
  function ValidatorsResponseFieldName(n: int): string
  {
    if n == 1 then "Validators" else "Pagination"
  }

  lemma ValidatorsResponseRejectsWrongWireType(n: nat, wireType: nat, rest: seq<byte>, m: QueryValidatorsResponse)
    requires 1 <= n <= 2 && wireType < 8 && wireType != 4 && wireType != 2
    ensures ParseValidatorsResponse(KeyBytes(n, wireType) + rest, m) ==
      Decoded(m, Some(WrongWireType(ValidatorsResponseFieldName(n), wireType)))
  {
    StartsWithPrefix(KeyBytes(n, wireType), rest);
    ReadKeyOfKeyBytes(KeyBytes(n, wireType) + rest, 0, n, wireType, "QueryValidatorsResponse");
  }

  // ---------------------------------------------------------------------
  // QueryValidatorRequest

  /** A non-empty address on the wire replaces the receiver's. */
  function MergeValidatorRequest(m: QueryValidatorRequest, x: QueryValidatorRequest): (r: QueryValidatorRequest)
    ensures m == EmptyValidatorRequest ==> r == x
  {
    if |x.validatorAddr| > 0 then x else m
  }

  lemma ValidatorRequestStep(data: seq<byte>, i: nat, m: QueryValidatorRequest, e: nat, m': QueryValidatorRequest)
    requires i < |data|
    requires ValidatorRequestField(data, i, m).err.None?
    requires ValidatorRequestField(data, i, m).next == e && ValidatorRequestField(data, i, m).msg == m'
    ensures e <= |data|
    ensures ParseValidatorRequestFrom(data, i, m) == ParseValidatorRequestFrom(data, e, m')
  {
  }

  lemma ParseValidatorRequestOfEncoding(data: seq<byte>, i: nat, e: nat, m: QueryValidatorRequest, x: QueryValidatorRequest)
    requires |data| < TWO_63
    requires StartsWith(data, i, EncodeValidatorRequest(x))
    requires e == i + |EncodeValidatorRequest(x)|
    ensures e <= |data|
    ensures ParseValidatorRequestFrom(data, i, m) == ParseValidatorRequestFrom(data, e, MergeValidatorRequest(m, x))
  {
    if |x.validatorAddr| > 0 {
      ReadBodyOfField(data, i, 0x0a, x.validatorAddr, "ValidatorAddr", "QueryValidatorRequest");
      ValidatorRequestStep(data, i, m, e, x);
    }
  }

  /** Round trip: Unmarshal recovers the address. */
  lemma ValidatorRequestRoundTrip(x: QueryValidatorRequest, m: QueryValidatorRequest)
    requires |EncodeValidatorRequest(x)| < TWO_63
    ensures ParseValidatorRequest(EncodeValidatorRequest(x), m) == Decoded(MergeValidatorRequest(m, x), None)
    ensures ParseValidatorRequest(EncodeValidatorRequest(x), EmptyValidatorRequest) == Decoded(x, None)
  {
    StartsWithWhole(EncodeValidatorRequest(x));
    ParseValidatorRequestOfEncoding(EncodeValidatorRequest(x), 0, |EncodeValidatorRequest(x)|, m, x);
    ParseValidatorRequestOfEncoding(EncodeValidatorRequest(x), 0, |EncodeValidatorRequest(x)|, EmptyValidatorRequest, x);
  }

  /** For a repeated string field the last occurrence wins. */
  lemma ValidatorRequestConcatenation(x1: QueryValidatorRequest, x2: QueryValidatorRequest, m: QueryValidatorRequest)
    requires |EncodeValidatorRequest(x1)| + |EncodeValidatorRequest(x2)| < TWO_63
    ensures ParseValidatorRequest(EncodeValidatorRequest(x1) + EncodeValidatorRequest(x2), m) ==
      Decoded(MergeValidatorRequest(MergeValidatorRequest(m, x1), x2), None)
  {
    var data := EncodeValidatorRequest(x1) + EncodeValidatorRequest(x2);
    StartsWithPrefix(EncodeValidatorRequest(x1), EncodeValidatorRequest(x2));
    StartsWithAfter(EncodeValidatorRequest(x1), EncodeValidatorRequest(x2));
    ParseValidatorRequestOfEncoding(data, 0, |EncodeValidatorRequest(x1)|, m, x1);
    ParseValidatorRequestOfEncoding(data, |EncodeValidatorRequest(x1)|, |data|, MergeValidatorRequest(m, x1), x2);
  }

  // ---------------------------------------------------------------------
  // QueryValidatorResponse

  function MergeValidatorResponse(m: QueryValidatorResponse, x: QueryValidatorResponse): (r: QueryValidatorResponse)
    ensures m == EmptyValidatorResponse ==> r == x
  {
    QueryValidatorResponse(MergeNested(m.validator, x.validator.wire))
  }

  lemma ValidatorResponseStep(data: seq<byte>, i: nat, m: QueryValidatorResponse, e: nat, m': QueryValidatorResponse)
    requires i < |data|
    requires ValidatorResponseField(data, i, m).err.None?
    requires ValidatorResponseField(data, i, m).next == e && ValidatorResponseField(data, i, m).msg == m'
    ensures e <= |data|
    ensures ParseValidatorResponseFrom(data, i, m) == ParseValidatorResponseFrom(data, e, m')
  {
  }

  lemma ParseValidatorResponseOfEncoding(data: seq<byte>, i: nat, e: nat, m: QueryValidatorResponse, x: QueryValidatorResponse)
    requires |data| < TWO_63
    requires StartsWith(data, i, EncodeValidatorResponse(x))
    requires e == i + |EncodeValidatorResponse(x)|
    ensures e <= |data|
    ensures ParseValidatorResponseFrom(data, i, m) == ParseValidatorResponseFrom(data, e, MergeValidatorResponse(m, x))
  {
    ReadBodyOfField(data, i, 0x0a, x.validator.wire, "Validator", "QueryValidatorResponse");
    ValidatorResponseStep(data, i, m, e, MergeValidatorResponse(m, x));
  }

  lemma ValidatorResponseRoundTrip(x: QueryValidatorResponse, m: QueryValidatorResponse)
    requires |EncodeValidatorResponse(x)| < TWO_63
    ensures ParseValidatorResponse(EncodeValidatorResponse(x), m) == Decoded(MergeValidatorResponse(m, x), None)
    ensures ParseValidatorResponse(EncodeValidatorResponse(x), EmptyValidatorResponse) == Decoded(x, None)
  {
    StartsWithWhole(EncodeValidatorResponse(x));
    ParseValidatorResponseOfEncoding(EncodeValidatorResponse(x), 0, |EncodeValidatorResponse(x)|, m, x);
    ParseValidatorResponseOfEncoding(EncodeValidatorResponse(x), 0, |EncodeValidatorResponse(x)|, EmptyValidatorResponse, x);
  }

  // ---------------------------------------------------------------------
  // QueryParamsRequest

  lemma ParamsRequestStep(data: seq<byte>, i: nat, m: QueryParamsRequest, e: nat)
    requires i < |data|
    requires ParamsRequestField(data, i, m).err.None? && ParamsRequestField(data, i, m).next == e
    ensures e <= |data|
    ensures ParseParamsRequestFrom(data, i, m) == ParseParamsRequestFrom(data, e, m)
  {
  }

  lemma ParamsRequestSkipsField(data: seq<byte>, i: nat, e: nat, m: QueryParamsRequest, f: Field)
    requires |data| < TWO_63 && WellFormed(f)
    requires StartsWith(data, i, EncodeField(f))
    requires e == i + |EncodeField(f)|
    ensures e <= |data|
    ensures ParseParamsRequestFrom(data, i, m) == ParseParamsRequestFrom(data, e, m)
  {
    ReadKeyOfField(data, i, f, "QueryParamsRequest");
    SkipUnknownOfEncoding(data, i, f);
    ParamsRequestStep(data, i, m, e);
  }

  lemma {:induction false} ParamsRequestSkipsFields(data: seq<byte>, i: nat, e: nat, m: QueryParamsRequest, fs: seq<Field>)
    requires |data| < TWO_63 && AllNumberedAbove(fs, 0)
    requires StartsWith(data, i, EncodeFields(fs))
    requires e == i + |EncodeFields(fs)|
    ensures e <= |data|
    ensures ParseParamsRequestFrom(data, i, m) == ParseParamsRequestFrom(data, e, m)
    decreases |fs|
  {
    if fs == [] {
      assert e == i;
    } else {
      var head, tail := EncodeField(fs[0]), EncodeFields(fs[1..]);
      var mid := i + |head|;
      assert StartsWith(data, i, head) && StartsWith(data, mid, tail) && e == mid + |tail| by {
        assert EncodeFields(fs) == head + tail;
        StartsWithSplit(data, i, head, tail);
      }
      AllNumberedAboveTail(fs, 0);
      assert ParseParamsRequestFrom(data, i, m) == ParseParamsRequestFrom(data, mid, m) by {
        ParamsRequestSkipsField(data, i, mid, m, fs[0]);
      }
      ParamsRequestSkipsFields(data, mid, e, m, fs[1..]);
    }
  }

  /** QueryParamsRequest declares no field: its Unmarshal accepts any
      sequence of well-formed fields and ignores every one. */
  lemma ParamsRequestIgnoresAllFields(fs: seq<Field>, m: QueryParamsRequest)
    requires |EncodeFields(fs)| < TWO_63 && AllNumberedAbove(fs, 0)
    ensures ParseParamsRequest(EncodeFields(fs), m) == Decoded(m, None)
  {
    StartsWithWhole(EncodeFields(fs));
    ParamsRequestSkipsFields(EncodeFields(fs), 0, |EncodeFields(fs)|, m, fs);
  }

  // ---------------------------------------------------------------------
  // QueryParamsResponse

  function MergeParamsResponse(m: QueryParamsResponse, x: QueryParamsResponse): (r: QueryParamsResponse)
    ensures m == EmptyParamsResponse ==> r == x
  {
    QueryParamsResponse(MergeNested(m.params, x.params.wire))
  }

  lemma ParamsResponseStep(data: seq<byte>, i: nat, m: QueryParamsResponse, e: nat, m': QueryParamsResponse)
    requires i < |data|
    requires ParamsResponseField(data, i, m).err.None?
    requires ParamsResponseField(data, i, m).next == e && ParamsResponseField(data, i, m).msg == m'
    ensures e <= |data|
    ensures ParseParamsResponseFrom(data, i, m) == ParseParamsResponseFrom(data, e, m')
  {
  }

  lemma ParseParamsResponseOfEncoding(data: seq<byte>, i: nat, e: nat, m: QueryParamsResponse, x: QueryParamsResponse)
    requires |data| < TWO_63
    requires StartsWith(data, i, EncodeParamsResponse(x))
    requires e == i + |EncodeParamsResponse(x)|
    ensures e <= |data|
    ensures ParseParamsResponseFrom(data, i, m) == ParseParamsResponseFrom(data, e, MergeParamsResponse(m, x))
  {
    ReadBodyOfField(data, i, 0x0a, x.params.wire, "Params", "QueryParamsResponse");
    ParamsResponseStep(data, i, m, e, MergeParamsResponse(m, x));
  }

  lemma ParamsResponseRoundTrip(x: QueryParamsResponse, m: QueryParamsResponse)
    requires |EncodeParamsResponse(x)| < TWO_63
    ensures ParseParamsResponse(EncodeParamsResponse(x), m) == Decoded(MergeParamsResponse(m, x), None)
    ensures ParseParamsResponse(EncodeParamsResponse(x), EmptyParamsResponse) == Decoded(x, None)
  {
    StartsWithWhole(EncodeParamsResponse(x));
    ParseParamsResponseOfEncoding(EncodeParamsResponse(x), 0, |EncodeParamsResponse(x)|, m, x);
    ParseParamsResponseOfEncoding(EncodeParamsResponse(x), 0, |EncodeParamsResponse(x)|, EmptyParamsResponse, x);
  }

  // ---------------------------------------------------------------------
  // Sizes

  /** The responses always carry their embedded message, so they take at
      least two bytes even when it is empty; an empty request writes
      nothing. */
  lemma QueryEncodingSizes(vr: QueryValidatorResponse, pr: QueryParamsResponse, a: QueryValidatorRequest, p: QueryParamsRequest)
    ensures |EncodeValidatorResponse(vr)| >= 2 && |EncodeParamsResponse(pr)| >= 2
    ensures EncodeValidatorResponse(EmptyValidatorResponse) == [0x0a, 0x00]
    ensures EncodeParamsResponse(EmptyParamsResponse) == [0x0a, 0x00]
    ensures EncodeValidatorRequest(a) == [] <==> |a.validatorAddr| == 0
    ensures EncodeParamsRequest(p) == []
    ensures EncodeValidatorsRequest(EmptyValidatorsRequest) == [] && EncodeValidatorsResponse(EmptyValidatorsResponse) == []
  {
    assert |VarintBytes(|vr.validator.wire|)| >= 1;
    assert |VarintBytes(|pr.params.wire|)| >= 1;
  }
}
