/** The binary codec of the op_child module's query messages, as gogoproto
    generates it: Size, MarshalToSizedBuffer, Marshal and Unmarshal of the
    requests and responses of the Validators, Validator and Params queries. */
module Query {
  import opened Base
  import opened Varint
  import opened Framing
  import opened Skip

  /** Validator, Params, PageRequest and PageResponse belong to codecs that
      are not part of this model; they are carried as their encodings. A
      pointer field that may be nil is an Option. */
  datatype QueryValidatorsRequest = QueryValidatorsRequest(pagination: Option<Nested>)
  datatype QueryValidatorsResponse = QueryValidatorsResponse(validators: seq<Nested>, pagination: Option<Nested>)
  datatype QueryValidatorRequest = QueryValidatorRequest(validatorAddr: seq<byte>)
  datatype QueryValidatorResponse = QueryValidatorResponse(validator: Nested)
  datatype QueryParamsRequest = QueryParamsRequest
  datatype QueryParamsResponse = QueryParamsResponse(params: Nested)

  /** The zero values Unmarshal starts from when it allocates a message. */
  const EmptyValidatorsRequest := QueryValidatorsRequest(None)
  const EmptyValidatorsResponse := QueryValidatorsResponse([], None)
  const EmptyValidatorRequest := QueryValidatorRequest([])
  const EmptyValidatorResponse := QueryValidatorResponse(Nested([]))
  const EmptyParamsResponse := QueryParamsResponse(Nested([]))

  // ---------------------------------------------------------------------
  // The encoding, in the order the fields appear on the wire.

  /** An embedded message behind a pointer: written, even when empty, unless
      the pointer is nil. */
  function OptionalField(tag: byte, o: Option<Nested>): (r: seq<byte>)
    ensures o.None? <==> r == []
  {
    if o.None? then [] else LengthDelimited(tag, o.value.wire)
  }

  /** Field 1 (pagination, 0x0a) when set. */
  function EncodeValidatorsRequest(m: QueryValidatorsRequest): seq<byte>
  {
    OptionalField(0x0a, m.pagination)
  }

  /** One field 1 (0x0a) per validator, then field 2 (pagination, 0x12)
      when set. */
  function EncodeValidatorsResponse(m: QueryValidatorsResponse): seq<byte>
  {
    Repeated(0x0a, Wires(m.validators)) + OptionalField(0x12, m.pagination)
  }

  /** Field 1 (validator_addr, 0x0a) when non-empty. */
  function EncodeValidatorRequest(m: QueryValidatorRequest): seq<byte>
  {
    StringField(0x0a, m.validatorAddr)
  }

  /** Field 1 (validator, 0x0a), always: the field is not nullable. */
  function EncodeValidatorResponse(m: QueryValidatorResponse): seq<byte>
  {
    LengthDelimited(0x0a, m.validator.wire)
  }

  /** No fields. */
  function EncodeParamsRequest(m: QueryParamsRequest): seq<byte>
  {
    []
  }

  /** Field 1 (params, 0x0a), always: the field is not nullable. */
  function EncodeParamsResponse(m: QueryParamsResponse): seq<byte>
  {
    LengthDelimited(0x0a, m.params.wire)
  }

  // ---------------------------------------------------------------------
  // Size

  /** The size of an embedded message field with a one-byte key. */
  method SizeNested(n: Nested) returns (size: nat)
    ensures size == |LengthDelimited(0x0a, n.wire)|
  {
    var l := |n.wire|;
    VarintBytesLength(l);
    size := 1 + l + Sov(l);
  }

  /** QueryValidatorsRequest.Size. */
  method SizeValidatorsRequest(m: QueryValidatorsRequest) returns (n: nat)
    ensures n == |EncodeValidatorsRequest(m)|
  {
    n := 0;
    if m.pagination.Some? {
      n := SizeNested(m.pagination.value);
    }
  }

  /** QueryValidatorsResponse.Size: the validators element by element, then
      the pagination. */
  method SizeValidatorsResponse(m: QueryValidatorsResponse) returns (n: nat)
    ensures n == |EncodeValidatorsResponse(m)|
  {
    n := 0;
    var vs := m.validators;
    for k := 0 to |vs|
      invariant n == |Repeated(0x0a, Wires(vs)[..k])|
    {
      var l := SizeNested(vs[k]);
      RepeatedUpTo(0x0a, Wires(vs), k);
      n := n + l;
    }
    assert Wires(vs)[..|vs|] == Wires(vs);
    if m.pagination.Some? {
      var l := |m.pagination.value.wire|;
      VarintBytesLength(l);
      n := n + 1 + l + Sov(l);
    }
  }

  /** QueryValidatorRequest.Size. */
  method SizeValidatorRequest(m: QueryValidatorRequest) returns (n: nat)
    ensures n == |EncodeValidatorRequest(m)|
  {
    n := 0;
    var l := |m.validatorAddr|;
    if l > 0 {
      VarintBytesLength(l);
      n := 1 + l + Sov(l);
    }
  }

  /** QueryValidatorResponse.Size. */
  method SizeValidatorResponse(m: QueryValidatorResponse) returns (n: nat)
    ensures n == |EncodeValidatorResponse(m)|
  {
    n := SizeNested(m.validator);
  }

  /** QueryParamsRequest.Size. */
  method SizeParamsRequest(m: QueryParamsRequest) returns (n: nat)
    ensures n == |EncodeParamsRequest(m)|
  {
    n := 0;
  }

  /** QueryParamsResponse.Size. */
  method SizeParamsResponse(m: QueryParamsResponse) returns (n: nat)
    ensures n == |EncodeParamsResponse(m)|
  {
    n := SizeNested(m.params);
  }

  // ---------------------------------------------------------------------
  // MarshalToSizedBuffer and Marshal. MarshalX(m, a, end) is
  // m.MarshalToSizedBuffer(dAtA[:end]): it writes the encoding so that it
  // ends just before end, last field first, and returns its length.

  /** A pointer field written backwards, or nothing when it is nil. */
  method PutOptionalField(a: array<byte>, offset: nat, tag: byte, o: Option<Nested>) returns (base: nat)
    requires a.Length < TWO_63
    requires |OptionalField(tag, o)| <= offset <= a.Length
    modifies a
    ensures base == offset - |OptionalField(tag, o)|
    ensures Written(old(a[..]), a[..], base, offset, OptionalField(tag, o))
  {
    base := offset;
    if o.Some? {
      base := PutLengthDelimited(a, offset, tag, o.value.wire);
    }
  }

  /** QueryValidatorsRequest.MarshalToSizedBuffer. */
  method MarshalValidatorsRequest(m: QueryValidatorsRequest, a: array<byte>, end: nat) returns (n: nat)
    requires a.Length < TWO_63
    requires |EncodeValidatorsRequest(m)| <= end <= a.Length
    modifies a
    ensures n == |EncodeValidatorsRequest(m)|
    ensures Written(old(a[..]), a[..], end - n, end, EncodeValidatorsRequest(m))
  {
    var i := PutOptionalField(a, end, 0x0a, m.pagination);
    n := end - i;
  }

  /** QueryValidatorsResponse.MarshalToSizedBuffer: the pagination, then the
      validators from the last to the first. */
  method MarshalValidatorsResponse(m: QueryValidatorsResponse, a: array<byte>, end: nat) returns (n: nat)
    requires a.Length < TWO_63
    requires |EncodeValidatorsResponse(m)| <= end <= a.Length
    modifies a
    ensures n == |EncodeValidatorsResponse(m)|
    ensures Written(old(a[..]), a[..], end - n, end, EncodeValidatorsResponse(m))
  {
    ghost var s0 := a[..];
    var i := PutOptionalField(a, end, 0x12, m.pagination);
    ghost var s1, mid := a[..], i;
    i := PutRepeated(a, i, 0x0a, Wires(m.validators));
    WrittenJoin(s0, s1, a[..], i, mid, end, Repeated(0x0a, Wires(m.validators)), OptionalField(0x12, m.pagination));
    n := end - i;
  }

  /** QueryValidatorRequest.MarshalToSizedBuffer. */
  method MarshalValidatorRequest(m: QueryValidatorRequest, a: array<byte>, end: nat) returns (n: nat)
    requires a.Length < TWO_63
    requires |EncodeValidatorRequest(m)| <= end <= a.Length
    modifies a
    ensures n == |EncodeValidatorRequest(m)|
    ensures Written(old(a[..]), a[..], end - n, end, EncodeValidatorRequest(m))
  {
    var i := PutStringField(a, end, 0x0a, m.validatorAddr);
    n := end - i;
  }

  /** QueryValidatorResponse.MarshalToSizedBuffer. */
  method MarshalValidatorResponse(m: QueryValidatorResponse, a: array<byte>, end: nat) returns (n: nat)
    requires a.Length < TWO_63
    requires |EncodeValidatorResponse(m)| <= end <= a.Length
    modifies a
    ensures n == |EncodeValidatorResponse(m)|
    ensures Written(old(a[..]), a[..], end - n, end, EncodeValidatorResponse(m))
  {
    var i := PutLengthDelimited(a, end, 0x0a, m.validator.wire);
    n := end - i;
  }

  /** QueryParamsRequest.MarshalToSizedBuffer: writes nothing. */
  method MarshalParamsRequest(m: QueryParamsRequest, a: array<byte>, end: nat) returns (n: nat)
    requires end <= a.Length
    ensures n == |EncodeParamsRequest(m)|
    ensures Written(old(a[..]), a[..], end - n, end, EncodeParamsRequest(m))
  {
    n := 0;
  }

  /** QueryParamsResponse.MarshalToSizedBuffer. */
  method MarshalParamsResponse(m: QueryParamsResponse, a: array<byte>, end: nat) returns (n: nat)
    requires a.Length < TWO_63
    requires |EncodeParamsResponse(m)| <= end <= a.Length
    modifies a
    ensures n == |EncodeParamsResponse(m)|
    ensures Written(old(a[..]), a[..], end - n, end, EncodeParamsResponse(m))
  {
    var i := PutLengthDelimited(a, end, 0x0a, m.params.wire);
    n := end - i;
  }

  /** QueryValidatorsRequest.Marshal: a buffer of Size bytes, filled. */
  method ValidatorsRequestMarshal(m: QueryValidatorsRequest) returns (data: seq<byte>)
    requires |EncodeValidatorsRequest(m)| < TWO_63
    ensures data == EncodeValidatorsRequest(m)
  {
    var size := SizeValidatorsRequest(m);
    var a := new byte[size];
    var n := MarshalValidatorsRequest(m, a, size);
    data := a[..n];
  }

  /** QueryValidatorsResponse.Marshal. */
  method ValidatorsResponseMarshal(m: QueryValidatorsResponse) returns (data: seq<byte>)
    requires |EncodeValidatorsResponse(m)| < TWO_63
    ensures data == EncodeValidatorsResponse(m)
  {
    var size := SizeValidatorsResponse(m);
    var a := new byte[size];
    var n := MarshalValidatorsResponse(m, a, size);
    data := a[..n];
  }

  /** QueryValidatorRequest.Marshal. */
  method ValidatorRequestMarshal(m: QueryValidatorRequest) returns (data: seq<byte>)
    requires |EncodeValidatorRequest(m)| < TWO_63
    ensures data == EncodeValidatorRequest(m)
  {
    var size := SizeValidatorRequest(m);
    var a := new byte[size];
    var n := MarshalValidatorRequest(m, a, size);
    data := a[..n];
  }

  /** QueryValidatorResponse.Marshal. */
  method ValidatorResponseMarshal(m: QueryValidatorResponse) returns (data: seq<byte>)
    requires |EncodeValidatorResponse(m)| < TWO_63
    ensures data == EncodeValidatorResponse(m)
  {
    var size := SizeValidatorResponse(m);
    var a := new byte[size];
    var n := MarshalValidatorResponse(m, a, size);
    data := a[..n];
  }

  /** QueryParamsRequest.Marshal. */
  method ParamsRequestMarshal(m: QueryParamsRequest) returns (data: seq<byte>)
    ensures data == EncodeParamsRequest(m)
  {
    var size := SizeParamsRequest(m);
    var a := new byte[size];
    var n := MarshalParamsRequest(m, a, size);
    data := a[..n];
  }

  /** QueryParamsResponse.Marshal. */
  method ParamsResponseMarshal(m: QueryParamsResponse) returns (data: seq<byte>)
    requires |EncodeParamsResponse(m)| < TWO_63
    ensures data == EncodeParamsResponse(m)
  {
    var size := SizeParamsResponse(m);
    var a := new byte[size];
    var n := MarshalParamsResponse(m, a, size);
    data := a[..n];
  }

  // ---------------------------------------------------------------------
  // Unmarshal. Each loop turn reads a key, refuses wire type 4 and field
  // numbers that are not positive, and dispatches on the field number.

  /** The checks of a length-delimited field whose key ends at j: the wire
      type must be 2 and the length prefix must fit the input. On success,
      the body and the index just after it (postIndex). */
  function ReadBody(data: seq<byte>, j: nat, wireType: nat, field: string): (r: Result<At<seq<byte>>>)
    ensures r.Ok? ==> j < r.value.next <= |data|
    ensures wireType != 2 ==> r == Err(WrongWireType(field, wireType))
  {
    if wireType != 2 then Err(WrongWireType(field, wireType))
    else
      var length := ReadLength(data, j);
      if length.Err? then Err(length.error)
      else Ok(At(Body(data, length.value), length.value.next + length.value.value))
  }

  /** `if m.Pagination == nil { m.Pagination = &PageRequest{} }`: the value
      the nested Unmarshal merges into. */
  function Allocated(o: Option<Nested>): (r: Nested)
    ensures o.None? ==> r == Nested([])
    ensures o.Some? ==> r == o.value
  {
    if o.None? then Nested([]) else o.value
  }

  /** The default arm: skipQuery steps over a field this message does not
      declare. */
  function Skipped<M>(data: seq<byte>, i: nat, m: M): (s: Step<M>)
    requires i <= |data|
    ensures s.msg == m
    ensures s.err.None? ==> i < s.next <= |data|
  {
    var skip := SkipUnknown(data, i);
    if skip.Err? then Step(m, i, Some(skip.error)) else Step(m, skip.value, None)
  }

  /** One turn of QueryValidatorsRequest.Unmarshal at data[i]. */
  function ValidatorsRequestField(data: seq<byte>, i: nat, m: QueryValidatorsRequest): (s: Step<QueryValidatorsRequest>)
    requires i <= |data|
    ensures s.err.None? ==> i < s.next <= |data|
  {
    var key := ReadKey(data, i, "QueryValidatorsRequest");
    if key.Err? then Step(m, i, Some(key.error))
    else
      var k := key.value.value;
      if k.fieldNum == 1 then
        var body := ReadBody(data, key.value.next, k.wireType, "Pagination");
        if body.Err? then Step(m, i, Some(body.error))
        else Step(m.(pagination := Some(MergeNested(Allocated(m.pagination), body.value.value))), body.value.next, None)
      else Skipped(data, i, m)
  }

  /** One turn of QueryValidatorsResponse.Unmarshal at data[i]. */
  function ValidatorsResponseField(data: seq<byte>, i: nat, m: QueryValidatorsResponse): (s: Step<QueryValidatorsResponse>)
    requires i <= |data|
    ensures s.err.None? ==> i < s.next <= |data|
  {
    var key := ReadKey(data, i, "QueryValidatorsResponse");
    if key.Err? then Step(m, i, Some(key.error))
    else
      var k := key.value.value;
      if k.fieldNum == 1 then
        var body := ReadBody(data, key.value.next, k.wireType, "Validators");
        if body.Err? then Step(m, i, Some(body.error))
        else Step(m.(validators := m.validators + [MergeNested(Nested([]), body.value.value)]), body.value.next, None)
      else if k.fieldNum == 2 then
        var body := ReadBody(data, key.value.next, k.wireType, "Pagination");
        if body.Err? then Step(m, i, Some(body.error))
        else Step(m.(pagination := Some(MergeNested(Allocated(m.pagination), body.value.value))), body.value.next, None)
      else Skipped(data, i, m)
  }

  /** One turn of QueryValidatorRequest.Unmarshal at data[i]. */
  function ValidatorRequestField(data: seq<byte>, i: nat, m: QueryValidatorRequest): (s: Step<QueryValidatorRequest>)
    requires i <= |data|
    ensures s.err.None? ==> i < s.next <= |data|
  {
    var key := ReadKey(data, i, "QueryValidatorRequest");
    if key.Err? then Step(m, i, Some(key.error))
    else
      var k := key.value.value;
      if k.fieldNum == 1 then
        var body := ReadBody(data, key.value.next, k.wireType, "ValidatorAddr");
        if body.Err? then Step(m, i, Some(body.error))
        else Step(m.(validatorAddr := body.value.value), body.value.next, None)
      else Skipped(data, i, m)
  }

  /** One turn of QueryValidatorResponse.Unmarshal at data[i]. */
  function ValidatorResponseField(data: seq<byte>, i: nat, m: QueryValidatorResponse): (s: Step<QueryValidatorResponse>)
    requires i <= |data|
    ensures s.err.None? ==> i < s.next <= |data|
  {
    var key := ReadKey(data, i, "QueryValidatorResponse");
    if key.Err? then Step(m, i, Some(key.error))
    else
      var k := key.value.value;
      if k.fieldNum == 1 then
        var body := ReadBody(data, key.value.next, k.wireType, "Validator");
        if body.Err? then Step(m, i, Some(body.error))
        else Step(m.(validator := MergeNested(m.validator, body.value.value)), body.value.next, None)
      else Skipped(data, i, m)
  }

  /** One turn of QueryParamsRequest.Unmarshal at data[i]: every field is
      unknown. */
  function ParamsRequestField(data: seq<byte>, i: nat, m: QueryParamsRequest): (s: Step<QueryParamsRequest>)
    requires i <= |data|
    ensures s.err.None? ==> i < s.next <= |data|
  {
    var key := ReadKey(data, i, "QueryParamsRequest");
    if key.Err? then Step(m, i, Some(key.error))
    else Skipped(data, i, m)
  }

  /** One turn of QueryParamsResponse.Unmarshal at data[i]. */
  function ParamsResponseField(data: seq<byte>, i: nat, m: QueryParamsResponse): (s: Step<QueryParamsResponse>)
    requires i <= |data|
    ensures s.err.None? ==> i < s.next <= |data|
  {
    var key := ReadKey(data, i, "QueryParamsResponse");
    if key.Err? then Step(m, i, Some(key.error))
    else
      var k := key.value.value;
      if k.fieldNum == 1 then
        var body := ReadBody(data, key.value.next, k.wireType, "Params");
        if body.Err? then Step(m, i, Some(body.error))
        else Step(m.(params := MergeNested(m.params, body.value.value)), body.value.next, None)
      else Skipped(data, i, m)
  }

  /** The loop of each Unmarshal from data[i] on. */
  function ParseValidatorsRequestFrom(data: seq<byte>, i: nat, m: QueryValidatorsRequest): Decoded<QueryValidatorsRequest>
    requires i <= |data|
    decreases |data| - i
  {
    if i == |data| then Decoded(m, None)
    else
      var s := ValidatorsRequestField(data, i, m);
      if s.err.Some? then Decoded(s.msg, s.err) else ParseValidatorsRequestFrom(data, s.next, s.msg)
  }

  function ParseValidatorsResponseFrom(data: seq<byte>, i: nat, m: QueryValidatorsResponse): Decoded<QueryValidatorsResponse>
    requires i <= |data|
    decreases |data| - i
  {
    if i == |data| then Decoded(m, None)
    else
      var s := ValidatorsResponseField(data, i, m);
      if s.err.Some? then Decoded(s.msg, s.err) else ParseValidatorsResponseFrom(data, s.next, s.msg)
  }

  function ParseValidatorRequestFrom(data: seq<byte>, i: nat, m: QueryValidatorRequest): Decoded<QueryValidatorRequest>
    requires i <= |data|
    decreases |data| - i
  {
    if i == |data| then Decoded(m, None)
    else
      var s := ValidatorRequestField(data, i, m);
      if s.err.Some? then Decoded(s.msg, s.err) else ParseValidatorRequestFrom(data, s.next, s.msg)
  }

  function ParseValidatorResponseFrom(data: seq<byte>, i: nat, m: QueryValidatorResponse): Decoded<QueryValidatorResponse>
    requires i <= |data|
    decreases |data| - i
  {
    if i == |data| then Decoded(m, None)
    else
      var s := ValidatorResponseField(data, i, m);
      if s.err.Some? then Decoded(s.msg, s.err) else ParseValidatorResponseFrom(data, s.next, s.msg)
  }

  function ParseParamsRequestFrom(data: seq<byte>, i: nat, m: QueryParamsRequest): Decoded<QueryParamsRequest>
    requires i <= |data|
    decreases |data| - i
  {
    if i == |data| then Decoded(m, None)
    else
      var s := ParamsRequestField(data, i, m);
      if s.err.Some? then Decoded(s.msg, s.err) else ParseParamsRequestFrom(data, s.next, s.msg)
  }

  function ParseParamsResponseFrom(data: seq<byte>, i: nat, m: QueryParamsResponse): Decoded<QueryParamsResponse>
    requires i <= |data|
    decreases |data| - i
  {
    if i == |data| then Decoded(m, None)
    else
      var s := ParamsResponseField(data, i, m);
      if s.err.Some? then Decoded(s.msg, s.err) else ParseParamsResponseFrom(data, s.next, s.msg)
  }

  /** m.Unmarshal(data) for each message. */
  function ParseValidatorsRequest(data: seq<byte>, m: QueryValidatorsRequest): Decoded<QueryValidatorsRequest>
  {
    ParseValidatorsRequestFrom(data, 0, m)
  }

  function ParseValidatorsResponse(data: seq<byte>, m: QueryValidatorsResponse): Decoded<QueryValidatorsResponse>
  {
    ParseValidatorsResponseFrom(data, 0, m)
  }

  function ParseValidatorRequest(data: seq<byte>, m: QueryValidatorRequest): Decoded<QueryValidatorRequest>
  {
    ParseValidatorRequestFrom(data, 0, m)
  }

  function ParseValidatorResponse(data: seq<byte>, m: QueryValidatorResponse): Decoded<QueryValidatorResponse>
  {
    ParseValidatorResponseFrom(data, 0, m)
  }

  function ParseParamsRequest(data: seq<byte>, m: QueryParamsRequest): Decoded<QueryParamsRequest>
  {
    ParseParamsRequestFrom(data, 0, m)
  }

  function ParseParamsResponse(data: seq<byte>, m: QueryParamsResponse): Decoded<QueryParamsResponse>
  {
    ParseParamsResponseFrom(data, 0, m)
  }

  /** The wire-type check, the length prefix and the slicing of the body. */
  method DecodeBody(data: seq<byte>, j: nat, wireType: nat, field: string) returns (r: Result<At<seq<byte>>>)
    ensures r == ReadBody(data, j, wireType, field)
  {
    if wireType != 2 {
      return Err(WrongWireType(field, wireType));
    }
    var length := DecodeLength(data, j);
    if length.Err? {
      return Err(length.error);
    }
    var postIndex := length.value.next + length.value.value;
    return Ok(At(data[length.value.next..postIndex], postIndex));
  }

  /** The default arm of every switch. */
  method DecodeSkipped<M>(data: seq<byte>, i: nat, m: M) returns (s: Step<M>)
    requires i <= |data|
    ensures s == Skipped(data, i, m)
  {
    var skip := DecodeUnknown(data, i);
    if skip.Err? {
      return Step(m, i, Some(skip.error));
    }
    return Step(m, skip.value, None);
  }

  /** The body of the switch of QueryValidatorsRequest.Unmarshal. */
  method DecodeValidatorsRequestField(data: seq<byte>, i: nat, m: QueryValidatorsRequest) returns (s: Step<QueryValidatorsRequest>)
    requires i <= |data|
    ensures s == ValidatorsRequestField(data, i, m)
  {
    var key := DecodeKey(data, i, "QueryValidatorsRequest");
    if key.Err? {
      return Step(m, i, Some(key.error));
    }
    var k := key.value.value;
    if k.fieldNum == 1 {
      var body := DecodeBody(data, key.value.next, k.wireType, "Pagination");
      if body.Err? {
        return Step(m, i, Some(body.error));
      }
      var pagination := if m.pagination.None? then Nested([]) else m.pagination.value;
      return Step(m.(pagination := Some(MergeNested(pagination, body.value.value))), body.value.next, None);
    }
    s := DecodeSkipped(data, i, m);
  }

  /** The body of the switch of QueryValidatorsResponse.Unmarshal. */
  method DecodeValidatorsResponseField(data: seq<byte>, i: nat, m: QueryValidatorsResponse) returns (s: Step<QueryValidatorsResponse>)
    requires i <= |data|
    ensures s == ValidatorsResponseField(data, i, m)
  {
    var key := DecodeKey(data, i, "QueryValidatorsResponse");
    if key.Err? {
      return Step(m, i, Some(key.error));
    }
    var k := key.value.value;
    if k.fieldNum == 1 {
      var body := DecodeBody(data, key.value.next, k.wireType, "Validators");
      if body.Err? {
        return Step(m, i, Some(body.error));
      }
      return Step(m.(validators := m.validators + [MergeNested(Nested([]), body.value.value)]), body.value.next, None);
    } else if k.fieldNum == 2 {
      var body := DecodeBody(data, key.value.next, k.wireType, "Pagination");
      if body.Err? {
        return Step(m, i, Some(body.error));
      }
      var pagination := if m.pagination.None? then Nested([]) else m.pagination.value;
      return Step(m.(pagination := Some(MergeNested(pagination, body.value.value))), body.value.next, None);
    }
    s := DecodeSkipped(data, i, m);
  }

  /** The body of the switch of QueryValidatorRequest.Unmarshal. */
  method DecodeValidatorRequestField(data: seq<byte>, i: nat, m: QueryValidatorRequest) returns (s: Step<QueryValidatorRequest>)
    requires i <= |data|
    ensures s == ValidatorRequestField(data, i, m)
  {
    var key := DecodeKey(data, i, "QueryValidatorRequest");
    if key.Err? {
      return Step(m, i, Some(key.error));
    }
    var k := key.value.value;
    if k.fieldNum == 1 {
      var body := DecodeBody(data, key.value.next, k.wireType, "ValidatorAddr");
      if body.Err? {
        return Step(m, i, Some(body.error));
      }
      return Step(m.(validatorAddr := body.value.value), body.value.next, None);
    }
    s := DecodeSkipped(data, i, m);
  }

  /** The body of the switch of QueryValidatorResponse.Unmarshal. */
  method DecodeValidatorResponseField(data: seq<byte>, i: nat, m: QueryValidatorResponse) returns (s: Step<QueryValidatorResponse>)
    requires i <= |data|
    ensures s == ValidatorResponseField(data, i, m)
  {
    var key := DecodeKey(data, i, "QueryValidatorResponse");
    if key.Err? {
      return Step(m, i, Some(key.error));
    }
    var k := key.value.value;
    if k.fieldNum == 1 {
      var body := DecodeBody(data, key.value.next, k.wireType, "Validator");
      if body.Err? {
        return Step(m, i, Some(body.error));
      }
      return Step(m.(validator := MergeNested(m.validator, body.value.value)), body.value.next, None);
    }
    s := DecodeSkipped(data, i, m);
  }

  /** The body of the switch of QueryParamsRequest.Unmarshal. */
  method DecodeParamsRequestField(data: seq<byte>, i: nat, m: QueryParamsRequest) returns (s: Step<QueryParamsRequest>)
    requires i <= |data|
    ensures s == ParamsRequestField(data, i, m)
  {
    var key := DecodeKey(data, i, "QueryParamsRequest");
    if key.Err? {
      return Step(m, i, Some(key.error));
    }
    s := DecodeSkipped(data, i, m);
  }

  /** The body of the switch of QueryParamsResponse.Unmarshal. */
  method DecodeParamsResponseField(data: seq<byte>, i: nat, m: QueryParamsResponse) returns (s: Step<QueryParamsResponse>)
    requires i <= |data|
    ensures s == ParamsResponseField(data, i, m)
  {
    var key := DecodeKey(data, i, "QueryParamsResponse");
    if key.Err? {
      return Step(m, i, Some(key.error));
    }
    var k := key.value.value;
    if k.fieldNum == 1 {
      var body := DecodeBody(data, key.value.next, k.wireType, "Params");
      if body.Err? {
        return Step(m, i, Some(body.error));
      }
      return Step(m.(params := MergeNested(m.params, body.value.value)), body.value.next, None);
    }
    s := DecodeSkipped(data, i, m);
  }

  /** QueryValidatorsRequest.Unmarshal: field after field until the input
      ends or a field fails. The other five loops are the same. */
  method UnmarshalValidatorsRequest(data: seq<byte>, m: QueryValidatorsRequest) returns (d: Decoded<QueryValidatorsRequest>)
    ensures d == ParseValidatorsRequest(data, m)
  {
    var i, cur := 0, m;
    while i < |data|
      invariant i <= |data|
      invariant ParseValidatorsRequestFrom(data, i, cur) == ParseValidatorsRequest(data, m)
      decreases |data| - i
    {
      var s := DecodeValidatorsRequestField(data, i, cur);
      if s.err.Some? {
        return Decoded(s.msg, s.err);
      }
      i, cur := s.next, s.msg;
    }
    return Decoded(cur, None);
  }

  /** QueryValidatorsResponse.Unmarshal. */
  method UnmarshalValidatorsResponse(data: seq<byte>, m: QueryValidatorsResponse) returns (d: Decoded<QueryValidatorsResponse>)
    ensures d == ParseValidatorsResponse(data, m)
  {
    var i, cur := 0, m;
    while i < |data|
      invariant i <= |data|
      invariant ParseValidatorsResponseFrom(data, i, cur) == ParseValidatorsResponse(data, m)
      decreases |data| - i
    {
      var s := DecodeValidatorsResponseField(data, i, cur);
      if s.err.Some? {
        return Decoded(s.msg, s.err);
      }
      i, cur := s.next, s.msg;
    }
    return Decoded(cur, None);
  }

  /** QueryValidatorRequest.Unmarshal. */
  method UnmarshalValidatorRequest(data: seq<byte>, m: QueryValidatorRequest) returns (d: Decoded<QueryValidatorRequest>)
    ensures d == ParseValidatorRequest(data, m)
  {
    var i, cur := 0, m;
    while i < |data|
      invariant i <= |data|
      invariant ParseValidatorRequestFrom(data, i, cur) == ParseValidatorRequest(data, m)
      decreases |data| - i
    {
      var s := DecodeValidatorRequestField(data, i, cur);
      if s.err.Some? {
        return Decoded(s.msg, s.err);
      }
      i, cur := s.next, s.msg;
    }
    return Decoded(cur, None);
  }

  /** QueryValidatorResponse.Unmarshal. */
  method UnmarshalValidatorResponse(data: seq<byte>, m: QueryValidatorResponse) returns (d: Decoded<QueryValidatorResponse>)
    ensures d == ParseValidatorResponse(data, m)
  {
    var i, cur := 0, m;
    while i < |data|
      invariant i <= |data|
      invariant ParseValidatorResponseFrom(data, i, cur) == ParseValidatorResponse(data, m)
      decreases |data| - i
    {
      var s := DecodeValidatorResponseField(data, i, cur);
      if s.err.Some? {
        return Decoded(s.msg, s.err);
      }
      i, cur := s.next, s.msg;
    }
    return Decoded(cur, None);
  }

  /** QueryParamsRequest.Unmarshal. */
  method UnmarshalParamsRequest(data: seq<byte>, m: QueryParamsRequest) returns (d: Decoded<QueryParamsRequest>)
    ensures d == ParseParamsRequest(data, m)
  {
    var i, cur := 0, m;
    while i < |data|
      invariant i <= |data|
      invariant ParseParamsRequestFrom(data, i, cur) == ParseParamsRequest(data, m)
      decreases |data| - i
    {
      var s := DecodeParamsRequestField(data, i, cur);
      if s.err.Some? {
        return Decoded(s.msg, s.err);
      }
      i, cur := s.next, s.msg;
    }
    return Decoded(cur, None);
  }

  /** QueryParamsResponse.Unmarshal. */
  method UnmarshalParamsResponse(data: seq<byte>, m: QueryParamsResponse) returns (d: Decoded<QueryParamsResponse>)
    ensures d == ParseParamsResponse(data, m)
  {
    var i, cur := 0, m;
    while i < |data|
      invariant i <= |data|
      invariant ParseParamsResponseFrom(data, i, cur) == ParseParamsResponse(data, m)
      decreases |data| - i
    {
      var s := DecodeParamsResponseField(data, i, cur);
      if s.err.Some? {
        return Decoded(s.msg, s.err);
      }
      i, cur := s.next, s.msg;
    }
    return Decoded(cur, None);
  }
}
