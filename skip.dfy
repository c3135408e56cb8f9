/** skipGenesis and skipQuery: the length of the unknown field (or group of
    fields) at the start of the input, the way the default arm of every
    Unmarshal steps over it. */
module Skip {
  import opened Base
  import opened Varint
  import opened Framing

  /** The value after a key with wire type wireType, at data[j], at group
      depth depth: where the next key starts and the new depth. A varint is
      read to its last byte, a length is refused when negative as a Go int,
      a group start or end changes the depth, and an end with no open group
      or a wire type above 5 is an error. */
  function StepOver(data: seq<byte>, j: nat, wireType: nat, depth: nat): (r: Result<(nat, nat)>)
    ensures r.Ok? ==> j <= r.value.0
    ensures r.Ok? && wireType != 3 && wireType != 4 ==> r.value.1 == depth
    ensures wireType == 3 ==> r.Ok? && r.value.1 == depth + 1
    ensures wireType == 4 ==> (r.Ok? <==> depth > 0) && (r.Ok? ==> r.value.1 + 1 == depth)
    ensures wireType >= 6 ==> r == Err(IllegalWireType(wireType))
  {
    if wireType == 0 then
      var v := ReadVarint(data, j);
      if v.err.Some? then Err(v.err.value) else Ok((v.next, depth))
    else if wireType == 1 then Ok((j + 8, depth))
    else if wireType == 2 then
      var length := ReadVarint(data, j);
      if length.err.Some? then Err(length.err.value)
      else if ToI64(length.value) < 0 then Err(InvalidLength)
      else Ok((length.next + length.value, depth))
    else if wireType == 3 then Ok((j, depth + 1))
    else if wireType == 4 then
      if depth == 0 then Err(UnexpectedEndOfGroup) else Ok((j, depth - 1))
    else if wireType == 5 then Ok((j + 4, depth))
    else Err(IllegalWireType(wireType))
  }

  /** The loop of skipGenesis from index i at group depth depth. Every turn
      reads a key and steps over the value its wire type announces; it
      returns the end index once the depth is back at zero, and runs out with
      io.ErrUnexpectedEOF if the input ends first. Fixed-size values are not
      bounds-checked here; the caller compares the result with the input
      length. */
  function SkipFrom(data: seq<byte>, i: nat, depth: nat): (r: Result<nat>)
    ensures r.Ok? ==> i < r.value < TWO_63
    decreases |data| - i
  {
    if i >= |data| then Err(UnexpectedEOF)
    else
      var key := ReadVarint(data, i);
      if key.err.Some? then Err(key.err.value)
      else
        var step := StepOver(data, key.next, key.value % 8, depth);
        if step.Err? then Err(step.error)
        else
          var (next, depth') := step.value;
          if next >= TWO_63 then Err(InvalidLength)
          else if depth' == 0 then Ok(next)
          else SkipFrom(data, next, depth')
  }

  /** skipGenesis(dAtA): the length of the field at the start of data. */
  function SkipField(data: seq<byte>): (r: Result<nat>)
    ensures r.Ok? ==> 0 < r.value < TWO_63
  {
    SkipFrom(data, 0, 0)
  }

  /** The default arm of Unmarshal: the field at data[i] is stepped over, and
      the end index is checked against the int range and the input length. */
  function SkipUnknown(data: seq<byte>, i: nat): (r: Result<nat>)
    requires i <= |data|
    ensures r.Ok? ==> i < r.value <= |data|
  {
    var skippy := SkipField(data[i..]);
    if skippy.Err? then Err(skippy.error)
    else if i + skippy.value >= TWO_63 then Err(InvalidLength)
    else if i + skippy.value > |data| then Err(UnexpectedEOF)
    else Ok(i + skippy.value)
  }

  /** The switch on the wire type in the loop of skipGenesis. */
  method DecodeStepOver(data: seq<byte>, j: nat, wireType: nat, depth: nat) returns (r: Result<(nat, nat)>)
    ensures r == StepOver(data, j, wireType, depth)
  {
    if wireType == 0 {
      var _, next, err := DecodeVarint(data, j);
      if err.Some? {
        return Err(err.value);
      }
      return Ok((next, depth));
    } else if wireType == 1 {
      return Ok((j + 8, depth));
    } else if wireType == 2 {
      var length, next, err := DecodeVarint(data, j);
      if err.Some? {
        return Err(err.value);
      }
      if ToI64(length) < 0 {
        return Err(InvalidLength);
      }
      return Ok((next + length, depth));
    } else if wireType == 3 {
      return Ok((j, depth + 1));
    } else if wireType == 4 {
      if depth == 0 {
        return Err(UnexpectedEndOfGroup);
      }
      return Ok((j, depth - 1));
    } else if wireType == 5 {
      return Ok((j + 4, depth));
    }
    return Err(IllegalWireType(wireType));
  }

  /** The loop of skipGenesis / skipQuery. */
  method SkipFieldLoop(data: seq<byte>) returns (r: Result<nat>)
    ensures r == SkipField(data)
  {
    var i: nat, depth: nat := 0, 0;
    while i < |data|
      invariant SkipFrom(data, i, depth) == SkipField(data)
      decreases |data| - i
    {
      var wire, next, err := DecodeVarint(data, i);
      if err.Some? {
        return Err(err.value);
      }
      var step := DecodeStepOver(data, next, wire % 8, depth);
      if step.Err? {
        return Err(step.error);
      }
      i, depth := step.value.0, step.value.1;
      if i >= TWO_63 {
        return Err(InvalidLength);
      }
      if depth == 0 {
        return Ok(i);
      }
    }
    return Err(UnexpectedEOF);
  }

  /** The default arm of Unmarshal, as the message methods run it. */
  method DecodeUnknown(data: seq<byte>, i: nat) returns (r: Result<nat>)
    requires i <= |data|
    ensures r == SkipUnknown(data, i)
  {
    var skippy := SkipFieldLoop(data[i..]);
    if skippy.Err? {
      return Err(skippy.error);
    }
    if i + skippy.value >= TWO_63 {
      return Err(InvalidLength);
    }
    if i + skippy.value > |data| {
      return Err(UnexpectedEOF);
    }
    return Ok(i + skippy.value);
  }
}
