/** The binary codec of the op_child module's genesis messages,
    GenesisState and LastValidatorPower, as gogoproto generates it: Size,
    MarshalToSizedBuffer, Marshal and Unmarshal. */
module Genesis {
  import opened Base
  import opened Varint
  import opened Framing
  import opened Skip

  /** A validator's consensus power at the last height of the chain. */
  datatype LastValidatorPower = LastValidatorPower(address: seq<byte>, power: i64)

  /** The module's genesis state. Params and Validator belong to codecs that
      are not part of this model; they are carried as their encodings. */
  datatype GenesisState = GenesisState(
    params: Nested,
    lastValidatorPowers: seq<LastValidatorPower>,
    validators: seq<Nested>,
    previousProposer: seq<byte>,
    exported: bool)

  /** The zero values Unmarshal starts from when it allocates a message. */
  const EmptyPower := LastValidatorPower([], 0)
  const EmptyGenesis := GenesisState(Nested([]), [], [], [], false)

  // ---------------------------------------------------------------------
  // The encoding, in the order the fields appear on the wire.

  /** Field 2, power: key 0x10 and the varint of uint64(power), omitted
      when the power is zero. */
  function PowerPart(power: i64): (r: seq<byte>)
    ensures power == 0 <==> r == []
  {
    if power == 0 then [] else [0x10] + VarintBytes(ToU64(power))
  }

  /** Field 1 (address, 0x0a) when non-empty, then field 2 (power). */
  function EncodePower(p: LastValidatorPower): seq<byte>
  {
    StringField(0x0a, p.address) + PowerPart(p.power)
  }

  function PowerBodies(ps: seq<LastValidatorPower>): (r: seq<seq<byte>>)
    ensures |r| == |ps| && forall k :: 0 <= k < |ps| ==> r[k] == EncodePower(ps[k])
  {
    seq(|ps|, k requires 0 <= k < |ps| => EncodePower(ps[k]))
  }

  /** Field 5, exported: key 0x28 and the byte 1, omitted when false. */
  function ExportedPart(exported: bool): (r: seq<byte>)
    ensures exported <==> r == [0x28, 0x01]
    ensures !exported <==> r == []
  {
    if exported then [0x28, 0x01] else []
  }

  /** Field 1 (params, 0x0a) always, one field 2 (0x12) per last validator
      power, one field 3 (0x1a) per validator, field 4 (previous proposer,
      0x22) when non-empty, field 5 (exported, 0x28) when true. */
  function EncodeGenesis(g: GenesisState): seq<byte>
  {
    LengthDelimited(0x0a, g.params.wire)
    + Repeated(0x12, PowerBodies(g.lastValidatorPowers))
    + Repeated(0x1a, Wires(g.validators))
    + StringField(0x22, g.previousProposer)
    + ExportedPart(g.exported)
  }

  // ---------------------------------------------------------------------
  // Size

  /** LastValidatorPower.Size. */
  method SizePower(p: LastValidatorPower) returns (n: nat)
    ensures n == |EncodePower(p)|
  {
    n := 0;
    var l := |p.address|;
    if l > 0 {
      VarintBytesLength(l);
      n := n + 1 + l + Sov(l);
    }
    if p.power != 0 {
      VarintBytesLength(ToU64(p.power));
      n := n + 1 + Sov(ToU64(p.power));
    }
  }

  /** GenesisState.Size: the sum of the field sizes, element by element for
      the repeated fields. */
  method SizeGenesis(g: GenesisState) returns (n: nat)
    ensures n == |EncodeGenesis(g)|
  {
    var l := |g.params.wire|;
    VarintBytesLength(l);
    n := 1 + l + Sov(l);
    ghost var head := n;
    var ps := g.lastValidatorPowers;
    for k := 0 to |ps|
      invariant n == head + |Repeated(0x12, PowerBodies(ps)[..k])|
    {
      l := SizePower(ps[k]);
      VarintBytesLength(l);
      RepeatedUpTo(0x12, PowerBodies(ps), k);
      n := n + 1 + l + Sov(l);
    }
    assert PowerBodies(ps)[..|ps|] == PowerBodies(ps);
    head := n;
    var vs := g.validators;
    for k := 0 to |vs|
      invariant n == head + |Repeated(0x1a, Wires(vs)[..k])|
    {
      l := |vs[k].wire|;
      VarintBytesLength(l);
      RepeatedUpTo(0x1a, Wires(vs), k);
      n := n + 1 + l + Sov(l);
    }
    assert Wires(vs)[..|vs|] == Wires(vs);
    l := |g.previousProposer|;
    if l > 0 {
      VarintBytesLength(l);
      n := n + 1 + l + Sov(l);
    }
    if g.exported {
      n := n + 2;
    }
  }

  // ---------------------------------------------------------------------
  // MarshalToSizedBuffer and Marshal. MarshalX(m, a, end) is
  // m.MarshalToSizedBuffer(dAtA[:end]): it writes the encoding so that it
  // ends just before end, last field first, and returns its length.

  /** The power field written backwards: the varint of uint64(power),
      then the key 0x10; nothing when the power is zero. */
  method PutPowerPart(a: array<byte>, offset: nat, power: i64) returns (base: nat)
    requires |PowerPart(power)| <= offset <= a.Length
    modifies a
    ensures base == offset - |PowerPart(power)|
    ensures Written(old(a[..]), a[..], base, offset, PowerPart(power))
  {
    base := offset;
    if power != 0 {
      ghost var s0 := a[..];
      var j := PutVarint(a, offset, ToU64(power));
      ghost var s1 := a[..];
      base := PutTag(a, j, 0x10);
      WrittenJoin(s0, s1, a[..], base, j, offset, [0x10], VarintBytes(ToU64(power)));
    }
  }

  /** LastValidatorPower.MarshalToSizedBuffer. */
  method MarshalPower(p: LastValidatorPower, a: array<byte>, end: nat) returns (n: nat)
    requires a.Length < TWO_63
    requires |EncodePower(p)| <= end <= a.Length
    modifies a
    ensures n == |EncodePower(p)|
    ensures Written(old(a[..]), a[..], end - n, end, EncodePower(p))
  {
    ghost var s0 := a[..];
    var i := PutPowerPart(a, end, p.power);
    ghost var s1, mid := a[..], i;
    i := PutStringField(a, i, 0x0a, p.address);
    WrittenJoin(s0, s1, a[..], i, mid, end, StringField(0x0a, p.address), PowerPart(p.power));
    n := end - i;
  }

  /** One element of the last validator powers, written backwards: the
      element, the varint of its size, the key 0x12. */
  method PutPowerField(a: array<byte>, offset: nat, p: LastValidatorPower) returns (base: nat)
    requires a.Length < TWO_63
    requires |LengthDelimited(0x12, EncodePower(p))| <= offset <= a.Length
    modifies a
    ensures base == offset - |LengthDelimited(0x12, EncodePower(p))|
    ensures Written(old(a[..]), a[..], base, offset, LengthDelimited(0x12, EncodePower(p)))
  {
    ghost var s0 := a[..];
    var size := MarshalPower(p, a, offset);
    var i := offset - size;
    ghost var s1 := a[..];
    var j := PutVarint(a, i, size);
    ghost var s2 := a[..];
    base := PutTag(a, j, 0x12);
    JoinLengthDelimited(s0, s1, s2, a[..], base, j, i, offset, 0x12, EncodePower(p));
  }

  /** The loop over the last validator powers, from the last to the first. */
  method PutPowers(a: array<byte>, offset: nat, ps: seq<LastValidatorPower>) returns (base: nat)
    requires a.Length < TWO_63
    requires |Repeated(0x12, PowerBodies(ps))| <= offset <= a.Length
    modifies a
    ensures base == offset - |Repeated(0x12, PowerBodies(ps))|
    ensures Written(old(a[..]), a[..], base, offset, Repeated(0x12, PowerBodies(ps)))
  {
    ghost var s0 := a[..];
    ghost var bodies := PowerBodies(ps);
    base := offset;
    var k := |ps|;
    assert bodies[..k] == bodies && bodies[k..] == [];
    while k > 0
      invariant 0 <= k <= |ps|
      invariant |Repeated(0x12, bodies[..k])| <= base
      invariant Written(s0, a[..], base, offset, Repeated(0x12, bodies[k..]))
    {
      k := k - 1;
      RepeatedUpTo(0x12, bodies, k);
      RepeatedFrom(0x12, bodies, k);
      ghost var s1 := a[..];
      ghost var mid := base;
      base := PutPowerField(a, base, ps[k]);
      WrittenJoin(s0, s1, a[..], base, mid, offset, LengthDelimited(0x12, bodies[k]), Repeated(0x12, bodies[k + 1..]));
    }
    assert bodies[k..] == bodies;
  }

  /** The exported field written backwards: the byte 1, then the key
      0x28; nothing when false. */
  method PutExported(a: array<byte>, offset: nat, exported: bool) returns (base: nat)
    requires |ExportedPart(exported)| <= offset <= a.Length
    modifies a
    ensures base == offset - |ExportedPart(exported)|
    ensures Written(old(a[..]), a[..], base, offset, ExportedPart(exported))
  {
    base := offset;
    if exported {
      ghost var s0 := a[..];
      base := PutTag(a, base, 1);
      ghost var s1 := a[..];
      base := PutTag(a, base, 0x28);
      WrittenJoin(s0, s1, a[..], base, base + 1, offset, [0x28], [1]);
    }
  }

  /** GenesisState.MarshalToSizedBuffer: exported, previous proposer,
      validators from the last, last validator powers from the last, and
      params, each written just below the one before. */
  method MarshalGenesis(g: GenesisState, a: array<byte>, end: nat) returns (n: nat)
    requires a.Length < TWO_63
    requires |EncodeGenesis(g)| <= end <= a.Length
    modifies a
    ensures n == |EncodeGenesis(g)|
    ensures Written(old(a[..]), a[..], end - n, end, EncodeGenesis(g))
  {
    ghost var s0 := a[..];
    ghost var params := LengthDelimited(0x0a, g.params.wire);
    ghost var powers := Repeated(0x12, PowerBodies(g.lastValidatorPowers));
    ghost var validators := Repeated(0x1a, Wires(g.validators));
    ghost var proposer := StringField(0x22, g.previousProposer);
    ghost var exported := ExportedPart(g.exported);
    assert EncodeGenesis(g) == params + powers + validators + proposer + exported;
    var i := PutExported(a, end, g.exported);
    ghost var s1, mid := a[..], i;
    i := PutStringField(a, i, 0x22, g.previousProposer);
    WrittenJoin(s0, s1, a[..], i, mid, end, proposer, exported);
    s1, mid := a[..], i;
    i := PutRepeated(a, i, 0x1a, Wires(g.validators));
    WrittenJoin(s0, s1, a[..], i, mid, end, validators, proposer + exported);
    s1, mid := a[..], i;
    i := PutPowers(a, i, g.lastValidatorPowers);
    WrittenJoin(s0, s1, a[..], i, mid, end, powers, validators + (proposer + exported));
    s1, mid := a[..], i;
    i := PutLengthDelimited(a, i, 0x0a, g.params.wire);
    WrittenJoin(s0, s1, a[..], i, mid, end, params, powers + (validators + (proposer + exported)));
    ConcatFive(params, powers, validators, proposer, exported);
    n := end - i;
  }

  /** LastValidatorPower.Marshal: a buffer of Size bytes, filled. */
  method PowerMarshal(p: LastValidatorPower) returns (data: seq<byte>)
    requires |EncodePower(p)| < TWO_63
    ensures data == EncodePower(p)
  {
    var size := SizePower(p);
    var a := new byte[size];
    var n := MarshalPower(p, a, size);
    data := a[..n];
  }

  /** GenesisState.Marshal: a buffer of Size bytes, filled. */
  method GenesisMarshal(g: GenesisState) returns (data: seq<byte>)
    requires |EncodeGenesis(g)| < TWO_63
    ensures data == EncodeGenesis(g)
  {
    var size := SizeGenesis(g);
    var a := new byte[size];
    var n := MarshalGenesis(g, a, size);
    data := a[..n];
  }

  // ---------------------------------------------------------------------
  // Unmarshal. Each loop turn reads a key, refuses wire type 4 and field
  // numbers that are not positive, and dispatches on the field number.

  /** One turn of LastValidatorPower.Unmarshal at data[i]. Address is
      replaced by the string its length prefix delimits; power is reset and
      accumulated from the varint, so that a varint cut short leaves the
      groups read so far in it. */
  function PowerField(data: seq<byte>, i: nat, m: LastValidatorPower): (s: Step<LastValidatorPower>)
    requires i <= |data|
    ensures s.err.None? ==> i < s.next <= |data|
  {
    var key := ReadKey(data, i, "LastValidatorPower");
    if key.Err? then Step(m, i, Some(key.error))
    else
      var k := key.value.value;
      var j := key.value.next;
      if k.fieldNum == 1 then
        if k.wireType != 2 then Step(m, i, Some(WrongWireType("Address", k.wireType)))
        else
          var length := ReadLength(data, j);
          if length.Err? then Step(m, i, Some(length.error))
          else Step(m.(address := Body(data, length.value)), length.value.next + length.value.value, None)
      else if k.fieldNum == 2 then
        if k.wireType != 0 then Step(m, i, Some(WrongWireType("Power", k.wireType)))
        else
          var v := ReadVarint(data, j);
          Step(m.(power := ToI64(v.value)), v.next, v.err)
      else
        var skip := SkipUnknown(data, i);
        if skip.Err? then Step(m, i, Some(skip.error)) else Step(m, skip.value, None)
  }

  /** The loop of LastValidatorPower.Unmarshal from data[i] on. */
  function ParsePowerFrom(data: seq<byte>, i: nat, m: LastValidatorPower): (d: Decoded<LastValidatorPower>)
    requires i <= |data|
    decreases |data| - i
  {
    if i == |data| then Decoded(m, None)
    else
      var s := PowerField(data, i, m);
      if s.err.Some? then Decoded(s.msg, s.err) else ParsePowerFrom(data, s.next, s.msg)
  }

  /** m.Unmarshal(data) for a LastValidatorPower m. */
  function ParsePower(data: seq<byte>, m: LastValidatorPower): Decoded<LastValidatorPower>
  {
    ParsePowerFrom(data, 0, m)
  }

  /** One turn of GenesisState.Unmarshal at data[i]. Params are merged with
      the embedded body, a last validator power or a validator is appended
      and then filled from its body (so that a body that fails leaves a
      partly filled element appended), the previous proposer is replaced, and
      exported is set from a varint, left unchanged if that varint fails. */
  function GenesisField(data: seq<byte>, i: nat, m: GenesisState): (s: Step<GenesisState>)
    requires i <= |data|
    ensures s.err.None? ==> i < s.next <= |data|
  {
    var key := ReadKey(data, i, "GenesisState");
    if key.Err? then Step(m, i, Some(key.error))
    else
      var k := key.value.value;
      var j := key.value.next;
      if k.fieldNum == 1 then
        if k.wireType != 2 then Step(m, i, Some(WrongWireType("Params", k.wireType)))
        else
          var length := ReadLength(data, j);
          if length.Err? then Step(m, i, Some(length.error))
          else
            var body := Body(data, length.value);
            Step(m.(params := MergeNested(m.params, body)), length.value.next + length.value.value, None)
      else if k.fieldNum == 2 then
        if k.wireType != 2 then Step(m, i, Some(WrongWireType("LastValidatorPowers", k.wireType)))
        else
          var length := ReadLength(data, j);
          if length.Err? then Step(m, i, Some(length.error))
          else
            var d := ParsePower(Body(data, length.value), EmptyPower);
            Step(m.(lastValidatorPowers := m.lastValidatorPowers + [d.msg]), length.value.next + length.value.value, d.err)
      else if k.fieldNum == 3 then
        if k.wireType != 2 then Step(m, i, Some(WrongWireType("Validators", k.wireType)))
        else
          var length := ReadLength(data, j);
          if length.Err? then Step(m, i, Some(length.error))
          else
            var body := Body(data, length.value);
            Step(m.(validators := m.validators + [MergeNested(Nested([]), body)]), length.value.next + length.value.value, None)
      else if k.fieldNum == 4 then
        if k.wireType != 2 then Step(m, i, Some(WrongWireType("PreviousProposer", k.wireType)))
        else
          var length := ReadLength(data, j);
          if length.Err? then Step(m, i, Some(length.error))
          else Step(m.(previousProposer := Body(data, length.value)), length.value.next + length.value.value, None)
      else if k.fieldNum == 5 then
        if k.wireType != 0 then Step(m, i, Some(WrongWireType("Exported", k.wireType)))
        else
          var v := ReadVarint(data, j);
          if v.err.Some? then Step(m, i, v.err)
          else Step(m.(exported := v.value != 0), v.next, None)
      else
        var skip := SkipUnknown(data, i);
        if skip.Err? then Step(m, i, Some(skip.error)) else Step(m, skip.value, None)
  }

  /** The loop of GenesisState.Unmarshal from data[i] on. */
  function ParseGenesisFrom(data: seq<byte>, i: nat, m: GenesisState): (d: Decoded<GenesisState>)
    requires i <= |data|
    decreases |data| - i
  {
    if i == |data| then Decoded(m, None)
    else
      var s := GenesisField(data, i, m);
      if s.err.Some? then Decoded(s.msg, s.err) else ParseGenesisFrom(data, s.next, s.msg)
  }

  /** m.Unmarshal(data) for a GenesisState m. */
  function ParseGenesis(data: seq<byte>, m: GenesisState): Decoded<GenesisState>
  {
    ParseGenesisFrom(data, 0, m)
  }

  /** The body of the switch of LastValidatorPower.Unmarshal. */
  method DecodePowerField(data: seq<byte>, i: nat, m: LastValidatorPower) returns (s: Step<LastValidatorPower>)
    requires i <= |data|
    ensures s == PowerField(data, i, m)
  {
    var key := DecodeKey(data, i, "LastValidatorPower");
    if key.Err? {
      return Step(m, i, Some(key.error));
    }
    var k, j := key.value.value, key.value.next;
    if k.fieldNum == 1 {
      if k.wireType != 2 {
        return Step(m, i, Some(WrongWireType("Address", k.wireType)));
      }
      var length := DecodeLength(data, j);
      if length.Err? {
        return Step(m, i, Some(length.error));
      }
      var postIndex := length.value.next + length.value.value;
      return Step(m.(address := data[length.value.next..postIndex]), postIndex, None);
    } else if k.fieldNum == 2 {
      if k.wireType != 0 {
        return Step(m, i, Some(WrongWireType("Power", k.wireType)));
      }
      var v, next, err := DecodeVarint(data, j);
      return Step(m.(power := ToI64(v)), next, err);
    } else {
      var skip := DecodeUnknown(data, i);
      if skip.Err? {
        return Step(m, i, Some(skip.error));
      }
      return Step(m, skip.value, None);
    }
  }

  /** LastValidatorPower.Unmarshal: field after field until the input ends
      or a field fails. */
  method UnmarshalPower(data: seq<byte>, m: LastValidatorPower) returns (d: Decoded<LastValidatorPower>)
    ensures d == ParsePower(data, m)
  {
    var i, cur := 0, m;
    while i < |data|
      invariant i <= |data|
      invariant ParsePowerFrom(data, i, cur) == ParsePower(data, m)
      decreases |data| - i
    {
      var s := DecodePowerField(data, i, cur);
      if s.err.Some? {
        return Decoded(s.msg, s.err);
      }
      i, cur := s.next, s.msg;
    }
    return Decoded(cur, None);
  }

  /** The body of the switch of GenesisState.Unmarshal. */
  method DecodeGenesisField(data: seq<byte>, i: nat, m: GenesisState) returns (s: Step<GenesisState>)
    requires i <= |data|
    ensures s == GenesisField(data, i, m)
  {
    var key := DecodeKey(data, i, "GenesisState");
    if key.Err? {
      return Step(m, i, Some(key.error));
    }
    var k, j := key.value.value, key.value.next;
    if k.fieldNum == 5 {
      if k.wireType != 0 {
        return Step(m, i, Some(WrongWireType("Exported", k.wireType)));
      }
      var v, next, err := DecodeVarint(data, j);
      if err.Some? {
        return Step(m, i, err);
      }
      return Step(m.(exported := v != 0), next, None);
    } else if 1 <= k.fieldNum <= 4 {
      var name := if k.fieldNum == 1 then "Params" else if k.fieldNum == 2 then "LastValidatorPowers"
        else if k.fieldNum == 3 then "Validators" else "PreviousProposer";
      if k.wireType != 2 {
        return Step(m, i, Some(WrongWireType(name, k.wireType)));
      }
      var length := DecodeLength(data, j);
      if length.Err? {
        return Step(m, i, Some(length.error));
      }
      var postIndex := length.value.next + length.value.value;
      var body := data[length.value.next..postIndex];
      if k.fieldNum == 1 {
        return Step(m.(params := MergeNested(m.params, body)), postIndex, None);
      } else if k.fieldNum == 2 {
        var d := UnmarshalPower(body, EmptyPower);
        return Step(m.(lastValidatorPowers := m.lastValidatorPowers + [d.msg]), postIndex, d.err);
      } else if k.fieldNum == 3 {
        return Step(m.(validators := m.validators + [MergeNested(Nested([]), body)]), postIndex, None);
      } else {
        return Step(m.(previousProposer := body), postIndex, None);
      }
    } else {
      var skip := DecodeUnknown(data, i);
      if skip.Err? {
        return Step(m, i, Some(skip.error));
      }
      return Step(m, skip.value, None);
    }
  }

  /** GenesisState.Unmarshal. */
  method UnmarshalGenesis(data: seq<byte>, m: GenesisState) returns (d: Decoded<GenesisState>)
    ensures d == ParseGenesis(data, m)
  {
    var i, cur := 0, m;
    while i < |data|
      invariant i <= |data|
      invariant ParseGenesisFrom(data, i, cur) == ParseGenesis(data, m)
      decreases |data| - i
    {
      var s := DecodeGenesisField(data, i, cur);
      if s.err.Some? {
        return Decoded(s.msg, s.err);
      }
      i, cur := s.next, s.msg;
    }
    return Decoded(cur, None);
  }
}
