/** What the genesis codec promises: Unmarshal reads back what Marshal
    writes, merging it into the receiver the way protobuf merges messages;
    unknown fields are stepped over; malformed input is refused with the
    error the generated code returns. */
module GenesisLaws {
  import opened Base
  import opened Varint
  import opened Framing
  import opened Skip
  import opened Unknown
  import opened Genesis

  // ---------------------------------------------------------------------
  // LastValidatorPower

  /** Protobuf merge of a decoded LastValidatorPower p into m: each field
      that p's encoding carries (a non-empty address, a non-zero power)
      replaces m's. */
  function MergePower(m: LastValidatorPower, p: LastValidatorPower): (r: LastValidatorPower)
    ensures m == EmptyPower ==> r == p
  {
    LastValidatorPower(
      if |p.address| > 0 then p.address else m.address,
      if p.power != 0 then p.power else m.power)
  }

  /** A string field 1 is read as the address. */
  lemma PowerFieldOfAddress(data: seq<byte>, i: nat, e: nat, m: LastValidatorPower, address: seq<byte>)
    requires |data| < TWO_63
    requires StartsWith(data, i, LengthDelimited(0x0a, address))
    requires e == i + |LengthDelimited(0x0a, address)|
    ensures PowerField(data, i, m).err.None?
    ensures PowerField(data, i, m).next == e
    ensures PowerField(data, i, m).msg == m.(address := address)
  {
    ReadLengthDelimited(data, i, 0x0a, address, "LastValidatorPower");
  }

  /** A varint field 2 written for a non-zero power is read as that power,
      negative powers included. */
  lemma PowerFieldOfPower(data: seq<byte>, i: nat, e: nat, m: LastValidatorPower, power: i64)
    requires power != 0
    requires StartsWith(data, i, PowerPart(power))
    requires e == i + |PowerPart(power)|
    ensures PowerField(data, i, m).err.None?
    ensures PowerField(data, i, m).next == e
    ensures PowerField(data, i, m).msg == m.(power := power)
  {
    var wire := VarintBytes(ToU64(power));
    StartsWithSplit(data, i, [0x10], wire);
    assert |[0x10]| == 1 && data[i] == [0x10][0];
    ReadKeyOfTag(data, i, 0x10, "LastValidatorPower");
    ReadVarintOfBytes(data, i + 1, ToU64(power));
  }

  /** A field read without error hands the loop on to the next field. */
  lemma ParsePowerStep(data: seq<byte>, i: nat, m: LastValidatorPower, e: nat, m': LastValidatorPower)
    requires i < |data|
    requires PowerField(data, i, m).err.None?
    requires PowerField(data, i, m).next == e && PowerField(data, i, m).msg == m'
    ensures e <= |data|
    ensures ParsePowerFrom(data, i, m) == ParsePowerFrom(data, e, m')
  {
  }

  /** The address part of an encoding: nothing, or field 1. */
  lemma ParsePowerOfAddressPart(data: seq<byte>, i: nat, e: nat, m: LastValidatorPower, address: seq<byte>)
    requires |data| < TWO_63
    requires StartsWith(data, i, StringField(0x0a, address))
    requires e == i + |StringField(0x0a, address)|
    ensures ParsePowerFrom(data, i, m) == ParsePowerFrom(data, e, if |address| > 0 then m.(address := address) else m)
  {
    if |address| > 0 {
      PowerFieldOfAddress(data, i, e, m, address);
      ParsePowerStep(data, i, m, e, m.(address := address));
    }
  }

  /** The power part of an encoding: nothing, or field 2. */
  lemma ParsePowerOfPowerPart(data: seq<byte>, i: nat, e: nat, m: LastValidatorPower, power: i64)
    requires StartsWith(data, i, PowerPart(power))
    requires e == i + |PowerPart(power)|
    ensures ParsePowerFrom(data, i, m) == ParsePowerFrom(data, e, if power != 0 then m.(power := power) else m)
  {
    if power != 0 {
      PowerFieldOfPower(data, i, e, m, power);
      ParsePowerStep(data, i, m, e, m.(power := power));
    }
  }

  /** The encoding of p, wherever it sits in the input, is read as p merged
      into the receiver, and the loop goes on right after it. */
  lemma ParsePowerOfEncoding(data: seq<byte>, i: nat, e: nat, m: LastValidatorPower, p: LastValidatorPower)
    requires |data| < TWO_63
    requires StartsWith(data, i, EncodePower(p))
    requires e == i + |EncodePower(p)|
    ensures e <= |data|
    ensures ParsePowerFrom(data, i, m) == ParsePowerFrom(data, e, MergePower(m, p))
  {
    var address, power := StringField(0x0a, p.address), PowerPart(p.power);
    var mid := i + |address|;
    assert e == mid + |power|;
    StartsWithSplit(data, i, address, power);
    var m1 := if |p.address| > 0 then m.(address := p.address) else m;
    assert ParsePowerFrom(data, i, m) == ParsePowerFrom(data, mid, m1) by {
      ParsePowerOfAddressPart(data, i, mid, m, p.address);
    }
    assert ParsePowerFrom(data, mid, m1) == ParsePowerFrom(data, e, MergePower(m, p)) by {
      ParsePowerOfPowerPart(data, mid, e, m1, p.power);
      MergePowerParts(m, p, m1);
    }
  }

  lemma MergePowerParts(m: LastValidatorPower, p: LastValidatorPower, m1: LastValidatorPower)
    requires m1 == if |p.address| > 0 then m.(address := p.address) else m
    ensures MergePower(m, p) == if p.power != 0 then m1.(power := p.power) else m1
  {
  }

  /** Round trip: Unmarshal of Marshal's output into m gives p merged into
      m, and gives p itself for a freshly allocated receiver. */
  lemma PowerRoundTrip(p: LastValidatorPower, m: LastValidatorPower)
    requires |EncodePower(p)| < TWO_63
    ensures ParsePower(EncodePower(p), m) == Decoded(MergePower(m, p), None)
    ensures ParsePower(EncodePower(p), EmptyPower) == Decoded(p, None)
  {
    StartsWithWhole(EncodePower(p));
    ParsePowerOfEncoding(EncodePower(p), 0, |EncodePower(p)|, m, p);
    ParsePowerOfEncoding(EncodePower(p), 0, |EncodePower(p)|, EmptyPower, p);
  }

  /** Two encodings one after the other are read as two merges: the fields
      the second one sets win. */
  lemma PowerConcatenation(p: LastValidatorPower, q: LastValidatorPower, m: LastValidatorPower)
    requires |EncodePower(p)| + |EncodePower(q)| < TWO_63
    ensures ParsePower(EncodePower(p) + EncodePower(q), m) == Decoded(MergePower(MergePower(m, p), q), None)
  {
    var data := EncodePower(p) + EncodePower(q);
    StartsWithPrefix(EncodePower(p), EncodePower(q));
    StartsWithAfter(EncodePower(p), EncodePower(q));
    ParsePowerOfEncoding(data, 0, |EncodePower(p)|, m, p);
    ParsePowerOfEncoding(data, |EncodePower(p)|, |data|, MergePower(m, p), q);
  }

  /** proto3 writes nothing for the zero value, and a negative power as the
      ten-byte varint of its two's complement. */
  lemma PowerSizes(p: LastValidatorPower)
    ensures p == EmptyPower <==> EncodePower(p) == []
    ensures p.power < 0 ==> |PowerPart(p.power)| == 11
    ensures 0 < p.power < 0x80 ==> PowerPart(p.power) == [0x10, p.power]
  {
    if p.power < 0 {
      VarintBytesLength(ToU64(p.power));
      SovOfHighBit(ToU64(p.power));
    }
  }

  /** A power varint cut short after k of its bytes (k == 0: only the key)
      leaves the k groups read so far in the power, as the accumulating loop
      of the generated code does after resetting the field, and reports
      io.ErrUnexpectedEOF. */
  lemma PowerTruncated(v: u64, k: nat, m: LastValidatorPower)
    requires k < |VarintBytes(v)|
    ensures v % Pow2(7 * k) < TWO_64
    ensures ParsePower([0x10] + VarintBytes(v)[..k], m) ==
      Decoded(m.(power := ToI64(v % Pow2(7 * k))), Some(UnexpectedEOF))
  {
    var data := [0x10] + VarintBytes(v)[..k];
    assert |[0x10]| == 1 && data[0] == 0x10;
    ReadKeyOfTag(data, 0, 0x10, "LastValidatorPower");
    StartsWithAfter([0x10], VarintBytes(v)[..k]);
    ReadVarintOfPrefix(data, 1, v, k);
  }

  // ---------------------------------------------------------------------
  // GenesisState

  /** Protobuf merge of a decoded GenesisState g into m: the embedded params
      merge, the repeated fields append, and the previous proposer and
      exported are replaced when g's encoding carries them. */
  function MergeGenesis(m: GenesisState, g: GenesisState): (r: GenesisState)
    ensures m == EmptyGenesis ==> r == g
  {
    GenesisState(
      MergeNested(m.params, g.params.wire),
      m.lastValidatorPowers + g.lastValidatorPowers,
      m.validators + g.validators,
      if |g.previousProposer| > 0 then g.previousProposer else m.previousProposer,
      g.exported || m.exported)
  }

  /** Field 1 is merged into the params. */
  lemma GenesisFieldOfParams(data: seq<byte>, i: nat, e: nat, m: GenesisState, body: seq<byte>)
    requires |data| < TWO_63
    requires StartsWith(data, i, LengthDelimited(0x0a, body))
    requires e == i + |LengthDelimited(0x0a, body)|
    ensures GenesisField(data, i, m).err.None?
    ensures GenesisField(data, i, m).next == e
    ensures GenesisField(data, i, m).msg == m.(params := MergeNested(m.params, body))
  {
    ReadLengthDelimited(data, i, 0x0a, body, "GenesisState");
  }

  /** Field 2 holding the encoding of p appends p. */
  lemma GenesisFieldOfPower(data: seq<byte>, i: nat, e: nat, m: GenesisState, p: LastValidatorPower)
    requires |data| < TWO_63
    requires StartsWith(data, i, LengthDelimited(0x12, EncodePower(p)))
    requires e == i + |LengthDelimited(0x12, EncodePower(p))|
    ensures GenesisField(data, i, m).err.None?
    ensures GenesisField(data, i, m).next == e
    ensures GenesisField(data, i, m).msg == m.(lastValidatorPowers := m.lastValidatorPowers + [p])
  {
    ReadLengthDelimited(data, i, 0x12, EncodePower(p), "GenesisState");
    assert ParsePower(EncodePower(p), EmptyPower) == Decoded(p, None) by {
      PowerRoundTrip(p, EmptyPower);
    }
  }

  /** Field 3 appends a validator with that encoding. */
  lemma GenesisFieldOfValidator(data: seq<byte>, i: nat, e: nat, m: GenesisState, v: Nested)
    requires |data| < TWO_63
    requires StartsWith(data, i, LengthDelimited(0x1a, v.wire))
    requires e == i + |LengthDelimited(0x1a, v.wire)|
    ensures GenesisField(data, i, m).err.None?
    ensures GenesisField(data, i, m).next == e
    ensures GenesisField(data, i, m).msg == m.(validators := m.validators + [v])
  {
    ReadLengthDelimited(data, i, 0x1a, v.wire, "GenesisState");
    assert MergeNested(Nested([]), v.wire) == v;
  }

  /** Field 4 replaces the previous proposer. */
  lemma GenesisFieldOfProposer(data: seq<byte>, i: nat, e: nat, m: GenesisState, proposer: seq<byte>)
    requires |data| < TWO_63
    requires StartsWith(data, i, LengthDelimited(0x22, proposer))
    requires e == i + |LengthDelimited(0x22, proposer)|
    ensures GenesisField(data, i, m).err.None?
    ensures GenesisField(data, i, m).next == e
    ensures GenesisField(data, i, m).msg == m.(previousProposer := proposer)
  {
    ReadLengthDelimited(data, i, 0x22, proposer, "GenesisState");
  }

  /** Field 5 with the varint 1 sets exported. */
  lemma GenesisFieldOfExported(data: seq<byte>, i: nat, e: nat, m: GenesisState)
    requires StartsWith(data, i, [0x28, 0x01])
    requires e == i + 2
    ensures GenesisField(data, i, m).err.None?
    ensures GenesisField(data, i, m).next == e
    ensures GenesisField(data, i, m).msg == m.(exported := true)
  {
    assert data[i] == [0x28, 0x01][0] && data[i + 1] == [0x28, 0x01][1];
    ReadKeyOfTag(data, i, 0x28, "GenesisState");
    ReadVarintFromStep(data, i + 1, 0, 0, 1);
  }

  /** A field read without error hands the loop on to the next field. */
  lemma ParseGenesisStep(data: seq<byte>, i: nat, m: GenesisState, e: nat, m': GenesisState)
    requires i < |data|
    requires GenesisField(data, i, m).err.None?
    requires GenesisField(data, i, m).next == e && GenesisField(data, i, m).msg == m'
    ensures e <= |data|
    ensures ParseGenesisFrom(data, i, m) == ParseGenesisFrom(data, e, m')
  {
  }

  lemma PowerBodiesTail(ps: seq<LastValidatorPower>)
    requires |ps| > 0
    ensures PowerBodies(ps)[1..] == PowerBodies(ps[1..])
  {
  }

  lemma ParseGenesisOfPowerField(data: seq<byte>, i: nat, e: nat, m: GenesisState, p: LastValidatorPower)
    requires |data| < TWO_63
    requires StartsWith(data, i, LengthDelimited(0x12, EncodePower(p)))
    requires e == i + |LengthDelimited(0x12, EncodePower(p))|
    ensures e <= |data|
    ensures ParseGenesisFrom(data, i, m) == ParseGenesisFrom(data, e, m.(lastValidatorPowers := m.lastValidatorPowers + [p]))
  {
    GenesisFieldOfPower(data, i, e, m, p);
    ParseGenesisStep(data, i, m, e, m.(lastValidatorPowers := m.lastValidatorPowers + [p]));
  }

  lemma ParseGenesisOfValidatorField(data: seq<byte>, i: nat, e: nat, m: GenesisState, v: Nested)
    requires |data| < TWO_63
    requires StartsWith(data, i, LengthDelimited(0x1a, v.wire))
    requires e == i + |LengthDelimited(0x1a, v.wire)|
    ensures e <= |data|
    ensures ParseGenesisFrom(data, i, m) == ParseGenesisFrom(data, e, m.(validators := m.validators + [v]))
  {
    GenesisFieldOfValidator(data, i, e, m, v);
    ParseGenesisStep(data, i, m, e, m.(validators := m.validators + [v]));
  }

  /** The first of the repeated last validator powers, and the rest. */
  lemma PowersSplit(data: seq<byte>, i: nat, mid: nat, e: nat, ps: seq<LastValidatorPower>)
    requires |ps| > 0
    requires StartsWith(data, i, Repeated(0x12, PowerBodies(ps)))
    requires mid == i + |LengthDelimited(0x12, EncodePower(ps[0]))|
    requires e == i + |Repeated(0x12, PowerBodies(ps))|
    ensures StartsWith(data, i, LengthDelimited(0x12, EncodePower(ps[0])))
    ensures StartsWith(data, mid, Repeated(0x12, PowerBodies(ps[1..])))
    ensures e == mid + |Repeated(0x12, PowerBodies(ps[1..]))|
  {
    PowerBodiesTail(ps);
    RepeatedSplit(data, i, mid, e, 0x12, PowerBodies(ps));
  }

  /** The first of the repeated validators, and the rest. */
  lemma ValidatorsSplit(data: seq<byte>, i: nat, mid: nat, e: nat, vs: seq<Nested>)
    requires |vs| > 0
    requires StartsWith(data, i, Repeated(0x1a, Wires(vs)))
    requires mid == i + |LengthDelimited(0x1a, vs[0].wire)|
    requires e == i + |Repeated(0x1a, Wires(vs))|
    ensures StartsWith(data, i, LengthDelimited(0x1a, vs[0].wire))
    ensures StartsWith(data, mid, Repeated(0x1a, Wires(vs[1..])))
    ensures e == mid + |Repeated(0x1a, Wires(vs[1..]))|
  {
    WiresTail(vs);
    RepeatedSplit(data, i, mid, e, 0x1a, Wires(vs));
  }

  /** The last validator powers, one field 2 each, are appended in order. */
  lemma {:induction false} ParseGenesisOfPowers(data: seq<byte>, i: nat, e: nat, m: GenesisState, ps: seq<LastValidatorPower>)
    requires |data| < TWO_63
    requires StartsWith(data, i, Repeated(0x12, PowerBodies(ps)))
    requires e == i + |Repeated(0x12, PowerBodies(ps))|
    ensures e <= |data|
    ensures ParseGenesisFrom(data, i, m) == ParseGenesisFrom(data, e, m.(lastValidatorPowers := m.lastValidatorPowers + ps))
    decreases |ps|
  {
    if ps == [] {
      assert e == i;
      assert m.(lastValidatorPowers := m.lastValidatorPowers + ps) == m;
    } else {
      var mid := i + |LengthDelimited(0x12, EncodePower(ps[0]))|;
      PowersSplit(data, i, mid, e, ps);
      var m1 := m.(lastValidatorPowers := m.lastValidatorPowers + [ps[0]]);
      ParseGenesisOfPowerField(data, i, mid, m, ps[0]);
      ParseGenesisOfPowers(data, mid, e, m1, ps[1..]);
      AppendFirst(m.lastValidatorPowers, ps);
    }
  }

  /** The validators, one field 3 each, are appended in order. */
  lemma {:induction false} ParseGenesisOfValidators(data: seq<byte>, i: nat, e: nat, m: GenesisState, vs: seq<Nested>)
    requires |data| < TWO_63
    requires StartsWith(data, i, Repeated(0x1a, Wires(vs)))
    requires e == i + |Repeated(0x1a, Wires(vs))|
    ensures e <= |data|
    ensures ParseGenesisFrom(data, i, m) == ParseGenesisFrom(data, e, m.(validators := m.validators + vs))
    decreases |vs|
  {
    if vs == [] {
      assert e == i;
      assert m.(validators := m.validators + vs) == m;
    } else {
      var mid := i + |LengthDelimited(0x1a, vs[0].wire)|;
      ValidatorsSplit(data, i, mid, e, vs);
      var m1 := m.(validators := m.validators + [vs[0]]);
      ParseGenesisOfValidatorField(data, i, mid, m, vs[0]);
      ParseGenesisOfValidators(data, mid, e, m1, vs[1..]);
      AppendFirst(m.validators, vs);
    }
  }

  lemma ParseGenesisOfProposerPart(data: seq<byte>, i: nat, e: nat, m: GenesisState, proposer: seq<byte>)
    requires |data| < TWO_63
    requires StartsWith(data, i, StringField(0x22, proposer))
    requires e == i + |StringField(0x22, proposer)|
    ensures ParseGenesisFrom(data, i, m) == ParseGenesisFrom(data, e, if |proposer| > 0 then m.(previousProposer := proposer) else m)
  {
    if |proposer| > 0 {
      GenesisFieldOfProposer(data, i, e, m, proposer);
      ParseGenesisStep(data, i, m, e, m.(previousProposer := proposer));
    }
  }

  lemma ParseGenesisOfExportedPart(data: seq<byte>, i: nat, e: nat, m: GenesisState, exported: bool)
    requires StartsWith(data, i, ExportedPart(exported))
    requires e == i + |ExportedPart(exported)|
    ensures ParseGenesisFrom(data, i, m) == ParseGenesisFrom(data, e, if exported then m.(exported := true) else m)
  {
    if exported {
      GenesisFieldOfExported(data, i, e, m);
      ParseGenesisStep(data, i, m, e, m.(exported := true));
    }
  }

  /** The encoding of g, wherever it sits in the input, is read as g merged
      into the receiver, and the loop goes on right after it. */
  lemma ParseGenesisOfEncoding(data: seq<byte>, i: nat, e: nat, m: GenesisState, g: GenesisState)
    requires |data| < TWO_63
    requires StartsWith(data, i, EncodeGenesis(g))
    requires e == i + |EncodeGenesis(g)|
    ensures e <= |data|
    ensures ParseGenesisFrom(data, i, m) == ParseGenesisFrom(data, e, MergeGenesis(m, g))
  {
    var params := LengthDelimited(0x0a, g.params.wire);
    var powers := Repeated(0x12, PowerBodies(g.lastValidatorPowers));
    var validators := Repeated(0x1a, Wires(g.validators));
    var proposer := StringField(0x22, g.previousProposer);
    var exported := ExportedPart(g.exported);
    var i1 := i + |params|;
    var i2 := i1 + |powers|;
    var i3 := i2 + |validators|;
    var i4 := i3 + |proposer|;
    assert e == i4 + |exported|;
    StartsWithFive(data, i, i1, i2, i3, i4, params, powers, validators, proposer, exported);
    var m1 := m.(params := MergeNested(m.params, g.params.wire));
    var m2 := m1.(lastValidatorPowers := m1.lastValidatorPowers + g.lastValidatorPowers);
    var m3 := m2.(validators := m2.validators + g.validators);
    var m4 := if |g.previousProposer| > 0 then m3.(previousProposer := g.previousProposer) else m3;
    var m5 := if g.exported then m4.(exported := true) else m4;
    assert m5 == MergeGenesis(m, g);
    GenesisFieldOfParams(data, i, i1, m, g.params.wire);
    ParseGenesisStep(data, i, m, i1, m1);
    ParseGenesisOfPowers(data, i1, i2, m1, g.lastValidatorPowers);
    ParseGenesisOfValidators(data, i2, i3, m2, g.validators);
    ParseGenesisOfProposerPart(data, i3, i4, m3, g.previousProposer);
    ParseGenesisOfExportedPart(data, i4, e, m4, g.exported);
  }

  /** Round trip: Unmarshal of Marshal's output into m gives g merged into
      m, and gives g itself for a freshly allocated receiver. */
  lemma GenesisRoundTrip(g: GenesisState, m: GenesisState)
    requires |EncodeGenesis(g)| < TWO_63
    ensures ParseGenesis(EncodeGenesis(g), m) == Decoded(MergeGenesis(m, g), None)
    ensures ParseGenesis(EncodeGenesis(g), EmptyGenesis) == Decoded(g, None)
  {
    StartsWithWhole(EncodeGenesis(g));
    ParseGenesisOfEncoding(EncodeGenesis(g), 0, |EncodeGenesis(g)|, m, g);
    ParseGenesisOfEncoding(EncodeGenesis(g), 0, |EncodeGenesis(g)|, EmptyGenesis, g);
  }

  /** Two encodings one after the other are read as two merges: the
      repeated fields of both are kept in order, the scalars of the second
      win where it sets them. */
  lemma GenesisConcatenation(g1: GenesisState, g2: GenesisState, m: GenesisState)
    requires |EncodeGenesis(g1)| + |EncodeGenesis(g2)| < TWO_63
    ensures ParseGenesis(EncodeGenesis(g1) + EncodeGenesis(g2), m) == Decoded(MergeGenesis(MergeGenesis(m, g1), g2), None)
  {
    var data := EncodeGenesis(g1) + EncodeGenesis(g2);
    StartsWithPrefix(EncodeGenesis(g1), EncodeGenesis(g2));
    StartsWithAfter(EncodeGenesis(g1), EncodeGenesis(g2));
    ParseGenesisOfEncoding(data, 0, |EncodeGenesis(g1)|, m, g1);
    ParseGenesisOfEncoding(data, |EncodeGenesis(g1)|, |data|, MergeGenesis(m, g1), g2);
  }

  // ---------------------------------------------------------------------
  // Unknown fields

  /** A field with a number GenesisState does not declare is stepped over
      whole, whatever its wire type (groups included), and changes nothing. */
  lemma GenesisSkipsUnknownField(data: seq<byte>, i: nat, e: nat, m: GenesisState, f: Field)
    requires |data| < TWO_63 && WellFormed(f) && f.number > 5
    requires StartsWith(data, i, EncodeField(f))
    requires e == i + |EncodeField(f)|
    ensures e <= |data|
    ensures ParseGenesisFrom(data, i, m) == ParseGenesisFrom(data, e, m)
  {
    ReadKeyOfField(data, i, f, "GenesisState");
    SkipUnknownOfEncoding(data, i, f);
    ParseGenesisStep(data, i, m, e, m);
  }

  lemma {:induction false} GenesisSkipsUnknownFields(data: seq<byte>, i: nat, e: nat, m: GenesisState, fs: seq<Field>)
    requires |data| < TWO_63 && AllNumberedAbove(fs, 5)
    requires StartsWith(data, i, EncodeFields(fs))
    requires e == i + |EncodeFields(fs)|
    ensures e <= |data|
    ensures ParseGenesisFrom(data, i, m) == ParseGenesisFrom(data, e, m)
    decreases |fs|
  {
    if fs == [] {
      assert e == i;
    } else {
      var head, tail := EncodeField(fs[0]), EncodeFields(fs[1..]);
      var mid := i + |head|;
      assert StartsWith(data, i, head) && StartsWith(data, mid, tail) && e == mid + |tail| by {
        assert EncodeFields(fs) == head + tail;
        StartsWithSplit(data, i, head, tail);
      }
      AllNumberedAboveTail(fs, 5);
      assert ParseGenesisFrom(data, i, m) == ParseGenesisFrom(data, mid, m) by {
        GenesisSkipsUnknownField(data, i, mid, m, fs[0]);
      }
      GenesisSkipsUnknownFields(data, mid, e, m, fs[1..]);
    }
  }

  /** Forward compatibility: fields from a newer version of the message,
      written after the known ones, do not change what is read. */
  lemma GenesisIgnoresNewerFields(g: GenesisState, fs: seq<Field>, m: GenesisState)
    requires |EncodeGenesis(g)| + |EncodeFields(fs)| < TWO_63 && AllNumberedAbove(fs, 5)
    ensures ParseGenesis(EncodeGenesis(g) + EncodeFields(fs), m) == Decoded(MergeGenesis(m, g), None)
  {
    var data := EncodeGenesis(g) + EncodeFields(fs);
    StartsWithPrefix(EncodeGenesis(g), EncodeFields(fs));
    StartsWithAfter(EncodeGenesis(g), EncodeFields(fs));
    ParseGenesisOfEncoding(data, 0, |EncodeGenesis(g)|, m, g);
    GenesisSkipsUnknownFields(data, |EncodeGenesis(g)|, |data|, MergeGenesis(m, g), fs);
  }

  // ---------------------------------------------------------------------
  // Malformed input. Each error stops the loop at the first field and
  // leaves the receiver as it was.

  /** A refused key stops the loop with the receiver unchanged. */
  lemma GenesisStopsAtKey(data: seq<byte>, m: GenesisState)
    requires |data| > 0 && ReadKey(data, 0, "GenesisState").Err?
    ensures ParseGenesis(data, m) == Decoded(m, Some(ReadKey(data, 0, "GenesisState").error))
  {
  }

  /** Wire type 4 (end group) is refused at the top level, for any field
      number, before the field number is looked at. */
  lemma GenesisRejectsEndGroup(n: nat, rest: seq<byte>, m: GenesisState)
    requires n < 0x2000_0000
    ensures ParseGenesis(KeyBytes(n, 4) + rest, m) == Decoded(m, Some(EndGroupForNonGroup("GenesisState")))
  {
    StartsWithPrefix(KeyBytes(n, 4), rest);
    ReadKeyBytes(KeyBytes(n, 4) + rest, 0, n, 4);
  }

  /** Field number 0 is an illegal tag; the message reports the whole key. */
  lemma GenesisRejectsFieldZero(wireType: nat, rest: seq<byte>, m: GenesisState)
    requires wireType < 8 && wireType != 4
    ensures ParseGenesis(KeyBytes(0, wireType) + rest, m) == Decoded(m, Some(IllegalTag("GenesisState", 0, wireType)))
  {
    StartsWithPrefix(KeyBytes(0, wireType), rest);
    ReadKeyBytes(KeyBytes(0, wireType) + rest, 0, 0, wireType);
  }

  /** The field number is the key shifted right by 3 and truncated to a Go
      int32: from 2^31 on it is negative, and the key is an illegal tag. */
  lemma GenesisRejectsNegativeFieldNumber(n: nat, wireType: nat, rest: seq<byte>, m: GenesisState)
    requires TWO_31 <= n < TWO_32 && wireType < 8 && wireType != 4
    ensures ParseGenesis(VarintBytes(n * 8 + wireType) + rest, m) ==
      Decoded(m, Some(IllegalTag("GenesisState", n - TWO_32, n * 8 + wireType)))
  {
    var data := VarintBytes(n * 8 + wireType) + rest;
    StartsWithPrefix(VarintBytes(n * 8 + wireType), rest);
    ReadKeyOfNegativeField(data, 0, n, wireType, "GenesisState");
    GenesisStopsAtKey(data, m);
  }

  /** The name each wrong-wire-type error gives for a field of GenesisState. */
  function GenesisFieldName(n: int): string
  {
    if n == 1 then "Params"
    else if n == 2 then "LastValidatorPowers"
    else if n == 3 then "Validators"
    else if n == 4 then "PreviousProposer"
    else "Exported"
  }

  /** A declared field with another wire type than its own (2 for fields
      1 to 4, 0 for field 5) is refused with the field's name. */
  lemma GenesisRejectsWrongWireType(n: nat, wireType: nat, rest: seq<byte>, m: GenesisState)
    requires 1 <= n <= 5 && wireType < 8 && wireType != 4
    requires wireType != (if n == 5 then 0 else 2)
    ensures ParseGenesis(KeyBytes(n, wireType) + rest, m) == Decoded(m, Some(WrongWireType(GenesisFieldName(n), wireType)))
  {
    StartsWithPrefix(KeyBytes(n, wireType), rest);
    ReadKeyOfKeyBytes(KeyBytes(n, wireType) + rest, 0, n, wireType, "GenesisState");
  }

  /** The length-delimited fields of GenesisState stop the loop, with the
      receiver unchanged, when their length prefix is refused. */
  lemma GenesisStopsAtLength(data: seq<byte>, n: nat, m: GenesisState)
    requires 1 <= n <= 4 && |data| > 0
    requires ReadKey(data, 0, "GenesisState") == Ok(At(Key(n, 2, n * 8 + 2), 1))
    requires ReadLength(data, 1).Err?
    ensures ParseGenesis(data, m) == Decoded(m, Some(ReadLength(data, 1).error))
  {
  }

  /** A length prefix that runs past the end of the input is
      io.ErrUnexpectedEOF, for each length-delimited field (1 to 4). */
  lemma GenesisRejectsTruncatedBody(n: nat, length: nat, body: seq<byte>, m: GenesisState)
    requires 1 <= n <= 4
    requires |body| < length < TWO_63 - 11
    ensures ParseGenesis([n * 8 + 2] + VarintBytes(length) + body, m) == Decoded(m, Some(UnexpectedEOF))
  {
    var tag: byte := n * 8 + 2;
    var data := [tag] + VarintBytes(length) + body;
    ReadTagThenVarint(tag, length, body, "GenesisState");
    assert tag / 8 == n && tag % 8 == 2;
    VarintBytesLength(length);
    SovRange(length);
    ReadLengthPastEnd(data, 1, length);
    GenesisStopsAtLength(data, n, m);
  }

  /** A length prefix that is negative as a Go int is an invalid length. */
  lemma GenesisRejectsNegativeLength(n: nat, length: nat, rest: seq<byte>, m: GenesisState)
    requires 1 <= n <= 4
    requires TWO_63 <= length < TWO_64
    ensures ParseGenesis([n * 8 + 2] + VarintBytes(length) + rest, m) == Decoded(m, Some(InvalidLength))
  {
    var tag: byte := n * 8 + 2;
    var data := [tag] + VarintBytes(length) + rest;
    ReadTagThenVarint(tag, length, rest, "GenesisState");
    assert tag / 8 == n && tag % 8 == 2;
    ReadLengthNegative(data, 1, length);
    GenesisStopsAtLength(data, n, m);
  }

  /** A last validator power whose body fails stays appended, filled as far
      as its Unmarshal got, and its error is returned. */
  lemma GenesisKeepsFailedPower(body: seq<byte>, rest: seq<byte>, m: GenesisState)
    requires |LengthDelimited(0x12, body)| + |rest| < TWO_63
    requires ParsePower(body, EmptyPower).err.Some?
    ensures ParseGenesis(LengthDelimited(0x12, body) + rest, m) ==
      Decoded(m.(lastValidatorPowers := m.lastValidatorPowers + [ParsePower(body, EmptyPower).msg]), ParsePower(body, EmptyPower).err)
  {
    StartsWithPrefix(LengthDelimited(0x12, body), rest);
    ReadLengthDelimited(LengthDelimited(0x12, body) + rest, 0, 0x12, body, "GenesisState");
  }

  /** Exported is true exactly when its varint is not zero. */
  lemma GenesisExportedOfVarint(v: u64, m: GenesisState)
    ensures ParseGenesis([0x28] + VarintBytes(v), m) == Decoded(m.(exported := v != 0), None)
  {
    var data := [0x28] + VarintBytes(v) + [];
    assert data == [0x28] + VarintBytes(v);
    ReadTagThenVarint(0x28, v, [], "GenesisState");
    ReadVarintOfBytes(data, 1, v);
    var m' := m.(exported := v != 0);
    assert GenesisField(data, 0, m) == Step(m', |data|, None);
    ParseGenesisStep(data, 0, m, |data|, m');
  }

  /** An exported varint cut short after k of its bytes is
      io.ErrUnexpectedEOF, and exported keeps its old value. */
  lemma GenesisExportedTruncated(v: u64, k: nat, m: GenesisState)
    requires k < |VarintBytes(v)|
    ensures ParseGenesis([0x28] + VarintBytes(v)[..k], m) == Decoded(m, Some(UnexpectedEOF))
  {
    var data := [0x28] + VarintBytes(v)[..k];
    assert |[0x28]| == 1 && data[0] == 0x28;
    ReadKeyOfTag(data, 0, 0x28, "GenesisState");
    StartsWithAfter([0x28], VarintBytes(v)[..k]);
    ReadVarintOfPrefix(data, 1, v, k);
  }

  /** The zero value: a LastValidatorPower with nothing set encodes to no
      bytes, while a GenesisState always carries its params field. */
  lemma EmptyEncodings()
    ensures EncodePower(EmptyPower) == []
    ensures EncodeGenesis(EmptyGenesis) == [0x0a, 0x00]
  {
    assert Repeated(0x12, PowerBodies([])) == [];
    assert Repeated(0x1a, Wires([])) == [];
  }
}
