# op_child genesis and query codec

A Dafny model of the Protocol Buffers binary codec that gogoproto generates for
the op_child module. It covers the genesis messages `GenesisState` and
`LastValidatorPower`, and the six query messages `QueryValidatorsRequest`,
`QueryValidatorsResponse`, `QueryValidatorRequest`, `QueryValidatorResponse`,
`QueryParamsRequest` and `QueryParamsResponse`. For each message the model has
`Size`, `MarshalToSizedBuffer`, `Marshal` and `Unmarshal`. It also has the
shared helpers of the two generated files: base-128 varints
(`encodeVarint*`, `sov*`, `soz*`, the inline decode loop) and the skipping of
unknown fields (`skipGenesis`, `skipQuery`).

The two generated files repeat the same helpers, so each helper is modelled
once and used by both message families:

- `base.dfy`: machine integer types, the error values, and the result carriers.
  It also defines `StartsWith`, which says that an input holds given bytes at
  an index, and `Written`, which says that a buffer changed only in a given
  range.
- `varint.dfy`: `sovGenesis`/`sovQuery` as `Sov`, zig-zag size `Soz`, the
  encoder loop `EncodeVarint` on an `array<byte>`, the decoder loop
  `DecodeVarint`, and their specification functions `VarintBytes` and
  `ReadVarint`.
- `framing.dfy`: keys (`fieldNum = int32(wire >> 3)`, `wireType = wire & 7`),
  the length-prefix checks, length-delimited and repeated fields, and the
  backwards buffer writers.
- `skip.dfy`: `skipGenesis`/`skipQuery` as the function `SkipFrom` and the
  method `SkipFieldLoop`; the default arm of every `Unmarshal` as
  `SkipUnknown`.
- `unknown.dfy`: a datatype of arbitrary wire fields, groups included, with
  their encoding. It proves that the skip loop steps over exactly one encoded
  field.
- `genesis.dfy` and `query.dfy`: the messages as datatypes and their codecs.
  - `Size` is a method with loops over the repeated fields.
  - `MarshalToSizedBuffer` fills an `array<byte>` backwards from `end`.
  - `Unmarshal` is a loop over a field-dispatch method.
  - Each method is proved equal to a specification function (`Encode*`,
    `Parse*`).
- `genesis_laws.dfy` and `query_laws.dfy`: the round trips, merge semantics,
  forward compatibility and error cases of `Unmarshal`.

Modelling choices:

- `Unmarshal` has a pointer receiver. It is modelled as taking the receiver's
  current value and returning its new value with the error (`Decoded`).
  - On error the value returned is the partly updated receiver, because Go
    leaves its fields partly written.
  - Decoding into a non-empty receiver is protobuf merging, stated by the
    `Merge*` functions: scalars and strings are replaced when present,
    repeated fields append, and embedded messages merge.
- The embedded messages whose codecs live elsewhere are `Validator`, `Params`,
  `PageRequest` and `PageResponse`. They are represented by the bytes of their
  encoding (`Nested`).
  - Their `Size` is the number of those bytes.
  - Marshalling them copies the bytes.
  - Unmarshalling a body into an existing value appends the body. Decoding the
    concatenation of two encodings is exactly how protobuf merges a message
    field that occurs twice.
- Go's `uint64` arithmetic is explicit. The decode accumulator is reduced
  modulo 2^64. A negative `int64` power is written as its ten-byte two's
  complement varint. A length is invalid when it is negative as an `int64` or
  when `iNdEx + length` reaches 2^63.

## Model

| member | source | states |
|---|---|---|
| `Varint.SovIsLeastGroupCount` | x/op_child/types/genesis.pb.go:359-361 | sovGenesis(x) is the least n >= 1 with x < 2^(7n) |
| `Varint.SovRange` | x/op_child/types/query.pb.go:816-818 | sovQuery/sovGenesis of a uint64 lies between 1 and 10 |
| `Varint.SovOfHighBit` | x/op_child/types/genesis.pb.go:359-361 | a uint64 with bit 63 set (a negative int64 reinterpreted) takes exactly 10 bytes |
| `Varint.SovStep` | x/op_child/types/genesis.pb.go:359-361 | one byte below 0x80, and one more byte per seven bits above |
| `Varint.ZigZagOfSigned` | x/op_child/types/genesis.pb.go:362-364 | sozGenesis is sov of the zig-zag image: 0, -1, 1, -2 map to 0, 1, 2, 3 |
| `Varint.VarintBytesLength` | x/op_child/types/genesis.pb.go:302-312 | the encoder writes exactly sovGenesis(v) bytes |
| `Varint.VarintValue` | x/op_child/types/genesis.pb.go:302-312 | the 7-bit groups of the written bytes, least significant first, make up v |
| `Varint.VarintContinuation` | x/op_child/types/genesis.pb.go:302-312 | every written byte but the last has bit 0x80 set, and the last does not |
| `Varint.EncodeVarint` | x/op_child/types/genesis.pb.go:302-312 | encodeVarintGenesis writes the bytes of v ending just before offset, returns offset - sov(v), and leaves the rest of the buffer unchanged |
| `Varint.PutVarint` | x/op_child/types/query.pb.go:729-739 | encodeVarintQuery changes only [offset - sov(v), offset), which then holds the varint of v |
| `Varint.DecodeVarint` | x/op_child/types/genesis.pb.go:371-384 | the inline decode loop computes the value, end index and error that ReadVarint specifies |
| `Varint.ReadVarintOfBytes` | x/op_child/types/genesis.pb.go:634-647 | varint round trip: decoding the encoder's bytes gives back every uint64 and stops right after them |
| `Varint.ReadVarintTruncated` | x/op_child/types/genesis.pb.go:375-377 | input that ends inside a varint of fewer than ten bytes fails with io.ErrUnexpectedEOF |
| `Varint.ReadVarintOfPrefix` | x/op_child/types/genesis.pb.go:365-380 | input that ends after k of the Sov(v) bytes of the varint of v fails with io.ErrUnexpectedEOF after consuming all of it, and the accumulator then holds v mod 2^(7k), the k low groups |
| `Varint.ReadVarintTooLong` | x/op_child/types/genesis.pb.go:371-374 | ten bytes with the continuation bit drive the shift to 64: ErrIntOverflowGenesis |
| `Base.ToU64` | x/op_child/types/genesis.pb.go:288 | uint64(int64) two's complement conversion, inverted by int64(uint64) and zero exactly at zero |
| `Framing.ReadKey` | x/op_child/types/genesis.pb.go:369-392 | a key is accepted exactly when its varint reads, its wire type is not 4 and its int32 field number is positive |
| `Framing.ReadLength` | x/op_child/types/genesis.pb.go:398-422 | an accepted length delimits a body inside the input; a refused one is io.ErrUnexpectedEOF when the end index fits an int and ErrInvalidLength otherwise |
| `Framing.ReadKeyOfNegativeField` | x/op_child/types/query.pb.go:842-848 | a key whose field number truncates to a negative int32 is an illegal tag reporting that negative number |
| `Framing.ReadLengthNegative` | x/op_child/types/query.pb.go:869-871 | a length prefix that is negative as an int is ErrInvalidLengthQuery |
| `Framing.ReadLengthPastEnd` | x/op_child/types/query.pb.go:877-878 | a body that would end past the input is io.ErrUnexpectedEOF |
| `Framing.ReadLengthDelimited` | x/op_child/types/genesis.pb.go:394-426 | a written length-delimited field is read back: key, length and exactly its body |
| `Framing.DecodeKey` | x/op_child/types/query.pb.go:825-849 | the key loop and its two checks compute ReadKey |
| `Framing.DecodeLength` | x/op_child/types/query.pb.go:855-879 | the length loop and its checks compute ReadLength |
| `Framing.PutBytes` | x/op_child/types/genesis.pb.go:220-221 | `i -= len; copy(dAtA[i:], bs)` changes only the range it returns, which then holds bs |
| `Framing.PutLengthDelimited` | x/op_child/types/genesis.pb.go:219-225 | body, length varint and key written backwards make the length-delimited field, in place |
| `Framing.PutRepeated` | x/op_child/types/genesis.pb.go:226-239 | writing the elements from the last to the first leaves them in list order on the wire |
| `Framing.RepeatedAppend` | x/op_child/types/genesis.pb.go:226-239 | the encoding of a repeated field of a + b is the encoding of a followed by that of b |
| `Skip.DecodeStepOver` | x/op_child/types/genesis.pb.go:690-738 | the switch on the wire type in skipGenesis computes StepOver: the value's end and the new group depth, or the error |
| `Skip.SkipFieldLoop` | x/op_child/types/genesis.pb.go:669-746 | skipGenesis computes SkipField, and any length it returns is positive and below 2^63 |
| `Skip.DecodeUnknown` | x/op_child/types/genesis.pb.go:547-560 | the default arm of Unmarshal steps past the unknown field and never past the end of the input |
| `Unknown.SkipFieldOfEncoding` | x/op_child/types/query.pb.go:1326-1403 | skipQuery returns exactly the length of one encoded field of any wire type, balanced groups included, whatever follows it |
| `Unknown.SkipUnknownOfEncoding` | x/op_child/types/genesis.pb.go:547-560 | the default arm steps over an encoded unknown field in place |
| `Unknown.SkipFieldOfUnterminatedGroup` | x/op_child/types/genesis.pb.go:726-745 | a group that is opened and never closed runs the skip loop out of input: io.ErrUnexpectedEOF |
| `Unknown.SkipFieldOfStrayEndGroup` | x/op_child/types/genesis.pb.go:728-731 | an end-group key with no group open is ErrUnexpectedEndOfGroupGenesis |
| `Unknown.SkipFieldOfIllegalWireType` | x/op_child/types/query.pb.go:1392-1393 | wire types 6 and 7 are "illegal wireType" |
| `Unknown.ReadKeyOfKeyBytes` | x/op_child/types/query.pb.go:842-848 | a key with field number 1 to 2^29 - 1 and wire type other than 4 passes both key checks and is read back |
| `Genesis.PowerPart` | x/op_child/types/genesis.pb.go:287-291 | the power field is omitted exactly when the power is zero |
| `Genesis.ExportedPart` | x/op_child/types/genesis.pb.go:209-218 | exported is the two bytes 0x28 0x01 exactly when true, and nothing otherwise |
| `Genesis.SizePower` | x/op_child/types/genesis.pb.go:343-357 | LastValidatorPower.Size is the length of its encoding |
| `Genesis.SizeGenesis` | x/op_child/types/genesis.pb.go:313-341 | GenesisState.Size is the length of its encoding |
| `Genesis.MarshalPower` | x/op_child/types/genesis.pb.go:282-300 | writes the encoding of the power ending at end, changes nothing else, and returns its length |
| `Genesis.PutPowers` | x/op_child/types/genesis.pb.go:240-253 | the last validator powers, each as field 2, are written from the last so that they are in list order |
| `Genesis.MarshalGenesis` | x/op_child/types/genesis.pb.go:204-265 | writes params, powers, validators, proposer and exported in forward order, ending at end; changes nothing else and returns the encoding's length |
| `Genesis.GenesisMarshal` | x/op_child/types/genesis.pb.go:189-197 | Marshal fills a buffer of exactly Size bytes completely, so its result is the encoding |
| `Genesis.PowerMarshal` | x/op_child/types/genesis.pb.go:267-275 | Marshal of a LastValidatorPower is its encoding |
| `Genesis.DecodePowerField` | x/op_child/types/genesis.pb.go:576-661 | one turn of LastValidatorPower.Unmarshal computes PowerField |
| `Genesis.UnmarshalPower` | x/op_child/types/genesis.pb.go:568-668 | LastValidatorPower.Unmarshal computes ParsePower |
| `Genesis.DecodeGenesisField` | x/op_child/types/genesis.pb.go:369-560 | one turn of GenesisState.Unmarshal computes GenesisField |
| `Genesis.UnmarshalGenesis` | x/op_child/types/genesis.pb.go:365-567 | GenesisState.Unmarshal computes ParseGenesis |
| `GenesisLaws.MergePower` | x/op_child/types/genesis.pb.go:627-647 | decoding into a freshly allocated power gives exactly what was encoded |
| `GenesisLaws.PowerFieldOfPower` | x/op_child/types/genesis.pb.go:629-647 | field 2 is reset and read back as the same int64, negative powers included |
| `GenesisLaws.ParsePowerOfEncoding` | x/op_child/types/genesis.pb.go:568-668 | an encoded power anywhere in the input is merged into the receiver, and reading goes on right after it |
| `GenesisLaws.PowerRoundTrip` | x/op_child/types/genesis.pb.go:568-668 | Unmarshal of Marshal gives p merged into the receiver, and p itself for a fresh one |
| `GenesisLaws.PowerConcatenation` | x/op_child/types/genesis.pb.go:627-633 | for a re-occurring address or power the last occurrence wins |
| `GenesisLaws.PowerSizes` | x/op_child/types/genesis.pb.go:343-357 | the empty power encodes to nothing, a negative power takes 11 bytes, and a small one takes two |
| `GenesisLaws.PowerTruncated` | x/op_child/types/genesis.pb.go:633-645 | for every u64 v and every k < Sov(v), the key 0x10 followed by the first k bytes of v's varint sets Power to int64(v mod 2^(7k)) (zero for k = 0, the reset) and reports io.ErrUnexpectedEOF |
| `GenesisLaws.MergeGenesis` | x/op_child/types/genesis.pb.go:423-546 | decoding into a freshly allocated state gives exactly what was encoded |
| `GenesisLaws.GenesisFieldOfPower` | x/op_child/types/genesis.pb.go:427-460 | field 2 holding an encoded power appends that power |
| `GenesisLaws.ParseGenesisOfPowers` | x/op_child/types/genesis.pb.go:456-457 | the repeated powers are appended in list order |
| `GenesisLaws.ParseGenesisOfValidators` | x/op_child/types/genesis.pb.go:490-491 | the repeated validators are appended in list order |
| `GenesisLaws.ParseGenesisOfEncoding` | x/op_child/types/genesis.pb.go:365-567 | an encoded state anywhere in the input is merged into the receiver, and reading goes on right after it |
| `GenesisLaws.GenesisRoundTrip` | x/op_child/types/genesis.pb.go:365-567 | Unmarshal of Marshal reproduces params, powers and validators in order, proposer and exported |
| `GenesisLaws.GenesisConcatenation` | x/op_child/types/genesis.pb.go:456-546 | two states in a row: repeated fields append, the later proposer and exported win where set |
| `GenesisLaws.GenesisSkipsUnknownFields` | x/op_child/types/genesis.pb.go:547-560 | any run of well-formed fields numbered above 5 is stepped over and changes nothing |
| `GenesisLaws.GenesisIgnoresNewerFields` | x/op_child/types/genesis.pb.go:547-560 | fields of a newer schema written after the known ones do not change what is decoded |
| `GenesisLaws.GenesisRejectsEndGroup` | x/op_child/types/genesis.pb.go:387-389 | wire type 4 at the top level is refused for any field number, with the receiver unchanged |
| `GenesisLaws.GenesisRejectsFieldZero` | x/op_child/types/genesis.pb.go:390-392 | field number 0 is an illegal tag |
| `GenesisLaws.GenesisRejectsNegativeFieldNumber` | x/op_child/types/genesis.pb.go:385-392 | keys whose int32 field number is negative are illegal tags reporting the negative number |
| `GenesisLaws.GenesisRejectsWrongWireType` | x/op_child/types/genesis.pb.go:394-530 | each declared field with another wire type than its own is refused with the field's name |
| `GenesisLaws.GenesisRejectsTruncatedBody` | x/op_child/types/genesis.pb.go:420-422 | a length-delimited body running past the end is io.ErrUnexpectedEOF, for fields 1 to 4 |
| `GenesisLaws.GenesisRejectsNegativeLength` | x/op_child/types/genesis.pb.go:413-415 | a length prefix that is negative as an int is ErrInvalidLengthGenesis |
| `GenesisLaws.GenesisKeepsFailedPower` | x/op_child/types/genesis.pb.go:456-459 | a power whose body fails to decode is still appended, as far as it got, and its error is returned |
| `GenesisLaws.GenesisExportedOfVarint` | x/op_child/types/genesis.pb.go:527-546 | exported is set to whether the varint is non-zero |
| `GenesisLaws.GenesisExportedTruncated` | x/op_child/types/genesis.pb.go:531-546 | for every u64 v and every k < Sov(v), the key 0x28 followed by the first k bytes of v's varint reports io.ErrUnexpectedEOF with the state unchanged, exported included |
| `GenesisLaws.EmptyEncodings` | x/op_child/types/genesis.pb.go:254-263 | an empty power encodes to nothing, and an empty state still carries its params field as 0x0a 0x00 |
| `Query.OptionalField` | x/op_child/types/query.pb.go:548-557 | a pointer field is written exactly when it is not nil |
| `Query.SizeNested` | x/op_child/types/query.pb.go:785-794 | the size of an always-present embedded message is its encoding's length |
| `Query.SizeValidatorsRequest` | x/op_child/types/query.pb.go:740-751 | QueryValidatorsRequest.Size is the length of its encoding |
| `Query.SizeValidatorsResponse` | x/op_child/types/query.pb.go:753-770 | QueryValidatorsResponse.Size is the length of its encoding |
| `Query.SizeValidatorRequest` | x/op_child/types/query.pb.go:772-783 | QueryValidatorRequest.Size is the length of its encoding |
| `Query.SizeValidatorResponse` | x/op_child/types/query.pb.go:785-794 | QueryValidatorResponse.Size is the length of its encoding |
| `Query.SizeParamsRequest` | x/op_child/types/query.pb.go:796-803 | QueryParamsRequest.Size is 0, the length of its empty encoding |
| `Query.SizeParamsResponse` | x/op_child/types/query.pb.go:805-814 | QueryParamsResponse.Size is the length of its encoding |
| `Query.MarshalValidatorsRequest` | x/op_child/types/query.pb.go:541-559 | writes the pagination field, if any, ending at end, changes nothing else, and returns its length |
| `Query.MarshalValidatorsResponse` | x/op_child/types/query.pb.go:576-608 | writes the validators in list order and then the pagination, ending at end, and changes nothing else |
| `Query.MarshalValidatorRequest` | x/op_child/types/query.pb.go:625-638 | writes the address field, nothing when it is empty, ending at end |
| `Query.MarshalValidatorResponse` | x/op_child/types/query.pb.go:655-671 | writes the validator field, even when empty, ending at end |
| `Query.MarshalParamsRequest` | x/op_child/types/query.pb.go:688-694 | writes nothing and returns 0 |
| `Query.MarshalParamsResponse` | x/op_child/types/query.pb.go:711-727 | writes the params field, even when empty, ending at end |
| `Query.ValidatorsRequestMarshal` | x/op_child/types/query.pb.go:526-534 | Marshal fills a buffer of exactly Size bytes with the encoding |
| `Query.ValidatorsResponseMarshal` | x/op_child/types/query.pb.go:561-569 | Marshal fills a buffer of exactly Size bytes with the encoding |
| `Query.ValidatorRequestMarshal` | x/op_child/types/query.pb.go:610-618 | Marshal fills a buffer of exactly Size bytes with the encoding |
| `Query.ValidatorResponseMarshal` | x/op_child/types/query.pb.go:640-648 | Marshal fills a buffer of exactly Size bytes with the encoding |
| `Query.ParamsRequestMarshal` | x/op_child/types/query.pb.go:673-681 | Marshal gives no bytes |
| `Query.ParamsResponseMarshal` | x/op_child/types/query.pb.go:696-704 | Marshal fills a buffer of exactly Size bytes with the encoding |
| `Query.ReadBody` | x/op_child/types/query.pb.go:852-879 | a wire type other than 2 is refused with the field's name; an accepted body ends inside the input |
| `Query.Allocated` | x/op_child/types/query.pb.go:880-882 | a nil pagination is allocated empty before the nested Unmarshal, and an existing one is kept |
| `Query.Skipped` | x/op_child/types/query.pb.go:887-899 | the default arm changes no field of the message |
| `Query.DecodeValidatorsRequestField` | x/op_child/types/query.pb.go:825-899 | one turn of QueryValidatorsRequest.Unmarshal computes ValidatorsRequestField |
| `Query.DecodeValidatorsResponseField` | x/op_child/types/query.pb.go:911-1019 | one turn of QueryValidatorsResponse.Unmarshal computes ValidatorsResponseField |
| `Query.DecodeValidatorRequestField` | x/op_child/types/query.pb.go:1031-1101 | one turn of QueryValidatorRequest.Unmarshal computes ValidatorRequestField |
| `Query.DecodeValidatorResponseField` | x/op_child/types/query.pb.go:1113-1184 | one turn of QueryValidatorResponse.Unmarshal computes ValidatorResponseField |
| `Query.DecodeParamsRequestField` | x/op_child/types/query.pb.go:1196-1235 | one turn of QueryParamsRequest.Unmarshal reads the key checks and skips the field |
| `Query.DecodeParamsResponseField` | x/op_child/types/query.pb.go:1246-1317 | one turn of QueryParamsResponse.Unmarshal computes ParamsResponseField |
| `Query.UnmarshalValidatorsRequest` | x/op_child/types/query.pb.go:822-907 | QueryValidatorsRequest.Unmarshal computes ParseValidatorsRequest |
| `Query.UnmarshalValidatorsResponse` | x/op_child/types/query.pb.go:908-1027 | QueryValidatorsResponse.Unmarshal computes ParseValidatorsResponse |
| `Query.UnmarshalValidatorRequest` | x/op_child/types/query.pb.go:1028-1109 | QueryValidatorRequest.Unmarshal computes ParseValidatorRequest |
| `Query.UnmarshalValidatorResponse` | x/op_child/types/query.pb.go:1110-1192 | QueryValidatorResponse.Unmarshal computes ParseValidatorResponse |
| `Query.UnmarshalParamsRequest` | x/op_child/types/query.pb.go:1193-1242 | QueryParamsRequest.Unmarshal computes ParseParamsRequest |
| `Query.UnmarshalParamsResponse` | x/op_child/types/query.pb.go:1243-1325 | QueryParamsResponse.Unmarshal computes ParseParamsResponse |
| `QueryLaws.ReadBodyOfField` | x/op_child/types/query.pb.go:850-886 | a written length-delimited field passes the key checks and is read back as exactly its body |
| `QueryLaws.MergePagination` | x/op_child/types/query.pb.go:880-883 | a pagination absent from the input leaves the receiver's, and one decoded into a nil pointer is the one encoded |
| `QueryLaws.MergeValidatorsRequest` | x/op_child/types/query.pb.go:880-883 | decoding into a fresh request gives exactly what was encoded |
| `QueryLaws.ParseValidatorsRequestOfEncoding` | x/op_child/types/query.pb.go:822-907 | an encoded request anywhere in the input is merged into the receiver, and reading goes on right after it |
| `QueryLaws.ValidatorsRequestRoundTrip` | x/op_child/types/query.pb.go:822-907 | Unmarshal of Marshal gives the request back; nil stays nil and an empty pagination stays allocated |
| `QueryLaws.ValidatorsRequestRejectsEndGroup` | x/op_child/types/query.pb.go:844-846 | wire type 4 is refused for any field number |
| `QueryLaws.ValidatorsRequestRejectsFieldZero` | x/op_child/types/query.pb.go:847-849 | field number 0 is an illegal tag |
| `QueryLaws.ValidatorsRequestRejectsWrongWireType` | x/op_child/types/query.pb.go:851-854 | field 1 with a wire type other than 2 is refused naming Pagination |
| `QueryLaws.ValidatorsRequestRejectsTruncatedKey` | x/op_child/types/query.pb.go:828-834 | any input of one to nine bytes that all carry the continuation bit (it ends inside the key) is io.ErrUnexpectedEOF with the receiver unchanged |
| `QueryLaws.ValidatorsRequestRejectsPrefix` | x/op_child/types/query.pb.go:855-882 | every proper non-empty prefix of an encoded request with a pagination, cut inside the length prefix or inside the body, is io.ErrUnexpectedEOF with the receiver unchanged (pagination not allocated); for encodings below 2^63 bytes |
| `QueryLaws.ValidatorsRequestRejectsTruncatedBody` | x/op_child/types/query.pb.go:877-879 | a pagination body running past the end is io.ErrUnexpectedEOF |
| `QueryLaws.MergeValidatorsResponse` | x/op_child/types/query.pb.go:966-1003 | decoding into a fresh response gives exactly what was encoded |
| `QueryLaws.ParseValidatorsResponseOfValidators` | x/op_child/types/query.pb.go:966-967 | the repeated validators are appended in list order |
| `QueryLaws.ParseValidatorsResponseOfEncoding` | x/op_child/types/query.pb.go:908-1027 | an encoded response anywhere in the input is merged into the receiver, and reading goes on right after it |
| `QueryLaws.ValidatorsResponseRoundTrip` | x/op_child/types/query.pb.go:908-1027 | Unmarshal of Marshal gives the validators back in order and the pagination as written |
| `QueryLaws.ValidatorsResponseConcatenation` | x/op_child/types/query.pb.go:966-1003 | two responses in a row: all validators in order and the two paginations merged |
| `QueryLaws.ValidatorsResponseSkipsUnknownFields` | x/op_child/types/query.pb.go:1007-1019 | any run of well-formed fields numbered above 2 is stepped over and changes nothing |
| `QueryLaws.ValidatorsResponseIgnoresNewerFields` | x/op_child/types/query.pb.go:1007-1019 | fields of a newer schema after the known ones do not change what is decoded |
| `QueryLaws.ValidatorsResponseRejectsWrongWireType` | x/op_child/types/query.pb.go:938-973 | fields 1 and 2 with a wire type other than 2 are refused with their names |
| `QueryLaws.MergeValidatorRequest` | x/op_child/types/query.pb.go:1087 | decoding into a fresh request gives exactly what was encoded |
| `QueryLaws.ParseValidatorRequestOfEncoding` | x/op_child/types/query.pb.go:1028-1109 | an encoded request anywhere in the input replaces the address when it carries one |
| `QueryLaws.ValidatorRequestRoundTrip` | x/op_child/types/query.pb.go:1056-1088 | Unmarshal recovers the address that Marshal wrote |
| `QueryLaws.ValidatorRequestConcatenation` | x/op_child/types/query.pb.go:1087 | for a re-occurring address the last occurrence wins |
| `QueryLaws.MergeValidatorResponse` | x/op_child/types/query.pb.go:1168 | decoding into a fresh response gives exactly what was encoded |
| `QueryLaws.ParseValidatorResponseOfEncoding` | x/op_child/types/query.pb.go:1110-1192 | an encoded response anywhere in the input merges its validator into the receiver's |
| `QueryLaws.ValidatorResponseRoundTrip` | x/op_child/types/query.pb.go:1110-1192 | Unmarshal of Marshal gives the response back |
| `QueryLaws.ParamsRequestSkipsFields` | x/op_child/types/query.pb.go:1221-1235 | any run of well-formed fields is stepped over and changes nothing |
| `QueryLaws.ParamsRequestIgnoresAllFields` | x/op_child/types/query.pb.go:1193-1242 | Unmarshal accepts any sequence of well-formed fields and ignores every one |
| `QueryLaws.MergeParamsResponse` | x/op_child/types/query.pb.go:1301 | decoding into a fresh response gives exactly what was encoded |
| `QueryLaws.ParseParamsResponseOfEncoding` | x/op_child/types/query.pb.go:1243-1325 | an encoded response anywhere in the input merges its params into the receiver's |
| `QueryLaws.ParamsResponseRoundTrip` | x/op_child/types/query.pb.go:1243-1325 | Unmarshal of Marshal gives the response back |
| `QueryLaws.QueryEncodingSizes` | x/op_child/types/query.pb.go:655-727 | the validator and params responses take at least two bytes, 0x0a 0x00 when empty; an empty address and the params request encode to nothing |

## Left out

- gRPC plumbing, service descriptors, registration, the gzipped file descriptors and the `XXX_*` methods: they are network glue or delegate to the gogoproto library, which is not part of this model.
- `MarshalTo`: it only narrows the buffer to `Size()` bytes and calls `MarshalToSizedBuffer`, which is modelled.
- The getters (`GetPagination`, `GetValidators` and so on) and `String`/`Reset`/`ProtoMessage`: they have no codec logic.
- The codecs of `Validator`, `Params`, `PageRequest` and `PageResponse` are not part of this model. Each is represented by its encoded bytes, and its Unmarshal into an existing value is concatenation, so the errors those codecs can raise are never produced here.
- errors.go is not part of this model. It only registers sentinel errors. The per-file sentinels `ErrInvalidLength*`, `ErrIntOverflow*` and `ErrUnexpectedEndOfGroup*` carry the same text in both files, so each is one constructor of `Error`.
- The final `if iNdEx > l { return io.ErrUnexpectedEOF }` after each Unmarshal loop is left out. No path reaches it, because every field ends inside the input; the loop invariant `i <= |data|` states this.
- Unmarshal mutates the receiver through a pointer. Here each Unmarshal takes the receiver's value and returns the new one, so aliasing of the receiver is not modelled.
- Nil receivers (`Size` of a nil pointer returns 0) are not modelled, because values cannot be nil here. The `int` overflow of `Size` for messages over 2^63 bytes is not modelled either.
- `Genesis.MarshalGenesis`, `Genesis.MarshalPower` and the `Query.Marshal*` methods require a buffer that holds the encoding and is shorter than 2^63. Go panics on a shorter buffer and cannot allocate a longer one.
- `Varint.EncodeVarint` requires `sov(v) <= offset`; Go panics on a buffer that is too short.
- The round-trip, skip and prefix-rejection lemmas assume an input shorter than 2^63 bytes, the largest slice Go can index.
- sozGenesis and sozQuery are modelled as `Soz` but are used by no message field.
- The inline decode loops of each Unmarshal are shared helper methods (`DecodeVarint`, `DecodeKey`, `DecodeLength`, `ReadBody`). Their behaviour is the same in every copy.
- `string` fields (`ValidatorAddr`, `Address`, `PreviousProposer`) are byte sequences. Go's conversion between `string` and `[]byte` copies the bytes and changes nothing observable here.
- `Genesis.DecodeGenesisField` dispatches fields 1 to 4 in one branch, where the Go switch has four. The names in its errors and its results are those of the four arms.
