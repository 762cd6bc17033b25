# A verified model of the chat message codec

The generated message classes of the chat, login and registration packages move
every request between the servers.  Each class holds a has-bits word, strings,
numbers, nested and repeated messages, an unknown-field set and a cached size, and
offers a tag-dispatch parser, two serializers, a size calculator and Clear,
MergeFrom, CopyFrom and IsInitialized.  This project models them in two layers and
proves what the rest of the system takes for granted about them.  A small second
part covers the request counters of HelloSession.

**Messages as values.**  `Message.dfy` gives parsing, serializing and merging for
every schema at once; `Schemas.dfy` holds the schemas of the classes.  What the bytes
mean is fixed from the outside and in numbers: `WireFormat` says which bytes denote which
number, length and unknown field, `FieldMeaning` what a field of each type stores and is
written as, and `FieldTables` which tags, types and required fields each class has.  On top
stand the laws: merging is a monoid (`MergeLaws`), parsing turns concatenation into
merging (`Concat`), parser and serializer undo each other (`RoundTrip`), the order of
records does not matter (`WireOrder`), packed and unpacked lists agree
(`PackedForm`), older nodes relay what they do not know, whichever fields they lack
(`Relay`, `Narrow`), a field is set exactly when its tag occurred (`Presence`), and
re-serializing grows at most sevenfold (`Growth`).  `Strict` compares the parser with
one that refuses overrunning lengths, `Sizing` what the size calculator counts with
what the writers emit and with the encoding, and `Failing` says what a parse leaves in
the object when it gives up.

**Objects.**  `UserRegister`, `ErrorInfo`, `TextContent`, `MsgContent`, `MsgP2pRecv`,
`MsgList`, `NumberField`, `OfflineMsgP2pRsp` and `OfflineMsgGroupRspAck` are classes with the members, guard
masks, caches and object sharing of the generated code, down to the leaves of the
tree.  Their methods are proved against the value layer: for every input and every
prior content of the object.  `Members.dfy` says once, for every layout, what a state
of has-bits, strings, nested pointers and numbers means and which invariant the
accessors keep.  `Runs.dfy` and `ContentRuns.dfy` quantify over whole runs of calls,
the objects merged from included, and `Transmit.dfy` joins sizes, caches, writer and
reader: a tree of objects that is sized, serialized and parsed elsewhere comes out
equal.

## What the model shows

- Parsing is **not** a homomorphism on all inputs that parse.  The shortest limit on
  the stack is enforced, so a nested or packed record whose declared length runs past
  the end of its input is cut off there and accepted.  Appending more bytes then
  changes what that record takes.  `HomomorphismIff` proves that whole records on the
  left are exactly the condition; `ShortRunSwallowsNextField` is a concrete case.
- For the same reason a nested parse does not always consume its declared length.
  `NestedOverrunAccepted` is a two-byte case, and `NestedConsumesIff` the condition: it
  does exactly when that many bytes are there.  Refusing such lengths at every level
  changes nothing exactly on framed inputs (`StrictIs`), and whatever a serializer
  writes is framed (`WrittenIsFramed`).
- The size calculator and the writers both cast the length of a string or nested message
  to 32 bits.  So `ByteSizeLong` is the number of bytes emitted for every content, with no
  limit (`EmitLength`).  What goes wrong is the meaning: a length of 2^32 or more is
  announced modulo 2^32.  `EmitIff` gives the exact condition through all levels, and
  `LongTextAnnouncedEmpty` a text of 2^32 bytes behind the length zero.
- A session that is reset at 2^32 requests counts answers to older requests against
  the new ones, and the failure count wraps (`LateAnswersWrap`).

## Reading guide

- A slot of a message is `Absent`, a number, bytes, a nested message or a list; the
  field numbers are in the schema.  Doubles are their eight bytes.
- `Parse` has three outcomes: `Complete`, `Failed`, and `Stopped` for a zero or
  unreadable tag, where the generated loop returns true but the caller's check for a
  fully consumed message fails.
- A has-bits word is the set of its one bits; guards keep their numbers, so
  `has & 255` reads `Test(hasBits, 255)`.
- `depth` is the remaining recursion budget.  The input is a flat buffer, whose size
  is itself the outermost limit.
- Round trips are stated for serializations under 2^31 bytes, the size that the
  runtime accepts and that a length prefix can announce.
- Integers are unbounded; 32- and 64-bit truncation, sign extension and wrap-around
  are written out where the code has them.

## Model

| member | source | states |
|---|---|---|
| `Wire.VarintRoundTrip` | code/3party/include/google/protobuf/io/coded_stream.h:1149-1158 | every uint64 is read back from its varint, whatever bytes follow; 32-bit values and sizes under 2^31 through their own readers too |
| `Wire.VarintExtend` | code/3party/include/google/protobuf/io/coded_stream.h:902-926 | bytes that come later never change what a varint read returns |
| `Wire.VarintSizeIsExact` | code/3party/include/google/protobuf/io/coded_stream.h:1247-1255 | the multiply-and-shift size formula is the true encoded length for every 64-bit value |
| `Unknown.SkipFieldInvertsEncode` | code/Proto/src/chat_msg.pb.cc:1864-1870 | a stored unknown field, groups of any nesting included, is read back from what the serializer writes for it |
| `Unknown.SkipFieldExtend` | code/Proto/src/chat_msg.pb.cc:1864-1870 | an unknown field that was read whole is read the same when more bytes follow |
| `Unknown.SkipFieldValid` | code/Proto/src/chat_msg.pb.cc:1864-1870 | whatever the unknown-field reader accepts is within range and nested no deeper than the recursion budget |
| `RoundTrip.WireValueRoundTrip` | code/Proto/src/server_internal.pb.cc:1477-1489 | every int32, uint32 and uint64 survives sign extension on writing and truncation on reading |
| `RoundTrip.Int32SizeIsExact` | code/Proto/src/server_internal.pb.cc:1942-1947 | a negative gender takes exactly ten bytes, and the size calculator agrees for every int32 |
| `WireFormat.EncodeIff` | code/3party/include/google/protobuf/io/coded_stream.h:1149-1158 | what is written for a number is exactly the shortest varint that denotes it as a little-endian sum of powers of 128 |
| `WireFormat.ReadsForm` | code/3party/include/google/protobuf/io/coded_stream.h:902-926 | every varint of one to ten bytes, shortest or not, is read as the number it denotes modulo 2^64, or modulo 2^32 by the 32-bit reader; a longer one is refused, and so is a size of 2^31 or more |
| `WireFormat.ReadEnds` | code/3party/include/google/protobuf/io/coded_stream.h:105-107 | a read fails exactly when none of the first ten bytes ends the number; otherwise it takes between one and ten bytes |
| `WireFormat.WrittenNumber` | code/3party/include/google/protobuf/io/coded_stream.h:1160-1162 | the bytes of a written number denote it, a negative one with 2^64 added |
| `WireFormat.NumbersToWire` | code/3party/include/google/protobuf/io/coded_stream.h:1160-1162 | unsigned numbers are written as they are, a negative int32 with 2^64 added |
| `WireFormat.NumbersFromWire` | code/3party/include/google/protobuf/wire_format_lite_inl.h:57-85 | a uint64 is what was read, a uint32 its low 32 bits, an int32 the signed number with the same low 32 bits |
| `WireFormat.ReadsDelimited` | code/Proto/src/server_internal.pb.cc:1413-1423 | a string is its length modulo 2^32, which must be below 2^31, and as many bytes, all of which must be there |
| `WireFormat.SkipsByWireType` | code/Proto/src/chat_msg.pb.cc:1864-1870 | an unknown field of wire type 0, 1, 2 or 5 is a varint, eight bytes, a string or four bytes, for every input |
| `WireFormat.SkipsGroups` | code/Proto/src/chat_msg.pb.cc:1864-1870 | an unknown group lasts to the end tag of its own number; other end tags, the zero tag, a spent budget, wire types 4, 6 and 7 and field number zero are refused |
| `WireFormat.UnknownWritten` | code/Proto/src/chat_msg.pb.cc:1943-1946 | the tag and payload that each kind of unknown field is written as |
| `FieldMeaning.OneTurn` | code/Proto/src/chat_msg.pb.cc:1719-1881 | one turn of the loop from the bytes of the tag: the end, an unreadable or zero tag, a failing record, or the next turn |
| `FieldMeaning.UintRecord` | code/Proto/src/server_internal.pb.cc:1400-1411 | the record of an unsigned field sets its slot to the number that its bytes denote, cut to 32 or 64 bits, and fails the parse if the bytes do not end the number |
| `FieldMeaning.Int32Record` | code/Proto/src/server_internal.pb.cc:1478-1489 | the record of an int32 field sets its slot to the signed number whose low 32 bits the bytes denote |
| `FieldMeaning.NestedRecord` | code/3party/include/google/protobuf/wire_format_lite_inl.h:442-453 | a nested record takes a length below 2^31, one step of the budget, and a parse of as many bytes, or of what there is, that must end where they end |
| `FieldMeaning.WrittenInOrder` | code/Proto/src/server_internal.pb.cc:1613-1714 | a message is written field by field in the order of the numbers, then its unknown fields |
| `FieldTables.TextContentTable` | code/Proto/src/common.pb.cc:1701-1760 | tags 10, 16 and 18: msg is bytes, remind_user_list a list of uint32, unpacked or packed; any other tag is unknown; the record of each field as it is read, for every input, and as it is written |
| `FieldTables.TextContentRequired` | code/Proto/src/common.pb.cc:1887-1890 | initialized exactly when msg is present |
| `FieldTables.PictureContentTable` | code/Proto/src/common.pb.cc:2004-2084 | tags 10, 18, 24 and 32: two strings and two uint32, as read and as written |
| `FieldTables.PictureContentRequired` | code/Proto/src/common.pb.cc:2290-2293 | initialized exactly when all four fields are present |
| `FieldTables.VoiceContentTable` | code/Proto/src/common.pb.cc:2389-2443 | tags 8 and 18: voice_len is a uint32 and voice_url bytes, as read and as written |
| `FieldTables.VoiceContentRequired` | code/Proto/src/common.pb.cc:2595-2598 | initialized exactly when both fields are present |
| `FieldTables.BusiCardContentTable` | code/Proto/src/common.pb.cc:2703-2769 | tags 8, 18 and 26: a uint32 and two strings, as read and as written |
| `FieldTables.BusiCardContentRequired` | code/Proto/src/common.pb.cc:2950-2953 | initialized exactly when all three fields are present |
| `FieldTables.LocationContentTable` | code/Proto/src/common.pb.cc:3069-3149 | tags 10, 17, 25 and 34: two doubles of eight bytes between two strings, as read and as written |
| `FieldTables.LocationContentRequired` | code/Proto/src/common.pb.cc:3347-3350 | initialized exactly when all four fields are present |
| `FieldTables.RedPktContentTable` | code/Proto/src/common.pb.cc:3446-3500 | tags 8 and 18: a uint32 and bytes, as read and as written |
| `FieldTables.RedPktContentRequired` | code/Proto/src/common.pb.cc:3652-3655 | initialized exactly when both fields are present |
| `FieldTables.ShareContentTable` | code/Proto/src/common.pb.cc:3748-3802 | tags 8 and 18: a uint32 and bytes, as read and as written |
| `FieldTables.ShareContentRequired` | code/Proto/src/common.pb.cc:3954-3957 | initialized exactly when both fields are present |
| `FieldTables.JsonContentTable` | code/Proto/src/common.pb.cc:4050-4104 | tags 8 and 18: json_type is a uint32 and json_body bytes, as read and as written |
| `FieldTables.JsonContentRequired` | code/Proto/src/common.pb.cc:4235-4238 | initialized exactly when json_body is present |
| `FieldTables.RiskWarningTable` | code/Proto/src/common.pb.cc:4331-4385 | tags 10 and 16: bytes and a uint32, as read and as written |
| `FieldTables.RiskWarningRequired` | code/Proto/src/common.pb.cc:4537-4540 | initialized exactly when both fields are present |
| `FieldTables.MsgContentTags` | code/Proto/src/common.pb.cc:1142-1278 | the nine tags 10 to 74, and every other tag is unknown |
| `FieldTables.MsgContentParts` | code/Proto/src/common.pb.cc:1153-1258 | which class the part behind each of the nine tags has, that it is read into the part present, and how it is written |
| `FieldTables.MsgContentRequired` | code/Proto/src/common.pb.cc:1574-1603 | initialized exactly when each part that is present is initialized as a message of its own class |
| `FieldTables.ErrorInfoTable` | code/Proto/src/common.pb.cc:4645-4711 | tags 8, 18 and 26: error_code is an int32, the rest bytes, as read and as written |
| `FieldTables.ErrorInfoRequired` | code/Proto/src/common.pb.cc:4868-4871 | initialized exactly when error_code is present |
| `FieldTables.MsgP2pSendTable` | code/Proto/src/chat_msg.pb.cc:900-982 | tags 8, 16, 26 and 32: three uint32 and a msg_content, as read and as written |
| `FieldTables.MsgP2pSendRequired` | code/Proto/src/chat_msg.pb.cc:1178-1184 | initialized exactly when the first three fields are present and the msg_content is initialized |
| `FieldTables.MsgGroupSendTable` | code/Proto/src/chat_msg.pb.cc:2351-2419 | tags 8, 16 and 26: two uint32 and a msg_content, as read and as written |
| `FieldTables.MsgGroupSendRequired` | code/Proto/src/chat_msg.pb.cc:2595-2601 | initialized exactly when all three fields are present and the msg_content is initialized |
| `FieldTables.MsgP2pRecvTags` | code/Proto/src/chat_msg.pb.cc:1719-1881 | the ten tags of msg_p2p_recv, and every other tag is unknown |
| `FieldTables.MsgP2pRecvNumbers` | code/Proto/src/chat_msg.pb.cc:1729-1861 | msg_id and send_time are uint64, the other five numbers uint32, as read and as written |
| `FieldTables.MsgP2pRecvOthers` | code/Proto/src/chat_msg.pb.cc:1785-1833 | the two strings and the msg_content, as read and as written |
| `FieldTables.MsgP2pRecvRequired` | code/Proto/src/chat_msg.pb.cc:2227-2233 | initialized exactly when slots 0, 1, 2, 3, 6 and 7 are present and the msg_content is initialized |
| `FieldTables.OfflineMsgP2pRspTable` | code/Proto/src/chat_msg.pb.cc:4658-4728 | tags 10, 16 and 26: a list of msg_p2p_recv, a uint32 and a string, as read and as written |
| `FieldTables.OfflineMsgP2pRspRequired` | code/Proto/src/chat_msg.pb.cc:4899-4902 | initialized exactly when every element is |
| `FieldTables.OfflineMsgGroupRspAckTable` | code/Proto/src/chat_msg.pb.cc:6393-6466 | tags 10, 16, 18 and 24: an errorinfo, a list of uint64, unpacked or packed, and a uint32, as read and as written |
| `FieldTables.OfflineMsgGroupRspAckRequired` | code/Proto/src/chat_msg.pb.cc:6616-6622 | initialized exactly when the error is present and initialized |
| `FieldTables.UserRegisterTags` | code/Proto/src/server_internal.pb.cc:1389-1611 | the fifteen tags of user_register, and every other tag is unknown |
| `FieldTables.UserRegisterNumbers` | code/Proto/src/server_internal.pb.cc:1399-1590 | gender is an int32, the identities are uint64, user_type and imid uint32, as read and as written |
| `FieldTables.UserRegisterStrings` | code/Proto/src/server_internal.pb.cc:1413-1475 | the strings with tags 18 to 50, as read and as written |
| `FieldTables.UserRegisterMoreStrings` | code/Proto/src/server_internal.pb.cc:1519-1577 | the strings with tags 82 to 114, as read and as written |
| `FieldTables.UserRegisterRequired` | code/Proto/src/server_internal.pb.cc:2075-2078 | initialized exactly when user_type and guid are present |
| `FieldTables.ULoginTable` | code/Proto/src/user.pb.cc:436-568 | tags 8 to 64: four uint32 and four strings, as read and as written |
| `FieldTables.ULoginRequired` | code/Proto/src/user.pb.cc:856-859 | initialized exactly when imid and imToken are present |
| `FieldTables.GenderRecord` | code/Proto/src/server_internal.pb.cc:1478-1489 | every varint of n modulo 2^64 behind the tag 56 sets gender to n, for every int32 n, in any message |
| `FieldTables.ErrorCodeRecord` | code/Proto/src/common.pb.cc:4654-4665 | the same for error_code behind the tag 8 |
| `FieldTables.UserRegisterRecords` | code/Proto/src/server_internal.pb.cc:1399-1590 | every varint behind the tags 8 and 120 sets its slot to the number denoted modulo 2^32, behind 64 and 72 modulo 2^64 |
| `FieldTables.MsgP2pRecvRecords` | code/Proto/src/chat_msg.pb.cc:1729-1861 | every varint behind the tags 24 and 32 sets its slot to the number denoted modulo 2^64, behind 8, 16, 56, 72 and 80 modulo 2^32 |
| `FieldTables.MsgIdsWritten` | code/Proto/src/chat_msg.pb.cc:6468-6497 | the ids are written in order, each as the tag 16 and the shortest varint that denotes it |
| `FieldTables.LargeMsgId` | code/Proto/src/chat_msg.pb.cc:6468-6497 | concrete witness: the id 3000000000 is written as 10 80 BC C1 96 0B |
| `MergeLaws.MergeLeftIdentity` | code/Proto/src/server_internal.pb.cc:1991-2059 | merging into the default message gives the source |
| `MergeLaws.MergeRightIdentity` | code/Proto/src/server_internal.pb.cc:1991-2059 | merging the default message changes nothing |
| `MergeLaws.MergeAssociative` | code/Proto/src/chat_msg.pb.cc:2165-2211 | merging is associative through nested messages of any depth, repeated fields and unknown fields |
| `MergeLaws.MergePresence` | code/Proto/src/server_internal.pb.cc:1991-2059 | a field is set after a merge exactly when it was set on one of the sides |
| `MergeLaws.MergeConforms` | code/Proto/src/chat_msg.pb.cc:2165-2211 | merging two messages of a schema gives a message of that schema |
| `MergeLaws.ParseConforms` | code/Proto/src/chat_msg.pb.cc:1719-1881 | every parse that does not fail leaves a message of the schema |
| `MergeLaws.ParseTranslates` | code/Proto/src/chat_msg.pb.cc:1719-1881 | parsing into a merged message is merging with the parse, for every input, complete, stopped or failed |
| `Concat.ParseConcat` | code/Proto/src/chat_msg.pb.cc:1719-1881 | over whole records the parser runs through the first input and then through the second |
| `Concat.ParseHomomorphism` | code/Proto/src/chat_msg.pb.cc:1719-1881 | parsing a ++ b on top of m is merging what b alone gives into the parse of a on top of m, when a consists of whole records |
| `Concat.HomomorphismIff` | code/3party/include/google/protobuf/wire_format_lite_inl.h:443-453 | concatenation is merging for every second input exactly when the first consists of whole records; a record whose length overruns the input always breaks it |
| `PackedForm.ShortRunSwallowsNextField` | code/3party/include/google/protobuf/wire_format_lite_inl.h:326-339 | concrete witness: an accepted packed run that announces more than it brings swallows the group_id that follows |
| `Strict.NestedOverrunAccepted` | code/3party/include/google/protobuf/wire_format_lite_inl.h:442-453 | concrete witness: the two bytes 10, 5 parse as an offline_msg_p2p_rsp whose one element declared five bytes and had none |
| `Strict.NestedConsumesIff` | code/3party/include/google/protobuf/wire_format_lite_inl.h:442-453 | a nested read that succeeds consumes its declared length exactly when that many bytes are there |
| `Strict.PackedConsumesIff` | code/3party/include/google/protobuf/wire_format_lite_inl.h:326-339 | the same for a packed run |
| `Strict.StrictIs` | code/3party/include/google/protobuf/wire_format_lite_inl.h:442-453 | a parser that refuses overrunning nested and packed lengths at every level gives what the parser gives on framed inputs, and fails on all others |
| `Strict.AgreeIffFramed` | code/Proto/src/chat_msg.pb.cc:1719-1881 | on inputs that the parser accepts the two agree exactly when no nested or packed record overruns at any level |
| `Strict.WrittenIsFramed` | code/Proto/src/chat_msg.pb.cc:1883-1948 | whatever the serializer writes for a valid message is framed at every level |
| `Strict.StrictRoundTrip` | code/Proto/src/chat_msg.pb.cc:1719-1948 | so the strict parser still reads back every valid message |
| `RoundTrip.SerializeParses` | code/Proto/src/chat_msg.pb.cc:4658-4766 | parsing the serialization of any valid message into a fresh one gives that message, through nested and repeated messages of any number and depth |
| `RoundTrip.RoundTripIff` | code/Proto/src/chat_msg.pb.cc:1719-2020 | the messages that survive the round trip are exactly those with values in range, unknown fields of unknown tags, and nesting within the budget |
| `RoundTrip.SerializeInjective` | code/Proto/src/chat_msg.pb.cc:1883-1948 | two valid messages never share their bytes |
| `RoundTrip.ParseValid` | code/Proto/src/server_internal.pb.cc:1389-1611 | whatever input is accepted, non-canonical, repeated or of the wrong wire type, the result is valid |
| `RoundTrip.NormalForm` | code/Proto/src/server_internal.pb.cc:1389-1714 | serializing what was parsed and parsing it again gives the same message, so a second pass changes nothing |
| `Growth.ParseGrowth` | code/Proto/src/server_internal.pb.cc:1389-1714 | whatever is parsed on top of whatever message is written back in at most the length of that message plus seven times the input |
| `Growth.NormalFormOfInput` | code/Proto/src/server_internal.pb.cc:1389-1714 | the normal form for every input below 2^31 / 7 bytes, with no condition on the output |
| `Growth.SkipNoLonger` | code/Proto/src/chat_msg.pb.cc:1864-1870 | an unknown field is written back in no more bytes than it came in |
| `WireOrder.ParseIsFold` | code/Proto/src/chat_msg.pb.cc:1719-1881 | the tag-dispatch loop over whole records is a fold of the one-record parses by merging |
| `WireOrder.WireOrderIrrelevant` | code/Proto/src/chat_msg.pb.cc:1719-1881 | any reordering of records that keeps the records of each field, and the unknown ones, in their own order parses to the same outcome |
| `WireOrder.InputOrderIrrelevant` | code/Proto/src/chat_msg.pb.cc:1719-1881 | the same on the raw bytes of two inputs, split into their records |
| `WireOrder.RecordExact` | code/Proto/src/chat_msg.pb.cc:1719-1881 | reading a record depends on the bytes it takes and on nothing behind them |
| `PackedForm.PiecesParse` | code/Proto/src/chat_msg.pb.cc:6415-6432 | however a list is cut into unpacked records and packed runs, parsing appends the same values in wire order and touches nothing else |
| `PackedForm.MsgIdCutsAgree` | code/Proto/src/chat_msg.pb.cc:6415-6432 | two cuts of one msg_id list cannot be told apart, whatever the object held and whatever follows |
| `Relay.RelayKeepsBytes` | code/Proto/src/chat_msg.pb.cc:2351-2449 | a node whose schema lacks the last fields parses everything a newer one sends and passes on identical bytes |
| `Relay.P2pSendThroughGroupSend` | code/Proto/src/chat_msg.pb.cc:900-1017 | a msg_p2p_send relayed through msg_group_send comes back whole; receiver_type travels as an unknown field |
| `Narrow.RelayLosesNothing` | code/Proto/src/chat_msg.pb.cc:1864-1870 | a node whose schema lacks any of the fields reads the others, keeps the rest as unknown fields, writes as many bytes in another order, and the newer node reads the original message back |
| `Presence.PresentIffOccurred` | code/Proto/src/server_internal.pb.cc:1389-1611 | after a parse a singular field is set exactly when it was set before or a record with one of its exact tags occurred |
| `Presence.UserRegisterInitialized` | code/Proto/src/server_internal.pb.cc:2075-2078 | a freshly parsed user_register is initialized exactly when a tag 8 and a tag 18 record occurred |
| `Presence.MergeInitialized` | code/Proto/src/chat_msg.pb.cc:2227-2233 | merging initialized messages gives an initialized one, at every level |
| `Schemas.SchemasWellFormed` | code/Proto/src/user.pb.cc:436-568 | the schemas of the modelled classes are well-formed, so the theorems apply to each of them; that they are the right ones is FieldTables |
| `HasBits.BitsAre` | code/Proto/src/server_internal.pb.cc:2076-2076 | the set of a mask holds exactly the positions of its one bits |
| `HasBits.GuardTests` | code/Proto/src/server_internal.pb.cc:1345-1384 | a guard such as has & 31744 is on exactly when one of its run of bits is set |
| `HasBits.AllSet` | code/Proto/src/chat_msg.pb.cc:2079-2079 | the required-fields test ((has & mask) ^ mask) == 0 holds exactly when all bits of the mask are set |
| `Members.ClearIsEmpty` | code/Proto/src/server_internal.pb.cc:1339-1387 | an object without has-bits and unknown fields is the default message, whatever its members still hold |
| `Members.FreshInvariant` | code/Proto/src/chat_msg.pb.cc:1653-1659 | the constructor state, with or without a kept empty nested object, satisfies the invariant and is the default message |
| `Members.MergeKeeps` | code/Proto/src/chat_msg.pb.cc:2165-2211 | merging member by member keeps the class invariant and is the merge of the messages, for every layout |
| `Members.StoreNested` | code/Proto/src/chat_msg.pb.h:3553-3579 | storing a nested message sets its field and keeps the class invariant |
| `Members.TagKnown` | code/Proto/src/server_internal.pb.cc:1398-1402 | the switch on the field number and the low tag byte accepts exactly the tags of the schema |
| `Members.TotalLength` | code/Proto/src/server_internal.pb.cc:1851-1974 | the size in field number order is the sum over the members in has-bit order plus the unknown fields |
| `Members.NestedWithin` | code/Proto/src/chat_msg.pb.cc:2070-2148 | a nested message counts for less than the message it is part of, so its cached size fits whenever the total does |
| `Sizing.EmitLength` | code/Proto/src/chat_msg.pb.cc:1883-2148 | for every schema and every message the size calculator counts exactly the bytes that the writers emit; both cast lengths to 32 bits, so no size is excluded |
| `Sizing.CachedPrefix` | code/3party/include/google/protobuf/wire_format_lite_inl.h:894-902 | the cached size is the size exactly below 2^31, and the prefix written from it is the size cast to 32 bits, whatever the trip through int did to it |
| `Sizing.AnnouncedLength` | code/3party/include/google/protobuf/wire_format_lite_inl.h:894-902 | a reader is told the length modulo 2^32, which is the length exactly below 2^32 |
| `Sizing.EmitIff` | code/Proto/src/chat_msg.pb.cc:1883-2148 | the writers emit the encoding of the message exactly when no string and no nested message at any level is 2^32 bytes or longer |
| `Sizing.LongTextAnnouncedEmpty` | code/3party/include/google/protobuf/wire_format_lite_inl.h:894-902 | concrete witness: a TEXT_CONTENT of 2^32 bytes inside a msg_content is counted and written in full behind the length zero, so a reader is told of an empty text |
| `Sizing.SmallIsExact` | code/Proto/src/chat_msg.pb.cc:1883-2148 | a message under 2^32 bytes, counted or encoded, is emitted as its encoding |
| `Failing.LeavesResult` | code/Proto/src/chat_msg.pb.cc:1719-1881 | a parse that does not fail leaves its result in the object and nothing else |
| `Failing.LeavesBehind` | code/Proto/src/chat_msg.pb.cc:1719-1881 | whole records in front of a failing one are read as on their own, and what is left is decided behind them |
| `Failing.OthersKept` | code/Proto/src/chat_msg.pb.cc:1719-1881 | after a failure every field but the failing one, and every unknown record, is as it was when the failing record was met |
| `Failing.LeavesConforms` | code/Proto/src/chat_msg.pb.cc:1719-1881 | what a failed parse leaves is still a message of the schema, at every level |
| `Streams.CodedInputStream.PushLimit` | code/3party/include/google/protobuf/io/coded_stream.h:344-355 | of the pushed and the enclosing limit the shorter is enforced |
| `Streams.CodedInputStream.ReadTag` | code/3party/include/google/protobuf/io/coded_stream.h:1017-1055 | a tag, or zero at a legitimate end or when none can be read |
| `Streams.CodedInputStream.OpenMessage` | code/3party/include/google/protobuf/wire_format_lite_inl.h:443-449 | length, limit and recursion step of a nested message; refused when the size is not an int or the budget is spent |
| `Streams.CodedInputStream.ExpectTag` | code/3party/include/google/protobuf/io/coded_stream.h:1065-1072 | consumes the one-byte tag exactly when it comes next |
| `Nested.ReadMessage` | code/3party/include/google/protobuf/wire_format_lite_inl.h:442-453 | reading a nested message is the value-level nested read, on top of what the object held, and restores limit and budget |
| `Nested.WriteMessage` | code/3party/include/google/protobuf/wire_format_lite_inl.h:894-902 | from a filled cache the prefix in front of a nested message is its length cast to 32 bits, for every length |
| `UserRegisterClass.Shape` | code/Proto/src/server_internal.pb.cc:1398-1590 | the has-bits, case tags and types of the class agree with its schema, and has-bit and field order are inverse permutations |
| `UserRegisterClass.UserRegister.SetString` | code/Proto/src/server_internal.pb.h:1165-1169 | sets the field and no other, and keeps the has-bits invariant |
| `UserRegisterClass.AccessorSlots` | code/Proto/src/server_internal.pb.h:1128-1145 | the has-bit of each field, and the slot that the accessors of each member work on |
| `UserRegisterClass.FitsIff` | code/Proto/src/server_internal.pb.h:1141-1145 | the literal range of each number, int32, uint64 or uint32, is the one its field can hold |
| `UserRegisterClass.UserRegister.SetNumber` | code/Proto/src/server_internal.pb.h:1141-1145 | for every value of the type, sets the field and no other, and keeps the has-bits invariant |
| `UserRegisterClass.UserRegister.MutableString` | code/Proto/src/server_internal.pb.h:1190-1194 | marks the field present with the content it had |
| `UserRegisterClass.UserRegister.ClearString` | code/Proto/src/server_internal.pb.h:1157-1160 | clears the field and no other |
| `UserRegisterClass.UserRegister.ClearNumber` | code/Proto/src/server_internal.pb.h:1133-1136 | clears the field and no other |
| `UserRegisterClass.UserRegister.ReleaseString` | code/Proto/src/server_internal.pb.h:1195-1202 | hands over the content exactly when the field was set, and leaves it cleared |
| `UserRegisterClass.UserRegister.SetAllocatedString` | code/Proto/src/server_internal.pb.h:1203-1211 | sets the field, or clears it for a null argument |
| `UserRegisterClass.UserRegister.Clear` | code/Proto/src/server_internal.pb.cc:1339-1387 | skipping by the guards 255, 768 and 31744 still leaves every member as the constructor does |
| `UserRegisterClass.UserRegister.MergeFrom` | code/Proto/src/server_internal.pb.cc:1991-2059 | the merge of both messages, and the union of both has-bits although only the second group ORs them in |
| `UserRegisterClass.UserRegister.CopyFrom` | code/Proto/src/server_internal.pb.cc:2068-2073 | the target equals the source whatever it held, also when both are one object |
| `UserRegisterClass.UserRegister.IsInitialized` | code/Proto/src/server_internal.pb.cc:2075-2078 | true exactly when every required field of the schema is present |
| `UserRegisterClass.UserRegister.ReadField` | code/Proto/src/server_internal.pb.cc:1398-1602 | one turn of the switch is one turn of the specified parse, for known, mismatching and unknown tags |
| `UserRegisterClass.UserRegister.MergePartialFromCodedStream` | code/Proto/src/server_internal.pb.cc:1389-1611 | for every input and prior content the loop ends, and its result, end condition and object are those of the specified parse, and what it leaves is settled for failures too: an int32 keeps its value with the bit set, nested messages hold what their own parse left, packed runs keep what was read |
| `UserRegisterClass.UserRegister.RequiredSize` | code/Proto/src/server_internal.pb.cc:1860-1873 | the all-required fast path and the fallback both give what the required fields count for |
| `UserRegisterClass.UserRegister.ByteSizeLong` | code/Proto/src/server_internal.pb.cc:1851-1974 | fast path, fallback and the guards 254, 768 and 30720 add up to the number of bytes the serializer emits, for every content |
| `UserRegisterClass.UserRegister.SerializeWithCachedSizes` | code/Proto/src/server_internal.pb.cc:1613-1714 | emits the set members in field number order, then the unknown fields |
| `ErrorInfoClass.Shape` | code/Proto/src/common.pb.cc:4653-4693 | the has-bits, case tags and types of the class agree with its schema |
| `ErrorInfoClass.AccessorSlots` | code/Proto/src/common.pb.h:5515-5610 | the has-bit of each field, and the slot that the accessors of each member work on |
| `ErrorInfoClass.ErrorInfo.Clear` | code/Proto/src/common.pb.cc:4625-4643 | skipping the strings by the guard 3 still leaves every member as the constructor does |
| `ErrorInfoClass.ErrorInfo.MergeFrom` | code/Proto/src/common.pb.cc:4830-4852 | the merge of both messages and the union of the has-bits, by the guard 7 |
| `ErrorInfoClass.ErrorInfo.CopyFrom` | code/Proto/src/common.pb.cc:4861-4866 | the target equals the source whatever it held |
| `ErrorInfoClass.ErrorInfo.IsInitialized` | code/Proto/src/common.pb.cc:4868-4871 | mask 4 is exactly the required error_code |
| `ErrorInfoClass.ErrorInfo.MergePartialFromCodedStream` | code/Proto/src/common.pb.cc:4645-4711 | for every input and prior content the loop ends, and its result, end condition and object are those of the specified parse, and what it leaves is settled for failures too: an int32 keeps its value with the bit set, nested messages hold what their own parse left, packed runs keep what was read |
| `ErrorInfoClass.ErrorInfo.ByteSizeLong` | code/Proto/src/common.pb.cc:4779-4813 | the number of bytes emitted, for every content; the cache is the encoded length while that is under 2^31 |
| `ErrorInfoClass.ErrorInfo.SerializeWithCachedSizes` | code/Proto/src/common.pb.cc:4713-4742 | emits the message |
| `ErrorInfoClass.ErrorInfo.InternalSerializeWithCachedSizesToArray` | code/Proto/src/common.pb.cc:4744-4777 | the array serializer writes the same bytes in place and leaves the rest of the array alone |
| `ErrorInfoClass.WriteErrorInfoToArray` | code/3party/include/google/protobuf/wire_format_lite_inl.h:894-902 | a nested errorinfo is written in place behind its cached size by its own array serializer |
| `TextContentClass.TextContent.Clear` | code/Proto/src/common.pb.cc:1686-1699 | the object is observably new although the list keeps its room |
| `TextContentClass.TextContent.MergeFrom` | code/Proto/src/common.pb.cc:1859-1871 | users appended, the text replaced when the source has one |
| `TextContentClass.TextContent.CopyFrom` | code/Proto/src/common.pb.cc:1880-1885 | the target equals the source whatever it held |
| `TextContentClass.TextContent.IsInitialized` | code/Proto/src/common.pb.cc:1887-1890 | true exactly when the required text is present |
| `TextContentClass.TextContent.MergePartialFromCodedStream` | code/Proto/src/common.pb.cc:1701-1760 | for every input and prior content the loop, greedy and packed cases included, is the specified parse, and what it leaves is settled for failures too: an int32 keeps its value with the bit set, nested messages hold what their own parse left, packed runs keep what was read |
| `TextContentClass.TextContent.ByteSizeLong` | code/Proto/src/common.pb.cc:1815-1842 | the number of bytes both serializers emit, for every content |
| `TextContentClass.TextContent.SerializeWithCachedSizes` | code/Proto/src/common.pb.cc:1762-1786 | the stream serializer, which loops over the users, emits the message |
| `TextContentClass.TextContent.InternalSerializeWithCachedSizesToArray` | code/Proto/src/common.pb.cc:1788-1813 | the array serializer, which hands the whole list over, writes the same bytes in place |
| `TextContentClass.ReadBoth` | code/Proto/src/common.pb.cc:1701-1760 | the leaf object of the tree and a TEXT_CONTENT with the same message accept the same inputs and end up equal |
| `TextContentClass.WriteBoth` | code/Proto/src/common.pb.cc:1762-1842 | they are sized, cached and written the same |
| `MsgContentClass.Shape` | code/Proto/src/common.pb.cc:1152-1258 | the has-bits, case tags and types of the class agree with its schema |
| `MsgContentClass.AccessorSlots` | code/Proto/src/common.pb.h:3890-3905 | the slot that the accessors of each part work on |
| `MsgContentClass.MsgContent.MutablePart` | code/Proto/src/common.pb.h:3919-3927 | the part exposed holds the field, or the default message when the bit was clear, be it new or kept |
| `MsgContentClass.MsgContent.UpdatePart` | code/Proto/src/common.pb.h:3919-3927 | merging into what mutable_ returns merges into the field |
| `MsgContentClass.MsgContent.ClearPart` | code/Proto/src/common.pb.h:3902-3905 | clears the field and keeps the part, emptied |
| `MsgContentClass.MsgContent.ReleasePart` | code/Proto/src/common.pb.h:3912-3918 | hands over the part and clears the field |
| `MsgContentClass.MsgContent.SetAllocatedPart` | code/Proto/src/common.pb.h:3928-3945 | adopts the part as the field, or clears it for null |
| `MsgContentClass.MsgContent.Clear` | code/Proto/src/common.pb.cc:1093-1140 | skipping by the guard 255 and by bit 8 still leaves every kept part empty and the object as new |
| `MsgContentClass.MsgContent.MergeFrom` | code/Proto/src/common.pb.cc:1521-1558 | the merge of both messages, part by part, with the union of the has-bits although nothing ORs them in |
| `MsgContentClass.MsgContent.CopyFrom` | code/Proto/src/common.pb.cc:1567-1572 | the target equals the source whatever it held, and the source is unchanged |
| `MsgContentClass.MsgContent.IsInitialized` | code/Proto/src/common.pb.cc:1574-1603 | true exactly when every part that is set is initialized |
| `MsgContentClass.MsgContent.ReadPart` | code/Proto/src/common.pb.cc:1153-1163 | a part is read on top of what it holds |
| `MsgContentClass.MsgContent.MergePartialFromCodedStream` | code/Proto/src/common.pb.cc:1142-1278 | for every input and prior content the loop ends, and its result, end condition and object tree are those of the specified parse, and what it leaves is settled for failures too: an int32 keeps its value with the bit set, nested messages hold what their own parse left, packed runs keep what was read |
| `MsgContentClass.MsgContent.ByteSizeLong` | code/Proto/src/common.pb.cc:1427-1504 | the number of bytes emitted, for every content, with every cache below filled; while it is under 2^31 all caches are encoded lengths |
| `MsgContentClass.MsgContent.SerializeWithCachedSizes` | code/Proto/src/common.pb.cc:1280-1346 | from filled caches, emits what was counted |
| `MsgContentClass.ReadMsgContent` | code/3party/include/google/protobuf/wire_format_lite_inl.h:442-453 | reading a msg_content record is the value-level nested read |
| `MsgP2pRecvClass.Shape` | code/Proto/src/chat_msg.pb.cc:1729-1861 | the has-bits, case tags and types of the class agree with its schema |
| `MsgP2pRecvClass.MsgP2pRecv.SetString` | code/Proto/src/chat_msg.pb.h:3389-3393 | sets the field and no other, and keeps the invariant |
| `MsgP2pRecvClass.AccessorSlots` | code/Proto/src/chat_msg.pb.h:3273-3297 | the has-bit of each field, and the slot that the accessors of each member work on |
| `MsgP2pRecvClass.FitsIff` | code/Proto/src/chat_msg.pb.h:3293-3297 | the literal range of each number, uint64 for msg_id and send_time and uint32 for the rest, is the one its field can hold |
| `MsgP2pRecvClass.MsgP2pRecv.SetNumber` | code/Proto/src/chat_msg.pb.h:3293-3297 | for every value of the type, sets the field and no other, and keeps the invariant |
| `MsgP2pRecvClass.MsgP2pRecv.ClearString` | code/Proto/src/chat_msg.pb.h:3381-3384 | clears the field and no other |
| `MsgP2pRecvClass.MsgP2pRecv.MutableString` | code/Proto/src/chat_msg.pb.h:3414-3418 | marks the field present with the content it had |
| `MsgP2pRecvClass.MsgP2pRecv.ReleaseString` | code/Proto/src/chat_msg.pb.h:3419-3426 | hands over the content exactly when the field was set, and leaves it cleared |
| `MsgP2pRecvClass.MsgP2pRecv.SetAllocatedString` | code/Proto/src/chat_msg.pb.h:3427-3435 | sets the field, or clears it for a null argument |
| `MsgP2pRecvClass.MsgP2pRecv.MutableMsg` | code/Proto/src/chat_msg.pb.h:3553-3561 | the object exposed holds the field, or the default message when the bit was clear, be it new or kept |
| `MsgP2pRecvClass.MsgP2pRecv.ReleaseMsg` | code/Proto/src/chat_msg.pb.h:3546-3552 | hands over the object and clears the field |
| `MsgP2pRecvClass.MsgP2pRecv.SetAllocatedMsg` | code/Proto/src/chat_msg.pb.h:3562-3579 | adopts the object as the field, or clears it for null |
| `MsgP2pRecvClass.MsgP2pRecv.ClearMsg` | code/Proto/src/chat_msg.pb.cc:1605-1608 | clears the field and keeps the object, emptied |
| `MsgP2pRecvClass.MsgP2pRecv.Clear` | code/Proto/src/chat_msg.pb.cc:1686-1717 | skipping by the guards 7, 248 and 768 still leaves every member default and the kept nested object empty |
| `MsgP2pRecvClass.MsgP2pRecv.MergeFrom` | code/Proto/src/chat_msg.pb.cc:2165-2211 | the merge of both messages, merging into the nested object, with the union of the has-bits |
| `MsgP2pRecvClass.MsgP2pRecv.CopyFrom` | code/Proto/src/chat_msg.pb.cc:2220-2225 | the target equals the source whatever it held, a leftover nested object included, and the source is unchanged |
| `MsgP2pRecvClass.MsgP2pRecv.IsInitialized` | code/Proto/src/chat_msg.pb.cc:2227-2233 | true exactly when the six required fields are present and the nested message is initialized |
| `MsgP2pRecvClass.MsgP2pRecv.ReadMsg` | code/Proto/src/chat_msg.pb.cc:1823-1833 | a nested record is read on top of the nested message already present |
| `MsgP2pRecvClass.MsgP2pRecv.MergePartialFromCodedStream` | code/Proto/src/chat_msg.pb.cc:1719-1881 | for every input and prior content the loop ends, and its result, end condition and object tree are those of the specified parse, and what it leaves is settled for failures too: an int32 keeps its value with the bit set, nested messages hold what their own parse left, packed runs keep what was read |
| `MsgP2pRecvClass.MsgP2pRecv.ByteSizeLong` | code/Proto/src/chat_msg.pb.cc:2070-2148 | the number of bytes emitted, for every content, with every cache below filled; while it is under 2^31 the caches here, in the msg_content and in its parts are encoded lengths |
| `MsgP2pRecvClass.MsgP2pRecv.RequiredFieldsByteSizeFallback` | code/Proto/src/chat_msg.pb.cc:2022-2069 | what the required fields that are present count for, and all caches below filled |
| `MsgP2pRecvClass.MsgP2pRecv.SerializeWithCachedSizes` | code/Proto/src/chat_msg.pb.cc:1883-1948 | from filled caches, emits what was counted |
| `MsgP2pRecvClass.ReadP2pRecv` | code/3party/include/google/protobuf/wire_format_lite_inl.h:442-453 | reading a msg_p2p_recv record is the value-level nested read |
| `Runs.Perform` | code/Proto/src/chat_msg.pb.h:3273-3627 | every accessor of the strings, numbers and nested message, nested run, parse, merge, copy and clear keeps the invariant and has its stated effect; the object merged or copied from is the result of a run of its own |
| `Runs.Run` | code/Proto/src/chat_msg.pb.h:3273-3627 | over every run of such calls, with runs inside runs, the invariant holds and the outcome is the calls applied in order; a run that ends in Clear leaves a new object, failed parses before it included |
| `ContentRuns.Perform` | code/Proto/src/common.pb.h:3890-4408 | every accessor of the parts of a msg_content, parse, merge, copy and clear keeps the invariant and has its stated effect; sources are results of runs |
| `ContentRuns.Run` | code/Proto/src/common.pb.h:3890-4408 | the same over every run of such calls |
| `MsgListClass.MsgList.Add` | code/3party/include/google/protobuf/repeated_field.h:1525-1539 | the added element holds the default message, whether it is new or a cleared one reused |
| `MsgListClass.MsgList.Clear` | code/3party/include/google/protobuf/repeated_field.h:1564-1576 | the list becomes empty, all its objects are kept, and each is as new |
| `MsgListClass.MsgList.MergeFrom` | code/3party/include/google/protobuf/repeated_field.h:1584-1632 | reusing kept elements first and allocating then, the list becomes the concatenation of both; the source is unchanged |
| `MsgListClass.MsgList.AddRead` | code/Proto/src/chat_msg.pb.cc:4668-4677 | a record is read into the added element as if that were a new message |
| `OfflineMsgP2pRspClass.OfflineMsgP2pRsp.Clear` | code/Proto/src/chat_msg.pb.cc:4642-4656 | the object is observably new although the list keeps its objects |
| `OfflineMsgP2pRspClass.OfflineMsgP2pRsp.MergeFrom` | code/Proto/src/chat_msg.pb.cc:4864-4883 | the merge of both messages, lists concatenated; the source is unchanged |
| `OfflineMsgP2pRspClass.OfflineMsgP2pRsp.CopyFrom` | code/Proto/src/chat_msg.pb.cc:4892-4897 | the target equals the source whatever it held |
| `OfflineMsgP2pRspClass.OfflineMsgP2pRsp.IsInitialized` | code/Proto/src/chat_msg.pb.cc:4899-4902 | true exactly when every element is initialized |
| `OfflineMsgP2pRspClass.OfflineMsgP2pRsp.MergePartialFromCodedStream` | code/Proto/src/chat_msg.pb.cc:4658-4728 | for every input and prior content the loop ends, and its result, end condition and object tree are those of the specified parse, and what it leaves is settled for failures too: an int32 keeps its value with the bit set, nested messages hold what their own parse left, packed runs keep what was read |
| `OfflineMsgP2pRspClass.OfflineMsgP2pRsp.ListSize` | code/Proto/src/chat_msg.pb.cc:4817-4826 | the count plus the element sizes is what the list counts for, and every cache below is filled |
| `OfflineMsgP2pRspClass.OfflineMsgP2pRsp.ByteSizeLong` | code/Proto/src/chat_msg.pb.cc:4808-4847 | the number of bytes emitted for the whole tree, for every content, with every cache below filled; while it is under 2^31 all caches down to the parts are encoded lengths |
| `OfflineMsgP2pRspClass.OfflineMsgP2pRsp.SerializeWithCachedSizes` | code/Proto/src/chat_msg.pb.cc:4730-4766 | from filled caches, emits the whole tree as it was counted, every nested prefix taken from a cache |
| `Transmit.Send` | code/Proto/src/chat_msg.pb.cc:4658-4847 | sizing, serializing and parsing into a new object reproduces the message of any valid object tree under 2^31 bytes |
| `Transmit.SendInto` | code/Proto/src/chat_msg.pb.cc:4658-4883 | received into an object that holds something, the sender's message is merged into it |
| `NumberFields.NumberField.Reserve` | code/3party/include/google/protobuf/repeated_field.h:1352-1360 | nothing if there is room; otherwise the largest of four, twice the room and what was asked for |
| `NumberFields.NumberField.Add` | code/3party/include/google/protobuf/repeated_field.h:1186-1189 | appends the value and keeps the list within its room |
| `NumberFields.NumberField.MergeFrom` | code/3party/include/google/protobuf/repeated_field.h:1230-1239 | appends the other list |
| `NumberFields.NumberField.ReadRepeatedPrimitive` | code/3party/include/google/protobuf/wire_format_lite_inl.h:226-242 | however much room is reserved, taking further records greedily parses like the plain loop, fails where that fails with the values read so far kept, and never outruns the reserved room |
| `NumberFields.NumberField.ReadPackedPrimitive` | code/3party/include/google/protobuf/wire_format_lite_inl.h:326-339 | a packed run is read as the specified packed field, up to the nearest limit; a broken one keeps the values in front of the break |
| `OfflineMsgGroupRspAckClass.OfflineMsgGroupRspAck.MergePartialFromCodedStream` | code/Proto/src/chat_msg.pb.cc:6393-6466 | for every input and prior content the loop, greedy and packed cases included, is the specified parse, and what it leaves is settled for failures too: an int32 keeps its value with the bit set, nested messages hold what their own parse left, packed runs keep what was read |
| `OfflineMsgGroupRspAckClass.OfflineMsgGroupRspAck.Clear` | code/Proto/src/chat_msg.pb.cc:6376-6391 | the object is observably new although it keeps the nested object |
| `OfflineMsgGroupRspAckClass.OfflineMsgGroupRspAck.MergeFrom` | code/Proto/src/chat_msg.pb.cc:6582-6600 | the merge of both messages, ids appended and the error merged into |
| `OfflineMsgGroupRspAckClass.OfflineMsgGroupRspAck.CopyFrom` | code/Proto/src/chat_msg.pb.cc:6609-6614 | the target equals the source whatever it held |
| `OfflineMsgGroupRspAckClass.OfflineMsgGroupRspAck.IsInitialized` | code/Proto/src/chat_msg.pb.cc:6616-6622 | true exactly when the error is present and initialized |
| `OfflineMsgGroupRspAckClass.OfflineMsgGroupRspAck.ByteSizeLong` | code/Proto/src/chat_msg.pb.cc:6531-6565 | the number of bytes both serializers emit, for every content, with the nested cache filled |
| `OfflineMsgGroupRspAckClass.OfflineMsgGroupRspAck.SerializeWithCachedSizes` | code/Proto/src/chat_msg.pb.cc:6468-6497 | the stream serializer, which loops over the ids, emits what was counted |
| `OfflineMsgGroupRspAckClass.OfflineMsgGroupRspAck.InternalSerializeWithCachedSizesToArray` | code/Proto/src/chat_msg.pb.cc:6499-6529 | the array serializer, which hands the whole list over and lets the nested class write itself, writes the same bytes in place and leaves the rest of the array alone |
| `ArrayWriter.WriteVarint64ToArray` | code/3party/include/google/protobuf/io/coded_stream.h:1149-1158 | the in-place loop writes exactly the varint and nothing else |
| `ArrayWriter.WriteNumbersToArray` | code/3party/include/google/protobuf/wire_format_lite_inl.h:789-806 | the in-place list writer writes the record of every element in order; nothing for an empty list |
| `ArrayWriter.WriteDelimitedToArray` | code/3party/include/google/protobuf/wire_format_lite_inl.h:894-902 | tag, length and body of a nested message are written in place and nothing else |
| `HelloSessionClass.HelloSession.IncrRecv` | code/Hello/src/HelloSession.h:54-59 | the counters after the call are those of the run extended by a receive; the receive counter is the receives before the call modulo 2^32, plus one |
| `HelloSessionClass.HelloSession.IncrSucc` | code/Hello/src/HelloSession.h:60-60 | the counters after the call are those of the run extended by a success; the success counter is the successes since the reset modulo 2^64 |
| `HelloSessionClass.HelloSession.GetFailed` | code/Hello/src/HelloSession.h:63-63 | for every run of calls, the receives since the last reset minus the successes, modulo 2^64; so the true difference exactly when the successes do not outnumber the receives, and the number of unanswered requests when each success answers one of them |
| `HelloSessionClass.RecvClosedForm` | code/Hello/src/HelloSession.h:54-59 | after n receives, with any successes between, the receive counter is 0 or ((n - 1) mod 2^32) + 1, never above 2^32 |
| `HelloSessionClass.RecvExact` | code/Hello/src/HelloSession.h:54-59 | the receive counter is the number of receives exactly up to 2^32 of them, and 1 after the next |
| `HelloSessionClass.FailedIs` | code/Hello/src/HelloSession.h:63-63 | whatever the run, the failure count is the difference since the reset modulo 2^64 |
| `HelloSessionClass.CountersOfWindow` | code/Hello/src/HelloSession.h:54-60 | the counters hold the receives and, modulo 2^64, the successes since the last reset |
| `HelloSessionClass.FailedIff` | code/Hello/src/HelloSession.h:63-63 | GetFailed is receives minus successes since the reset exactly when the successes do not outnumber the receives |
| `HelloSessionClass.FailedCountsUnanswered` | code/Hello/src/HelloSession.h:54-63 | if each success answers a distinct request received since the reset, GetFailed is the number of unanswered ones |
| `HelloSessionClass.LateAnswersWrap` | code/Hello/src/HelloSession.h:54-63 | two answers arriving after a reset for requests from before it make GetFailed 2^64 - 1 |
| `HelloSessionClass.WrapHappens` | code/Hello/src/HelloSession.h:54-63 | concrete witness: 2^32 unanswered requests, one more, and the answers to the first two |

## Left out

- UserRegisterClass.UserRegister.MergePartialFromCodedStream: after a failed parse the content of a string or an unsigned number that could not be read is left open although its field is present, and so are records that a failing skip may have added, because the slow paths of those readers are not part of this model.
- ErrorInfoClass.ErrorInfo.MergePartialFromCodedStream: the same for its strings.
- MsgContentClass.MsgContent.MergePartialFromCodedStream: the same for the strings and unsigned numbers of its parts.
- MsgP2pRecvClass.MsgP2pRecv.MergePartialFromCodedStream: the same for its strings and numbers and those below it.
- OfflineMsgP2pRspClass.OfflineMsgP2pRsp.MergePartialFromCodedStream: the same for its tag and total and the fields below it.
- OfflineMsgGroupRspAckClass.OfflineMsgGroupRspAck.MergePartialFromCodedStream: the same for its group id and the strings of its error.
- TextContentClass.TextContent.MergePartialFromCodedStream: the same for its text.
- The body of the string writer is not part of this model; it is taken to cast the length as the shown writer of nested messages does.
- The leaves of the tree other than TEXT_CONTENT: objects with a message value and a cached size of their own; their members are not modelled one by one, because they follow the template of errorinfo and user_register.  The pointer to a TEXT_CONTENT goes through the same leaf object, which reads and writes like the class.
- The accessors of errorinfo, which are those of user_register.
- Overflow of size_t and of the int list sizes is not modelled.
- The array serializers of the other classes, which differ from their stream serializers only in the output argument; those that hand over a whole list or contain each other are modelled.
- The accessors of offline_msg_p2p_rsp and offline_msg_group_rsp_ack beyond those their parsers use, copy constructors and Swap: the same template as the modelled ones.
- The classes of the other messages, which add no new kind of field; ulogin is present as a schema, so the value-level laws hold for it.
- Input that is not a flat buffer, where the end of the data is not itself a limit.
- UTF-8 verification, whose result the code ignores; arenas, descriptors, reflection, default instances, destructors.
- Pointers kept from mutable_, release_ and set_allocated_ and used after a later change of the owner.
- The session registry, configuration and timeouts of HelloSession.
- Error mappings, command words, table names and other constant tables.
