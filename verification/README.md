# Models of four data engines

This project models the four parts of the repository that do real work on bytes, and proves that they
keep what their documentation and tests promise:

- **nanopb** (`Pods/nanopb`): a table-driven Protocol Buffers codec. Field tables and messages are values;
  streams, the field iterator and the `fields_seen` words are objects updated in place. Each encoder and
  decoder method is proved against a function on byte strings, and the theorems (round trip, merging,
  unknown fields, framing) are about those functions.
- **Starscream** (`PNRouter/Vender/Starscream/WebSocket.swift`): the incremental frame parser, from the
  HTTP answer on, and the masking frame writer. Compression is not negotiated.
- **TPCircularBuffer** (`Pods/TPCircularBuffer`): the mirrored ring, sequentially as a class and concurrently
  as a state machine of one producer and one consumer, and the chain of audio blocks on top of it.
- **Base58** (`PNRouter/Utils/Base58.swift`): base conversion inside a buffer of estimated size.

| files | contents |
|---|---|
| `Common.dfy` | bytes, parse results, powers, quotients |
| `Varint.dfy` | varints: encoding, the 64-bit and the 32-bit decoder |
| `Schema.dfy`, `Encoding.dfy`, `Decoding.dfy` | tables and messages; what the encoder emits; what the decoder computes |
| `OStream.dfy`, `Encoder.dfy` | `pb_ostream_t` and the methods of `pb_encode.c` |
| `IStream.dfy`, `FieldIter.dfy`, `Bitset.dfy`, `Decoder.dfy` | `pb_istream_t`, `pb_field_iter_t`, `fields_seen` and the methods of `pb_decode.c` |
| `Streaming.dfy`, `Scalars.dfy`, `Merging.dfy`, `RoundTrip.dfy`, `Wire.dfy`, `UnknownFields.dfy`, `Evolution.dfy`, `Bounds.dfy`, `Writes.dfy`, `EndToEnd.dfy` | theorems about encoded data |
| `WireFormat.dfy`, `Presence.dfy`, `Defaults.dfy` | the wire format byte by byte, and what is accepted; which fields go out; what fields hold that do not come in |
| `Ring.dfy`, `RingProtocol.dfy` | the ring as a class; the two-thread protocol |
| `AudioBlocks.dfy`, `AudioQueue.dfy`, `AudioDequeue.dfy`, `AudioModel.dfy`, `AudioTime.dfy`, `AudioRuns.dfy` | blocks of audio in the ring; producing; consuming; queues of bytes as the client sees them; their sample times; any sequence of calls on the ring refines them |
| `Base58.dfy` | numbers, digits, capacities, the two conversions |
| `WebSocketFrames.dfy`, `WebSocketChunks.dfy`, `WebSocketStreams.dfy`, `WebSocketHandshake.dfy`, `WebSocketSessions.dfy`, `WebSocketErrors.dfy`, `WebSocketParser.dfy` | one turn of the parser; chunking; valid streams; the HTTP answer; whole sessions and reconnecting; servers that break the protocol; the parser object |
| `WebSocketWriter.dfy` | masking, frame building, partial writes |

`dafny verify dfyconfig.toml` checks everything. nanopb is taken with 64-bit integers, 64 tracked required
fields and memory buffers as streams. The width of `pb_size_t` is a parameter (`SIZE_WIDTH`: one, two or four
bytes), so the theorems hold for the default configuration and for `Pods/Target Support
Files/nanopb/nanopb.xcconfig`, which builds with PB_FIELD_32BIT, PB_NO_PACKED_STRUCTS and PB_ENABLE_MALLOC.
Malloc otherwise concerns pointer fields, which the tables here do not have, with one exception: such a build
refuses a oneof field when the structure decoded into holds a `which_` value that is not in the table, where the
decoder here overwrites it. Structures that were set to their defaults or come from a decode hold no such value.

What turned out not to hold unconditionally is stated with its exact condition and an input that fails:

- the 32-bit varint decoder agrees with the 64-bit one iff one of the first ten bytes ends the varint
  (`Varint32Refines64`, `OverlongVarint32Wraps`), and beyond 32 bits accepts more than sign-extended numbers
  (`Varint32AcceptedExactly`, `NotSignExtendedButAccepted`);
- the field iterator's pointers match the structure iff no union starts PB_SIZE_MAX bytes behind the last
  member of another (`PointersMatchLayout`, `TwoUnionsAreMistaken`);
- copying and dequeuing audio moves what is reported iff frames times bytes per frame stays below 2^32
  (`Dequeue`, `NothingReportedAsAll`, `CopiesExactly`, `FewCopiedAsMany`);
- after reconnecting, a valid stream is accepted iff no message was left open by the connection before or the
  stream has no data frame (`HandshakeThenStream`, `WelcomeExactly`, `MessageLostAfterReconnect`);
- a server reads exactly the frames that were written whole iff no write stopped inside a frame
  (`CompletedIsReceived`, `CutFrameIsMisread`);
- cutting a WebSocket stream into chunks is harmless iff no chunk is a lone byte that starts a frame, pongs
  aside, while no message is open (`ChunkingExactly`, `SafeSplitsExactly`); seen from the final outcome alone, a
  stream that itself ends in a protocol error can hide the misreading (`SafeSplitsDeliver`, `HiddenError`);
- a close frame stops the program iff it declares one byte in an extended length form (`TrapExactly`,
  `OneByteCloseTraps`);
- the end of the HTTP header is found iff an even number of carriage returns stands before the blank line
  (`HeaderFoundExactly`, `ExtraReturnHidesHeader`);
- Base58 decoding inverts encoding except for the empty byte string (`DecodeEncode`).

## Model

| member | source | states |
|---|---|---|
| Varint.ChoppedIsVarint | Pods/nanopb/pb_encode.c:574-594 | clearing the top bit of the last byte the encoding loop stored gives the base-128 varint |
| Varint.VarintLength | Pods/nanopb/pb_encode.c:577-590 | a value below 2^(7k) takes at most k bytes, so the ten-byte local buffer is never overrun |
| Varint.DecodeEncodedVarint | Pods/nanopb/pb_decode.c:250-270 | pb_decode_varint inverts pb_encode_varint on every 64-bit value, in at most ten bytes, leaving what follows |
| Varint.DecodeVarintExtends | Pods/nanopb/pb_decode.c:256-266 | bytes behind a varint do not change its value |
| Varint.Varint32Refines64 | Pods/nanopb/pb_decode.c:182-242 | whenever the 32-bit decoder accepts, the 64-bit decoder takes the same bytes and agrees modulo 2^32 iff one of the first ten bytes has its continuation bit clear, and the values are equal when one of the first five has |
| Varint.Decode32EncodedVarint | Pods/nanopb/pb_decode.c:198-238 | the 32-bit decoder inverts the encoder on 32-bit values |
| Varint.Varint32AcceptsSignExtended | Pods/nanopb/pb_decode.c:214-225 | the ten-byte encoding of every negative int32 is accepted and yields its low 32 bits |
| Varint.Varint32AcceptedExactly | Pods/nanopb/pb_decode.c:207-240 | of the encodings of 64-bit values the 32-bit decoder accepts exactly those below 2^32, which it returns, and those with bits 31 and 63 set and each seven-bit group between bits 35 and 62 all zeros or all ones, of which it returns the low 32 bits |
| Varint.NotSignExtendedButAccepted | Pods/nanopb/pb_decode.c:216-225 | an input: 2^63 + 2^31, which is no sign-extended number, is accepted as 2^31 |
| Varint.OverlongVarint32Wraps | Pods/nanopb/pb_decode.c:207-232 | an input past ten bytes: the 8-bit bit position wraps, so 37 zero groups and a 1 decode to 8, where the 64-bit decoder reports overflow |
| Varint.OrOfDisjointIsSum | Pods/nanopb/pb_decode.c:264 | ORing a shifted group into an accumulator below it is addition |
| Scalars.ZigZagRoundTrip | Pods/nanopb/pb_encode.c:596-605 | zigzag maps int64 into uint64 and is undone on decoding |
| Scalars.UnZigZagRoundTrip | Pods/nanopb/pb_decode.c:1240-1252 | every 64-bit value is the zigzag of what it decodes to |
| Scalars.LittleEndianRoundTrip | Pods/nanopb/pb_encode.c:607-632 | fixed-width integers are read back |
| Scalars.IntRoundTrip | Pods/nanopb/pb_decode.c:1289-1389 | every scalar in range of its C type is decoded from its encoding, for each of the five packable types and each data size |
| Scalars.DelimitedRoundTrip | Pods/nanopb/pb_decode.c:367-380 | a length prefix and that many bytes give back those bytes |
| Scalars.TagRoundTrip | Pods/nanopb/pb_decode.c:293-314 | field number and wire type are recovered from an encoded tag |
| Scalars.PackedRoundTrip | Pods/nanopb/pb_decode.c:420-447 | a packed array is decoded element for element behind those already stored |
| OStreams.AfterBoth | Pods/nanopb/pb_encode.c:72-119 | writing a and then b leaves the stream as writing a + b does |
| OStreams.OStream.BufWrite | Pods/nanopb/pb_encode.c:72-82 | exactly the bytes from the write position on are replaced |
| OStreams.OStream.Write | Pods/nanopb/pb_encode.c:101-119 | succeeds iff the bytes fit under max_size (always when only counting); a refused write changes nothing |
| OStreams.VarintBuffer | Pods/nanopb/pb_encode.c:574-594 | the in-place byte loop builds the varint of its argument |
| Encoder.PutInt | Pods/nanopb/pb_encode.c:734-808 | every packable value goes out as its encoding, or the stream is full |
| Encoder.PutPackedItems | Pods/nanopb/pb_encode.c:173-180 | the elements of a packed array go out one after the other |
| Encoder.PackedSize | Pods/nanopb/pb_encode.c:145-165 | the size computed in advance is the size written |
| Encoder.PutPackedArray | Pods/nanopb/pb_encode.c:139-181 | tag, length and elements of a packed array |
| Encoder.PutUnpacked | Pods/nanopb/pb_encode.c:184-207 | an unpacked array is its elements, each behind the field's tag |
| Encoder.CheckDefault | Pods/nanopb/pb_encode.c:215-303 | true exactly when the field is absent or holds its proto3 default, recursively for submessages |
| Encoder.PutField | Pods/nanopb/pb_encode.c:307-392 | a field goes out, behind its tag, iff it is carried under its presence rule; which bytes these are is WireFormat.TagByte and Evolution.FieldIsRecords |
| Encoder.PutMessage | Pods/nanopb/pb_encode.c:494-516 | pb_encode writes exactly the encoding, or fails without passing the stream's limit; it succeeds iff the data is legal (WireFormat.RefusedExactly) and fits |
| Encoder.PutSubmessage | Pods/nanopb/pb_encode.c:682-730 | sizing pass, length and writing pass together put the length-prefixed encoding on the stream |
| Encoder.PutSized | Pods/nanopb/pb_encode.c:702-729 | once the size fits, the writing pass succeeds with exactly that size: "submsg size changed" is unreachable at every depth |
| Encoder.EncodedSize | Pods/nanopb/pb_encode.c:533-542 | the sizing pass succeeds iff the data is legal and yields the length of the encoding |
| Encoder.EncodeToBuffer | Pods/nanopb/pb_encode.c:84-119 | into capacity n encoding succeeds iff the sizing pass does with size at most n; then exactly that many bytes are written and the rest of the buffer is untouched |
| Encoder.EncodeDelimitedTo | Pods/nanopb/pb_encode.c:518-521 | the message behind its length |
| Encoder.EncodeNullTerminated | Pods/nanopb/pb_encode.c:523-531 | the message and a zero byte |
| FieldIters.FieldIter.Next | Pods/nanopb/pb_common.c:20-76 | pointers and required_field_index stay determined by the position; false on wrapping to the start |
| FieldIters.FieldIter.Find | Pods/nanopb/pb_common.c:78-95 | terminates, finds the entry with the tag iff there is one, and on failure is back where it started |
| FieldIters.PointersMatchLayout | Pods/nanopb/pb_common.c:20-76 | for every table that the macros generate from a structure layout with its unions: data and size pointers are those of the declared member at every position iff no union starts PB_SIZE_MAX bytes behind the last member of another one |
| FieldIters.TwoUnionsAreMistaken | Pods/nanopb/pb_common.c:52-64 | a well-formed table with two such unions, where the data pointer is off by the whole first union |
| FieldIters.NotAnywhere | Pods/nanopb/pb_common.c:78-95 | a full circle from any start without a match means that no entry has the tag |
| IStreams.IStream.Read | Pods/nanopb/pb_decode.c:85-132 | reads the next bytes or, when too few are left, leaves the stream alone |
| IStreams.IStream.DecodeVarint | Pods/nanopb/pb_decode.c:250-270 | the loop with shifts and ORs computes the 64-bit varint |
| IStreams.IStream.DecodeVarint32 | Pods/nanopb/pb_decode.c:182-242 | the 32-bit decoder with its overflow and sign-extension checks; eof exactly when nothing was left |
| IStreams.GroupOr | Pods/nanopb/pb_decode.c:264-265 | the shifted group never meets a bit of the result, also at bit position 63 |
| IStreams.Turn64 | Pods/nanopb/pb_decode.c:256-266 | one turn of the do-while loop with shift, OR and wrap-around at 64 bits is one step of the varint |
| Bitset.AllSeen | Pods/nanopb/pb_decode.c:1024-1045 | comparing whole words with allbits and the last with a shifted mask decides whether the first `count` bits are all set |
| Bitset.WordIsMask | Pods/nanopb/pb_decode.c:1036-1043 | a word equals allbits >> (32 - k) iff its low k bits, and no others, are set |
| Bitset.BitOfOr | Pods/nanopb/pb_decode.c:988-993 | OR sets exactly the bits of both words |
| Bitset.SetBit | Pods/nanopb/pb_decode.c:988-993 | marking a required field adds its number to the set |
| Decoder.SkipFieldOf | Pods/nanopb/pb_decode.c:273-326 | a skip consumes exactly the bytes of the field for wire types 0, 1, 2 and 5 and fails for others |
| Decoder.DecodeTagOf | Pods/nanopb/pb_decode.c:293-314 | tag, wire type, and eof on end of input or a zero tag |
| Decoder.MakeSubstream | Pods/nanopb/pb_decode.c:367-380 | the substream is the delimited part and the parent keeps what follows |
| Decoder.CloseSubstream | Pods/nanopb/pb_decode.c:382-395 | the parent continues behind the substream, however much of it was read |
| Decoder.ClampKeeps | Pods/nanopb/pb_decode.c:1305-1321 | an integer survives the store to its C type iff it is in range, so "integer too large" is exact |
| Decoder.AssembledIsLittleEndian | Pods/nanopb/pb_decode.c:1254-1286 | ORing the shifted bytes is the little-endian value |
| Decoder.GetInt | Pods/nanopb/pb_decode.c:1289-1389 | the packable decoders |
| Decoder.GetBytes | Pods/nanopb/pb_decode.c:1391-1426 | bytes fit their allocation; fixed-length bytes have exactly their length, with the empty string as all zeros |
| Decoder.GetString | Pods/nanopb/pb_decode.c:1428-1461 | a string leaves room for its terminator |
| Decoder.GetSub | Pods/nanopb/pb_decode.c:1463-1485 | array entries are decoded from defaults, other submessages into what they hold |
| Decoder.PackedLoop | Pods/nanopb/pb_decode.c:430-444 | the packed loop succeeds iff all bytes are used within array_size |
| Decoder.GetField | Pods/nanopb/pb_decode.c:401-475 | required, optional, repeated and oneof fields are stored by their rule |
| Decoder.SetToDefaults | Pods/nanopb/pb_decode.c:812-895 | the structure is set to its defaults, recursively; which values these are is Defaults.DefaultIsDeclared |
| Defaults.DefaultIsDeclared | Pods/nanopb/pb_decode.c:846-876 | every scalar holds the default that its entry declares, or zero, empty or all zero bytes where it declares none, at every depth |
| Defaults.UnmetIsKept | Pods/nanopb/pb_decode.c:925-1000 | decoding writes to no entry but those it meets |
| Defaults.UnmetIsDeclared | Pods/nanopb/pb_decode.c:1051-1063 | after pb_decode of any bytes, an entry that did not occur holds its declared default, or zero |
| Defaults.UnmetDeepIsDeclared | Pods/nanopb/pb_decode.c:1463-1485 | the same for a field inside submessages, at the end of any path that no occurrence of them mentioned |
| Defaults.AbsentIsDeclared | Pods/nanopb/pb_decode.c:1051-1063 | after pb_decode of any bytes, every optional field whose has_ flag is off holds its declared default, also in elements of arrays of submessages |
| Decoder.GetRecord | Pods/nanopb/pb_decode.c:933-1000 | one round of the field loop, with the bit of a required field |
| Decoder.CountRequired | Pods/nanopb/pb_decode.c:1009-1024 | seeking to the table's end with the fix-up for the last entry counts the required fields |
| Decoder.CheckRequired | Pods/nanopb/pb_decode.c:1009-1046 | the check passes iff each of the first 64 required fields has been seen |
| Decoder.DecodeNoInitOf | Pods/nanopb/pb_decode.c:901-1049 | the decoding loop over iterator, bitset and stream computes the decoding function, success and position included |
| Decoder.DecodeOf | Pods/nanopb/pb_decode.c:1051-1063 | the declared defaults first (Defaults.UnmetDeepIsDeclared), then the same |
| Decoder.DecodeDelimitedOf | Pods/nanopb/pb_decode.c:1080-1093 | the message inside its delimited part |
| Streaming.SkipFieldExtends | Pods/nanopb/pb_decode.c:316-326 | a skip does not depend on what follows |
| Streaming.DecodeFieldExtends | Pods/nanopb/pb_decode.c:401-475 | a field does not depend on what follows |
| Streaming.LoopConcat | Pods/nanopb/pb_decode.c:925-1000 | decoding whole fields and then the rest is decoding the whole |
| Merging.ValueMerge | Pods/nanopb/pb_decode.c:1289-1508 | decoding an encoded value replaces a scalar and merges a submessage |
| Merging.UnpackedMerge | Pods/nanopb/pb_decode.c:448-458 | repeated entries append |
| Merging.PackedMerge | Pods/nanopb/pb_decode.c:420-447 | packed entries append |
| Merging.FieldMerge | Pods/nanopb/pb_decode.c:401-475 | one encoded field is merged into the structure under each presence rule |
| Merging.NoInitMerges | Pods/nanopb/pb_decode.c:901-1049 | pb_decode_noinit of an encoded message into a structure with room merges it, uses every byte and finds every required field |
| WireFormat.VarintByte | Pods/nanopb/pb_encode.c:574-594 | byte k of a varint holds bits 7k to 7k + 6 of the value, and its top bit says whether another byte follows |
| WireFormat.CompleteVarint | Pods/nanopb/pb_decode.c:250-270 | any complete varint, canonical or not, decodes to the number its groups make up modulo 2^64 when it has at most ten bytes, and is refused otherwise |
| WireFormat.TagByte | Pods/nanopb/pb_encode.c:636-668 | the tag byte of fields 1 to 15 is eight times the number plus 0 for varints, 1 for eight bytes, 5 for four bytes, 2 for everything with a length |
| WireFormat.SignedAcceptedExactly | Pods/nanopb/pb_decode.c:1289-1324 | an int field takes a varint iff its type holds the low 32 bits (64 for int64) read as a signed number, whether sent in five bytes or sign-extended in ten |
| WireFormat.UnsignedAcceptedExactly | Pods/nanopb/pb_decode.c:1326-1348 | an unsigned field takes a varint iff its type holds it |
| WireFormat.ZigZagAcceptedExactly | Pods/nanopb/pb_decode.c:1350-1372 | a zigzag field takes i from -2i - 1 or 2i, iff its type holds i |
| WireFormat.NegativeInt | Pods/nanopb/pb_encode.c:732-752 | a negative number goes out as the ten bytes of its 64-bit form |
| WireFormat.BytesAcceptedExactly | Pods/nanopb/pb_decode.c:1391-1426 | a bytes field takes, unchanged, exactly what fits behind its count |
| WireFormat.StringAcceptedExactly | Pods/nanopb/pb_decode.c:1428-1461 | a string field takes exactly what leaves room for the terminator; a NUL that was sent ends the C string |
| WireFormat.FixedBytesAcceptedExactly | Pods/nanopb/pb_decode.c:1487-1508 | fixed-length bytes take exactly their length, or nothing, which clears them |
| WireFormat.OtherWireTypesFail | Pods/nanopb/pb_decode.c:316-326 | groups and undefined wire types cannot be skipped |
| WireFormat.LastOneWins | Pods/nanopb/pb_decode.c:401-475 | of two occurrences of a scalar, or of a oneof member of any kind, the first might as well not have been sent |
| WireFormat.SubBodiesJoin | Pods/nanopb/pb_decode.c:1463-1485 | two occurrences of a submessage are one occurrence with the bodies joined |
| WireFormat.PackedPiecesJoin | Pods/nanopb/pb_decode.c:420-447 | an array sent in two packed pieces is the array sent in one |
| WireFormat.UnpackedIsPackedOne | Pods/nanopb/pb_decode.c:448-458 | a number of an array sent on its own is a packed piece of one element |
| WireFormat.RefusedExactly | Pods/nanopb/pb_encode.c:133-138 | the encoder finds an error in the data iff, at some depth, a field to be sent has more elements than its array or more bytes than its allocation |
| WireFormat.FieldNumberZero | Pods/nanopb/pb_decode.c:925-972 | a tag with field number 0 is skipped like an unknown field, except that an empty table refuses it |
| WireFormat.FirstSixtyFourRequired | Pods/nanopb/pb_decode.c:1006-1046 | when the fields decode, decoding succeeds iff every required entry with fewer than 64 required entries before it occurred |
| WireFormat.GuideExamples | Pods/nanopb/pb_encode.c:494-516 | the byte strings of the Protocol Buffers encoding guide for an int32, a string, a submessage and a packed array |
| Presence.ZeroIsOmitted | Pods/nanopb/pb_encode.c:282-302 | a proto3 number, string or byte array sends nothing iff it is 0 or empty |
| Presence.EmptySubIsOmitted | Pods/nanopb/pb_encode.c:261-280 | a proto3 submessage is left out iff its own encoding is empty |
| Presence.EmptyExactly | Pods/nanopb/pb_encode.c:209-303 | a proto3 message encodes to nothing iff every number, string, array and oneof in it is zero or empty, at every depth |
| Evolution.FieldIsRecords | Pods/nanopb/pb_encode.c:636-668 | the bytes of a field are records that a reader without the field knows how to skip: a varint, four bytes, eight bytes, or a length and that many bytes |
| Evolution.ValueIsSkipped | Pods/nanopb/pb_decode.c:316-326 | behind the tag that is written for a field, pb_skip_field takes exactly the bytes of its value, for every type |
| Evolution.FieldIsSkipped | Pods/nanopb/pb_decode.c:945-972 | a table without the tag reads on, from any state, as if the field had not been sent |
| Evolution.OlderReader | Pods/nanopb/pb_decode.c:945-972 | a decoder whose table lacks any of the encoder's entries recovers all the fields it has |
| Evolution.NewerReader | Pods/nanopb/pb_decode.c:1006-1063 | a decoder whose table has more entries, none of them required, recovers the encoder's fields and finds its own absent |
| RoundTrip.MergedIsSame | Pods/nanopb/pb_decode.c:812-895 | merging a message into the defaults gives an equal message |
| RoundTrip.RoundTrip | Pods/nanopb/pb_decode.c:1051-1063 | for every well-formed table and valid message, pb_decode of pb_encode succeeds, consumes all bytes and yields an equal message |
| EndToEnd.ReadyCanBeSent | Pods/nanopb/pb_encode.c:494-516 | every valid message is accepted by the encoder |
| EndToEnd.EncodeAndDecode | Pods/nanopb/pb_encode.c:494-516 | the encoder's and the decoder's methods in a row return an equal message, unless the buffer is too small |
| Wire.ConcatenationIsMerge | Pods/nanopb/pb_decode.c:901-1049 | decoding s + t is decoding s and then t into one structure whenever both succeed |
| Wire.EncodedConcatenation | Pods/nanopb/pb_decode.c:1463-1485 | for encoded messages that is a merge: last one wins, repeated fields append, submessages merge, oneofs are replaced |
| Wire.SkipsWholeField | Pods/nanopb/pb_decode.c:273-326 | skipping consumes exactly the bytes of an unknown field |
| Wire.UnknownFieldsAreTransparent | Pods/nanopb/pb_decode.c:945-972 | unknown fields before, between and after the table entries of an encoded message leave the decoded message unchanged |
| UnknownFields.UnknownsAfterWholeFields | Pods/nanopb/pb_decode.c:925-1000 | in any bytes at all, unknown fields behind any run of whole fields (also between two elements of one repeated field) are without effect on everything decoded |
| UnknownFields.UnknownsAreTransparentAt | Pods/nanopb/pb_decode.c:1463-1485 | the same at any place inside submessages nested to any depth, with the lengths around it adjusted |
| Wire.DelimitedMessage | Pods/nanopb/pb_decode.c:1080-1093 | a delimited message is decoded up to exactly its end |
| Wire.StreamRoundTrip | Pods/nanopb/pb_encode.c:518-521 | any sequence of delimited messages is recovered in order |
| Wire.NullTerminatedRoundTrip | Pods/nanopb/pb_decode.c:1095-1099 | a zero byte ends a message; what follows is left unread |
| Wire.SeenIsMet | Pods/nanopb/pb_decode.c:988-993 | the bits set are those of the required entries that occurred in the input |
| Wire.RequiredCheckIsExact | Pods/nanopb/pb_decode.c:1006-1046 | when the fields themselves decode, decoding succeeds iff each of the first 64 required fields occurred |
| Bounds.DecodedFits | Pods/nanopb/pb_decode.c:1289-1508 | a successful decode of arbitrary bytes never leaves a value outside its C type, its allocation or its array |
| Writes.LoopInPlace | Pods/nanopb/pb_decode.c:401-475 | whatever the bytes and the structure, and wherever decoding stops or fails: no write leaves its element, nor the array of its field, at any depth |
| Rings.CellsDiffer | Pods/TPCircularBuffer/TPCircularBuffer.c:60-73 | within one length of the mirrored mapping different addresses are different cells |
| Rings.CellIsMod | Pods/TPCircularBuffer/TPCircularBuffer.h:96 | the remainder taken of head and tail is the mirror's identification |
| Rings.CircularBuffer.constructor | Pods/TPCircularBuffer/TPCircularBuffer.c:96-98 | the ring starts empty |
| Rings.CircularBuffer.Consume | Pods/TPCircularBuffer/TPCircularBuffer.h:95-106 | the first `amount` bytes go, the others stay in order, and the free space only grows behind what it was |
| Rings.CircularBuffer.Produce | Pods/TPCircularBuffer/TPCircularBuffer.h:134-145 | what lies at the head joins the end |
| Rings.CircularBuffer.ProduceBytes | Pods/TPCircularBuffer/TPCircularBuffer.h:157-164 | appends all bytes iff they fit, otherwise changes nothing |
| Rings.CircularBuffer.Clear | Pods/TPCircularBuffer/TPCircularBuffer.c:110-115 | the ring is empty |
| RingProtocol.StepKeeps | Pods/TPCircularBuffer/TPCircularBuffer.h:81-164 | every atomic step of either thread keeps the invariant that ties memory, head, tail and counter to the streams produced and removed |
| RingProtocol.SpscSafety | Pods/TPCircularBuffer/TPCircularBuffer.h:81-164 | after every interleaving 0 <= fillCount <= length, every byte read is the one produced at that place, and the unread bytes are intact |
| RingProtocol.ConsumedIsPrefix | Pods/TPCircularBuffer/TPCircularBuffer.h:81-98 | without drops the bytes consumed are a prefix of the bytes produced |
| RingProtocol.ClearDropsVisible | Pods/TPCircularBuffer/TPCircularBuffer.c:110-115 | a Clear interleaved with the producer drops exactly the bytes visible at its read of the counter |
| RingProtocol.ProducesExactly | Pods/TPCircularBuffer/TPCircularBuffer.h:134-164 | ProduceBytes, with any steps of the consumer between its own, adds all its bytes iff they fit the space free at its start, and nothing otherwise |
| RingProtocol.ConsumesExactly | Pods/TPCircularBuffer/TPCircularBuffer.h:81-98 | a read of j bytes and a consume of m, with any steps of the producer between, take exactly the first m of the bytes queued at the start, the first j of them read |
| AudioBlocks.Align | Pods/TPCircularBuffer/TPCircularBuffer+AudioBufferList.c:14-19 | the least multiple of 16 not below the argument |
| AudioBlocks.ChainAppend | Pods/TPCircularBuffer/TPCircularBuffer+AudioBufferList.c:66-86 | a block put behind a chain makes a chain, and each channel grows by that block's data |
| AudioBlocks.ChainAligned | Pods/TPCircularBuffer/TPCircularBuffer+AudioBufferList.c:79-85 | the length of a chain is a multiple of 16 |
| AudioQueues.EmptyRingIsQueued | Pods/TPCircularBuffer/TPCircularBuffer.c:96-98 | the ring that Init leaves is an empty chain |
| AudioQueues.HeadAligned | Pods/TPCircularBuffer/TPCircularBuffer+AudioBufferList.c:30 | block addresses are 16-byte aligned, so the alignment assertions never fire |
| AudioQueues.LaidOutInOrder | Pods/TPCircularBuffer/TPCircularBuffer+AudioBufferList.c:41-55 | the buffers of a prepared block are disjoint, in order and inside it |
| AudioQueues.LayoutInBytes | Pods/TPCircularBuffer/TPCircularBuffer+AudioBufferList.c:28-58 | offsets and length of a prepared block in bytes: 80 + 16n for the header, and for each buffer its size rounded up to 16 |
| AudioQueues.Prepare | Pods/TPCircularBuffer/TPCircularBuffer+AudioBufferList.c:25-64 | succeeds iff the aligned block fits the free space, lays out aligned buffers there and leaves the queue alone |
| AudioQueues.CutIsBlock | Pods/TPCircularBuffer/TPCircularBuffer+AudioBufferList.c:76-85 | a prepared block cut behind its last buffer is a well-formed block |
| AudioQueues.CutKeepsData | Pods/TPCircularBuffer/TPCircularBuffer+AudioBufferList.c:76-85 | cutting loses no data of any channel |
| AudioQueues.Produce | Pods/TPCircularBuffer/TPCircularBuffer+AudioBufferList.c:66-86 | the block joins the chain, its length assertion holds and every channel grows by the block's data |
| AudioQueues.Copy | Pods/TPCircularBuffer/TPCircularBuffer+AudioBufferList.c:88-107 | every channel gets, in a block with the given stamp, as many of the given bytes appended as the UInt32 product of frames and bytes per frame says, or nothing changes when the block does not fit |
| AudioQueues.AssertionExactly | Pods/TPCircularBuffer/TPCircularBuffer+AudioBufferList.c:91-95 | the assertion on the source's size is right iff the product does not wrap, or wraps to more than the source has |
| AudioQueues.CopiesExactly | Pods/TPCircularBuffer/TPCircularBuffer+AudioBufferList.c:91-95 | as many bytes are copied as were asked for iff the product does not wrap |
| AudioQueues.FewCopiedAsMany | Pods/TPCircularBuffer/TPCircularBuffer+AudioBufferList.c:91-95 | 2^30 + 1 frames of four bytes are copied as four bytes |
| AudioDequeues.ShortenedChannels | Pods/TPCircularBuffer/TPCircularBuffer+AudioBufferList.c:130-150 | shortening the first block keeps the chain and takes the first bytes off every channel: as many as off the first buffer, or all of the block's when the first buffer is used up |
| AudioDequeues.ShortenedQueue | Pods/TPCircularBuffer/TPCircularBuffer+AudioBufferList.c:130-150 | with buffers of equal sizes every channel loses the same number of bytes |
| AudioDequeues.ConsumeNext | Pods/TPCircularBuffer/TPCircularBuffer+AudioBufferList.h:102-107 | the first block goes and the chain behind it remains |
| AudioDequeues.ConsumePartial | Pods/TPCircularBuffer/TPCircularBuffer+AudioBufferList.c:130-154 | under its own assertion on the buffers the block is shortened in place by the UInt32 product of frames and bytes per frame, the sample time moved on by the frames (AudioTime.ConsumedInTime), or removed when used up; the free space keeps its contents |
| AudioDequeues.NextBufferList | Pods/TPCircularBuffer/TPCircularBuffer+AudioBufferList.h:72-85 | the first block's list and stamp |
| AudioDequeues.NextBufferListAfter | Pods/TPCircularBuffer/TPCircularBuffer+AudioBufferList.c:109-128 | the list of the following block, or none at the end; no assertion fires |
| AudioDequeues.DequeueLoop | Pods/TPCircularBuffer/TPCircularBuffer+AudioBufferList.c:166-191 | the loop ends after min(wanted, total) bytes per channel are copied, wanted being any number; the whole frames among them are consumed and the rest stays |
| AudioDequeues.Dequeue | Pods/TPCircularBuffer/TPCircularBuffer+AudioBufferList.c:166-200 | for all frame counts and frame sizes: the output is the first min(n, total) frames of every channel, the rest stays queued and that count is reported, iff n times the frame size is below 2^32; otherwise what the wrapped product asks for |
| AudioDequeues.CountExactly | Pods/TPCircularBuffer/TPCircularBuffer+AudioBufferList.c:168-193 | the count written back is min(n, queued frames) iff the UInt32 product did not wrap |
| AudioDequeues.NothingReportedAsAll | Pods/TPCircularBuffer/TPCircularBuffer+AudioBufferList.c:168-193 | 2^30 frames of four bytes: nothing is copied or consumed and all 2^30 are reported |
| AudioDequeues.QueueLengths | Pods/TPCircularBuffer/TPCircularBuffer+AudioBufferList.c:166-200 | all channels hold the same whole number of frames |
| AudioDequeues.DeliveredTwice | Pods/TPCircularBuffer/TPCircularBuffer+AudioBufferList.c:166-200 | two deliveries of a and then b frames are one of a + b: outputs concatenate, counts add up to min(a + b, total), the same remains queued |
| AudioDequeues.DequeueTwice | Pods/TPCircularBuffer/TPCircularBuffer+AudioBufferList.c:166-200 | two Dequeue calls in a row together deliver a + b frames |
| AudioDequeues.CopyStaysUniform | Pods/TPCircularBuffer/TPCircularBuffer+AudioBufferList.c:88-107 | copying whole frames keeps the queue in the form that dequeuing needs |
| AudioDequeues.RestOfChain | Pods/TPCircularBuffer/TPCircularBuffer+AudioBufferList.c:109-128 | from every block on the rest is a chain and totalLength leads to the next block or exactly to the end |
| AudioDequeues.Peek | Pods/TPCircularBuffer/TPCircularBuffer+AudioBufferList.c:202-233 | terminates with the number of frames queued |
| AudioModel.NextKeeps | Pods/TPCircularBuffer/TPCircularBuffer+AudioBufferList.h:30-135 | every call keeps queues and blocks in agreement: all channels equally long, in whole frames, and a prepared list regular |
| AudioModel.Conservation | Pods/TPCircularBuffer/TPCircularBuffer+AudioBufferList.h:30-135 | over any sequence of calls and on every channel, queued + produced = removed + queued now, byte for byte and in order |
| AudioModel.PlayedIsRemoved | Pods/TPCircularBuffer/TPCircularBuffer+AudioBufferList.h:121-135 | when audio leaves by dequeuing only, what the calls returned is what was removed |
| AudioModel.FirstInFirstOut | Pods/TPCircularBuffer/TPCircularBuffer+AudioBufferList.h:121-135 | from an empty ring, what was played and what is still queued is what was produced |
| AudioModel.CountsAddUp | Pods/TPCircularBuffer/TPCircularBuffer+AudioBufferList.c:166-200 | when no product wraps, the frames reported over a run are the frames returned on every channel |
| AudioModel.DrawKeeps | Pods/TPCircularBuffer/TPCircularBuffer+AudioBufferList.c:166-191 | drawing over blocks takes the whole frames among the wanted bytes and leaves whole frames |
| AudioTime.ConsumedInTime | Pods/TPCircularBuffer/TPCircularBuffer+AudioBufferList.c:130-154 | what is left of a block that is consumed in part begins as many frames later |
| AudioTime.StepInTime | Pods/TPCircularBuffer/TPCircularBuffer+AudioBufferList.c:130-191 | every operation keeps the blocks on their timeline, each stamped with the end of the one before, moved on by the frames that left |
| AudioTime.PrepStamp | Pods/TPCircularBuffer/TPCircularBuffer+AudioBufferList.c:32-36 | a prepared list keeps the stamp it was prepared with, none being time zero, not valid |
| AudioTime.RunInTime | Pods/TPCircularBuffer/TPCircularBuffer+AudioBufferList.c:130-191 | through every run the queue stays on the timeline on which its lists were stamped, as far on as frames have gone |
| AudioTime.PlayedInTime | Pods/TPCircularBuffer/TPCircularBuffer+AudioBufferList.c:166-200 | over every run in which lists are stamped on time: whatever is dequeued comes with the starting time plus the frames that went before |
| AudioTime.StampsKeepStep | Pods/TPCircularBuffer/TPCircularBuffer+AudioBufferList.c:166-200 | the stamps of two dequeuing calls that play something are as far apart as the frames reported from the first up to the second |
| AudioRuns.PendingStays | Pods/TPCircularBuffer/TPCircularBuffer+AudioBufferList.h:41-51 | a prepared block stays prepared while the consumer frees space |
| AudioRuns.FillPrep | Pods/TPCircularBuffer/TPCircularBuffer+AudioBufferList.c:100-102 | writing to one prepared buffer changes its first bytes and no other buffer |
| AudioRuns.DoProduce | Pods/TPCircularBuffer/TPCircularBuffer+AudioBufferList.c:66-86 | the produced block has the length, size and stamp, and every channel the bytes, of the prepared list |
| AudioRuns.SoundIsConsistent | Pods/TPCircularBuffer/TPCircularBuffer+AudioBufferList.h:30-135 | a ring with a chain of uniform blocks stands for a consistent state of the queues |
| AudioRuns.Run | Pods/TPCircularBuffer/TPCircularBuffer+AudioBufferList.h:30-135 | after any sequence of preparing, filling, trimming, producing, consuming, consuming in part and dequeuing the ring stands for the state, and every call has returned the answer, that the queues of the client's view give: which lists fit, which bytes are queued on each channel and in which blocks, what is prepared, what was played, counted and stamped |
| AudioRuns.RunFromEmpty | Pods/TPCircularBuffer/TPCircularBuffer+AudioBufferList.h:30-135 | the calls on an empty ring, dequeuing only: what they returned and what is queued is what was produced, and the counts are right |
| Base58.DigitsOfNum | PNRouter/Utils/Base58.swift:53-81 | a digit string without leading zeros is the only one for its number |
| Base58.NumOfDigits | PNRouter/Utils/Base58.swift:53-81 | the digits of a number denote it, each below the base, without leading zeros |
| Base58.ByteCapacity | PNRouter/Utils/Base58.swift:33-35 | n bytes always fit n * 138 / 100 + 1 base-58 digits |
| Base58.DigitCapacity | PNRouter/Utils/Base58.swift:36-38 | k base-58 digits always fit k * 733 / 1000 + 1 bytes |
| Base58.DoneStep | PNRouter/Utils/Base58.swift:61-66 | one step of the carry loop keeps the product's finished low digits and the carry in balance |
| Base58.MultiplyAdd | PNRouter/Utils/Base58.swift:59-71 | the early-stopping inner loop computes value * factor + digit in place, each digit below the base, and its carry ends at zero |
| Base58.BytesFit | PNRouter/Utils/Base58.swift:55-68 | no prefix of the input outgrows the base-58 buffer |
| Base58.DigitsFit | PNRouter/Utils/Base58.swift:118-132 | no prefix of the digits outgrows the byte buffer, leading ones not counted |
| Base58.ConvertBytesToBase | PNRouter/Utils/Base58.swift:53-81 | the canonical base-58 digits of the bytes |
| Base58.EncodeBytes | PNRouter/Utils/Base58.swift:83-107 | leading zeros as ones, then the letters of the digits (Base58.LetterAt) |
| Base58.DecodeString | PNRouter/Utils/Base58.swift:109-146 | nothing for the empty string or a character that is not a letter (Base58.LettersExactly), otherwise leading ones as zeros and the number's bytes |
| Base58.DecodeEncode | PNRouter/Utils/Base58.swift:83-146 | decode(encode(x)) is x except for the empty x, and leading zeros become as many leading ones |
| Base58.EncodeDecode | PNRouter/Utils/Base58.swift:83-146 | encode(decode(s)) is s for every s that decode accepts |
| Base58.IndexOfLetter | PNRouter/Utils/Base58.swift:29 | the 58 letters are distinct |
| Base58.LettersExactly | PNRouter/Utils/Base58.swift:29 | the letters are exactly the digits and letters without 0, O, I and l |
| Base58.LetterAt | PNRouter/Utils/Base58.swift:29 | which letter stands where |
| Base58.AcceptedExactly | PNRouter/Utils/Base58.swift:109-120 | decode accepts exactly the non-empty strings of these letters |
| Base58.KnownStrings | PNRouter/Utils/Base58.swift:83-107 | known answers: 44 is m, 256 is 5R, 00 00 28 7f b4 cd is 11233QC4 |
| WebSocketFrames.NextKeeps | PNRouter/Vender/Starscream/WebSocket.swift:972-1148 | for every input the stack holds at most one message, with nothing outstanding, never a ping |
| WebSocketFrames.DrainKeeps | PNRouter/Vender/Starscream/WebSocket.swift:1153-1161 | the same over a whole buffer |
| WebSocketChunks.BeyondIsIrrelevant | PNRouter/Vender/Starscream/WebSocket.swift:972-1048 | reads behind the buffer never influence the result, except through a lone first byte |
| WebSocketChunks.LoneByteExactly | PNRouter/Vender/Starscream/WebSocket.swift:976-1005 | a lone byte with no message open is safe iff it starts a pong or is refused by itself |
| WebSocketChunks.TrapExactly | PNRouter/Vender/Starscream/WebSocket.swift:1056-1060 | subtracting the code bytes goes below zero iff a close frame declares one byte in an extended form |
| WebSocketChunks.OneByteCloseTraps | PNRouter/Vender/Starscream/WebSocket.swift:1056-1060 | the five bytes of such a frame stop the program |
| WebSocketChunks.CompleteStays | PNRouter/Vender/Starscream/WebSocket.swift:1039-1055 | a complete frame reads the same when more follows, and an incomplete one stays incomplete |
| WebSocketChunks.RunConcat | PNRouter/Vender/Starscream/WebSocket.swift:768-789 | acting on the frames received so far and then on the rest is acting on all, a closing frame at the end included |
| WebSocketChunks.ChunkingInvariance | PNRouter/Vender/Starscream/WebSocket.swift:752-789 | every clean split of an accepted stream, which may end with a close frame, has the outcome of its frames |
| WebSocketChunks.ChunkingExactly | PNRouter/Vender/Starscream/WebSocket.swift:752-789 | after every chunk of an accepted stream the parser is where the bytes so far put it, whatever lies behind the buffers, iff no chunk is a lone byte that starts a frame (no pong) while no message is open |
| WebSocketSessions.OutcomeExactly | PNRouter/Vender/Starscream/WebSocket.swift:752-789 | what a connected session reports in the end is what the stream calls for, whatever lies behind the buffers, iff the split is clean, unless the stream itself calls for close code 1002 |
| WebSocketStreams.ReadsFrame | PNRouter/Vender/Starscream/WebSocket.swift:985-1055 | every unmasked data, ping or pong frame of sections 5.2 and 5.5 of RFC 6455 is read back |
| WebSocketStreams.ReadsClose | PNRouter/Vender/Starscream/WebSocket.swift:1021-1089 | every close frame of section 5.5.1 is read as the end, with code 1000 when it has no body, its own code, or 1002 for a reserved code or a reason that is not UTF-8 |
| WebSocketStreams.RunFrames | PNRouter/Vender/Starscream/WebSocket.swift:1101-1201 | any sequence of frames that is legal under section 5.4 is acted on to its end, yields its events in order and leaves the open message on the stack |
| WebSocketStreams.RunStream | PNRouter/Vender/Starscream/WebSocket.swift:1079-1201 | the same with a close frame behind it, also in the middle of a message |
| WebSocketStreams.MessagesAreFrames | PNRouter/Vender/Starscream/WebSocket.swift:1101-1201 | fragments with control frames between them are legal, and what the frames yield is each message joined from its fragments and one answer per ping |
| WebSocketStreams.SafeIsClean | PNRouter/Vender/Starscream/WebSocket.swift:976-1005 | which splits are safe can be read off the frames and the chunk lengths |
| WebSocketStreams.SafeSplitsExactly | PNRouter/Vender/Starscream/WebSocket.swift:752-789 | a valid stream keeps the parser in step for every memory behind the buffers iff the split is safe |
| WebSocketSessions.SafeSplitsDeliver | PNRouter/Vender/Starscream/WebSocket.swift:752-789 | the events of a valid stream are reported for every memory behind the buffers if the split is safe, and only if, unless its own close calls for 1002 |
| WebSocketSessions.HiddenError | PNRouter/Vender/Starscream/WebSocket.swift:1001-1006 | the exception: a stream closed with 1002, split unsafely, whose events are the same whether misread or not |
| WebSocketStreams.ValidStreamsAreDelivered | PNRouter/Vender/Starscream/WebSocket.swift:752-789 | every safe split of whole messages, perhaps part of another, control frames and perhaps a close delivers the messages joined from their fragments, one pong with the same payload per ping, then one disconnection and one answer with the close code; nothing is left but the unfinished message |
| WebSocketHandshake.HeaderFoundExactly | PNRouter/Vender/Starscream/WebSocket.swift:810-824 | the header's end is found at the first blank line iff an even number of carriage returns stands before it |
| WebSocketHandshake.ExtraReturnHidesHeader | PNRouter/Vender/Starscream/WebSocket.swift:814-823 | an input on which it is missed: a line ending CR CR LF before the blank line |
| WebSocketSessions.HandshakeThenStream | PNRouter/Vender/Starscream/WebSocket.swift:768-852 | an accepted answer followed by a valid stream, for every split that is safe behind the header: delivered to its end when no message is open from before or the stream has no data; otherwise the first data frame is answered with a protocol error |
| WebSocketSessions.WelcomeExactly | PNRouter/Vender/Starscream/WebSocket.swift:1101-1134 | a valid stream is accepted iff the stack is empty or the stream has no data frame |
| WebSocketSessions.MessageLostAfterReconnect | PNRouter/Vender/Starscream/WebSocket.swift:1101-1134 | an input: a close in the middle of a text, a second connection, and a one-letter text that is refused |
| WebSocketHandshake.DisconnectedOnce | PNRouter/Vender/Starscream/WebSocket.swift:1292-1311 | whatever arrives in whatever chunks, two disconnections are never reported without a connection between them |
| WebSocketErrors.RejectedUpgrade | PNRouter/Vender/Starscream/WebSocket.swift:794-805 | a complete HTTP answer that is not accepted, in any chunks: one disconnection with its code is reported (to a program that listens), nothing is kept, and the client is not connected |
| WebSocketErrors.RejectedWithBody | PNRouter/Vender/Starscream/WebSocket.swift:794-805 | what comes behind such an answer adds nothing, unless part of it is an acceptable answer |
| WebSocketErrors.UndecidedUpgrade | PNRouter/Vender/Starscream/WebSocket.swift:794-805 | a header the validator answers with -1 is kept whole and reported to nobody |
| WebSocketErrors.OnlyAllowedEvents | PNRouter/Vender/Starscream/WebSocket.swift:1166-1201 | over any input in any chunks no text is reported that is not UTF-8, no pong is sent when that is off, and nothing is reported to a program that does not listen |
| WebSocketErrors.BadTextIsAnswered | PNRouter/Vender/Starscream/WebSocket.swift:1173-1178 | the frame that finishes a text which is not UTF-8 adds close code 1007 and nothing else, and the message stays open |
| WebSocketErrors.FragmentIsKept | PNRouter/Vender/Starscream/WebSocket.swift:1119-1146 | an unfinished fragment is counted and joined to its message, and nothing is reported |
| WebSocketErrors.RefusedFrames | PNRouter/Vender/Starscream/WebSocket.swift:1001-1041 | by its first two bytes a frame is refused with 1002 when masked, reserved, unknown, a fragmented close or ping, or a close of one byte; an empty close gives 1000; a ping that is too long only sends 1002 |
| WebSocketErrors.RefusedOnlyThen | PNRouter/Vender/Starscream/WebSocket.swift:1001-1041 | no other first two bytes are refused |
| WebSocketErrors.OutOfOrder | PNRouter/Vender/Starscream/WebSocket.swift:1101-1134 | a continuation without an open message, and another data frame with one, close with 1002 and drop the rest of the buffer |
| WebSocketErrors.AnyPong | PNRouter/Vender/Starscream/WebSocket.swift:1090-1100 | a pong is taken with any FIN, reserved or mask bit, its payload as it stands |
| WebSocketErrors.CloseIsAnswered | PNRouter/Vender/Starscream/WebSocket.swift:1021-1089 | a close with code and reason is reported and answered with its code iff that is 1000-1003, 1007-1013 or from 3000 on and the reason is UTF-8, else with 1002 |
| WebSocketErrors.ExampleFrames | PNRouter/Vender/Starscream/WebSocket.swift:1216-1250 | the unmasked frames of section 5.7 of RFC 6455, byte for byte |
| WebSocketErrors.ExamplesReceived | PNRouter/Vender/Starscream/WebSocket.swift:972-1201 | receiving them: the text once in each form, the binary data, a pong for the ping, and the pong |
| WebSocketParsers.ReadUint | PNRouter/Vender/Starscream/WebSocket.swift:937-950 | shifting and ORing the bytes gives the big-endian value |
| WebSocketParsers.WebSocket.ProcessResponse | PNRouter/Vender/Starscream/WebSocket.swift:1166-1201 | a finished message is delivered and taken off the stack; text that is not UTF-8 is answered and stays |
| WebSocketParsers.WebSocket.ProcessOneRawMessage | PNRouter/Vender/Starscream/WebSocket.swift:972-1148 | the branches compute the frame function, the partial-payload branch is unreachable and the Int conversions are exact |
| WebSocketParsers.WebSocket.ProcessRawMessages | PNRouter/Vender/Starscream/WebSocket.swift:1153-1161 | all complete frames are acted on and the rest is kept |
| WebSocketParsers.WebSocket.ProcessHTTP | PNRouter/Vender/Starscream/WebSocket.swift:810-852 | the connection opens on an accepted header, and bytes behind it are parsed at once |
| WebSocketParsers.WebSocket.DequeueInput | PNRouter/Vender/Starscream/WebSocket.swift:768-789 | kept bytes and the new chunk go to the frame parser or to the handshake, which opens, waits, or gives up (WebSocketErrors.RejectedUpgrade) |
| WebSocketWriters.MaskedTwice | PNRouter/Vender/Starscream/WebSocket.swift:1252-1259 | masking is its own inverse |
| WebSocketWriters.MaskedBits | PNRouter/Vender/Starscream/WebSocket.swift:1256-1259 | every bit of byte i goes out flipped iff byte i modulo 4 of the key has it |
| WebSocketWriters.FrameIsReceived | PNRouter/Vender/Starscream/WebSocket.swift:1216-1259 | every frame is received under sections 5.2 and 5.3 of RFC 6455 with its opcode and payload, in the shortest length form, behind at most 14 header bytes |
| WebSocketWriters.WriteUint | PNRouter/Vender/Starscream/WebSocket.swift:955-967 | the big-endian bytes of the value |
| WebSocketWriters.BuildFrame | PNRouter/Vender/Starscream/WebSocket.swift:1221-1259 | the frame is built in place inside its buffer |
| WebSocketWriters.WriteQueue.WriteOut | PNRouter/Vender/Starscream/WebSocket.swift:1260-1284 | as much of the frame goes out as the turns of the loop take before the first cancellation, failure or unready stream; the completion fires exactly when that is all of it, and a failure is noted exactly when one ended it |
| WebSocketWriters.FailsExactly | PNRouter/Vender/Starscream/WebSocket.swift:1261-1284 | an operation that its turns stop fails iff the frame is not all out and it was not cancelled |
| WebSocketWriters.WriteQueue.Drain | PNRouter/Vender/Starscream/WebSocket.swift:1216-1286 | every operation has its turns, whatever became of the others: the wire carries what each put there, contiguously and in order, and the completions are those of the whole frames, at their ends |
| WebSocketWriters.QueueIsReceived | PNRouter/Vender/Starscream/WebSocket.swift:1216-1286 | a server reads exactly the queued opcodes and payloads off the wire, in order |
| WebSocketWriters.AllSent | PNRouter/Vender/Starscream/WebSocket.swift:1260-1286 | when every turn writes, all frames are on the wire |
| WebSocketWriters.CompletedIsReceived | PNRouter/Vender/Starscream/WebSocket.swift:1260-1286 | a server reads exactly the completed operations, in order, iff no operation stopped inside its frame |
| WebSocketWriters.CutFrameIsMisread | PNRouter/Vender/Starscream/WebSocket.swift:1260-1286 | an input: one byte of a frame goes out, the write fails, and the next frame, written whole, is not received |

## Left out

- Decoder.DecodeNoInitOf: after a failure only the stream's limit is stated; what the structure then holds is unspecified in the source too. The structure is threaded as a value, so aliasing and the union storage of oneof members (one slot per member here) are not captured, nor are the bytes of a string array behind its NUL.
- Decoder.SetToDefaults: gives repeated and oneof storage a definite unselected content, which the source leaves as it was; no equality looks at it.
- Encoder.PutMessage: requires values of their C types with encoded lengths below 2^64, the range of size_t; arrays may be over-full and bytes over-long, which the encoder refuses.
- RoundTrip.RoundTrip: encoded submessages are shorter than 2^32, because the decoder reads lengths with its 32-bit varint.
- AudioDequeues.Dequeue: blocks hold whole frames, as many on each channel; the stamp's sample time is an integer and its host time is not modelled.
- AudioDequeues.ConsumePartial: the floating-point host time is not modelled.
- AudioRuns.Run: part of a list is consumed by whole frames only, since a wrapped product may leave part of a frame at the front; Copy, which is Prepare, the filling and Produce in one, is not a call of its own; what prepared memory holds before it is filled is arbitrary.
- AudioQueues.Prepare: C int overflow of the requested sizes is not modelled; a block header is one value in its first cell and the other header cells must stay untouched, so its byte layout is not captured.
- Base58.DecodeString: a string is a sequence of Unicode scalar values, not of grapheme clusters.
- WebSocketChunks.ChunkingInvariance: after a refused frame the rest of the current buffer is dropped, so the outcome depends on the chunks; only streams without a refused frame are covered, and a close frame only as the last of the stream.
- Bounds.DecodedFits: speaks of successful decodes; of failing ones only the places of the writes are stated (Writes.LoopInPlace). What a failed decode leaves in the structure is unspecified; the source counts an unpacked element before it compares with array_size, so after "array overflow" the count is one too large.
- nanopb pointer fields, extensions, user callbacks, fixed-count repeated fields, custom stream callbacks and error texts.
- TPCircularBufferInit's allocation and remapping of memory; cells are identified modulo the length instead. Lengths are at most 2^30, so that no int32 sum overflows.
- PeekContiguous with its tolerance on floating-point sample times.
- WebSocket compression, TLS, the contents of HTTP headers (an abstract validator), UTF-8 validity (an abstract predicate), random keys, dispatch queues and delegates (a log of events), and re-entry of newBytesInStream.
- Base58Util, key chain, socket wrappers, Objective-C application headers and the other pods: plumbing without visible bodies.
