# A verified model of the nanopb codec, the cloud messages and the I2C master

This project models three parts of the AIP_v1_1 firmware and proves properties of them.

* **The nanopb 0.3.7 codec** (`pb_common.c`, `pb_encode.c`, `pb_decode.c`), in its default build: no malloc,
  8-bit `pb_size_t`, input and output in memory buffers. Messages are described by tables of `pb_field_t`; required,
  optional, singular and repeated static fields, nested submessages and callback fields are covered.
* **The cloud message wrappers** (`qs_protobuf.c`) over the sixteen generated tables (`keesoncloud.pb.c`).
* **The bit-banged I2C master** (`WF_i2c.c`).

The codec is there twice. `Encoder` and `Decoder` say what is written and read, as functions on values: an input stream
is a pair of the bytes behind the read pointer and the number that may still be read, a message is a sequence of slots.
`InputStream`, `DecodeMethods`, `OutputStream` and `EncodeMethods` are the code as it runs, with streams, iterator,
buffers, bitmap and structure updated in place, proved against those functions. The laws are proved about the functions,
so they hold for the running code.

| file | content |
|---|---|
| `Wire.dfy`, `Schema.dfy` | bytes and streams as values; tables, structures, defaults |
| `Varint.dfy`, `Bits.dfy`, `Scalars.dfy`, `NumberLaws.dfy` | varints, bitwise or, integer widths, zigzag, fixed-size numbers |
| `Encoder.dfy`, `Decoder.dfy` | the codec as functions |
| `Bodies.dfy`, `WireFormat.dfy`, `Defaults.dfy` | the bytes of records, of encoded messages, and the values of fields that did not occur, said independently of these functions |
| `Iterator.dfy`, `RequiredFields.dfy` | the cyclic field iterator; the bitmap of required fields |
| `InputStream.dfy`, `DecodeMethods.dfy` | the decoder in place |
| `OutputStream.dfy`, `EncodeMethods.dfy`, `EndToEnd.dfy` | the encoder in place; both on one buffer |
| `Framing.dfy`, `Records.dfy` | what follows a record does not matter; runs of records |
| `RoundTrip.dfy`, `Disturbance.dfy`, `StrayCalls.dfy`, `ExactRoundTrip.dfy`, `Boundaries.dfy` | decoding undoes encoding, and exactly when |
| `Acceptance.dfy`, `Merge.dfy`, `FieldOrder.dfy`, `ExactOrder.dfy`, `LastOneWins.dfy`, `Packed.dfy` | laws of the decoder on arbitrary input |
| `Cloud.dfy` | the message wrappers |
| `I2c.dfy` | the I2C master and an independent bus decoder |

## What is proved, in short

* Decoding what was encoded reads everything and gives an equal message, through nested submessages, packed arrays,
  skipped zero fields and callbacks; the running encoder and decoder do so on a real buffer. Two things of the code come
  between, and the theorem has both as exact conditions. `pb_field_set_to_default` clears has_ through pSize without
  looking whether the field has one; in a singular submessage that is the first byte of its data, and of a callback that
  stands there (`Boundaries.SingularSubmessageLosesCallback` is an input). And a singular field that looks empty is not
  sent, so that its default comes back.
* The sizing pass is exact at every depth ("submsg size changed" cannot happen), and encoding into a bounded buffer
  writes a beginning of the ideal encoding, never past the end, and succeeds exactly when the size fits.
* An encoded message is a run of complete records for every reader, also one that knows none of its fields; skipping
  unknown fields is exact for every wire type; fields that did not occur hold their defaults whatever was there before.
* The decoder accepts exactly the runs of acceptable records that end with the stream, at a zero key, or in a cut-off key.
* Concatenation is merge, the order of records of different fields does not matter, and unknown records are transparent.
  All three are false of the code in one case, because closing a substream does not drain it: a submessage that ends early
  on a zero key leaves the read pointer behind, and the next record is read from there. `Merge.LagBreaksConcatenation`,
  `Merge.LagBreaksOrder` and `Merge.LagBreaksTransparency` are inputs. `Merge.MergesExactlyWhenDrained`,
  `ExactOrder.OrderExactlyWhenDrained` and `ExactOrder.UnknownsTransparentExactlyWhenDrained` say that each law holds
  exactly when no submessage stops early, and `ExactOrder.MessageOrderExactlyWhenDrained` that the message shows it.
* The last record of a number or text field wins, submessages are merged, packed and unpacked elements agree, and on every
  stream the required fields are exactly the fields that must occur.
* On the I2C bus a decoder that sees only the two lines recovers exactly the intended transaction. A read of zero bytes
  is the one call whose waveform is not made of whole bytes.

## Model

| member | source | states |
|---|---|---|
| Varint.VarintRoundTrip | AIP_v1_1/protobuf/pb_decode.c:208-228 | every uint64, encoded and followed by anything, decodes to itself and leaves what follows |
| Varint.Varint32RoundTrip | AIP_v1_1/protobuf/pb_decode.c:172-206 | the same for every uint32 and the 32-bit decoder |
| Varint.EncodingIsMinimal | AIP_v1_1/protobuf/pb_encode.c:435-455 | no bytes that read as a value are fewer than those the encoder writes |
| Varint.WidthLengths | AIP_v1_1/protobuf/pb_encode.c:435-455 | a uint32 takes at most 5 bytes and a uint64 at most 10 |
| Varint.NarrowAgreesWithWide | AIP_v1_1/protobuf/pb_decode.c:172-228 | what the 32-bit decoder accepts the 64-bit decoder accepts from the same bytes, with the same value modulo 2^32 |
| Varint.FailureIsAllContinuation | AIP_v1_1/protobuf/pb_decode.c:172-228 | a varint is refused exactly when all the bytes it may use have the continuation bit |
| Varint.TenBytesOrFive | AIP_v1_1/protobuf/pb_decode.c:172-228 | the 64-bit decoder takes up to ten bytes and the 32-bit decoder up to five |
| NumberLaws.RoundTrip | AIP_v1_1/protobuf/pb_encode.c:593-657 | every value of a signed, unsigned, zigzag or fixed field of any width comes back, whatever follows |
| NumberLaws.SignedAcceptance | AIP_v1_1/protobuf/pb_decode.c:1152-1187 | signed fields of 4 and 8 bytes accept every varint; of 1 and 2 bytes exactly those whose low 32 bits, as int32, fit |
| NumberLaws.UnsignedAcceptance | AIP_v1_1/protobuf/pb_decode.c:1189-1211 | unsigned fields accept exactly the values that fit |
| NumberLaws.ZigZagAcceptance | AIP_v1_1/protobuf/pb_decode.c:1213-1235 | zigzag fields accept exactly the values that fit |
| NumberLaws.VarintFieldAccepts | AIP_v1_1/protobuf/pb_decode.c:1105-1235 | which varints a signed, unsigned or zigzag field of 1, 2, 4 or 8 bytes accepts, and as which number |
| NumberLaws.ZigZagBijection | AIP_v1_1/protobuf/pb_decode.c:1105-1117 | zigzag and its inverse undo each other on all integers |
| NumberLaws.EightBytes | AIP_v1_1/protobuf/pb_decode.c:1133-1150 | the shifted sum of eight bytes is the little-endian number |
| Iterator.FieldIter.Begin | AIP_v1_1/protobuf/pb_common.c:8-18 | the iterator stands on the first entry with its true offset, or reports an empty table |
| Iterator.FieldIter.Next | AIP_v1_1/protobuf/pb_common.c:20-76 | goes to the next entry or round to the first; pData is the base plus the member's true offset, required_field_index counts the required fields before it |
| Iterator.FieldIter.Find | AIP_v1_1/protobuf/pb_common.c:78-95 | from any position, within one lap, succeeds exactly when a non-extension entry has the tag, and stands on it; otherwise the position is unchanged |
| Iterator.FoundIsUnique | AIP_v1_1/protobuf/pb_common.c:78-95 | with unique tags the entry found does not depend on where the search began |
| Iterator.StorageIsDisjoint | AIP_v1_1/protobuf/pb.h:391-399 | the data of members outside unions shares no storage |
| Iterator.SizesAreDisjoint | AIP_v1_1/protobuf/pb.h:411-425 | a has_ flag or count shares no byte with the data of any field nor with another flag or count; a singular field has none, there pSize is pData |
| Iterator.StartIsOffsetZero | AIP_v1_1/protobuf/pb.h:391-399 | which entry stands at offset 0 of its structure can be read off the table |
| Iterator.LayoutIsDescribed | AIP_v1_1/protobuf/pb.h:391-399 | every table without unions describes the layout in which each member is reached by adding the relative offsets |
| InputStream.IStream.Read | AIP_v1_1/protobuf/pb_decode.c:76-122 | reads exactly the next bytes or nothing; position plus bytes_left does not change |
| InputStream.IStream.ReadByte | AIP_v1_1/protobuf/pb_decode.c:126-142 | reads the next byte, fails exactly at the end, keeps the limit |
| InputStream.IStream.DecodeVarint32 | AIP_v1_1/protobuf/pb_decode.c:172-206 | the loop of shifted groups computes the number the groups make, modulo 2^32; on failure the stream is empty exactly when it had at most 5 bytes |
| InputStream.IStream.DecodeVarint | AIP_v1_1/protobuf/pb_decode.c:208-228 | the same for ten groups, modulo 2^64 |
| InputStream.IStream.DecodeTag | AIP_v1_1/protobuf/pb_decode.c:250-274 | wire type and number of the key, end of message at a zero key or at a key cut off by the end, error otherwise |
| InputStream.IStream.SkipField | AIP_v1_1/protobuf/pb_decode.c:230-289 | skips a varint, 8 bytes, a delimited string or 4 bytes, to its exact end; refuses other wire types |
| Bodies.SkipIsBody | AIP_v1_1/protobuf/pb_decode.c:276-289 | skipping takes n bytes exactly when those are a varint of any length, eight bytes, a length of at most five bytes and that many bytes, or four bytes, by the wire type |
| Bodies.SkipFailsWithoutBody | AIP_v1_1/protobuf/pb_decode.c:276-289 | it fails exactly when no beginning of the stream is such a body |
| Bodies.OfferedIsBody | AIP_v1_1/protobuf/pb_decode.c:291-316 | a decode callback is offered exactly the body of its record, at most ten bytes of a varint, and without the length of a delimited one |
| InputStream.IStream.ReadRawValue | AIP_v1_1/protobuf/pb_decode.c:291-316 | collects the bytes of one scalar, at most ten |
| InputStream.IStream.MakeSubstream | AIP_v1_1/protobuf/pb_decode.c:321-334 | the substream and what is left of the parent partition the parent's bytes |
| InputStream.IStream.CloseSubstream | AIP_v1_1/protobuf/pb_decode.c:336-343 | only the read pointer comes back: the parent reads on where the substream stopped |
| Bits.OrIsAdd | AIP_v1_1/protobuf/pb_decode.c:172-228 | or-ing a shifted group into a number that has no bit from there on is an addition that loses the bits beyond the width |
| InputStream.GatherIsRead | AIP_v1_1/protobuf/pb_decode.c:172-228 | adding groups from the lowest up gives the number they make from the top down |
| InputStream.GatherIsCut | AIP_v1_1/protobuf/pb_decode.c:172-228 | losing high bits at every step is losing them at the end |
| Decoder.Step | AIP_v1_1/protobuf/pb_decode.c:852-906 | every round of the field loop uses up at least one byte or ends the loop |
| RequiredFields.TrackOne | AIP_v1_1/protobuf/pb_decode.c:897-902 | the set of indices marked stays the image of the required entries seen |
| RequiredFields.RequiredIndexIsInjective | AIP_v1_1/protobuf/pb_common.c:65-70 | required_field_index tells required fields apart |
| RequiredFields.RequiredIndexIsOnto | AIP_v1_1/protobuf/pb_common.c:65-70 | every index below the count belongs to a required field |
| RequiredFields.AllBitsAreAllRequired | AIP_v1_1/protobuf/pb_decode.c:908-939 | all indices marked means all required entries seen, and the other way round |
| RequiredFields.MarkBit | AIP_v1_1/protobuf/pb_decode.c:897-902 | setting bit (index and 31) of word (index shifted by 5) adds exactly that index |
| RequiredFields.BitmapComplete | AIP_v1_1/protobuf/pb_decode.c:924-939 | the word comparisons succeed exactly when every index below the count is set, for counts 1 to 31 and 33 to 63 |
| RequiredFields.AllSeen | AIP_v1_1/protobuf/pb_decode.c:924-939 | the loop over the words decides just that |
| DecodeMethods.DecVarint | AIP_v1_1/protobuf/pb_decode.c:1152-1187 | computes the specified value or refuses as specified |
| DecodeMethods.DecUvarint | AIP_v1_1/protobuf/pb_decode.c:1189-1211 | the same for unsigned fields |
| DecodeMethods.DecSvarint | AIP_v1_1/protobuf/pb_decode.c:1213-1235 | the same for zigzag fields |
| DecodeMethods.DecBytes | AIP_v1_1/protobuf/pb_decode.c:1249-1290 | bytes and inline bytes, with their size limits |
| DecodeMethods.DecString | AIP_v1_1/protobuf/pb_decode.c:1292-1325 | text is refused when it does not leave room for the NUL, and ends at its first NUL |
| Boundaries.BlobIsDelimited | AIP_v1_1/protobuf/pb_decode.c:1249-1325 | text and bytes are read behind a length of at most five bytes, refused exactly when they exceed the field or differ from its fixed size, and text ends at its first NUL |
| DecodeMethods.SetMessageToDefaults | AIP_v1_1/protobuf/pb_decode.c:752-835 | without oneof and extension entries, the iterator visits every entry once and sets it to its default, recursively; has_ is cleared through pSize, which in a singular field is the first byte of its data |
| Defaults.DefaultsAreInitial | AIP_v1_1/protobuf/pb_decode.c:752-835 | whatever the structure held, at every depth flags are cleared, counts are zero, and data is the declared default or zero |
| Defaults.DefaultsLeaveAlone | AIP_v1_1/protobuf/pb_decode.c:779-821 | callbacks and the contents of arrays are left alone |
| Defaults.UnreadIsInitial | AIP_v1_1/protobuf/pb_decode.c:944-956 | after pb_decode a field whose key was not read has a cleared flag or a zero count, and holds its default or zero, whatever the destination held |
| Defaults.UnreadOptional | AIP_v1_1/protobuf/pb_decode.c:772-803 | the same for an optional number, text or bytes field, with the value written out |
| DecodeMethods.DecSubmessage | AIP_v1_1/protobuf/pb_decode.c:1327-1348 | a submessage without oneof and extension entries is decoded into its place from a substream; the place of an array element is set to defaults first, and keeps its callbacks |
| DecodeMethods.DecodePackedArray | AIP_v1_1/protobuf/pb_decode.c:367-394 | elements are appended one by one until the substream is used up; overflow and bad elements are refused |
| Defaults.CountsStayInside | AIP_v1_1/protobuf/pb_decode.c:367-405 | on every input, counts stay within array_size |
| Defaults.OneElementAtATime | AIP_v1_1/protobuf/pb_decode.c:396-405 | an element that is not packed is refused when the array is full, and is appended behind the others when it is not |
| DecodeMethods.DecCallback | AIP_v1_1/protobuf/pb_decode.c:600-645 | a callback that reads all it is offered sees exactly the bytes of its value; without a callback the field is skipped |
| DecodeMethods.DecodeStaticField | AIP_v1_1/protobuf/pb_decode.c:349-421 | required, optional and repeated fields: sets has_, replaces scalars, appends to arrays; only this slot changes |
| LastOneWins.WireTypeIsIgnored | AIP_v1_1/protobuf/pb_decode.c:349-421 | the wire type makes no difference to a static field, except between a packed array and a single number |
| DecodeMethods.CountRequired | AIP_v1_1/protobuf/pb_decode.c:914-922 | one lap from any position, with the fixup, counts the required fields |
| DecodeMethods.DecodeRound | AIP_v1_1/protobuf/pb_decode.c:852-906 | without oneof and extension entries, the loop body does one specified step and keeps bitmap and progress in agreement |
| Defaults.EmptyTableRefusesZero | AIP_v1_1/protobuf/pb_decode.c:866-905 | on an empty table the terminator is found for tag 0, and decoding it fails |
| DecodeMethods.DecodeNoInit | AIP_v1_1/protobuf/pb_decode.c:841-942 | on every input and every table without oneof and extension entries whose required fields can be counted, the running decoder accepts and computes exactly what DecodeMessage says |
| DecodeMethods.Decode | AIP_v1_1/protobuf/pb_decode.c:944-956 | the same as DecodeNoInit, behind setting the defaults |
| DecodeMethods.DecodeDelimited | AIP_v1_1/protobuf/pb_decode.c:958-969 | the same as Decode, in a length-delimited substream |
| OutputStream.OStream.BufWrite | AIP_v1_1/protobuf/pb_encode.c:60-69 | the bytes are spliced into the buffer at the pointer and nothing else changes |
| OutputStream.OStream.Write | AIP_v1_1/protobuf/pb_encode.c:88-106 | writes all or nothing; succeeds exactly when there is room or the stream only counts |
| OutputStream.CollectGroups | AIP_v1_1/protobuf/pb_encode.c:445-452 | the ten-byte buffer is filled with exactly the varint |
| OutputStream.OStream.EncodeSvarint | AIP_v1_1/protobuf/pb_encode.c:457-466 | shifting and inverting writes the zigzag number of every int64 |
| OutputStream.OStream.EncodeFixed64 | AIP_v1_1/protobuf/pb_encode.c:479-492 | writes the little-endian bytes |
| OutputStream.Continue | AIP_v1_1/protobuf/pb_encode.c:88-106 | encoders that run one after the other write the concatenation, as far as there is room |
| OutputStream.Stop | AIP_v1_1/protobuf/pb_encode.c:88-106 | a failure leaves a beginning of what the whole run would have written |
| OutputStream.SizingPredictsWriting | AIP_v1_1/protobuf/pb_encode.c:421-430 | a writing run succeeds exactly when the size counted fits, then writes that many bytes, and in any case only a beginning of the ideal encoding |
| EncodeMethods.EncString | AIP_v1_1/protobuf/pb_encode.c:683-707 | text is written up to its NUL or the end of its array |
| EncodeMethods.EncBytes | AIP_v1_1/protobuf/pb_encode.c:659-681 | bytes are written with their length, or refused when they exceed the field |
| EncodeMethods.WriteSubmessage | AIP_v1_1/protobuf/pb_encode.c:562-588 | a body that was sized is written whole into its substream or refused for lack of room; its size never differs from the one counted |
| EncodeMethods.EncodeSubmessage | AIP_v1_1/protobuf/pb_encode.c:541-589 | sizing and writing pass together write the length prefix and exactly that many bytes, at any depth |
| EncodeMethods.PackedSize | AIP_v1_1/protobuf/pb_encode.c:131-154 | the size computed or counted for a packed array is the length of its elements |
| EncodeMethods.EncodePackedArray | AIP_v1_1/protobuf/pb_encode.c:125-169 | key, length and elements of a packed array, or as much as fits |
| EncodeMethods.EncArray | AIP_v1_1/protobuf/pb_encode.c:113-198 | of a static field, empty arrays write nothing, long ones are refused, others are packed or written element by element |
| WireFormat.ArrayIsPacked | AIP_v1_1/protobuf/pb_encode.c:113-169 | an array of numbers is written as one delimited record with all of them, not at all when it is empty, and refused when it is too long |
| WireFormat.ArrayIsSingleRecords | AIP_v1_1/protobuf/pb_encode.c:170-198 | other elements are written with a record each, not at all for an empty array, and refused when there are too many |
| EncodeMethods.EncodeBasicField | AIP_v1_1/protobuf/pb_encode.c:202-290 | static required fields are written, optional ones when present, singular ones unless their memory looks empty, repeated ones as arrays |
| Boundaries.SingularIsLeftOut | AIP_v1_1/protobuf/pb_encode.c:213-232 | a singular field is left out exactly when it is empty text or bytes, or zero in a member of 1, 2, 4 or 8 bytes |
| Boundaries.ClearedIsZero | AIP_v1_1/protobuf/pb_encode.c:224-229 | memory cleared with memset is zero |
| Boundaries.ZeroMeansZero | AIP_v1_1/protobuf/pb_encode.c:224-229 | zero memory holds no flag, count, number, text or callback other than zero |
| EncodeMethods.EncCallback | AIP_v1_1/protobuf/pb_encode.c:294-311 | a callback that writes records under its own key, chunks, or nothing |
| WireFormat.CallbackDecides | AIP_v1_1/protobuf/pb_encode.c:294-311 | the result of a callback is the result of its field, and without one nothing is written |
| WireFormat.ChunksInOrder | AIP_v1_1/protobuf/pb_encode.c:294-311 | chunks are written one after the other |
| EncodeMethods.Encode | AIP_v1_1/protobuf/pb_encode.c:392-414 | for static and callback fields, the running encoder writes exactly EncodeMessage, or a beginning of it when the buffer is too small |
| WireFormat.StrangersSkipMessages | AIP_v1_1/protobuf/pb_encode.c:392-531 | a reader that knows none of the fields of an encoded message skips it record by record, to its exact end |
| WireFormat.KeysByType | AIP_v1_1/protobuf/pb_encode.c:494-531 | the key of every type of field, with its wire type |
| WireFormat.NumbersOnWire | AIP_v1_1/protobuf/pb_encode.c:435-492 | numbers go out as the varint of their 64-bit two's complement, negative ones in ten bytes, as zigzag, or as little-endian bytes |
| WireFormat.FieldsInOrder | AIP_v1_1/protobuf/pb_encode.c:392-414 | fields are written in the order of the table |
| EncodeMethods.GetEncodedSize | AIP_v1_1/protobuf/pb_encode.c:421-430 | the length of the ideal encoding |
| EndToEnd.EncodeToBuffer | AIP_v1_1/protobuf/pb_encode.c:71-106 | succeeds exactly when the encoding fits; the buffer then starts with it, otherwise with a beginning of it; the rest of the buffer is untouched |
| EndToEnd.FieldIsPart | AIP_v1_1/protobuf/pb_encode.c:392-414 | no field writes more than its message |
| EndToEnd.ValidIsTyped | AIP_v1_1/protobuf/pb_encode.c:541-589 | in a valid message below 4 GiB no submessage, at any depth, has a size that wraps |
| EndToEnd.Transfer | AIP_v1_1/protobuf/pb_decode.c:944-956 | the running decoder, on the buffer the running encoder filled, succeeds and leaves an equal message under exactly the conditions of ExactRoundTrip.DecodeUndoesEncode |
| ExactRoundTrip.DecodeUndoesEncode | AIP_v1_1/protobuf/pb_decode.c:841-956 | for every well-formed table and valid message encoding succeeds; decoding succeeds if and only if nothing that is sent meets a callback disturbed by the defaults, then reads everything, and gives an equal message if and only if every field that was not sent has a null default |
| ExactRoundTrip.EveryMessageComesBack | AIP_v1_1/protobuf/pb_decode.c:841-956 | in a table with null defaults, and without a singular submessage that begins with a callback, every valid message comes back equal, into every destination whose callbacks accept it |
| ExactRoundTrip.ZeroAgrees | AIP_v1_1/protobuf/pb_encode.c:213-232 | a message of zeros equals the defaults of its table if and only if they are null |
| ExactRoundTrip.ReceivedAgrees | AIP_v1_1/protobuf/pb_decode.c:841-956 | what is received has equal fields, array counts and has_ flags, and callbacks have been given the payloads, if and only if every field that was not sent has a null default |
| ExactRoundTrip.ZeroListens | AIP_v1_1/protobuf/pb_decode.c:1327-1348 | a structure cleared with memset can receive every valid message |
| Disturbance.DefaultsAreReady | AIP_v1_1/protobuf/pb_decode.c:824-835 | setting the defaults empties every array and leaves a structure into which the message can be decoded |
| Disturbance.QuietIsUndisturbed | AIP_v1_1/protobuf/pb_decode.c:772-777 | after the defaults nothing that is sent meets a damaged callback, if and only if no installed callback that something is sent to stands in the first byte of a singular field, directly or through the members at the start |
| Disturbance.ShelteredIsUndisturbed | AIP_v1_1/protobuf/pb_decode.c:772-777 | when no singular submessage begins with a callback, whatever is sent and received is undisturbed |
| StrayCalls.MessageFails | AIP_v1_1/protobuf/pb_decode.c:600-629 | a message in which a payload meets a damaged callback is not accepted |
| RoundTrip.FieldRoundTrip | AIP_v1_1/protobuf/pb_encode.c:202-311 | what one field writes is a complete run of records that takes its slot to what is received |
| RoundTrip.PackedRoundTrip | AIP_v1_1/protobuf/pb_encode.c:126-168 | the elements of a packed array are read back in order, behind those already there |
| RoundTrip.PayloadsRoundTrip | AIP_v1_1/protobuf/pb_decode.c:600-629 | the records a callback writes are offered to the callback that reads, one by one and in order |
| Boundaries.SingularDefaultLosesZero | AIP_v1_1/protobuf/pb_encode.c:213-232 | in any place of any table, a singular number with a default comes back as the default when it is zero, and as itself otherwise |
| Boundaries.SingularSubmessageLosesCallback | AIP_v1_1/protobuf/pb_decode.c:772-777 | a table and message on which decoding what was encoded fails if and only if the destination has a callback installed, because setting the defaults damages it |
| Boundaries.FullTextIsRefused | AIP_v1_1/protobuf/pb_decode.c:1292-1325 | text is sent even when it fills its array, and comes back if and only if it does not |
| Boundaries.BytesFitOrAreRefused | AIP_v1_1/protobuf/pb_decode.c:1283-1289 | bytes are sent, and come back, if and only if there is room for them and their count |
| Boundaries.InlineBytesMatchOrAreRefused | AIP_v1_1/protobuf/pb_decode.c:1277-1281 | inline bytes come back if and only if there are as many as the field has |
| Acceptance.EofKeys | AIP_v1_1/protobuf/pb_decode.c:257-270 | a message ends at a key whose low 32 bits are zero, or at 1 to 5 last bytes that all have the continuation bit, and nowhere else |
| Acceptance.ExactAcceptance | AIP_v1_1/protobuf/pb_decode.c:852-906 | without required fields, a message is accepted exactly when it is a run of acceptable records followed by such an end |
| Records.ResumeAfterRecords | AIP_v1_1/protobuf/pb_decode.c:852-906 | after complete records the decoder goes on from where they left the read pointer |
| Framing.StepFrame | AIP_v1_1/protobuf/pb_decode.c:852-906 | a step does not look at bytes behind its record |
| Framing.MessageBlind | AIP_v1_1/protobuf/pb_decode.c:1327-1348 | what a message decodes to, or that it is refused, does not depend on the bytes behind its length |
| Merge.ConcatenationIsMerge | AIP_v1_1/protobuf/pb_decode.c:841-906 | decoding a ++ b is decoding a and then b into the result, when a is read to its end with no lag |
| Merge.ConcatenationWithLag | AIP_v1_1/protobuf/pb_decode.c:336-343 | in general b is read from as many bytes before its start as a lags |
| Merge.MergesExactlyWhenDrained | AIP_v1_1/protobuf/pb_decode.c:336-343 | for complete records a, merging works with every b if and only if no submessage in a, at any depth, stops at a zero key with bytes of its own left |
| Merge.LagIsUndrained | AIP_v1_1/protobuf/pb_decode.c:336-343 | the read pointer falls behind by exactly the sum of the bytes that submessages, at every depth, leave undrained |
| Merge.LagBreaksOrder | AIP_v1_1/protobuf/pb_decode.c:1327-1348 | two records of different fields whose order matters, because the first one lags |
| Merge.LagBreaksTransparency | AIP_v1_1/protobuf/pb_decode.c:1327-1348 | an unknown record that is not transparent, because the record before it lags: its key is read as the value of another field |
| Boundaries.MergeTableIsWellFormed | AIP_v1_1/protobuf/pb.h:391-425 | the table of these inputs is well-formed and describes a C structure |
| Merge.LagBreaksConcatenation | AIP_v1_1/protobuf/pb_decode.c:1327-1348 | an input on which decoding a ++ b gives another message than decoding a and then b |
| Merge.SubmessageLag | AIP_v1_1/protobuf/pb_decode.c:1327-1348 | for one submessage, the lag of its parent grows by exactly what the submessage left undrained, and its count shrinks by the full length |
| Merge.FlatTablesNeverLag | AIP_v1_1/protobuf/pb_decode.c:349-421 | without submessages position plus bytes_left is the limit after every message |
| FieldOrder.DecodesFieldByField | AIP_v1_1/protobuf/pb_decode.c:866-905 | a list of records is accepted exactly when every field accepts its own records in order, and each slot is the fold over them alone |
| FieldOrder.UsedUpIsDrained | AIP_v1_1/protobuf/pb_decode.c:866-905 | a record is used up exactly when it is accepted to its end and no submessage in it stops early: the records the following laws are about |
| FieldOrder.InterleavingDoesNotMatter | AIP_v1_1/protobuf/pb_decode.c:866-905 | two lists of used-up records with the same records for every field are worth the same, whatever bytes follow and however the stream ends |
| FieldOrder.SwapRecords | AIP_v1_1/protobuf/pb_decode.c:866-905 | neighbouring used-up records of different fields can change places, whatever follows |
| FieldOrder.UnknownRecordIsTransparent | AIP_v1_1/protobuf/pb_decode.c:866-895 | a record with an undeclared number and a complete body of wire type 0, 1, 2 or 5 changes nothing, wherever it is inserted between used-up records, whatever follows |
| ExactOrder.OrderExactlyWhenDrained | AIP_v1_1/protobuf/pb_decode.c:336-343 | a record that is accepted to its end can change places with every record of another field if and only if no submessage in it stops early |
| ExactOrder.MessageOrderExactlyWhenDrained | AIP_v1_1/protobuf/pb_decode.c:336-343 | the same for the message alone, in a table with another number entry: some swap changes the slots or the acceptance as soon as a submessage stops early |
| ExactOrder.TwinsShowLag | AIP_v1_1/protobuf/pb_decode.c:336-343 | of two records of another field that set different values and differ in their last byte only, both swaps keep the message if and only if no submessage stops early |
| ExactOrder.UnknownsTransparentExactlyWhenDrained | AIP_v1_1/protobuf/pb_decode.c:336-343 | a record that is accepted to its end can be followed by every unknown record without a difference if and only if no submessage in it stops early |
| LastOneWins.LastStays | AIP_v1_1/protobuf/pb_decode.c:349-365 | records of a required, optional or singular field other than a submessage are accepted exactly when each of them is, and the last one stays |
| LastOneWins.LastRecordStays | AIP_v1_1/protobuf/pb_decode.c:866-905 | in a message the slot of such a field is what its last record makes of it |
| LastOneWins.SubmessagesMerge | AIP_v1_1/protobuf/pb_decode.c:1327-1348 | two records of a submessage field leave what one record with both payloads leaves, when the first payload is complete records without a lag |
| FieldOrder.RequiredFieldsMustOccur | AIP_v1_1/protobuf/pb_decode.c:908-939 | on every stream, also with a lag or an early end: a message that was read to its end is accepted exactly when the key of every required field was among those read |
| FieldOrder.RequiredRecordsMustOccur | AIP_v1_1/protobuf/pb_decode.c:908-939 | a list of used-up records is accepted exactly when every required field is among them |
| Packed.RecordAppends | AIP_v1_1/protobuf/pb_decode.c:359-405 | a packed or single record appends the numbers it carries, or is refused when there is no room |
| Packed.ArrayIsTotal | AIP_v1_1/protobuf/pb_decode.c:359-405 | the array after any records is what they carry, in order, up to array_size |
| Packed.PackedAndUnpackedAgree | AIP_v1_1/protobuf/pb_decode.c:359-405 | on the slot of an array, any two mixes of packed and single records with the same numbers have the same effect |
| Packed.MixesDecodeAlike | AIP_v1_1/protobuf/pb_decode.c:359-405 | two streams that differ only in how the numbers of an array are packed decode to the same message, whatever follows |
| Cloud.TableIsWellFormed | AIP_v1_1/protobuf/keesoncloud.pb.c:13-161 | the generated tables are well-formed, have no required fields, and meet the conditions under which every message comes back |
| Cloud.ShapesAreDeclared | AIP_v1_1/protobuf/keesoncloud.pb.c:13-161 | every table has as many entries as its declaration says, singular and tagged from 1 in order |
| Cloud.StringWrite | AIP_v1_1/protobuf/qs_protobuf.c:36-42 | writes key, length and the characters before the NUL |
| Cloud.BytesWrite | AIP_v1_1/protobuf/qs_protobuf.c:43-49 | writes key, length and the data behind the 4-byte length prefix |
| Cloud.StringRead | AIP_v1_1/protobuf/qs_protobuf.c:21-35 | every write stays inside the destination if and only if the payload has no more varints than that has bytes; then the start of it is overwritten with one character for each varint, and no terminator is added |
| Cloud.BytesRead | AIP_v1_1/protobuf/qs_protobuf.c:51-65 | every write stays inside the destination if and only if the payload is no longer than that; then the start of it is overwritten with the payload |
| Cloud.OnlyAsciiComesBack | AIP_v1_1/protobuf/qs_protobuf.c:21-42 | text that was written is read back exactly if and only if all its bytes are below 128 |
| Cloud.DecodingKeepsReceiving | AIP_v1_1/protobuf/qs_protobuf.c:67-87 | during decoding numbers stay numbers and a callback is given only payloads it can read |
| Cloud.EncodeObject | AIP_v1_1/protobuf/qs_protobuf.c:89-101 | an encode wrapper succeeds exactly when the message fits, and reports the bytes written |
| Cloud.ScanDecides | AIP_v1_1/protobuf/qs_protobuf.c:67-87 | among the messages that the callbacks can read, those are accepted whose payloads all stay inside their members |
| Cloud.DecodeObject | AIP_v1_1/protobuf/qs_protobuf.c:102-113 | a decode wrapper succeeds exactly on readable messages all of whose writes stay inside the application's structure, and copies numbers and callback data back |
| Cloud.WrappersRoundTrip | AIP_v1_1/protobuf/qs_protobuf.c:89-534 | decode after encode succeeds; every int32 comes back, and every callback member is overwritten with what its reader makes of the payload |
| Cloud.MessagesComeBack | AIP_v1_1/protobuf/keesoncloud.pb.c:13-161 | for each of the sixteen messages, numbers come back, ASCII text and data arrive whole at the start of their members, and the rest of the members is unchanged |
| Cloud.TextIsDelivered | AIP_v1_1/protobuf/qs_protobuf.c:21-42 | text, which ends before its first NUL, of bytes 1 to 127 arrives whole; it also ends there exactly when the destination is full or held a NUL at that place |
| Cloud.BytesAreDelivered | AIP_v1_1/protobuf/qs_protobuf.c:43-65 | the data, as many bytes as the little-endian prefix says, arrives without the length prefix it was sent from |
| I2c.MovesAreConditions | AIP_v1_1/private_zhao/WF_i2c.c:42-76 | whatever the decoder has seen, SDA moves while SCL is high exactly when a START or STOP is recognised |
| I2c.TransactionConditions | AIP_v1_1/private_zhao/WF_i2c.c:228-275 | a write has two STARTs and STOPs and a read three, as many as WriteByte and ReadContinue move SDA while SCL is high |
| I2c.ByteComesBack | AIP_v1_1/private_zhao/WF_i2c.c:162-186 | the eight bits shifted out are the byte, most significant bit first |
| I2c.MostSignificantFirst | AIP_v1_1/private_zhao/WF_i2c.c:162-219 | the first bit of a byte counts 128, and the last one 1 |
| I2c.Master.IicStart | AIP_v1_1/private_zhao/WF_i2c.c:42-55 | from an idle bus or between bytes, the decoder sees exactly a START |
| I2c.Master.IicStop | AIP_v1_1/private_zhao/WF_i2c.c:63-76 | the decoder sees exactly a STOP and the bus is idle |
| I2c.Master.IicWaitAck | AIP_v1_1/private_zhao/WF_i2c.c:84-111 | polls a bounded number of times; the decoder sees the slave's acknowledge bit |
| I2c.Master.IicWriteByte | AIP_v1_1/private_zhao/WF_i2c.c:162-186 | the decoder sees exactly the eight bits of the byte |
| I2c.Master.IicReadByte | AIP_v1_1/private_zhao/WF_i2c.c:195-219 | returns the number made of the eight levels the slave held, which the decoder sees too |
| I2c.Master.WriteByte | AIP_v1_1/private_zhao/WF_i2c.c:228-241 | from idle to idle, the decoder recovers START, device, register, data, each with the slave's acknowledge bit, and STOP; SDA moves twice while SCL is high |
| I2c.Master.ReadBytes | AIP_v1_1/private_zhao/WF_i2c.c:262-269 | p receives the slave's bytes; all but the last are acknowledged |
| I2c.Master.ReadContinue | AIP_v1_1/private_zhao/WF_i2c.c:249-275 | from idle to idle, the decoder recovers START, device, register, repeated START, read address, the bytes in p with a final NACK, and STOP; SDA moves three times while SCL is high |
| I2c.TransactionItems | AIP_v1_1/private_zhao/WF_i2c.c:228-275 | both transactions item by item: device, register, data; the repeated START is followed by the device with its lowest bit set, and only the last byte of a read is refused |
| I2c.OnlyEmptyReadsAreTorn | AIP_v1_1/private_zhao/WF_i2c.c:249-275 | the transaction is made of whole bytes if and only if at least one byte is read |

## Left out

- DecodeMethods.DecodeNoInit: not for oneof and extension entries; so DecodeRound, Decode, DecodeDelimited, DecSubmessage and SetMessageToDefaults. A has_ flag or count stands in the gap before its data, as the generator puts it; with size_offset 0 the C code would keep the count of an array in its first element. Pointer fields are refused by the decoder, as in the build without malloc.
- DecodeMethods.DecodeStaticField: not for oneof entries.
- DecodeMethods.DecCallback: decode callbacks read all the bytes they are offered in one call; their effect is the list of payloads they were given. A call through a damaged function pointer counts as failed; that the damage changes the pointer is taken for granted, and a callback whose address ends in a zero byte would survive it.
- EncodeMethods.Encode: not for oneof, pointer and extension entries; so EncodeBasicField and EncArray. Flags and counts stand before their data here too.
- Decoder.Step: a table is a finite tree. A table that refers to itself needs a pointer or a callback in C, because a structure cannot contain itself, and what a callback decodes is its own affair.
- RequiredFields.BitmapComplete: not for 32 required fields, nor for 64 and more, because there the C code shifts a 32-bit word by 32 or ignores fields.
- ExactRoundTrip.DecodeUndoesEncode: messages of 4 GiB and more, because the decoder reads lengths as 32-bit numbers; encode callbacks that write something else than records under their own key.
- Cloud.DecodeObject: the callbacks write to the application's structure after the decoder has finished instead of while it runs. When a write would leave its member the outcome in C is undefined; here the call fails. The sixteen pairs of functions are one pair over the shape of the table, and the copy of the file under private_zhao is identical.
- Streams with custom callbacks, PB_BUFFER_ONLY, the old callback style and error texts.
- The destination after a failed decode: only success says what the structure holds.
- A structure is a tree of slots: text is what stands before the NUL, padding is zero, and a destination callback has no encode function. A value whose shape does not fit its table cannot exist in C and is refused.
- size_t is unbounded: where a size is written as a length prefix, it is a precondition that it fits in 64 bits (`EncodeMethods.Typed`).
- I2C delays, pin access and clock stretching: only the order of level changes is kept.
- `timer_event.c`, `Judger.c`, the hardware headers and the Python tools: they call code that is not in the repository, or would only add easy members.
