# ProtoKit core in Dafny

ProtoKit is a Kotlin Multiplatform gRPC client kit. It has a Protocol Buffers wire codec, gRPC message framing, call-result handling, and three code generators that turn `.proto` schemas into Kotlin classes. This project models the deterministic core of ProtoKit as pure Dafny functions over immutable data, and proves the properties that core promises.

What is modelled:

- **The sdk wire codec**: `ProtoWriter` and `ProtoReader` under `protokit-sdk/.../core/io`.
  - Modules: `SdkWriter`, `SdkReader`, `SdkCodec`, `SdkZigZag`.
  - The writer is a pure append to a byte buffer.
  - Readers are state-passing functions from `(bytes, pos)` to `Result<(value, pos')>`, and a Kotlin exception becomes a `Failure`.
  - Kotlin `Int` and `Long` are mathematical integers restricted to their ranges (`KotlinInt`). The bit operators `shl`, `shr`, `ushr`, `and`, `or`, `xor`, `inv` and the `toInt`/`toLong`/`toByte` conversions are defined on the two's-complement image (`KotlinInt`, `Bits`), so wrap-around and sign extension are explicit.
- **The older tag-addressed codec** of `protokit-runtime`: `RuntimeWriter`, `RuntimeReader`, `RuntimeCodec`. Every read rescans the message from offset 0 for the first field with the tag.
- **gRPC length-prefixed message framing**: `Framer.kt` (`Framing`) and the hand-written copy in the runtime iOS transport (`IosFraming`). A frame is a flag byte, a 4-byte big-endian length, then the payload, as section "Length-Prefixed-Message" of the gRPC over HTTP/2 protocol describes.
- **`ProtoAny`** encode and decode: `SdkProtoAny`.
- **Call results**:
  - `GrpcStatus.fromCode` (`GrpcStatus`);
  - the trailer-to-status rule of both `Helpers.kt` files (`Trailers`);
  - the `Response` combinators (`Responses`);
  - the unary result mapping of `InternalProtoClient` and of the runtime `ProtoClient` (`Client`).
  - The transport, the encoder, the decoder and the header provider are functions returning `Outcome = Returned(value) | Threw(message)`.
- **The descriptor-based generator** `ProtoKitCodegen.kt`. Generated code is modelled as data (statements, write calls, read expressions), not as Kotlin text.
  - `Descriptor`: the schema.
  - `TypeRegistry`: the registry and type resolution.
  - `KotlinTypes`: Kotlin types and defaults.
  - `MessageGen`: encode and decode.
  - `FileGen`: enums, services and files.
  - `MapFields`: map fields.
  - `Naming`: `toPascalCase` and `lowercaseFirst`.
- **The template generators**: the plugin's `KotlinGenerator.kt` (`PluginGenerator`) and the standalone `protokit-codegen` `KotlinGenerator.kt` (`CodegenGenerator`). `CodegenGenerator.GeneratedRoundTrip` connects the codegen's emitted encoder and decoder through the runtime codec.
- **The iOS transport generator's `writeBridge` line insertion and the iOS directory derivation**: `IosBridge`.

Where ProtoKit itself has a bug, the function carries a `Variant` parameter (`AsWritten | Corrected`). The as-written behaviour and its consequence are proved, and the corrected behaviour is proved to have the intended property (see "## Findings").

Where the code disagrees with its own declarations, the model follows the code that runs:

- Both clients build `Response.Failure(status, message, trailers)`, but `Response.Failure` holds one `CallError` with those three parts. The model wraps them in a `CallError`.
- The runtime `ProtoClient` calls a `unaryCall(method, bytes, timeout)` that returns a response with trailers, while `GrpcTransport.kt` in the runtime declares a different shape. The model follows `ProtoClient.kt`.
- The sdk `GrpcStatus` and the runtime `Response` sources are not part of this model. Both sides use the runtime status table of `GrpcStatus.kt`.
- The descriptor generator registers only top-level types (`ProtoKitCodegen.kt:37-43`). Nested messages, including the `<Name>Entry` types protoc creates for `map<K, V>` fields, are therefore never found. The model keeps this and records the consequence as a finding.

## Model

| member | source | states |
|---|---|---|
| SdkWriter.VarInt | protokit-sdk/src/commonMain/kotlin/com/fames/protokit/core/io/ProtoWriter.kt:104-114 | The bytes written for a Long are the little-endian 7-bit groups of its unsigned 64-bit image, so the `ushr` loop never stops early on a negative value |
| SdkWriter.GroupsContinuation | protokit-sdk/src/commonMain/kotlin/com/fames/protokit/core/io/ProtoWriter.kt:104-114 | Every byte of a varint except the last has 0x80 set, and the last has it clear |
| SdkCodec.VarIntLength | protokit-sdk/src/commonMain/kotlin/com/fames/protokit/core/io/ProtoWriter.kt:104-114 | A varint takes 1 to 10 bytes, a negative Long takes exactly 10, and a value below 128 takes one |
| SdkWriter.Append | protokit-sdk/src/commonMain/kotlin/com/fames/protokit/core/io/ProtoWriter.kt:5 | Writing only appends: the earlier buffer is a prefix and the new bytes follow it in call order |
| SdkWriter.WriteTag | protokit-sdk/src/commonMain/kotlin/com/fames/protokit/core/io/ProtoWriter.kt:7-10 | A tag write strictly extends the buffer |
| SdkCodec.TagKeyPattern | protokit-sdk/src/commonMain/kotlin/com/fames/protokit/core/io/ProtoWriter.kt:7-10 | For a field number below 2^29 and a wire type below 8, `(fieldNumber shl 3) or wireType` is `8 * fieldNumber + wireType` |
| SdkWriter.WriteInt64 | protokit-sdk/src/commonMain/kotlin/com/fames/protokit/core/io/ProtoWriter.kt:38-42 | Appends only, and appends nothing exactly when the value is 0 |
| SdkWriter.WriteSInt64 | protokit-sdk/src/commonMain/kotlin/com/fames/protokit/core/io/ProtoWriter.kt:46-50 | Appends only, and appends nothing exactly when the value is 0 |
| SdkWriter.WriteInt32 | protokit-sdk/src/commonMain/kotlin/com/fames/protokit/core/io/ProtoWriter.kt:52-56 | Appends only, and appends nothing exactly when the value is 0 |
| SdkWriter.WriteSInt32 | protokit-sdk/src/commonMain/kotlin/com/fames/protokit/core/io/ProtoWriter.kt:60-64 | Appends only, and appends nothing exactly when the value is 0 |
| SdkWriter.WriteBool | protokit-sdk/src/commonMain/kotlin/com/fames/protokit/core/io/ProtoWriter.kt:70-74 | Appends only, and appends nothing exactly when the value is false |
| SdkWriter.WriteLengthDelimited | protokit-sdk/src/commonMain/kotlin/com/fames/protokit/core/io/ProtoWriter.kt:76-97 | Appends only, and appends nothing exactly when the payload is empty |
| SdkWriter.WriteString | protokit-sdk/src/commonMain/kotlin/com/fames/protokit/core/io/ProtoWriter.kt:76-82 | Appends only, and appends nothing exactly when the UTF-8 bytes are empty |
| SdkWriter.WriteBytes | protokit-sdk/src/commonMain/kotlin/com/fames/protokit/core/io/ProtoWriter.kt:84-89 | Appends only, and appends nothing exactly when the bytes are empty |
| SdkWriter.WriteObject | protokit-sdk/src/commonMain/kotlin/com/fames/protokit/core/io/ProtoWriter.kt:91-97 | Appends only, and appends nothing exactly when the nested encoding is empty |
| SdkWriter.WriteEnum | protokit-sdk/src/commonMain/kotlin/com/fames/protokit/core/io/ProtoWriter.kt:99-102 | Its own zero test changes nothing: `writeEnum` writes the same bytes as `writeInt32` |
| SdkReader.ReadVarIntLoop | protokit-sdk/src/commonMain/kotlin/com/fames/protokit/core/io/ProtoReader.kt:106-117 | A successful read consumes at least one byte, stays inside the buffer and uses at most the ten groups the shift allows |
| SdkReader.ReadVarInt | protokit-sdk/src/commonMain/kotlin/com/fames/protokit/core/io/ProtoReader.kt:106-117 | A successful read consumes between 1 and 10 bytes inside the buffer |
| SdkCodec.GroupsRoundTrip | protokit-sdk/src/commonMain/kotlin/com/fames/protokit/core/io/ProtoReader.kt:106-117 | Reading the 7-bit groups of any u below 2^64 yields the Long whose unsigned image is u and advances past exactly those groups |
| SdkCodec.VarIntRoundTrip | protokit-sdk/src/commonMain/kotlin/com/fames/protokit/core/io/ProtoReader.kt:106-117 | Reading the varint written for any Long v yields v and advances by exactly the bytes written |
| SdkCodec.ReadVarIntOutcome | protokit-sdk/src/commonMain/kotlin/com/fames/protokit/core/io/ProtoReader.kt:106-117 | A read succeeds exactly when a byte without 0x80 appears within 10 bytes; a negative position, a buffer ending inside the varint and 10 continuation bytes give the three distinct errors |
| SdkCodec.LoopEndsEarly | protokit-sdk/src/commonMain/kotlin/com/fames/protokit/core/io/ProtoReader.kt:108-110 | When the buffer ends inside the varint, the read fails with "premature end of stream" |
| SdkCodec.LoopTooLong | protokit-sdk/src/commonMain/kotlin/com/fames/protokit/core/io/ProtoReader.kt:109-116 | After 10 continuation bytes the read fails with "Malformed varint" |
| SdkReader.ReadTag | protokit-sdk/src/commonMain/kotlin/com/fames/protokit/core/io/ProtoReader.kt:8-14 | Returns null exactly when pos is at or past the end (pos unchanged); otherwise consumes bytes and yields a field number below 2^29 and a wire type below 8 |
| SdkReader.TagParts | protokit-sdk/src/commonMain/kotlin/com/fames/protokit/core/io/ProtoReader.kt:12-13 | `key ushr 3` lies in [0, 2^29) and `key and 7` in [0, 8) for every Int key |
| SdkCodec.TagKeySplit | protokit-sdk/src/commonMain/kotlin/com/fames/protokit/core/io/ProtoReader.kt:12-13 | `ushr 3` and `and 7` recover the field number and wire type a valid tag key was built from |
| SdkCodec.TagRoundTrip | protokit-sdk/src/commonMain/kotlin/com/fames/protokit/core/io/ProtoReader.kt:8-14 | `readTag` right after `writeTag(n, wt)` returns `(n, wt)` and the position after the tag |
| SdkCodec.Int64RoundTrip | protokit-sdk/src/commonMain/kotlin/com/fames/protokit/core/io/ProtoReader.kt:40 | Reading the tag and value written by `writeInt64(n, v)` returns `(n, 0)` and v, for every non-zero Long |
| SdkCodec.Int32RoundTrip | protokit-sdk/src/commonMain/kotlin/com/fames/protokit/core/io/ProtoReader.kt:49 | Reading back `writeInt32(n, v)` returns v for every non-zero Int, negative ones included |
| SdkCodec.EnumRoundTrip | protokit-sdk/src/commonMain/kotlin/com/fames/protokit/core/io/ProtoReader.kt:86 | Reading back `writeEnum(n, v)` with `readEnum` returns v for every non-zero Int |
| SdkCodec.BoolRoundTrip | protokit-sdk/src/commonMain/kotlin/com/fames/protokit/core/io/ProtoReader.kt:63 | Reading back `writeBool(n, true)` returns true |
| SdkReader.ReadLengthDelimited | protokit-sdk/src/commonMain/kotlin/com/fames/protokit/core/io/ProtoReader.kt:65-84 | Succeeds exactly when the length varint reads, is non-negative and fits the remaining bytes; then returns exactly those bytes and the position after them |
| SdkCodec.LengthDelimitedRoundTrip | protokit-sdk/src/commonMain/kotlin/com/fames/protokit/core/io/ProtoReader.kt:65-84 | Reading back a non-empty string, bytes or object record returns exactly the written payload and ends where the writer ended |
| SdkCodec.SkipVarIntField | protokit-sdk/src/commonMain/kotlin/com/fames/protokit/core/io/ProtoReader.kt:90 | Skipping a varint field moves to exactly the end of the field |
| SdkCodec.SkipLengthDelimitedField | protokit-sdk/src/commonMain/kotlin/com/fames/protokit/core/io/ProtoReader.kt:92 | With the position taken after the length, skipping a length-delimited field moves to exactly the end of the record |
| SdkCodec.SkipLengthAsWritten | protokit-sdk/src/commonMain/kotlin/com/fames/protokit/core/io/ProtoReader.kt:92 | As written, the skip adds the length to the position from before the length varint, so it stops short of the record end |
| SdkCodec.SkipWithoutBoundsCheck | protokit-sdk/src/commonMain/kotlin/com/fames/protokit/core/io/ProtoReader.kt:91-101 | Wire types 1 and 5 advance by 8 and 4 without a bounds check; wire types 4, 6 and 7 do nothing |
| SdkCodec.SkipGroupStops | protokit-sdk/src/commonMain/kotlin/com/fames/protokit/core/io/ProtoReader.kt:93-99 | Skipping a group stops at the end of the buffer or right after the first wire-type-4 tag |
| SdkZigZag.ZigZagRefInverse | protokit-sdk/src/commonMain/kotlin/com/fames/protokit/core/io/ProtoReader.kt:44-47 | The reference zigzag map of integers onto naturals has the reference decoding as its inverse |
| SdkZigZag.ZigZag64Pattern | protokit-sdk/src/commonMain/kotlin/com/fames/protokit/core/io/ProtoWriter.kt:46-50 | `(v shl 1) xor (v shr 63)` has the reference zigzag of v as its unsigned image |
| SdkZigZag.UnZigZag64Value | protokit-sdk/src/commonMain/kotlin/com/fames/protokit/core/io/ProtoReader.kt:44-47 | `(z ushr 1) xor -(z and 1)` is the reference decoding of the unsigned image of z |
| SdkZigZag.SInt64RoundTrip | protokit-sdk/src/commonMain/kotlin/com/fames/protokit/core/io/ProtoReader.kt:44-47 | Reading back `writeSInt64(n, v)` returns v for every non-zero Long |
| SdkZigZag.ZigZag32Pattern | protokit-sdk/src/commonMain/kotlin/com/fames/protokit/core/io/ProtoWriter.kt:60-64 | The 32-bit zigzag `(v shl 1) xor (v shr 31)` has the reference zigzag of v as its unsigned image |
| SdkZigZag.SInt32DecodeAsWritten | protokit-sdk/src/commonMain/kotlin/com/fames/protokit/core/io/ProtoReader.kt:53-57 | Decoding the sign-extended 32-bit zigzag image gives v inside [-2^30, 2^30) and v shifted by 2^31 outside it |
| SdkZigZag.SInt32RoundTripAsWritten | protokit-sdk/src/commonMain/kotlin/com/fames/protokit/core/io/ProtoWriter.kt:60-64 | Reading back `writeSInt32(n, v)` yields the value above, which equals v exactly when -2^30 <= v < 2^30 |
| SdkZigZag.SInt32Counterexample | protokit-sdk/src/commonMain/kotlin/com/fames/protokit/core/io/ProtoWriter.kt:63 | v = 2^30 is written and read back as -2^30 |
| SdkZigZag.WriteSInt32Fixed | protokit-sdk/src/commonMain/kotlin/com/fames/protokit/core/io/ProtoWriter.kt:60-64 | The zero-extending writer appends only, and appends nothing exactly when the value is 0 |
| SdkZigZag.FixedDecode | protokit-sdk/src/commonMain/kotlin/com/fames/protokit/core/io/ProtoReader.kt:53-57 | Decoding the zero-extended 32-bit zigzag image gives back v for every Int |
| SdkZigZag.SInt32RoundTripFixed | protokit-sdk/src/commonMain/kotlin/com/fames/protokit/core/io/ProtoReader.kt:53-57 | With the zigzag image zero-extended, `readSInt32` returns v for every non-zero Int |
| Framing.BigEndianRoundTrip | protokit-sdk/src/commonMain/kotlin/com/fames/protokit/core/io/Framer.kt:10-14 | The four big-endian bytes of a length below 2^32 decode back to it |
| Framing.HeaderLength | protokit-sdk/src/commonMain/kotlin/com/fames/protokit/core/io/Framer.kt:26-30 | The length decoded from bytes 1 to 4 is negative exactly when byte 1 has its top bit set |
| Framing.DecodeLengthValue | protokit-sdk/src/commonMain/kotlin/com/fames/protokit/core/io/Framer.kt:26-30 | The `shl`/`or` expression on the four header bytes equals the signed big-endian value of those bytes |
| Framing.Frame | protokit-sdk/src/commonMain/kotlin/com/fames/protokit/core/io/Framer.kt:5-17 | Succeeds exactly when `5 + size` fits an Int; the frame is `5 + size` bytes, byte 0 is 0 and bytes from 5 on are the payload |
| Framing.FrameHeader | protokit-sdk/src/commonMain/kotlin/com/fames/protokit/core/io/Framer.kt:10-14 | Bytes 1 to 4 of a frame are the payload size in big-endian order |
| Framing.Unframe | protokit-sdk/src/commonMain/kotlin/com/fames/protokit/core/io/Framer.kt:19-37 | Input shorter than 5 bytes fails with "Invalid gRPC frame"; a non-zero flag fails with "Compressed gRPC not supported"; a success is the slice after the header |
| Framing.UnframeFrame | protokit-sdk/src/commonMain/kotlin/com/fames/protokit/core/io/Framer.kt:5-37 | `unframe(frame(d)) == d` for every payload d that can be framed |
| Framing.UnframeLength | protokit-sdk/src/commonMain/kotlin/com/fames/protokit/core/io/Framer.kt:26-36 | With header length L, the result is bytes [5, 5+L) when they exist (trailing bytes dropped), "Corrupted gRPC frame" when input is too short, and a range error when `5 + L` is not a non-negative Int |
| IosFraming.IosFrame | protokit-runtime/src/iosMain/kotlin/com/fames/protokit/runtime/IosGrpcTransport.kt:74-83 | Succeeds exactly when `5 + size` fits an Int |
| IosFraming.IosFrameIsFrame | protokit-runtime/src/iosMain/kotlin/com/fames/protokit/runtime/IosGrpcTransport.kt:74-83 | The iOS frame helper produces exactly the frame of the shared framer |
| IosFraming.IosUnframe | protokit-runtime/src/iosMain/kotlin/com/fames/protokit/runtime/IosGrpcTransport.kt:85-93 | Input shorter than 5 bytes fails by indexing; a success is a slice after the 5-byte header |
| IosFraming.IosUnframeFrame | protokit-runtime/src/iosMain/kotlin/com/fames/protokit/runtime/IosGrpcTransport.kt:85-93 | Unframing a frame gives back the payload |
| IosFraming.IosUnframeAgrees | protokit-runtime/src/iosMain/kotlin/com/fames/protokit/runtime/IosGrpcTransport.kt:85-93 | Agrees with the shared unframe on every input it accepts; where that reports a corrupted frame, the iOS helper fails by indexing |
| IosFraming.IosUnframeIgnoresFlag | protokit-runtime/src/iosMain/kotlin/com/fames/protokit/runtime/IosGrpcTransport.kt:85-93 | The flag byte is never inspected: changing it does not change the result |
| IosFraming.IosUnframeLength | protokit-runtime/src/iosMain/kotlin/com/fames/protokit/runtime/IosGrpcTransport.kt:85-93 | With header length L, the result is bytes [5, 5+L) when they exist, an index failure when input is too short, and a range error when `5 + L` is not a non-negative Int |
| SdkProtoAny.EncodeOnto | protokit-sdk/src/commonMain/kotlin/com/fames/protokit/sdk/models/ProtoAny.kt:21-26 | Encoding only appends to the writer |
| SdkProtoAny.Encode | protokit-sdk/src/commonMain/kotlin/com/fames/protokit/sdk/models/ProtoAny.kt:21-26 | The encoding is empty exactly for the default `("", empty)` |
| SdkProtoAny.EncodeOntoAppends | protokit-sdk/src/commonMain/kotlin/com/fames/protokit/sdk/models/ProtoAny.kt:21-26 | Encoding onto a writer appends exactly the standalone encoding |
| SdkProtoAny.DecodeLoop | protokit-sdk/src/commonMain/kotlin/com/fames/protokit/sdk/models/ProtoAny.kt:34-40 | At the end of input the loop returns the values collected so far |
| SdkProtoAny.DecodeAcross | protokit-sdk/src/commonMain/kotlin/com/fames/protokit/sdk/models/ProtoAny.kt:31-42 | Decoding across one encoded ProtoAny merges its non-empty fields into the values collected so far |
| SdkProtoAny.RoundTrip | protokit-sdk/src/commonMain/kotlin/com/fames/protokit/sdk/models/ProtoAny.kt:21-42 | `decode(encode(a)) == a` for every ProtoAny, absent fields decoding to `""` and empty bytes |
| SdkProtoAny.LastWins | protokit-sdk/src/commonMain/kotlin/com/fames/protokit/sdk/models/ProtoAny.kt:35-37 | Decoding two concatenated encodings keeps, per field, the later non-empty value |
| SdkProtoAny.StopsAtOtherField | protokit-sdk/src/commonMain/kotlin/com/fames/protokit/sdk/models/ProtoAny.kt:34-40 | Decoding stops at the first tag whose number is not 1 or 2 and ignores everything after it |
| SdkProtoAny.WireTypeNotChecked | protokit-sdk/src/commonMain/kotlin/com/fames/protokit/sdk/models/ProtoAny.kt:35-36 | A field-1 tag is read as a string whatever wire type it carries |
| RuntimeWriter.VarInt | protokit-runtime/src/commonMain/kotlin/com/fames/protokit/runtime/IO/ProtoWriter.kt:26-36 | The bytes written for an Int are the 7-bit groups of its unsigned 32-bit image |
| RuntimeCodec.VarIntLength | protokit-runtime/src/commonMain/kotlin/com/fames/protokit/runtime/IO/ProtoWriter.kt:26-36 | A varint takes 1 to 5 bytes, a negative Int exactly 5, and a value below 2^(7k) at most k |
| RuntimeWriter.WriteTag | protokit-runtime/src/commonMain/kotlin/com/fames/protokit/runtime/IO/ProtoWriter.kt:23-24 | A tag write strictly extends the buffer |
| RuntimeWriter.WriteInt32 | protokit-runtime/src/commonMain/kotlin/com/fames/protokit/runtime/IO/ProtoWriter.kt:14-17 | Every Int write appends, 0 included: defaults are never omitted |
| RuntimeWriter.WriteBool | protokit-runtime/src/commonMain/kotlin/com/fames/protokit/runtime/IO/ProtoWriter.kt:19-21 | Appends, and the last byte is 1 for true and 0 for false |
| RuntimeWriter.WriteString | protokit-runtime/src/commonMain/kotlin/com/fames/protokit/runtime/IO/ProtoWriter.kt:7-12 | Appends more than the string's bytes, even for an empty string, and ends with exactly the UTF-8 bytes |
| RuntimeCodec.WriteFields | protokit-runtime/src/commonMain/kotlin/com/fames/protokit/runtime/IO/ProtoWriter.kt:5-38 | A sequence of writes leaves the old buffer followed by the fields' encodings in call order |
| RuntimeReader.ReadVarIntLoop | protokit-runtime/src/commonMain/kotlin/com/fames/protokit/runtime/IO/ProtoReader.kt:42-51 | Succeeds exactly when some byte at or after pos lacks 0x80 (no byte limit); fails only with an index error; ends just after that byte |
| RuntimeReader.ReadVarInt | protokit-runtime/src/commonMain/kotlin/com/fames/protokit/runtime/IO/ProtoReader.kt:42-51 | Succeeds exactly when a terminating byte follows pos, consuming at least one byte inside the buffer |
| RuntimeCodec.VarIntRoundTrip | protokit-runtime/src/commonMain/kotlin/com/fames/protokit/runtime/IO/ProtoReader.kt:42-51 | Reading the varint written for any Int v yields v and the position after it |
| RuntimeReader.Skip | protokit-runtime/src/commonMain/kotlin/com/fames/protokit/runtime/IO/ProtoReader.kt:34-40 | Any wire type other than 0 and 2 fails with "Unsupported wire type"; a varint skip stays inside the buffer |
| RuntimeCodec.ScanUnsupported | protokit-runtime/src/commonMain/kotlin/com/fames/protokit/runtime/IO/ProtoReader.kt:34-40 | The scan fails with "Unsupported wire type" at any earlier non-matching field whose wire type is not 0 or 2 |
| RuntimeReader.Scan | protokit-runtime/src/commonMain/kotlin/com/fames/protokit/runtime/IO/ProtoReader.kt:22-32 | A hit ends inside the buffer; a miss ends at or past its end |
| RuntimeReader.Find | protokit-runtime/src/commonMain/kotlin/com/fames/protokit/runtime/IO/ProtoReader.kt:22-32 | `find` starts from offset 0; when it reports false, the position is at or past the end |
| RuntimeCodec.Lookup | protokit-runtime/src/commonMain/kotlin/com/fames/protokit/runtime/IO/ProtoReader.kt:22-32 | The first field carrying the tag (first wins), and none exactly when no field has it |
| RuntimeCodec.LookupPayload | protokit-runtime/src/commonMain/kotlin/com/fames/protokit/runtime/IO/ProtoReader.kt:22-32 | The encoding holds the first matching field's value at the offset found |
| RuntimeCodec.KeyFields | protokit-runtime/src/commonMain/kotlin/com/fames/protokit/runtime/IO/ProtoReader.kt:26 | `shr 3` recovers field numbers below 2^28 but gives `n - 2^29` above; `ushr 3` recovers every valid number |
| RuntimeReader.Located | protokit-runtime/src/commonMain/kotlin/com/fames/protokit/runtime/IO/ProtoReader.kt:8-17 | As written, a successful `find` always leads into the read: the `?: default` branch is never taken |
| RuntimeReader.ReadInt32 | protokit-runtime/src/commonMain/kotlin/com/fames/protokit/runtime/IO/ProtoReader.kt:16-17 | As written, a successful read implies the tag was found; corrected, an absent tag reads as 0 |
| RuntimeReader.ReadString | protokit-runtime/src/commonMain/kotlin/com/fames/protokit/runtime/IO/ProtoReader.kt:8-14 | As written, a successful read implies the tag was found; corrected, an absent tag reads as the empty string |
| RuntimeCodec.ReadInt32Fields | protokit-runtime/src/commonMain/kotlin/com/fames/protokit/runtime/IO/ProtoReader.kt:16-17 | Reading tag t from the bytes written for any fields yields the first t-field's Int; an absent t fails as written and reads 0 corrected |
| RuntimeCodec.ReadBoolFields | protokit-runtime/src/commonMain/kotlin/com/fames/protokit/runtime/IO/ProtoReader.kt:19-20 | Reading tag t yields the first t-field's flag; an absent t fails as written and reads false corrected |
| RuntimeCodec.ReadStringFields | protokit-runtime/src/commonMain/kotlin/com/fames/protokit/runtime/IO/ProtoReader.kt:8-14 | Reading tag t yields the first t-field's bytes; an absent t fails as written and reads "" corrected |
| RuntimeCodec.HighFieldNumber | protokit-runtime/src/commonMain/kotlin/com/fames/protokit/runtime/IO/ProtoReader.kt:26 | A field numbered in [2^28, 2^29) cannot be read back as written; with `ushr` it reads back its value |
| RuntimeCodec.SkipLengthAsWritten | protokit-runtime/src/commonMain/kotlin/com/fames/protokit/runtime/IO/ProtoReader.kt:37 | As written, skipping a string field ends short of the record by the length varint's size |
| RuntimeCodec.SkippedStringExample | protokit-runtime/src/commonMain/kotlin/com/fames/protokit/runtime/IO/ProtoReader.kt:37 | The bytes `[10, 0, 16, 5]` (an empty string at 1, then 5 at 2): reading tag 2 fails with "Unsupported wire type" as written and yields 5 corrected |
| RuntimeCodec.EmptyMessage | protokit-runtime/src/commonMain/kotlin/com/fames/protokit/runtime/IO/ProtoReader.kt:8-17 | On an empty message, reading an Int fails as written; corrected, it reads 0 and a string reads "" |
| GrpcStatus.FirstWithCode | protokit-runtime/src/commonMain/kotlin/com/fames/protokit/runtime/models/GrpcStatus.kt:17 | The first entry carrying the code, and none exactly when no entry carries it |
| GrpcStatus.FromCode | protokit-runtime/src/commonMain/kotlin/com/fames/protokit/runtime/models/GrpcStatus.kt:17 | Total: the result carries the code, or it is UNKNOWN and the code is not one of the eleven |
| GrpcStatus.CodesDistinct | protokit-runtime/src/commonMain/kotlin/com/fames/protokit/runtime/models/GrpcStatus.kt:4-14 | Every constant is in the entry list and no two constants share a code |
| GrpcStatus.FromCodeRoundTrip | protokit-runtime/src/commonMain/kotlin/com/fames/protokit/runtime/models/GrpcStatus.kt:17 | `fromCode(s.code) == s` for every constant |
| GrpcStatus.FromCodeUnknown | protokit-runtime/src/commonMain/kotlin/com/fames/protokit/runtime/models/GrpcStatus.kt:17 | `fromCode` yields UNKNOWN exactly for codes outside {0..7, 13, 14, 16} and for 2 |
| Trailers.ToIntOrNull | protokit-runtime/src/androidMain/kotlin/com/fames/protokit/runtime/Helpers.kt:8 | Some exactly when the text is an optional sign followed by decimal digits (ASCII or any other Unicode decimal digit of the Basic Multilingual Plane, as the JVM reads them) whose value fits an Int, and then that value |
| Trailers.ShowRoundTrip | protokit-runtime/src/androidMain/kotlin/com/fames/protokit/runtime/Helpers.kt:8 | Parsing the decimal text of any Int gives it back |
| Trailers.ToGrpcTrailers | protokit-runtime/src/androidMain/kotlin/com/fames/protokit/runtime/Helpers.kt:12-16 | The message is present exactly when "grpc-message" is; raw has exactly the header names; each comma-free value list splits back out of its joined text |
| Trailers.StatusRoundTrip | protokit-runtime/src/androidMain/kotlin/com/fames/protokit/runtime/Helpers.kt:8-10 | A "grpc-status" header spelling a status's code gives that status |
| Trailers.StatusRule | protokit-sdk/src/androidMain/kotlin/com/fames/protokit/core/Helpers.kt:8-10 | Missing or non-numeric "grpc-status" gives UNKNOWN; a decimal Int n, in any Unicode decimal digits, gives `fromCode(n)`, so UNKNOWN for an unknown code |
| Trailers.FullwidthStatus | protokit-runtime/src/androidMain/kotlin/com/fames/protokit/runtime/Helpers.kt:8-10 | A "grpc-status" of the fullwidth digit three (U+FF13) gives `fromCode(3)`, because the JVM reads it as the digit 3 |
| Responses.OnSuccess | protokit-sdk/src/commonMain/kotlin/com/fames/protokit/sdk/models/Response.kt:23-26 | Returns the receiver; the action runs once, on the value, exactly for a Success |
| Responses.OnFailure | protokit-sdk/src/commonMain/kotlin/com/fames/protokit/sdk/models/Response.kt:28-31 | Returns the receiver; the action runs once, on the error, exactly for a Failure |
| Responses.ExactlyOneAction | protokit-sdk/src/commonMain/kotlin/com/fames/protokit/sdk/models/Response.kt:23-31 | Chaining `onSuccess` and `onFailure` runs exactly one of the two actions |
| Responses.SuccessOrFailure | protokit-sdk/src/commonMain/kotlin/com/fames/protokit/sdk/models/Response.kt:33-37 | `isSuccess(r) == !isFailure(r)` |
| Responses.GetModelOrNull | protokit-sdk/src/commonMain/kotlin/com/fames/protokit/sdk/models/Response.kt:39-40 | The value exactly for a Success, null for a Failure |
| Responses.GetError | protokit-sdk/src/commonMain/kotlin/com/fames/protokit/sdk/models/Response.kt:49-50 | The error exactly for a Failure, null for a Success |
| Responses.GetTrailers | protokit-sdk/src/commonMain/kotlin/com/fames/protokit/sdk/models/Response.kt:42-47 | The Success trailers, or the error's trailers for a Failure |
| Responses.GettersDetermine | protokit-sdk/src/commonMain/kotlin/com/fames/protokit/sdk/models/Response.kt:39-50 | Exactly one of the value and the error is present, and together with the trailers they rebuild the response |
| Responses.Map | protokit-sdk/src/commonMain/kotlin/com/fames/protokit/sdk/models/Response.kt:52-60 | Keeps success, trailers and error; a Success value becomes `f(value)` |
| Responses.MapIdentity | protokit-sdk/src/commonMain/kotlin/com/fames/protokit/sdk/models/Response.kt:52-60 | `map(id) == r` |
| Responses.MapCompose | protokit-sdk/src/commonMain/kotlin/com/fames/protokit/sdk/models/Response.kt:52-60 | `map(f).map(g) == map(g after f)` |
| Client.NewInternalClient | protokit-sdk/src/commonMain/kotlin/com/fames/protokit/core/InternalProtoClient.kt:9-13 | A client built with defaults has a 15000 ms timeout and no header provider |
| Client.DefaultTimeout | protokit-sdk/src/commonMain/kotlin/com/fames/protokit/core/InternalProtoClient.kt:19 | Omitting the timeout is the same call with 15000 ms |
| Client.SelectHeaders | protokit-sdk/src/commonMain/kotlin/com/fames/protokit/core/InternalProtoClient.kt:24 | The caller's headers if non-empty, else the provider's result if configured, else empty |
| Client.Caught | protokit-sdk/src/commonMain/kotlin/com/fames/protokit/core/InternalProtoClient.kt:45-55 | A throwable becomes a Failure with UNKNOWN status, its message, and trailers of UNKNOWN, the message and an empty raw map |
| Client.Settle | protokit-sdk/src/commonMain/kotlin/com/fames/protokit/core/InternalProtoClient.kt:33-44 | A Success arises only from a returned OK response whose body the decoder turned into its value, with the response's trailers |
| Client.Unary | protokit-sdk/src/commonMain/kotlin/com/fames/protokit/core/InternalProtoClient.kt:14-55 | An encoder that throws gives the caught Failure |
| Client.TransportCall | protokit-sdk/src/commonMain/kotlin/com/fames/protokit/core/InternalProtoClient.kt:23-44 | The transport receives the method, the encoder's bytes, the timeout and the selected headers; a non-OK status gives the status Failure whatever the decoder |
| Client.ThrowsCaught | protokit-sdk/src/commonMain/kotlin/com/fames/protokit/core/InternalProtoClient.kt:22-55 | A throwing header provider, transport or decoder gives the caught Failure; nothing escapes |
| Client.ConsistentOutcome | protokit-sdk/src/commonMain/kotlin/com/fames/protokit/core/InternalProtoClient.kt:33-54 | Every Failure's status and message equal its trailers', and every Success has OK trailers |
| Client.RuntimeUnary | protokit-runtime/src/commonMain/kotlin/com/fames/protokit/runtime/ProtoClient.kt:13-51 | An encoder that throws gives the caught Failure |
| Client.RuntimeConsistentOutcome | protokit-runtime/src/commonMain/kotlin/com/fames/protokit/runtime/ProtoClient.kt:29-49 | Every Failure's status and message equal its trailers', and every Success has OK trailers |
| Client.RuntimeIsHeaderless | protokit-runtime/src/commonMain/kotlin/com/fames/protokit/runtime/ProtoClient.kt:13-51 | The runtime client behaves as the sdk client with no header provider and no caller headers |
| IosBridge.IndexOfFirst | protokit-plugin/src/main/java/com/fames/protokit/plugin/GenerateIosGrpcTransportTask.kt:158 | -1 exactly when no line contains the target; otherwise the first line that does |
| IosBridge.NewLineProvides | protokit-plugin/src/main/java/com/fames/protokit/plugin/GenerateIosGrpcTransportTask.kt:157 | The inserted line contains "GrpcTransportProvider.provide" |
| IosBridge.BridgeInserts | protokit-plugin/src/main/java/com/fames/protokit/plugin/GenerateIosGrpcTransportTask.kt:156-161 | With no provide call present and a target line present: one line is added, immediately before the first target line, and removing it gives back the original lines |
| IosBridge.BridgeUnchanged | protokit-plugin/src/main/java/com/fames/protokit/plugin/GenerateIosGrpcTransportTask.kt:160 | With no target line, or a provide call already present, the lines are unchanged |
| IosBridge.BridgeIdempotent | protokit-plugin/src/main/java/com/fames/protokit/plugin/GenerateIosGrpcTransportTask.kt:160-161 | Applying `writeBridge` twice equals applying it once |
| IosBridge.IosDirPlain | protokit-plugin/src/main/java/com/fames/protokit/plugin/GenerateIosGrpcTransportTask.kt:16 | A root without "/composeApp" just gets "/iosApp" appended |
| IosBridge.IosDirFromModule | protokit-plugin/src/main/java/com/fames/protokit/plugin/GenerateIosGrpcTransportTask.kt:16 | A root ending in "/composeApp" becomes "/iosApp/iosApp" under the same project (the Windows variant at line 19 is the same with a backslash) |
| Naming.LowercaseFirst | protokit-plugin/src/main/java/com/fames/protokit/plugin/codegen/ProtoKitCodegen.kt:415 | Same length, first character no longer upper-case, rest unchanged |
| Naming.LowercaseFirstIdempotent | protokit-plugin/src/main/java/com/fames/protokit/plugin/codegen/ProtoKitCodegen.kt:415 | Idempotent, and the identity on strings not starting with an upper-case letter |
| Naming.ToPascalCase | protokit-plugin/src/main/java/com/fames/protokit/plugin/codegen/ProtoKitCodegen.kt:414 | The result contains no underscore |
| Naming.PascalIdempotent | protokit-plugin/src/main/java/com/fames/protokit/plugin/codegen/ProtoKitCodegen.kt:414 | `toPascalCase` is idempotent |
| Naming.PascalOfWords | protokit-plugin/src/main/java/com/fames/protokit/plugin/codegen/ProtoKitCodegen.kt:414 | Pascal-casing underscore-joined words concatenates the words with their first letters capitalised |
| TypeRegistry.BuildRegistry | protokit-plugin/src/main/java/com/fames/protokit/plugin/codegen/ProtoKitCodegen.kt:33-46 | Keys are the registrations plus ".google.protobuf.Any", which maps to ProtoAny; every other entry comes from a registration; the message map holds exactly the message writes |
| TypeRegistry.RegistryLastWins | protokit-plugin/src/main/java/com/fames/protokit/plugin/codegen/ProtoKitCodegen.kt:34-44 | When a key is registered more than once, the last registration wins |
| TypeRegistry.DeclarationWritten | protokit-plugin/src/main/java/com/fames/protokit/plugin/codegen/ProtoKitCodegen.kt:35-43 | Each top-level message, enum and service is registered under `"." + pkg + "." + name` (or `"." + name`), with java_package if it has a character that is not Kotlin whitespace (`isNotBlank`), the proto package otherwise |
| TypeRegistry.SeparatorsAreBlank | protokit-plugin/src/main/java/com/fames/protokit/plugin/codegen/ProtoKitCodegen.kt:35 | A java_package made only of the separator controls U+001C-U+001F is blank to Kotlin, so the proto package is used |
| TypeRegistry.OnlyTopLevelWritten | protokit-plugin/src/main/java/com/fames/protokit/plugin/codegen/ProtoKitCodegen.kt:37-41 | As written, only top-level messages enter the message map |
| TypeRegistry.EntryWritten | protokit-plugin/src/main/java/com/fames/protokit/plugin/codegen/ProtoKitCodegen.kt:37-41 | Corrected, nested map entry messages are registered as well |
| TypeRegistry.QualifyIdempotent | protokit-plugin/src/main/java/com/fames/protokit/plugin/codegen/ProtoKitCodegen.kt:394-400 | A qualified name starts with "." and qualifying it again changes nothing |
| TypeRegistry.ResolveOwnDeclaration | protokit-plugin/src/main/java/com/fames/protokit/plugin/codegen/ProtoKitCodegen.kt:393-402 | A type declared in a file resolves from that file's package, to the same class as its fully qualified name |
| TypeRegistry.ResolveAny | protokit-plugin/src/main/java/com/fames/protokit/plugin/codegen/ProtoKitCodegen.kt:45 | ".google.protobuf.Any" always resolves to ProtoAny |
| KotlinTypes.MethodFitsPrimitive | protokit-plugin/src/main/java/com/fames/protokit/plugin/codegen/ProtoKitCodegen.kt:365-373 | The read/write method chosen for each kind matches its Kotlin primitive type: the five 64-bit kinds go to Int64/Long and every kind not named goes to Int32/Int |
| KotlinTypes.MutableMatchesFrozen | protokit-plugin/src/main/java/com/fames/protokit/plugin/codegen/ProtoKitCodegen.kt:304-321 | Mutable and immutable typing fail alike and differ only in list and map mutability |
| KotlinTypes.OnlyAnyNullable | protokit-plugin/src/main/java/com/fames/protokit/plugin/codegen/ProtoKitCodegen.kt:316-320 | Only a singular, non-map ".google.protobuf.Any" field is nullable, and list elements are never nullable |
| KotlinTypes.DefaultFitsType | protokit-plugin/src/main/java/com/fames/protokit/plugin/codegen/ProtoKitCodegen.kt:375-391 | The decoder's initial value fits the field's mutable Kotlin type |
| KotlinTypes.RepeatedEmptyMisfit | protokit-plugin/src/main/java/com/fames/protokit/plugin/codegen/ProtoKitCodegen.kt:375-379 | A repeated field of an empty message type is typed Unit but starts as `mutableListOf()`, which does not fit |
| MapFields.NoFieldIsMap | protokit-plugin/src/main/java/com/fames/protokit/plugin/codegen/ProtoKitCodegen.kt:294-298 | As written, no field is ever recognised as a map |
| MapFields.MapFieldUnresolved | protokit-plugin/src/main/java/com/fames/protokit/plugin/codegen/ProtoKitCodegen.kt:37-41 | As written, a map field's entry type is not found, so generation stops |
| MapFields.MapFieldRecognised | protokit-plugin/src/main/java/com/fames/protokit/plugin/codegen/ProtoKitCodegen.kt:294-298 | With the entry types registered, a map field is recognised as a map |
| MapFields.MapFieldTyped | protokit-plugin/src/main/java/com/fames/protokit/plugin/codegen/ProtoKitCodegen.kt:305-309 | A recognised map field that resolves is typed `Map` or `MutableMap` as requested |
| MessageGen.FieldsPartitioned | protokit-plugin/src/main/java/com/fames/protokit/plugin/codegen/ProtoKitCodegen.kt:74-117 | Every field is either regular or a member of exactly the oneof its index names |
| MessageGen.OneofDecls | protokit-plugin/src/main/java/com/fames/protokit/plugin/codegen/ProtoKitCodegen.kt:84-111 | One sealed class per oneof, each with one case per member |
| MessageGen.OneofCases | protokit-plugin/src/main/java/com/fames/protokit/plugin/codegen/ProtoKitCodegen.kt:92-108 | Each member gets its case class, an object exactly when the field's message type is empty |
| MessageGen.RegularParams | protokit-plugin/src/main/java/com/fames/protokit/plugin/codegen/ProtoKitCodegen.kt:113-117 | One constructor parameter per regular field, named after it and typed immutably |
| MessageGen.WriteField | protokit-plugin/src/main/java/com/fames/protokit/plugin/codegen/ProtoKitCodegen.kt:188-233 | Writes under the field's number; a map writes entries, a repeated non-map field loops over one element write |
| MessageGen.EncodeArms | protokit-plugin/src/main/java/com/fames/protokit/plugin/codegen/ProtoKitCodegen.kt:160-177 | One arm per oneof member, matching its case class and writing under its number |
| MessageGen.EncodeMethodShape | protokit-plugin/src/main/java/com/fames/protokit/plugin/codegen/ProtoKitCodegen.kt:150-186 | Oneofs first, one `when` per oneof, then one write per regular field in declaration order, looping exactly for repeated non-map fields |
| MessageGen.OneofWritesOne | protokit-plugin/src/main/java/com/fames/protokit/plugin/codegen/ProtoKitCodegen.kt:160-177 | A oneof writes at most one member, nothing when null, and the write of the set case |
| MessageGen.RegularVars | protokit-plugin/src/main/java/com/fames/protokit/plugin/codegen/ProtoKitCodegen.kt:245 | One decoder variable per regular field, typed mutably and initialised to its default |
| MessageGen.ReadFieldCode | protokit-plugin/src/main/java/com/fames/protokit/plugin/codegen/ProtoKitCodegen.kt:323-363 | A map field reads an entry exactly when it is recognised as a map |
| MessageGen.DecodeArmFor | protokit-plugin/src/main/java/com/fames/protokit/plugin/codegen/ProtoKitCodegen.kt:254-273 | The arm matches the field number; a oneof member assigns its case class to the oneof's variable, a regular field assigns, appends or merges; as written, a oneof member arm carries no read, since a member that needs one fails at the format call |
| MessageGen.OneofArmAsWritten | protokit-plugin/src/main/java/com/fames/protokit/plugin/codegen/ProtoKitCodegen.kt:259-260 | As written, a oneof member whose type is not a field-less message fails with the format-conversion error once its read is built |
| MessageGen.OneofArmCorrected | protokit-plugin/src/main/java/com/fames/protokit/plugin/codegen/ProtoKitCodegen.kt:259-262 | Corrected, such a member's arm assigns to the oneof's variable its case class built from the field's read |
| MessageGen.DecodeCompanion | protokit-plugin/src/main/java/com/fames/protokit/plugin/codegen/ProtoKitCodegen.kt:235-292 | One arm per field, and the constructor gets the oneofs then the regular fields |
| MessageGen.OneofMembersEmptyAsWritten | protokit-plugin/src/main/java/com/fames/protokit/plugin/codegen/ProtoKitCodegen.kt:254-262 | As written, the decoder is generated only when every oneof member has a field-less message type |
| MessageGen.GenerateMessage | protokit-plugin/src/main/java/com/fames/protokit/plugin/codegen/ProtoKitCodegen.kt:71-123 | The class is the resolved message name, with one encode statement per oneof and regular field and one decode arm per field |
| MessageGen.GeneratedOneofsEmptyAsWritten | protokit-plugin/src/main/java/com/fames/protokit/plugin/codegen/ProtoKitCodegen.kt:121 | As written, a message class is generated only when every oneof member has a field-less message type |
| MessageGen.ConstructorMatchesDecode | protokit-plugin/src/main/java/com/fames/protokit/plugin/codegen/ProtoKitCodegen.kt:282-286 | The decoder returns its variables in constructor-parameter order with the same names (oneofs first); each oneof variable has its parameter's type and starts at null, and each regular variable has the mutable form of its parameter's type |
| MessageGen.ScalarFieldsAgree | protokit-plugin/src/main/java/com/fames/protokit/plugin/codegen/ProtoKitCodegen.kt:223-226 | For every non-message field, the write method and the read method use the same wire shape |
| MessageGen.FieldWireAgreement | protokit-plugin/src/main/java/com/fames/protokit/plugin/codegen/ProtoKitCodegen.kt:323-363 | With message fields read from a length-bounded slice, every field's write and read use the same wire shape |
| MessageGen.MessageFieldMisread | protokit-plugin/src/main/java/com/fames/protokit/plugin/codegen/ProtoKitCodegen.kt:353-356 | As written, a message field is written length-delimited but read as the rest of the input |
| FileGen.GenerateEnum | protokit-plugin/src/main/java/com/fames/protokit/plugin/codegen/ProtoKitCodegen.kt:125-129 | Succeeds exactly when the enum resolves, with the declared constants in order |
| FileGen.ConstantAt | protokit-plugin/src/main/java/com/fames/protokit/plugin/codegen/ProtoKitCodegen.kt:359 | Some constant exactly when the enum has constants |
| FileGen.EnumOrdinalRoundTrip | protokit-plugin/src/main/java/com/fames/protokit/plugin/codegen/ProtoKitCodegen.kt:357-360 | The constant at a written ordinal is the constant written |
| FileGen.UnknownOrdinalIsFirst | protokit-plugin/src/main/java/com/fames/protokit/plugin/codegen/ProtoKitCodegen.kt:359 | Any out-of-range ordinal, negative included, decodes to the first constant |
| FileGen.Stubs | protokit-plugin/src/main/java/com/fames/protokit/plugin/codegen/ProtoKitCodegen.kt:139-146 | One stub per method, failing exactly when some request or response type does not resolve |
| FileGen.GenerateService | protokit-plugin/src/main/java/com/fames/protokit/plugin/codegen/ProtoKitCodegen.kt:131-148 | Succeeds exactly when the service and all method types resolve; the client is `"<Service>Client"` with one stub per method |
| FileGen.PathNamesService | protokit-plugin/src/main/java/com/fames/protokit/plugin/codegen/ProtoKitCodegen.kt:142 | The path is `"/<pkg>.<Service>/<Method>"`, or `"/<Service>/<Method>"` for an empty package, and its middle part names the registered service |
| FileGen.StubPathMatchesInterface | protokit-plugin/src/main/java/com/fames/protokit/plugin/codegen/ProtoKitCodegen.kt:142 | The service named in every stub's path resolves to the interface the client implements |
| FileGen.OutputNameOfPath | protokit-plugin/src/main/java/com/fames/protokit/plugin/codegen/ProtoKitCodegen.kt:59 | A single-file output is named after the proto file's base name plus "Protokit" |
| FileGen.GenerateFile | protokit-plugin/src/main/java/com/fames/protokit/plugin/codegen/ProtoKitCodegen.kt:48-69 | Every output uses the target package; multiple-files mode writes one type per file, otherwise one file holds all |
| FileGen.FileModesAgree | protokit-plugin/src/main/java/com/fames/protokit/plugin/codegen/ProtoKitCodegen.kt:50-68 | Both modes succeed or fail together and emit the same types |
| FileGen.GenerateAll | protokit-plugin/src/main/java/com/fames/protokit/plugin/codegen/ProtoKitCodegen.kt:26-31 | Outputs come only from files outside google/protobuf, and well-known files alone give nothing |
| FileGen.Generate | protokit-plugin/src/main/java/com/fames/protokit/plugin/codegen/ProtoKitCodegen.kt:26-31 | Every output comes from a non-well-known input file |
| FileGen.WellKnownRegisteredNotGenerated | protokit-plugin/src/main/java/com/fames/protokit/plugin/codegen/ProtoKitCodegen.kt:27-29 | Well-known types are registered but never generated |
| PluginGenerator.ScalarOf | protokit-plugin/src/main/java/com/fames/protokit/plugin/codegen/KotlinGenerator.kt:161-170 | Recognises exactly the seven scalar names |
| PluginGenerator.MapType | protokit-plugin/src/main/java/com/fames/protokit/plugin/codegen/KotlinGenerator.kt:160-176 | A list type exactly when repeated, with the requested mutability; other names pass through unchanged |
| PluginGenerator.GenerateMessage | protokit-plugin/src/main/java/com/fames/protokit/plugin/codegen/KotlinGenerator.kt:19-95 | One property, encoder line, default, decoder variable, reader case and constructor argument per field |
| PluginGenerator.DefaultsFit | protokit-plugin/src/main/java/com/fames/protokit/plugin/codegen/KotlinGenerator.kt:33-56 | Every decoder variable's initial value and every `defaultInstance` value fits its declared type |
| PluginGenerator.ConstructorMatchesVars | protokit-plugin/src/main/java/com/fames/protokit/plugin/codegen/KotlinGenerator.kt:88-90 | The constructor gets each decoder variable under its property's name, with matching types |
| PluginGenerator.WireAgreement | protokit-plugin/src/main/java/com/fames/protokit/plugin/codegen/KotlinGenerator.kt:124-147 | Each reader case reads the field number its encoder line writes, appends exactly for repeated fields, and uses the same wire shape |
| PluginGenerator.Dispatch | protokit-plugin/src/main/java/com/fames/protokit/plugin/codegen/KotlinGenerator.kt:82-85 | The first case for a tag, and none exactly when no case matches |
| PluginGenerator.DispatchReachesField | protokit-plugin/src/main/java/com/fames/protokit/plugin/codegen/KotlinGenerator.kt:38-45 | With distinct numbers, every field's tag reaches its own case |
| PluginGenerator.DispatchSkipsUnknown | protokit-plugin/src/main/java/com/fames/protokit/plugin/codegen/KotlinGenerator.kt:84 | Unknown tags reach no case, so they go to `skip` |
| PluginGenerator.TemplatePathAsWritten | protokit-plugin/src/main/java/com/fames/protokit/plugin/codegen/KotlinGenerator.kt:114 | The path matches the descriptor generator exactly when the package is non-empty; an empty package gives `"/.<Service>/<Rpc>"` |
| PluginGenerator.TemplatePathCorrected | protokit-plugin/src/main/java/com/fames/protokit/plugin/codegen/KotlinGenerator.kt:114 | Corrected, the path's middle part is the service's full name for every package |
| PluginGenerator.GenerateService | protokit-plugin/src/main/java/com/fames/protokit/plugin/codegen/KotlinGenerator.kt:97-122 | The client is `"<Service>Client"`, one stub per rpc, named with a lower-case first letter and calling its path |
| PluginGenerator.WrittenNames | protokit-plugin/src/main/java/com/fames/protokit/plugin/codegen/KotlinGenerator.kt:5-17 | The names written are exactly `"<Message>.kt"` and `"<Service>Client.kt"` |
| PluginGenerator.Generate | protokit-plugin/src/main/java/com/fames/protokit/plugin/codegen/KotlinGenerator.kt:5-17 | The output names are exactly those names, each holding one of the contents written |
| PluginGenerator.ClientReplacesMessage | protokit-plugin/src/main/java/com/fames/protokit/plugin/codegen/KotlinGenerator.kt:12-14 | When a message and a client file share a name, the later client file overwrites the message |
| CodegenGenerator.BasicOf | protokit-codegen/src/main/java/com/fames/protokit/codegen/KotlinGenerator.kt:92-106 | Recognises exactly "string", "int32" and "bool" |
| CodegenGenerator.MapType | protokit-codegen/src/main/java/com/fames/protokit/codegen/KotlinGenerator.kt:108-114 | Maps the three basic names to String, Int and Boolean and passes other names through |
| CodegenGenerator.WriteLine | protokit-codegen/src/main/java/com/fames/protokit/codegen/KotlinGenerator.kt:92-98 | Succeeds exactly for a supported type, writing that kind under the field's index; otherwise "Unsupported proto type" |
| CodegenGenerator.ReadLine | protokit-codegen/src/main/java/com/fames/protokit/codegen/KotlinGenerator.kt:100-106 | Succeeds exactly for a supported type, reading that kind at the field's index; otherwise "Unsupported proto type" |
| CodegenGenerator.EncodeLines | protokit-codegen/src/main/java/com/fames/protokit/codegen/KotlinGenerator.kt:36-41 | Succeeds exactly when every field is supported, with one write per field in order; otherwise fails on the first unsupported field |
| CodegenGenerator.DecodeLines | protokit-codegen/src/main/java/com/fames/protokit/codegen/KotlinGenerator.kt:45-52 | Succeeds exactly when every field is supported, with one named read per field in order |
| CodegenGenerator.GenerateMessage | protokit-codegen/src/main/java/com/fames/protokit/codegen/KotlinGenerator.kt:23-55 | Succeeds exactly when every field is supported, with as many properties, writes and reads as fields |
| CodegenGenerator.EncoderMatchesDecoder | protokit-codegen/src/main/java/com/fames/protokit/codegen/KotlinGenerator.kt:36-52 | Each field is written and read with the same kind, index and name |
| CodegenGenerator.GeneratedRoundTrip | protokit-codegen/src/main/java/com/fames/protokit/codegen/KotlinGenerator.kt:36-52 | Decoding the bytes the generated encoder writes reads back every field's value |
| CodegenGenerator.GenerateService | protokit-codegen/src/main/java/com/fames/protokit/codegen/KotlinGenerator.kt:61-86 | The client is `"<Service>Client"`, one stub per rpc with its request and response types, lower-cased name and path |
| CodegenGenerator.GenerateMessages | protokit-codegen/src/main/java/com/fames/protokit/codegen/KotlinGenerator.kt:8-10 | Succeeds exactly when every message does; otherwise it reports one message's failure |
| CodegenGenerator.Generate | protokit-codegen/src/main/java/com/fames/protokit/codegen/KotlinGenerator.kt:5-17 | Succeeds exactly when every field of every message is supported; output names are `"<Message>.kt"` and `"<Service>Client.kt"` |

## Left out

- Floating point: `writeDouble`, `writeFloat`, the fixed-width writes and reads, and the IEEE-754 bit conversions. Fields of those kinds appear in the generators only as method names.
- UTF-8 encoding and decoding: strings on the wire are their UTF-8 byte sequences, taken as given.
- Network transports (OkHttp, Ktor, NSURLSession), coroutine suspension, `stream`/`serverStream`, `TransportHelpers.kt` and the global transport provider. They are I/O or foreign APIs; the unary call takes the transport as a function parameter.
- OkHttp header lookup is modelled as a map from lower-case names to value lists. Case-insensitive matching is not modelled.
- Both regex-based `ProtoParser.kt` files. The template generators start from the parsed `ProtoFile` records.
- KotlinPoet rendering, indentation, `FileSpec.writeTo` and file-system access. The model keeps the emitted structure, not its text.
- Unicode case mapping is restricted to ASCII letters (`Naming.LowerChar`, `Naming.TitleChar`).
- `TypeRegistry.IsWhitespace` is the JVM's `isWhitespace` or `isSpaceChar` set for current Unicode. U+180E is not in it, as on current JVMs.
- `Trailers.DigitZero` lists the decimal digit runs of the Basic Multilingual Plane. A Kotlin `Char` is one UTF-16 unit, so digits outside that plane cannot occur in a single character.
- The iOS transport generator's choice between the Windows and the Mac file is I/O. Only the path rule and the line transform are modelled.
- The emitted map-entry encoding calls `writeObject(number, pair) { … }` and the emitted map decoding calls `reader.readMessage`. Neither API exists on `ProtoWriter`/`ProtoReader`, so map entries are kept as opaque `WriteEntries`/`ReadEntry` statements and their key/value recursion is not modelled.
- The plugin template writes a message field with `writeObject(index, value.encode())`, a two-argument call that `ProtoWriter` does not declare. The model keeps it as a length-delimited write of the encoding.
- The plugin template's `"<Type>.defaultInstance"` for enum-typed fields, and `map<…>` type names, pass through `mapType` unchanged. The model keeps these names as opaque text.
- Generation that fails part-way has already written earlier files. Only the all-or-nothing result is modelled.
- Fuel: `SdkReader.Skip`/`SdkReader.SkipGroup` and `RuntimeReader.Scan`/`RuntimeReader.Find` take a `fuel` bound. In Kotlin, a negative length can move the position backwards and loop. The model's theorems assume enough fuel (`fuel >= |fields|`).
- KotlinTypes.DefaultFitsType: excludes repeated fields of empty message types, where the source's default does not fit (see `KotlinTypes.RepeatedEmptyMisfit`), and `Any` fields of an empty message type.
- CodegenGenerator.GeneratedRoundTrip: assumes distinct field numbers and, for the as-written reader, field numbers below 2^28 and no string fields, because of the runtime reader findings below.
- RuntimeCodec.ReadInt32Fields, RuntimeCodec.ReadBoolFields, RuntimeCodec.ReadStringFields: assume that every field before the one read can be scanned over (`Readable`). That excludes exactly the inputs the as-written findings exhibit.
- PluginGenerator.WireAgreement and MessageGen.FieldWireAgreement compare the wire shape of each write and read. Decoding of nested messages is not unfolded.

## Findings

| source | as written | input that shows it | evidently intended | confidence | as-written member | corrected member |
|---|---|---|---|---|---|---|
| protokit-sdk/src/commonMain/kotlin/com/fames/protokit/core/io/ProtoWriter.kt:63 | `writeSInt32` widens the 32-bit zigzag image with `toLong()`, which sign-extends it | `writeSInt32(1, 1073741824)` reads back through `readSInt32` as -1073741824 | widen the zigzag image without sign extension, so every Int round-trips | high, not executed | SdkZigZag.SInt32Counterexample | SdkZigZag.SInt32RoundTripFixed |
| protokit-sdk/src/commonMain/kotlin/com/fames/protokit/core/io/ProtoReader.kt:92 | `pos += readVarInt().toInt()` adds the length to the position read before the length varint | skipping an unknown length-delimited field with a 1-byte length stops 1 byte short of the record's end | advance past the length varint and then the payload | medium, not executed | SdkCodec.SkipLengthAsWritten | SdkCodec.SkipLengthDelimitedField |
| protokit-runtime/src/commonMain/kotlin/com/fames/protokit/runtime/IO/ProtoReader.kt:37 | the same `pos += readVarInt()` in the runtime `skip` | bytes `[10, 0, 16, 5]` (empty string at 1, then 5 at 2): `readInt32(2)` fails with "Unsupported wire type" | skip the whole string field and read 5 | medium, not executed | RuntimeCodec.SkippedStringExample | RuntimeCodec.ReadInt32Fields |
| protokit-runtime/src/commonMain/kotlin/com/fames/protokit/runtime/IO/ProtoReader.kt:26 | the field number is taken with `shr 3`, which keeps the sign of the 32-bit key | a single int32 field numbered 268435456 (2^28) cannot be read back | `ushr 3`, as the sdk reader uses | high, not executed | RuntimeCodec.HighFieldNumber | RuntimeCodec.KeyFields |
| protokit-runtime/src/commonMain/kotlin/com/fames/protokit/runtime/IO/ProtoReader.kt:8-17 | `find(tag)?.let { … } ?: 0` applies `?.let` to a non-null Boolean, so the fallback never runs | `readInt32(1)` on an empty message fails with an index error | an absent field reads as 0 (and "" for strings) | high, not executed | RuntimeCodec.EmptyMessage | RuntimeCodec.ReadInt32Fields |
| protokit-plugin/src/main/java/com/fames/protokit/plugin/codegen/ProtoKitCodegen.kt:353-356 | a message-typed field is read with `<Type>.decode(reader)` on the enclosing reader | any message with a message-typed field: the field is written length-delimited but read as the rest of the input | `<Type>.decode(reader.readBytes())` on the bounded slice | high, not executed | MessageGen.MessageFieldMisread | MessageGen.FieldWireAgreement |
| protokit-plugin/src/main/java/com/fames/protokit/plugin/codegen/ProtoKitCodegen.kt:37-41 | only top-level messages enter the registry and the message map | a message with `map<string, int32> m = 1;` makes generation stop with "Type … not found" | register the nested map entry messages so that `isMap` holds | high, not executed | MapFields.MapFieldUnresolved | MapFields.MapFieldRecognised |
| protokit-plugin/src/main/java/com/fames/protokit/plugin/codegen/KotlinGenerator.kt:114 | the rpc path is always `"/$pkg.${svc.name}/${rpc.name}"` | a service `S` with rpc `M` in a file without a package gets the path `"/.S/M"` | `"/S/M"`, as `ProtoKitCodegen.kt:142` builds it | high, not executed | PluginGenerator.TemplatePathAsWritten | PluginGenerator.TemplatePathCorrected |
| protokit-plugin/src/main/java/com/fames/protokit/plugin/codegen/ProtoKitCodegen.kt:259-260 | `"(%L)".format(readFieldCode(field))` is `java.lang.String.format`, where `%L` is no conversion | a message with `oneof choice { int32 a = 1; }`: generation throws `UnknownFormatConversionException` | format the read with KotlinPoet (`CodeBlock.of("(%L)", …)`), so the arm builds the case class from the read | high, not executed | MessageGen.OneofArmAsWritten | MessageGen.OneofArmCorrected |
