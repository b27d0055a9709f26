# winstruct and the camera property handlers, in Dafny

This project models `winstruct`, the tagged binary struct codec of the Sony
camera web service. The codec converts a Go record into a fixed-layout
little-endian block, and back. Each field's `windows:"<type>[,<option>]"`
tag names its wire type. The project also models the parts of `main.go`
that use the codec: the tagged record types the service exchanges with the
camera driver, the two code-to-text tables, and the loops of the property
descriptors and property values handlers.

The model is split into these modules:

- `Wire`: bytes, little-endian values, and the cursor operations `Take` and `Drop`.
- `ByteBuffer.Buffer`: the `bytes.Buffer` the codec reads from and writes to. It is a class whose unread bytes are a `seq`. A read at the end yields a zero byte and consumes nothing, as in Go.
- `Primitives`: `bytesToUint` and `uintToBytes` as loops, proved against `ReadUint` and `LeBytes`.
- `WinTypes`: the wire-type catalogue, `getWinType`, and the tag split.
- `Meta`: `getMeta`, with the same loop, proved against the function `MetaOf`.
- `Values`: record instances.
  - A record is a list of field declarations (name, Go type, tag) plus a map from field name to value.
  - A Go struct variable is the class `Values.Record`, which `Unmarshal` updates in place.
- `NativeMemory`: the memory that pointer fields point into. It is a byte sequence indexed by address, and a read outside it is a `MemoryFault`.
- `Decoding` and `Encoding`: what `Unmarshal` and `Marshal` compute, as functions, with their properties.
- `RoundTrip`: `Unmarshal` after `Marshal`, and `Marshal` after `Unmarshal`.
- `WinStruct`: the entry points and the per-type primitives as methods on buffers and records, each proved against the functions above.
- `Names`: `cropModeAsString` and `typeIdToString`.
- `Layouts`: the record types of `main.go` as concrete declaration lists, with their sizes, offsets and decoded contents.
- `PropertyLists`: the descriptors handler and the property values handler. The driver calls are parameters: what the driver writes into a buffer, and the counts it reports.

Every panic of the Go code is an `Errors.Error` value returned in a `Failure`. A panic ends the request, and a `Failure` ends the model's computation at the same point.

## Model

| member | source | states |
|---|---|---|
| Wire.LeValue | winstruct/winstruct.go:84-93 | definition: the little-endian value of a byte sequence, least significant byte first, as bytesToUint assembles it; Wire.LeValueBound bounds it and Wire.LeValueInjective shows that it determines the bytes |
| Wire.LeBytes | winstruct/winstruct.go:95-104 | definition: the s low-order bytes of v, least significant first; its contract gives the length s, Wire.LeBytesAt gives byte k and Wire.LeRoundTrip its inverse |
| Wire.ReadUint | winstruct/winstruct.go:84-93 | definition: what bytesToUint returns, the value of the first min(s, 8) bytes; its type keeps it below 2^64, and Wire.ReadUintOfLeBytes and Wire.ReadUintPrefix state what it reads |
| Wire.LeRoundTrip | winstruct/winstruct.go:84-104 | reading back the s bytes written for v gives v modulo 2^(8s) |
| Wire.LeBytesAt | winstruct/winstruct.go:95-104 | byte k of the s-byte encoding of v is (v >> 8k) & 0xff |
| Wire.LeBytesOfValue | winstruct/winstruct.go:95-104 | writing back the value of a byte sequence over its own length gives the same bytes |
| Wire.LeValueInjective | winstruct/winstruct.go:84-93 | two byte sequences of one length with the same little-endian value are equal |
| Wire.LeValueBound | winstruct/winstruct.go:84-93 | the value of n bytes is below 256^n |
| Wire.ReadUintOfLeBytes | winstruct/winstruct.go:84-104 | reading s <= 8 bytes from the encoding of v, followed by anything, gives v modulo 2^(8s) and leaves exactly what followed |
| Wire.ReadUintPrefix | winstruct/winstruct.go:84-93 | a read of s bytes depends only on those s bytes and consumes exactly s |
| ByteBuffer.Buffer.constructor | winstruct/winstruct.go:323 | a new buffer's unread bytes are the bytes it is made from |
| ByteBuffer.Buffer.ReadByte | winstruct/winstruct.go:88 | reads and consumes the first unread byte; when none is left it yields 0, reports end of input and consumes nothing |
| ByteBuffer.Buffer.Write | winstruct/winstruct.go:294 | appends the bytes after the unread ones |
| Primitives.ReadStep | winstruct/winstruct.go:87-90 | OR-ing the next byte shifted by 8i into the result extends the little-endian value of the bytes read so far; a shift of 64 bits or more adds nothing |
| Primitives.OrIsSum | winstruct/winstruct.go:89 | a byte shifted by 8i onto a result below 2^(8i) keeps that result in the low bits and puts the byte above them, so the sum the model takes is the bitwise OR of the code |
| Primitives.BytesToUint | winstruct/winstruct.go:84-93 | returns the 64-bit little-endian value of the next s bytes (zero past the end, dropped past 8 bytes) and consumes exactly s bytes |
| Primitives.UintToBytes | winstruct/winstruct.go:95-104 | returns s bytes, byte k being (v >> 8k) & 0xff |
| WinTypes.Lookup | winstruct/winstruct.go:228-236 | definition: the linear search for the first catalogue entry with the name, failing with UnknownWireType at the end; WinTypes.LookupSound states its result |
| WinTypes.GetWinType | winstruct/winstruct.go:228-236 | definition: getWinType as that search over the eight-entry catalogue of winstruct/winstruct.go:39-82; WinTypes.GetWinTypeExact states when it succeeds |
| WinTypes.ParseTag | winstruct/winstruct.go:249 | definition: the split of a tag at its first comma into type name and option; WinTypes.ParseTagSplit and WinTypes.ParseTagOf state it |
| WinTypes.LookupSound | winstruct/winstruct.go:228-236 | the search returns a catalogue entry with exactly the requested name, and it fails with UnknownWireType only when no entry has that name |
| WinTypes.GetWinTypeExact | winstruct/winstruct.go:228-236 | getWinType succeeds if and only if the name is in the catalogue, returns that entry, and otherwise reports the name as unknown |
| WinTypes.CatalogueNamesDistinct | winstruct/winstruct.go:39-82 | no two catalogue entries share a name |
| WinTypes.CatalogueWellSized | winstruct/winstruct.go:39-82 | unsigned types are 2, 4 or 8 bytes wide and every other type is 8 |
| WinTypes.UnsignedWidths | winstruct/winstruct.go:40-65 | WORD is 2 bytes; DWORD and DWORD32 are 4; DWORD64 and QWORD are 8 |
| WinTypes.DoubleWidth | winstruct/winstruct.go:66-70 | double is 8 bytes |
| WinTypes.WideStringPointerWidth | winstruct/winstruct.go:71-75 | LPWSTR is an 8-byte pointer |
| WinTypes.BytePointerWidth | winstruct/winstruct.go:76-81 | LPBYTE is an 8-byte pointer |
| WinTypes.EmptyNameUnknown | winstruct/winstruct.go:245-250 | the empty type name of an untagged field is not a wire type, so resolving that field panics |
| WinTypes.LookupCaseSensitive | winstruct/winstruct.go:230 | lookup compares names exactly, so "dword" is unknown |
| WinTypes.ParseTagSplit | winstruct/winstruct.go:249 | the type name holds no comma; with a comma, name + "," + option rebuild the tag; without one, the name is the whole tag and the option is empty |
| WinTypes.ParseTagOf | winstruct/winstruct.go:249 | a comma-free name joined to an option by a comma splits back into that name and that option |
| WinTypes.CatalogueNamesPlain | winstruct/winstruct.go:39-82 | no catalogue name contains a comma or is the skip mark |
| Meta.Wired | winstruct/winstruct.go:243-248 | the declarations getMeta does not skip, in order; its contract says there are never more of them than declarations |
| Meta.ResolveField | winstruct/winstruct.go:249-252 | definition: one declaration resolved, its tag's name looked up in the catalogue and its field name and option kept; Meta.ResolveFieldError states its only failure |
| Meta.MetaOf | winstruct/winstruct.go:238-256 | definition: the result of getMeta; Meta.MetaOfSuccess, Meta.MetaOfSucceeds and Meta.MetaOfFailure state it |
| Meta.GetMeta | winstruct/winstruct.go:238-256 | the loop computes MetaOf: skipped fields passed over, the others resolved in order, the first unknown type failing the whole |
| Meta.MetaPrefixStep | winstruct/winstruct.go:243-253 | one more declaration extends the metadata of the declarations before it by one step of the loop |
| Meta.MetaFailureSticks | winstruct/winstruct.go:250 | once a prefix of the declarations fails, the whole list fails with the same error |
| Meta.FieldsSizeAppend | winstruct/winstruct.go:251 | the width of two joined field lists is the sum of their widths |
| Meta.MetaOfSuccess | winstruct/winstruct.go:243-253 | on success the fields are the wired declarations in order, each resolved, and the size is the sum of their widths |
| Meta.MetaWithSuccess | winstruct/winstruct.go:243-253 | the same for any resolution of a declaration |
| Meta.MetaOfSucceeds | winstruct/winstruct.go:249-250 | getMeta succeeds if and only if every wired declaration resolves |
| Meta.FirstUnresolvedIsFirst | winstruct/winstruct.go:243-250 | every declaration before the first unresolved one resolves, and that one does not |
| Meta.MetaOfFailure | winstruct/winstruct.go:243-250 | a failing getMeta reports the error of the first wired declaration that does not resolve |
| Meta.ResolveFieldError | winstruct/winstruct.go:249-250 | a field fails to resolve only with UnknownWireType of the type name its tag split gives |
| Meta.MetaOfErrorUnknown | winstruct/winstruct.go:238-256 | getMeta fails only with UnknownWireType |
| Meta.MetaOnlyWired | winstruct/winstruct.go:246-248 | skipped declarations play no part: the metadata is that of the wired declarations alone |
| Meta.MetaWithOnlyWired | winstruct/winstruct.go:246-248 | the same for any resolution |
| Meta.SkippedPlacementIrrelevant | winstruct/winstruct.go:246-251 | two record types with the same wired declarations have the same metadata, wherever their skipped fields are placed |
| Meta.WiredAppend | winstruct/winstruct.go:246-248 | the wired declarations of two joined lists are the two lists' wired declarations joined |
| Meta.MetaAppend | winstruct/winstruct.go:251-252 | the metadata of two joined declaration lists has the sum of their sizes and the concatenation of their fields |
| Meta.MetaJoin | winstruct/winstruct.go:251-252 | the same, with both metadata given |
| Meta.MetaWithAppend | winstruct/winstruct.go:251-252 | the same for any resolution |
| Meta.MetaOfResolved | winstruct/winstruct.go:249-253 | wired declarations that resolve to given fields give those fields and the sum of their widths |
| Meta.WiredNoSkips | winstruct/winstruct.go:246-248 | without skipped declarations every declaration is on the wire |
| Meta.OffsetsFrom | winstruct/winstruct.go:251 | offsets given as a running sum of widths are the fields' offsets, and the last is the total size |
| Values.ZeroValue | main.go:403 | the zero value of a Go type has that type |
| Values.SetProperty | winstruct/winstruct.go:106-153 | definition: a reflect Set on a property, which stores the value when the property exists with that kind and fails with BadProperty otherwise; Values.SetPropertyEffect states it |
| Values.SetPropertyEffect | winstruct/winstruct.go:107 | a successful reflective write sets the one property, keeps its Go type and leaves every other property as it was |
| Values.ZeroValuesConform | main.go:403 | the zero record of a type has exactly its declared fields, each holding the zero value of its Go type |
| Values.ZeroValuesAt | main.go:451 | the zero record holds, under each declared name, the zero value of that field's type |
| Values.SameShapeConforms | winstruct/winstruct.go:315-318 | a record with the same fields and types as an instance of a type is itself one |
| Values.WiredDistinct | winstruct/winstruct.go:246-252 | the wired declarations are declarations of the type, and keep the names distinct |
| Values.Record.constructor | main.go:403 | a new record of a type holds the initial values it is given |
| Values.Record.Set | winstruct/winstruct.go:107 | a reflective Set on the record: on success the record's values are the written ones, and on a panic they are unchanged |
| NativeMemory.WideStringAt | winstruct/winstruct.go:167-174 | definition: the scan for the zero unit from a non-null address, faulting past memory; NativeMemory.WideStringAtSpec states its result |
| NativeMemory.WideStringAtSpec | winstruct/winstruct.go:162-175 | the string read succeeds if and only if a zero unit follows the pointer in memory; it is then the units before the first zero unit, none of them zero |
| NativeMemory.WideStringFound | winstruct/winstruct.go:167-173 | the scan finds a terminator if and only if one exists in memory |
| NativeMemory.WideStringShape | winstruct/winstruct.go:167-174 | a successful scan returns the non-zero units up to the first zero unit |
| NativeMemory.WideStringAtFault | winstruct/winstruct.go:169 | the scan fails only on a memory fault at the first unit past the end of memory |
| NativeMemory.Utf16PtrToString | winstruct/winstruct.go:162-175 | the counting loop: a null pointer gives the empty string; any other pointer gives the units up to the first zero unit |
| NativeMemory.BytesAt | winstruct/winstruct.go:213-220 | n bytes from address p: exactly mem[p..p+n] when they are in memory, and otherwise a fault at the first address outside |
| NativeMemory.CopyBytes | winstruct/winstruct.go:213-220 | the byte-copy loop from ptr up to end reads exactly the bytes of that range, or nothing when end <= ptr |
| Decoding.DecodeField | winstruct/winstruct.go:106-222 | definition: the FromBytes primitive of a field; Decoding.DecodeUnsignedField, Decoding.DecodeDoubleField, Decoding.DecodeWideStringField and Decoding.DecodeBytePointerField state it kind by kind |
| Decoding.DecodeFields | winstruct/winstruct.go:308-319 | definition: the field loop of Unmarshal, stopping at the first panic; Decoding.DecodeFieldsPrefix and Decoding.DecodeFieldsFrame state what it reads and changes |
| Decoding.Unmarshaled | winstruct/winstruct.go:300-320 | definition: Unmarshal as a function of the record type, the input, the memory and the record's values; Decoding.UnmarshaledTooSmall and Decoding.UnmarshaledConsumesSize state it |
| Decoding.IsAtoiLiteral | winstruct/winstruct.go:188-190 | definition: the options strconv.Atoi accepts, an optional sign and at least one decimal digit within the 64-bit int range |
| Decoding.CopyLength | winstruct/winstruct.go:215-218 | definition: how many addresses the copy loop visits, with ptr + size taken modulo 2^64; Decoding.CopyLengthNoWrap and Decoding.CopyLengthBound state it |
| Decoding.ReadWidth | winstruct/winstruct.go:106-147 | the primitive of a catalogue type reads exactly the type's width |
| Decoding.AsGoInt | winstruct/winstruct.go:203 | int(u) of a uint64 is the signed number with the same 64 bits |
| Decoding.LengthField | winstruct/winstruct.go:193-206 | the length field is found if and only if the option names an integer property; a missing field panics with FieldNotFound and a non-integer one with NotAnInteger; the length is that property's value |
| Decoding.CopyLengthNoWrap | winstruct/winstruct.go:215-218 | when ptr + size does not wrap, the copy loop visits exactly size addresses |
| Decoding.CopyLengthBound | winstruct/winstruct.go:215-218 | the loop never visits past 2^64, and visits nothing for a non-positive size that does not wrap |
| Decoding.MetaFieldsWellSized | winstruct/winstruct.go:250-252 | the wire fields of any record type have catalogue widths |
| Decoding.MetaFieldsFit | winstruct/winstruct.go:250-252 | the same, and the record size is the sum of those widths |
| Decoding.DecodeFieldPrefix | winstruct/winstruct.go:106-222 | one field's decoder consumes exactly its width, and its outcome does not depend on the bytes after it |
| Decoding.DecodeFieldsPrefix | winstruct/winstruct.go:308-319 | the field loop consumes exactly the sum of the widths, and what follows the block does not matter |
| Decoding.UnmarshaledTooSmall | winstruct/winstruct.go:304-306 | Unmarshal fails with BufferTooSmall if and only if the record type resolves and the buffer is shorter than its size |
| Decoding.DecodeFieldNeverTooSmall | winstruct/winstruct.go:106-222 | no field decoder reports a short buffer |
| Decoding.DecodeFieldsNeverTooSmall | winstruct/winstruct.go:308-319 | the field loop never reports a short buffer |
| Decoding.UnmarshaledConsumesSize | winstruct/winstruct.go:300-320 | a successful Unmarshal consumes exactly the record size and leaves the rest unread |
| Decoding.UnmarshaledPrefix | winstruct/winstruct.go:300-320 | Unmarshal of a block followed by anything decodes the block alone and leaves what follows |
| Decoding.DecodeFieldFrame | winstruct/winstruct.go:315-318 | a field decoder changes no property but its own and keeps every property's Go type |
| Decoding.DecodeFieldsFrame | winstruct/winstruct.go:308-319 | the field loop keeps the record's shape and leaves every property no wire field names unchanged |
| Decoding.DecodeUnsignedField | winstruct/winstruct.go:106-128 | an unsigned field decodes if and only if its property is unsigned; it then takes the little-endian value of its width's bytes and consumes them |
| Decoding.DecodeDoubleField | winstruct/winstruct.go:136-138 | a double field succeeds if and only if its property is a float; it then stores the 64-bit pattern of its eight bytes, changes no other property and leaves exactly the bytes after them |
| Decoding.DecodeWideStringField | winstruct/winstruct.go:146-153 | an LPWSTR field consumes 8 bytes; a null pointer leaves the property unchanged; a non-null one succeeds if and only if the property is a string and a terminator follows, and stores the units before it |
| Decoding.DecodeBytePointerField | winstruct/winstruct.go:177-211 | an LPBYTE field consumes 8 bytes; a null pointer or a literal option leaves the record unchanged; a missing length field panics with FieldNotFound and a non-integer one with NotAnInteger; a zero length leaves the record unchanged |
| Decoding.DecodeBytePointerCopy | winstruct/winstruct.go:213-220 | with a positive length, the field holds exactly the length bytes at the pointer, or the read faults at the first address outside memory |
| Decoding.DecodeFieldsAppend | winstruct/winstruct.go:308-319 | decoding two runs of fields is decoding the first, then the second from where it stopped |
| Decoding.DecodeFieldsSlot | winstruct/winstruct.go:308-319 | field i of a successful decode read its word at its offset, starting from the value its property had before the loop |
| Decoding.SlotBefore | winstruct/winstruct.go:308-319 | the fields before slot i stop at the slot's offset and leave its property unchanged |
| Decoding.SlotAfter | winstruct/winstruct.go:308-319 | the fields after slot i leave its property unchanged |
| Decoding.DecodeFieldsUnsignedAt | winstruct/winstruct.go:308-319 | an unsigned field of a successful decode holds the little-endian value of the bytes at its offset |
| Decoding.DecodeFieldsWideStringAt | winstruct/winstruct.go:308-319 | an LPWSTR field of a successful decode keeps its value for a null pointer, and otherwise holds the string at the pointer read at its offset |
| Decoding.DecodeFieldsDoubleAt | winstruct/winstruct.go:308-319 | a double field of a successful decode holds the bit pattern of the eight bytes at its offset |
| Decoding.UnsignedAtOffset | winstruct/winstruct.go:106-128 | an unsigned field read at offset o holds the little-endian value of the bytes from o |
| Decoding.WideStringAtOffset | winstruct/winstruct.go:146-153 | an LPWSTR field read at offset o takes its pointer from the 8 bytes at o |
| Decoding.DoubleAtOffset | winstruct/winstruct.go:136-138 | a double field read at offset o holds the bit pattern of the eight bytes at o |
| Decoding.UnmarshaledUnsignedAt | winstruct/winstruct.go:300-320 | after Unmarshal, each unsigned field holds the little-endian value of the bytes at its offset in the block |
| Decoding.UnmarshaledWideStringAt | winstruct/winstruct.go:300-320 | after Unmarshal, each LPWSTR field keeps its value for a null pointer and otherwise holds the string at its pointer |
| Decoding.UnmarshaledDoubleAt | winstruct/winstruct.go:300-320 | after Unmarshal, each double field holds the bit pattern of the eight bytes at its offset |
| Decoding.UnmarshaledKeeps | winstruct/winstruct.go:308-319 | a property that no wire field names, such as one tagged "-", keeps its value through Unmarshal |
| Decoding.UnmarshaledShape | winstruct/winstruct.go:300-320 | Unmarshal keeps the record an instance of its type |
| Encoding.EncodeField | winstruct/winstruct.go:110-226 | definition: the ToBytes primitive of a field; Encoding.EncodeFieldOutcome and Encoding.EncodeFieldSpec state it |
| Encoding.EncodeFields | winstruct/winstruct.go:284-295 | definition: the field loop of Marshal, stopping at the first panic; Encoding.EncodeFieldsSpec states it |
| Encoding.Marshaled | winstruct/winstruct.go:278-298 | definition: Marshal as a function of the record type and the record's values; Encoding.MarshaledLength and Encoding.MarshaledOutcome state it |
| Encoding.ZeroWord | winstruct/winstruct.go:155-158 | the pointer encoders' uintToBytes(0, 8) is eight zero bytes |
| Encoding.EncodeFieldOutcome | winstruct/winstruct.go:110-144 | a field encodes if and only if its property holds a value its primitive reads, and otherwise panics with BadProperty |
| Encoding.EncodeFieldSpec | winstruct/winstruct.go:110-158 | one field's bytes: its width; an unsigned value modulo 2^(8 * width); a double's bit pattern; eight zero bytes for a pointer, whatever its value |
| Encoding.EncodeUnsignedValue | winstruct/winstruct.go:110-134 | an unsigned field's bytes read back as its value modulo 2^(8 * width) |
| Encoding.EncodeDoubleValue | winstruct/winstruct.go:140-144 | a double's bytes read back as its 64-bit pattern |
| Encoding.EncodeFieldWidth | winstruct/winstruct.go:110-158 | a field writes exactly the width its decoder reads |
| Encoding.WidthsOfWellSized | winstruct/winstruct.go:39-82 | for catalogue types, the bytes written add up to the record size |
| Encoding.EncodeFieldsSpec | winstruct/winstruct.go:284-295 | the write loop succeeds if and only if every field encodes; otherwise it panics at the first field that does not; the output is as long as the sum of the widths |
| Encoding.EncodeFieldsOutcome | winstruct/winstruct.go:284-295 | the success and failure half of the same |
| Encoding.EncodeFieldsLength | winstruct/winstruct.go:284-295 | the length half of the same |
| Encoding.EncodeFieldsSlot | winstruct/winstruct.go:284-295 | field k's bytes sit at the sum of the widths before it |
| Encoding.MarshaledLength | winstruct/winstruct.go:278-298 | Marshal's output is exactly the record size long |
| Encoding.MarshaledOutcome | winstruct/winstruct.go:278-298 | Marshal fails on an unknown wire type with getMeta's error; otherwise it succeeds if and only if every wire field encodes |
| Encoding.MarshaledPointerSlots | winstruct/winstruct.go:278-298 | every LPWSTR and LPBYTE slot of the output is eight zero bytes |
| Encoding.MarshaledScalarSlots | winstruct/winstruct.go:278-298 | every unsigned slot holds its field modulo 2^(8 * width), and every double slot holds its bit pattern |
| Encoding.EncodeFieldsScalarAt | winstruct/winstruct.go:284-295 | the same for a list of catalogue fields |
| Encoding.EncodeFieldsOnlyScalars | winstruct/winstruct.go:284-295 | records that agree on their scalar fields encode alike |
| Encoding.MarshaledIgnoresPointerValue | winstruct/winstruct.go:155-158 | changing a pointer field's value does not change Marshal's output |
| Encoding.EncodeFieldsSnoc | winstruct/winstruct.go:294 | one more encodable field appends its bytes |
| Encoding.EncodeFieldsStopsAt | winstruct/winstruct.go:284-295 | the first field that does not encode ends the loop with its error |
| RoundTrip.DecodeEncodedField | winstruct/winstruct.go:106-158 | a field's bytes decode into a record of the same type: that field restored (modulo width, bit pattern, or unchanged for a pointer) and everything else kept |
| RoundTrip.DecodeEncodedFields | winstruct/winstruct.go:278-320 | decoding the encoding of a record's fields restores each field, keeps the others, and leaves the tail |
| RoundTrip.MetaFieldNames | winstruct/winstruct.go:252 | the wire fields carry declared names, and distinct declared names stay distinct |
| RoundTrip.UnmarshalMarshaled | winstruct/winstruct.go:278-320 | Unmarshal after Marshal restores every wire field of the record, keeps every other property, and consumes exactly Marshal's output |
| RoundTrip.FullWidthRestored | winstruct/winstruct.go:126-144 | an 8-byte scalar field survives the round trip unchanged |
| RoundTrip.EncodeDecodedFields | winstruct/winstruct.go:278-320 | encoding what a block decodes to gives the block back, with each pointer slot zeroed |
| RoundTrip.MarshalUnmarshaled | winstruct/winstruct.go:278-320 | Marshal after Unmarshal gives the block with its pointer slots zeroed |
| RoundTrip.MarshalUnmarshaledScalars | winstruct/winstruct.go:278-320 | for a record type without pointers, Marshal after Unmarshal gives the block back unchanged |
| WinStruct.FieldToBytes | winstruct/winstruct.go:110-158 | the ToBytes primitives compute EncodeField |
| WinStruct.Marshal | winstruct/winstruct.go:278-298 | the buffer Marshal returns holds exactly Marshaled, and its panics are Marshaled's failures |
| WinStruct.BytesToStringFromPointer | winstruct/winstruct.go:146-153 | the LPWSTR decoder advances the buffer and updates the record as DecodeField says, and changes nothing on a panic |
| WinStruct.ByteArrayPointerFromBytes | winstruct/winstruct.go:177-222 | the LPBYTE decoder, including its copy loop, does the same |
| WinStruct.FieldFromBytes | winstruct/winstruct.go:106-137 | each FromBytes primitive does the same |
| WinStruct.Unmarshal | winstruct/winstruct.go:300-320 | advances the buffer and updates the record as Unmarshaled says; a short buffer panics before anything is read or set |
| WinStruct.FieldsFromBytes | winstruct/winstruct.go:308-319 | the field loop advances the buffer and updates the record as DecodeFields says |
| WinStruct.Size | winstruct/winstruct.go:326-331 | Size succeeds exactly when getMeta does |
| WinStruct.NewByteBuffer | winstruct/winstruct.go:322-324 | a fresh buffer of Size zero bytes, or getMeta's panic |
| WinStruct.SizeAdditive | winstruct/winstruct.go:326-331 | the sizes of two declaration lists add up when the lists are joined |
| WinStruct.SizeIsMarshaledLength | winstruct/winstruct.go:326-331 | Size is the length of what Marshal writes |
| WinStruct.SizeOfWired | winstruct/winstruct.go:326-331 | Size is the sum of the wire fields' widths, whatever the skipped fields are |
| WinStruct.LeBytesOfZero | winstruct/winstruct.go:95-104 | zero is written as zero bytes |
| WinStruct.EncodeZeroScalars | winstruct/winstruct.go:284-295 | fields that all hold zero encode as zero bytes |
| WinStruct.NewBufferIsMarshaledZero | winstruct/winstruct.go:322-324 | NewByteBuffer's buffer is what Marshal writes for the zero record of a type whose scalar tags match its Go types |
| WinStruct.MetaZeroScalars | winstruct/winstruct.go:238-256 | in the zero record of such a type, every scalar wire field holds zero |
| WinStruct.ZeroSlotOf | main.go:403 | a declared field whose Go type matches its wire type holds zero in the zero record |
| Names.CropModeAsString | main.go:257-268 | definition: the crop mode names; Names.CropModeNames states them |
| Names.TypeIdToString | main.go:270-319 | definition: the type code names; Names.TypeIdRoundTrip and Names.TypeIdToStringInjective state that a code is recovered from its name |
| Names.CropModeNames | main.go:257-268 | 0, 1 and 2 are "none", "auto" and "user", each if and only if; every other mode is "unknown" |
| Names.Hex04 | main.go:317 | the %04x form has at least four digits |
| Names.ParseHexOfHex | main.go:317 | the hexadecimal digits of n read back as n |
| Names.ParseHex04 | main.go:317 | the zero-padded four-digit form reads back as n |
| Names.UnknownTypeIds | main.go:316-317 | a code without a name of its own is "Unknown format x" followed by its %04x digits, which read back as the code |
| Names.ScalarTypeIdsRoundTrip | main.go:272-293 | the names of 0 to 9, 0x10 and 0xffff lead back to their codes |
| Names.ArrayTypeIdsRoundTrip | main.go:294-313 | the names of 0xa001 to 0xa009 and 0xa010 lead back to their codes |
| Names.TypeIdRoundTrip | main.go:270-319 | every code is recovered from its name |
| Names.TypeIdToStringInjective | main.go:270-319 | no two codes share a name |
| Names.ArrayTypeNames | main.go:294-313 | the array form of each scalar code is named after it with "[]" added |
| Layouts.TagResolves | winstruct/winstruct.go:249-252 | a declaration carrying a catalogue type's tag resolves to that field and is not skipped |
| Layouts.RunFieldsSize | winstruct/winstruct.go:251 | n fields of one type take n widths, field i sitting at i widths |
| Layouts.RunLayout | winstruct/winstruct.go:243-253 | a run of fields with one catalogue tag resolves field by field to that type |
| Layouts.RunWith | winstruct/winstruct.go:243-253 | the same for any resolution |
| Layouts.SkipRun | winstruct/winstruct.go:246-248 | a run of skipped fields puts nothing on the wire |
| Layouts.DeviceLayout | main.go:45-50 | the device record is four 8-byte string pointers, 32 bytes |
| Layouts.DeviceNamesDistinct | main.go:45-50 | its field names are distinct |
| Layouts.DeviceInfoLayout | main.go:83-105 | the deviceInfo record is 128 bytes, its fields its eight DWORDs, five doubles, two DWORDs and six string pointers |
| Layouts.DeviceInfoOffsets | main.go:84-104 | each deviceInfo field sits at the offset in its comment: DWORDs from 0, doubles from 32, BitsPerPixel at 72, its pad at 76, strings from 80 |
| Layouts.DeviceInfoNamesDistinct | main.go:83-105 | its field names are distinct |
| Layouts.CameraLayout | main.go:110-123 | the camera record is 56 bytes |
| Layouts.CameraOffsets | main.go:111-122 | its ten DWORDs sit from 0 and its doubles at 40 and 48 |
| Layouts.CameraNamesDistinct | main.go:110-123 | its field names are distinct |
| Layouts.PropertyValueOptionLayout | main.go:126-130 | the option record is 16 bytes |
| Layouts.PropertyValueOptionOffsets | main.go:126-130 | its pad sits at 4 and its name pointer at 8 |
| Layouts.PropertyValueOptionNamesDistinct | main.go:126-130 | its field names are distinct |
| Layouts.PropertyValueOptionContents | main.go:126-130 | an option block's first four bytes are the value; the name is the string at the pointer at 8, or unchanged for a null pointer |
| Layouts.PropertyValueLayout | main.go:133-137 | the property value record is 16 bytes |
| Layouts.PropertyValueOffsets | main.go:133-137 | its value sits at 4 and its text pointer at 8 |
| Layouts.PropertyValueNamesDistinct | main.go:133-137 | its field names are distinct |
| Layouts.PropertyValueContents | main.go:133-137 | a property value block holds the id in bytes 0-3 and the value in bytes 4-7; its text is the string at the pointer at 8, or unchanged for a null pointer |
| Layouts.PropertyDescriptorLayout | main.go:139-147 | Type and Values are off the wire, and the descriptor record is 4+2+2+8+4 = 20 bytes |
| Layouts.PropertyDescriptorOffsets | main.go:139-147 | TypeId at 4, Flags at 6, the name pointer at 8, ValueCount at 16 |
| Layouts.PropertyDescriptorNamesDistinct | main.go:139-147 | its field names are distinct |
| Layouts.PropertyDescriptorSlots | main.go:139-147 | its five wire fields and their types, slot by slot |
| Layouts.PropertyDescriptorContents | main.go:139-147 | a descriptor block holds the id, type code, flags and value count at their offsets |
| Layouts.PropertyDescriptorName | main.go:139-147 | the descriptor's name is the string at the pointer at 8, or unchanged for a null pointer; Type and Values are untouched |
| Layouts.ImageInfoLayout | main.go:149-162 | the imageInfo record is 56 bytes |
| Layouts.ImageInfoOffsets | main.go:149-162 | the data pointer is at 8, the six DWORDs from 16, the metadata pointer at 40 and the duration at 48 |
| Layouts.ImageInfoNamesDistinct | main.go:149-162 | its field names are distinct |
| Layouts.ImageLengthOptionsNamed | main.go:152 | neither "Size" nor "MetaSize" parses as a decimal integer, so the byte pointers take their lengths from fields and not from literals |
| Layouts.ImageInfoSplit | main.go:149-162 | the image fields are Size, its pad and Data, followed by fields that name neither Size nor Data |
| Layouts.ImageInfoData | main.go:150-152 | unmarshalling an image block with a non-null data pointer and a non-zero size copies exactly Size bytes from the pointer into Data |
| Layouts.ImageInfoMeta | main.go:159-160 | unmarshalling an image block with a non-null metadata pointer and a non-zero MetaSize copies exactly MetaSize bytes from the pointer into Meta; MetaSize is read from bytes 36 to 39 and the pointer from bytes 40 to 47 |
| Layouts.ImageLeadingFields | main.go:150-152 | a DWORD length, its pad and a byte pointer measured by it, followed by other fields: the pointer's bytes are exactly the length's worth |
| Layouts.LengthMeasuredPointer | winstruct/winstruct.go:193-220 | the same for the three fields alone |
| Layouts.PointerWithLength | winstruct/winstruct.go:193-220 | a byte pointer whose named length field holds len > 0 copies exactly len bytes and leaves the length field unchanged |
| PropertyLists.PropertyIdAt | main.go:399-400 | definition: id i assembled from bytes 4i to 4i + 3 by shifts and adds; PropertyLists.PropertyIdIsLittleEndian states its value |
| PropertyLists.DecodeSequence | main.go:448-455 | definition: count records unmarshalled one after another from one buffer; PropertyLists.DecodeSequenceBlocks states it |
| PropertyLists.OptionsOf | main.go:410-420 | definition: the options of a property read into one reused record; PropertyLists.OptionAt and PropertyLists.OptionsRead state them |
| PropertyLists.Describe | main.go:402-420 | definition: the descriptor of one id, with its type name and options; PropertyLists.DescribeContents states it |
| PropertyLists.DescribeFrom | main.go:398-423 | definition: the descriptors of the ids from i on; PropertyLists.DescribeFromValues states it |
| PropertyLists.PropertyDescriptors | main.go:385-427 | definition: the result of the descriptors handler; PropertyLists.PropertyDescriptorsRead states it |
| PropertyLists.PropertyIdIsLittleEndian | main.go:398-400 | the id at index i is the little-endian value of bytes 4i to 4i+3, which equals bytesToUint over those four bytes and is below 2^32 |
| PropertyLists.PropertyIdOf | main.go:399-400 | the shift-and-add expression computes that id |
| PropertyLists.Overlay | main.go:396 | the buffer the driver writes into keeps its length and holds the driver's bytes where it wrote them |
| PropertyLists.DriverBlock | main.go:404-406 | the NewByteBuffer buffer of a record type after the driver writes it is Size bytes long, or getMeta's panic |
| PropertyLists.RecordStepReadsBlock | winstruct/winstruct.go:300-320 | decoding one record reads exactly its size and fails on less |
| PropertyLists.WalkStep | main.go:450-455 | one pass of the loop: the first record, then the rest from where it stopped |
| PropertyLists.UnmarshalEach | main.go:450-455 | the loop of count Unmarshal calls on one shared buffer computes DecodeSequence |
| PropertyLists.WalkBlocks | main.go:450-455 | over a buffer of count blocks, the walk succeeds if and only if every block decodes on its own, and record k is block k decoded |
| PropertyLists.WalkOverrun | main.go:450-455 | over a buffer shorter than count blocks, the walk fails |
| PropertyLists.DecodeSequenceBlocks | main.go:442-455 | a buffer of Size * count bytes decodes into exactly count records, record k being block k decoded into a fresh record |
| PropertyLists.DecodeSequenceOverrun | main.go:442-455 | reading more records than the buffer holds fails |
| PropertyLists.GetCameraProperties | main.go:429-458 | the property values handler: no properties panics; otherwise count records are read from the buffer the driver filled |
| PropertyLists.PropertyValuesRead | main.go:435-455 | the handler's result: a count beyond the buffer fails; otherwise it succeeds if and only if every block decodes, with the id and value of record k from bytes 16k to 16k+7 |
| PropertyLists.ZeroPropertyValue | main.go:451 | a fresh property value record has every field, its text empty |
| PropertyLists.PropertyValueBlock | main.go:453 | record k's id and value come from its own block |
| PropertyLists.ReadOptions | main.go:410-420 | the option loop computes OptionsOf, starting from a zero option record |
| PropertyLists.ReadOptionsInto | main.go:413-419 | the loop over one shared option record computes the chain of reads from that record's value before the loop |
| PropertyLists.ChainValues | main.go:413-419 | a successful chain of reads holds one value per index, each what its read made from the value before it |
| PropertyLists.ZeroOption | main.go:411 | a fresh option record has every field, its name empty |
| PropertyLists.OptionReadContents | main.go:414-417 | one option read takes its value from the first four bytes of its block; its name is the string at its pointer, or carried over for a null pointer |
| PropertyLists.OptionKeys | main.go:411-418 | every option of a successful read keeps the option record's fields |
| PropertyLists.OptionAt | main.go:413-419 | option k is described by its own block; with a null name pointer it repeats the name of option k - 1, or is empty for the first |
| PropertyLists.OptionsRead | main.go:410-420 | a successful option read has n options, each described by its own block |
| PropertyLists.ReadDescriptor | main.go:399-422 | the loop body for one id computes Describe |
| PropertyLists.ReadDescriptorAs | main.go:402-422 | the same, through a descriptor function that agrees with Describe |
| PropertyLists.ZeroDescriptor | main.go:403 | a fresh descriptor record has every field, its name empty |
| PropertyLists.DescriptorRecord | main.go:403-406 | the descriptor record read from its block holds the id, type code, flags and value count at their offsets and the name at its pointer |
| PropertyLists.DescribeContents | main.go:399-422 | a descriptor: id, flags and name from its block, type name from its type code, and exactly ValueCount options, each from its own block |
| PropertyLists.DescribeAll | main.go:398-423 | the loop over the id buffer computes DescribeFrom |
| PropertyLists.DescribeFromStep | main.go:398-423 | one pass of the loop: the descriptor of id i, then the rest |
| PropertyLists.DescribeFromOverrun | main.go:399-400 | reading an id past the end of the id buffer panics with an index out of range |
| PropertyLists.DescribeFromValues | main.go:398-423 | the walk succeeds if and only if the buffer holds the ids and every id's descriptor succeeds; descriptor k is that of id k |
| PropertyLists.DescribeIds | main.go:394-423 | over the driver's id buffer of sized ids: success if and only if count <= sized and every descriptor succeeds, descriptor k being that of the little-endian id at 4k |
| PropertyLists.GetCameraPropertyDescriptors | main.go:385-427 | the descriptors handler computes PropertyDescriptors |
| PropertyLists.PropertyDescriptorsRead | main.go:385-427 | without a retry answer the list is empty; a retry with no ids panics slicing the empty buffer; otherwise descriptors as in DescribeIds |

## Behaviour of the code worth knowing

The model follows the code in each of these cases:

- A field that is not tagged `-` but has no `windows` tag is not skipped. Its empty tag is looked up as a type name, and `getWinType` panics (winstruct/winstruct.go:245-250). `WinTypes.EmptyNameUnknown` states this.
- An `LPBYTE` field whose option is a decimal literal is not read with that count. The whole read sits in the branch where the option fails to parse as an integer (winstruct/winstruct.go:188-221), so with a literal the property is left unchanged. `Decoding.DecodeBytePointerField` states this.
- A null pointer, or a named length of zero, leaves the byte property as it was; it does not become an empty buffer.
- The errors are named after what panics in the code:
  - A property that is absent or of another kind is `BadProperty`.
  - A length option that names no field is `FieldNotFound`.
  - A length option that names a non-integer field is `NotAnInteger`.
- The descriptors handler reuses one option record for all of a property's options (main.go:411-419). An option whose name pointer is null therefore carries the previous option's name.
- A retry answer that reports zero ids hands an empty slice to `getPointerToSlice`. Slicing it to `[:1]` panics (main.go:394-396, 249).

## Left out

- HTTP routing, CORS, COM initialisation, JSON output and the handlers other than the two property handlers: `getDevices`, `getDeviceInfo`, `openCamera`, `closeCamera` and `getPreviewImage` are I/O plumbing. The record types they use are modelled in `Layouts`.
- Calls into the camera DLL are parameters:
  - the counts the driver reports;
  - the bytes it writes into a buffer (`written`, `descriptorData`, `optionData`);
  - whether it asks for a retry.

  The return code of the other calls is ignored by the code and not modelled.
- Reflection (`getReflectionData`, `FieldByName`, `CanInt`/`CanUint`) is replaced by explicit declaration lists and a map from field name to value. The `log.Fatal` on a non-struct argument is not modelled.
- `parseTag` is not part of this model's source. It is modelled as a split of the tag at its first comma.
- `syscall.UTF16ToString` is not modelled. Strings are kept as the UTF-16 code units read from memory.
- Floating point is not modelled. A `double` is carried as its 64-bit pattern, which is what `math.Float64bits` and `Float64frombits` exchange.
- Native memory is a finite byte sequence. A read outside it is a `MemoryFault` failure, where the program would crash or read unrelated memory.
- The Go storage width of a record field (`uint32` against `uint`) is not modelled. Every unsigned value is a 64-bit number, so storing a wide value into a narrow field does not truncate.
- `PropertyLists.Descriptor` holds the type name and the options beside the decoded record, rather than inside it. The JSON difference between a nil and an empty option list is not modelled.
- WinStruct.Unmarshal: after a panic in a field primitive, the contract does not say how far the buffer was read or which fields were already set. In the program that panic ends the request, so that state is never observed.
- WinStruct.FieldsFromBytes: after a panic, it leaves the buffer and the record unstated, for the same reason.
- WinStruct.Marshal: after a panic, the returned buffer is unstated. The program returns no buffer then.
- Decoding.DecodeBytePointerCopy: stated only for a copy whose end address does not wrap past 2^64. The wrapping case, where the loop copies fewer bytes, is covered by `Decoding.CopyLengthBound`.
- Layouts.ImageInfoData: stated only for a copy that does not wrap and for a non-zero length. The other cases are those of `Decoding.DecodeBytePointerField`.
- Layouts.ImageInfoMeta: stated only for a copy that does not wrap and for a non-zero length, as for ImageInfoData.
