# stob byte codec, modelled in Dafny

`stob` is a Go package that turns the fields of a Go struct into bytes and back.
The field types and their `stob:"length,endian"` tags decide the layout. This project
models the byte-level core of that package and proves properties of the model.

- **Integers.** `Itob` writes an `int64` into a byte window of any length, big- or
  little-endian. An unknown byte order leaves the window alone. `Btoi` reads a window
  back by OR-ing each byte into place. It has no sign extension, and a shift of 64 or
  more bits gives 0. So in little-endian only the first eight bytes of a window
  count, and in big-endian only the last eight.
- **Strings.** `putString` writes a string either NUL-terminated (length 0) or
  zero-padded to a fixed length. When the fixed length is too short, only a prefix is
  written. `Btos` reads up to the first NUL and always reports `len + 1` bytes used,
  even when no NUL was found.
- **Buffer codec.** `(*Struct).Read(p)` *encodes* the struct into `p`, one field after
  another. `(*Struct).Write(p)` *decodes* `p` into the struct. Each field is
  bounds-checked first with the test `f.l + n >= len(p)`, which stops on a field that
  would end exactly at the buffer's end. This test is based on the tag length, so it
  does not cover fields whose width comes from their contents, such as a
  NUL-terminated string. The model therefore keeps Go's out-of-range panics as
  preconditions (`ReadSafe`, and a decoder result that is `Some`).
- **Stream codec.** The package-level `Write(w, v)` and `Read(r, v)` carry the same
  field types over an `io.Writer` or `io.Reader`, using `encoding/binary`, `readTag`,
  `getBytes`, `readInt` and `readString`. The model draws both streams from a byte
  sequence in memory.

The model has these modules:

| module | contents |
|---|---|
| `Wire` | bytes, the 64-bit ranges, and patches (writes that may leave a byte untouched) |
| `ByteOrder` | `Itob` and `Btoi` |
| `Strings` | `putString` and `Btos` |
| `Schema` | field kinds; a closed datatype stands in for reflection |
| `Encode` | the per-field encoders |
| `Decode` | the per-field decoders |
| `Stob` | the class `Struct` and its two traversals |
| `RoundTrip` | decode-after-encode for the buffer codec |
| `Scenarios` | worked layouts |
| `Tag` | `readTag` |
| `Stream` | the stream `Write` and `Read` |
| `StreamLaws` | their round trip and their quirks |

A round trip holds only when several conditions are met:
- a field's value fits its width;
- a byte order is known;
- a string holds no NUL, and has exactly `l - 1` bytes when it is fixed;
- a byte slice has the length its tag declares, and a byte array at least that length.

The buffer decoder needs one more input: a *template*, a struct of the same shape as
the one encoded. The lemmas state these conditions as `Restorable` / `Restores` and
prove the round trip under them. A byte slice longer than its tag is cut to the tag:
`Recoverable` / `Recovered` say what the decoder then gives back, and the count and
status still agree. Other lemmas exhibit what happens outside these conditions.

One case worth noting: a fixed-length string read back from a window with no NUL reports `l + 1`
consumed bytes, not `l` (`Decode.FixedStringCount`).

## Model

| member | source | states |
|---|---|---|
| `ByteOrder.Itob` | stob-read.go:249-262 | the buffer afterwards is the old buffer with the window `[off, off+l)` replaced by the big- or little-endian bytes of `x`; with an unknown endian it is unchanged |
| `ByteOrder.ItobBig` | stob-read.go:253-256 | byte `i` of the window becomes `byte(x >> 8(l-i-1))`; nothing outside the window changes |
| `ByteOrder.ItobLittle` | stob-read.go:257-260 | byte `i` of the window becomes `byte(x >> 8i)`; nothing outside the window changes |
| `ByteOrder.ItobWindow` | stob-read.go:249-262 | after the write, the window reads exactly `BeBytes(x, l)` or `LeBytes(x, l)` |
| `ByteOrder.Btoi` | stob-write.go:223-237 | the loop returns `BtoiValue(p, e)`, the OR of every byte shifted into its lane and wrapped to `int64` |
| `ByteOrder.ShortSums` | stob-write.go:223-237 | for windows shorter than 8 bytes, `Btoi` is the plain base-256 value of the window read in the chosen order, so it is non-negative and below `256^len` |
| `ByteOrder.BtoiUnknownEndian` | stob-write.go:225-236 | an endian other than `"le"`/`"be"` reads as 0 |
| `ByteOrder.BtoiItob` | stob-read.go:249-262 | reading `Itob`'s bytes back gives `x` for windows of 8 bytes or more, and `x mod 256^l` otherwise (no sign extension) |
| `ByteOrder.BtoiItobUnsigned` | stob-read.go:145-148 | the `uint64` path (`int64(u)` in, `uint64(...)` out) returns `u`, truncated to `l` bytes when `l < 8` |
| `ByteOrder.ItobTestVectors` | stob_test.go:123-131 | 255 big-endian in 4 bytes ends in `0xff`; in little-endian it starts with `0xff` |
| `ByteOrder.FloatBitsRoundTrip` | stob_test.go:133-139 | the 64-bit pattern of 1.32 survives a big-endian `Itob`/`Btoi` round trip |
| `Strings.PutString` | stob-read.go:100-113 | returns the number of bytes written, and the buffer changes only in that window, which now holds `StringBytes(s, l)` |
| `Strings.PutStringVariable` | stob-read.go:101-103 | with length 0 the bytes are the string followed by one NUL |
| `Strings.PutStringFixed` | stob-read.go:104-106 | with length `l > 0`, exactly `l` bytes are written: the string's bytes, then zeros |
| `Strings.Btos` | stob-write.go:104-115 | returns the longest NUL-free prefix, which is followed by a NUL when it is shorter than the input, and reports its length plus one |
| `Strings.UntilZeroUnique` | stob-write.go:104-115 | any NUL-free prefix followed by a NUL, or covering the whole input, is that result |
| `Strings.BtosVariable` | stob-write.go:124-127 | `Btos` of a NUL-terminated encoding, followed by anything, gives back the string |
| `Strings.BtosFixed` | stob-write.go:118-121 | `Btos` of a fixed encoding gives the string cut to `l` bytes; the count equals `l` exactly when the string has `l - 1` bytes |
| `Encode.BoolByte` | stob-read.go:177-185 | the byte is 1 exactly for true and 0 exactly for false |
| `Encode.PutInt` | stob-read.go:129-132 | writes `Itob`'s bytes of the value into `l` bytes and returns `l` |
| `Encode.PutUint` | stob-read.go:145-148 | writes `Itob(int64(u))` into `l` bytes and returns `l` |
| `Encode.PutByte` | stob-read.go:161-164 | writes the single byte and returns 1 |
| `Encode.PutBool` | stob-read.go:177-185 | writes `0x01` or `0x00` and returns 1 |
| `Encode.PutBytes` | stob-read.go:166-172 | copies the first `l` elements and returns `l` |
| `Encode.PutSliceBool` | stob-read.go:187-199 | writes one 0/1 byte per element and returns the slice length |
| `Encode.PutSliceInt` | stob-read.go:134-140 | the elements are written back to back, `l` bytes each, and the count is the total |
| `Encode.PutSliceUint` | stob-read.go:150-156 | the same layout for unsigned elements, each cast to `int64` |
| `Encode.PutSliceStr` | stob-read.go:119-124 | each string is `putString`'s encoding, placed right after the previous one |
| `Encode.PutField` | stob-read.go:30-95 | the field's strategy writes its encoding `Enc(f)` at the offset, touches nothing else and returns its width |
| `Encode.PutStruct` | stob-read.go:241-247 | a nested struct writes its fields' encodings in order, with no bounds check, and returns their total width |
| `Encode.IntsLength` | stob-read.go:134-140 | an integer slice takes `len * l` bytes |
| `Encode.StrsLength` | stob-read.go:119-124 | with `l > 0`, a string slice takes `len * l` bytes |
| `Encode.IntsLayout` | stob-read.go:134-140 | element `i` sits at offset `i * l` |
| `Encode.StrsLayout` | stob-read.go:119-124 | string `i` sits right after the encodings of strings `0..i-1`, at `i * l` when `l > 0` |
| `Encode.EncWidth` | stob-read.go:129-199 | the width of each strategy: `l` for ints, uints and byte arrays, 1 for a byte or bool, string length + 1 or `l` for strings, `len * l` for number slices, `len` for bool slices |
| `Encode.FieldPlacement` | stob-read.go:10-26 | field `k`'s encoding occupies exactly `[Offset(k), Offset(k+1))` of the whole struct's encoding |
| `Decode.SetInt` | stob-write.go:133-136 | the field becomes `Btoi` of its `l`-byte window; the count is `l` |
| `Decode.SetUint` | stob-write.go:155-158 | the field becomes `uint64(Btoi(...))` of its window; the count is `l` |
| `Decode.SetByte` | stob-write.go:163-166 | the field becomes the first byte; the count is 1 |
| `Decode.SetSliceByte` | stob-write.go:168-171 | the slice becomes the `l`-byte window; the count is `l` |
| `Decode.SetArrayByte` | stob-write.go:173-178 | the first `l` array elements become the window and the rest keep their values; the count is `l` |
| `Decode.SetBool` | stob-write.go:183-188 | a non-zero byte sets true, a zero byte leaves the field as it was; the count is 1 |
| `Decode.SetString` | stob-write.go:117-128 | the string is `Btos` of the `l`-byte window, or of the rest of the buffer when `l == 0`; the count is its length + 1 |
| `Decode.SetField` | stob-write.go:30-99 | dispatches each kind to its setter and agrees with the decoder function `Dec` |
| `Decode.SetStruct` | stob-write.go:214-219 | decodes the nested fields in order, each from where the last stopped, and agrees with `DecSeq` |
| `Decode.FixedCount` | stob-write.go:133-178 | a fixed-width setter succeeds (does not panic) exactly when its window fits (and an array is long enough) and then reports its width |
| `Decode.WindowOnly` | stob-write.go:133-178 | a fixed-width setter sees only its `l`-byte window |
| `Decode.FirstByteOnly` | stob-write.go:163-188 | a byte or bool setter sees only the first byte and consumes 1 |
| `Decode.SetBoolNeverFalse` | stob-write.go:183-188 | the decoded bool is `byte != 0 || previous value`, so a true field never becomes false |
| `Decode.FixedStringCount` | stob-write.go:118-121 | a fixed string consumes at most `l + 1`; `l` exactly when the window's only NUL is its last byte; `l + 1` exactly when the window has no NUL |
| `Decode.VariableStringCount` | stob-write.go:124-127 | a variable string consumes at most the rest of the buffer + 1, with the maximum exactly when there is no NUL |
| `Decode.DecKeepsShape` | stob-write.go:30-99 | decoding changes values only: kinds, lengths, byte orders and nesting are preserved |
| `Decode.DecSeqKeepsShape` | stob-write.go:214-219 | the same for a field list; the position never moves backwards |
| `Decode.DecWritable` | stob-write.go:30-99 | a field the decoder accepts has a kind `setWriter` binds a strategy for, at every depth |
| `Decode.DecSeqWritable` | stob-write.go:214-219 | every field of a list the nested decoder accepts has such a kind |
| `Stob.Struct.constructor` | stob-read.go:10-11 | the struct holds the given field list |
| `Stob.Struct.Read` | stob-read.go:10-26 | returns `ReadRun`'s count and status; the buffer is the old one overlaid from offset 0 with the encodings of the fields it passed |
| `Stob.Struct.Write` | stob-write.go:10-26 | updates the fields to `WriteRun`'s decoded values and returns its count and status |
| `Stob.Struct.ReadOutcome` | stob-read.go:10-26 | if field `k` is the first whose check fails, encoding stops there with count = width of fields `0..k-1` and `UnexpectedEOF`; if none fails, it returns the total width and no error |
| `Stob.Struct.FirstStopExists` | stob-read.go:10-26 | every run has that first stopping point, `|fs|` included |
| `Stob.Struct.ReadOk` | stob-read.go:10-26 | encoding succeeds exactly when every field passes the check, and then the whole encoding is written |
| `Stob.Struct.ExactFitFails` | stob-read.go:12-14 | a buffer exactly as long as a fixed-width first field is rejected with count 0, although the field would fit |
| `Stob.Struct.CheckMissesVariableWidth` | stob-read.go:12-16 | a NUL-terminated string with `l = 0` passes the check although its encoding does not fit, so the Go strategy would index past the end |
| `Stob.Struct.WriteOkIsNested` | stob-write.go:10-26 | a decode that passes every check gives the same fields and count as the unchecked nested decoder |
| `Stob.Struct.WriteKeepsShape` | stob-write.go:10-26 | decoding keeps every field's shape and never moves the count backwards |
| `Stob.Struct.WriteStopsAtField` | stob-write.go:12-14 | a decode that hits `UnexpectedEOF` stops at some field `k`: fields from `k` on are untouched and field `k` fails the check |
| `Stob.Struct.WriteCountPastEnd` | stob-write.go:117-128 | a variable string with no NUL makes `Write` report one byte more than the buffer holds |
| `RoundTrip.FieldRoundTrip` | stob-write.go:30-99 | decoding a field's encoding into a same-shaped template restores the field and consumes its width |
| `RoundTrip.IntRoundTrip` | stob-write.go:133-136 | a signed value that fits `l` bytes, with a known endian, survives `SetInt` |
| `RoundTrip.UintRoundTrip` | stob-write.go:155-158 | an unsigned value that fits `l` bytes, with a known endian, survives `SetUint` |
| `RoundTrip.BoolRoundTrip` | stob-write.go:183-188 | a bool survives when the template starts false |
| `RoundTrip.BytesRoundTrip` | stob-write.go:168-178 | a byte slice of length `l` survives; a byte array of length at least `l` survives into a template that holds the same elements past `l` |
| `RoundTrip.StrRoundTrip` | stob-write.go:117-128 | a NUL-free string survives either the variable or the exact `l - 1` fixed form |
| `RoundTrip.NestedRoundTrip` | stob-write.go:214-219 | a nested struct whose fields survive survives as a whole |
| `RoundTrip.DecSeqRoundTrip` | stob-write.go:214-219 | decoding a field list's back-to-back encodings restores every field and ends at their total width |
| `RoundTrip.WriteAfterRead` | stob-write.go:10-26 | decoding what the encoder wrote passes the same checks, stops at the same place, returns the same count and status, and restores the fields on success |
| `RoundTrip.StructRoundTrip` | stob_test.go:87-93 | `Write` after `Read` on the same buffer returns `Read`'s count and status, and on success restores every field |
| `RoundTrip.RecoveredRestores` | stob-write.go:168-178 | what decoding a recoverable field gives back is itself restorable, with the same tag and the same encoding |
| `RoundTrip.RecoveredRestoresSeq` | stob-write.go:214-219 | the same for a field list, whose encodings also agree as a whole |
| `RoundTrip.RecoveredExact` | stob-write.go:30-99 | a restorable field is its own recovery, so the recovered round trip extends the exact one |
| `RoundTrip.RecoveredExactSeq` | stob-write.go:214-219 | the same for a field list |
| `RoundTrip.RecoveredWalk` | stob-read.go:10-26 | the encoding walk over the recovered fields passes the same checks, returns the same count and status and writes the same bytes |
| `RoundTrip.StructRecovers` | stob_test.go:87-93 | with byte slices longer than their tags, as in the test's `Bytes []byte num:"6"`, `Write` after `Read` still returns `Read`'s count and status, and on success gives each slice cut to its tag |
| `Scenarios.RecordLayout` | stob-read.go:10-26 | a `uint16 0x1234`, `true` and fixed-4 `"ab"` encode little-endian as `34 12 01 61 62 00 00` |
| `Scenarios.RecordBigEndian` | stob-read.go:253-256 | with `be` the integer encodes as `12 34` |
| `Scenarios.RecordBufferSizes` | stob-read.go:12-14 | that record fails with `UnexpectedEOF` after 3 bytes in a 7-byte buffer, and succeeds with 7 in an 8-byte buffer |
| `Scenarios.NestedLayout` | stob-read.go:241-247 | a nested struct's bytes appear inline between its neighbours |
| `Scenarios.VariableString` | stob-write.go:124-127 | `"hi"` encodes as `68 69 00` and decodes back from a longer buffer with count 3 |
| `Scenarios.SliceCutToTag` | stob-write.go:168-171 | a three-byte slice tagged 2 is written as two bytes and read back as those two, with count 2 |
| `Scenarios.RecordReadBack` | stob-write.go:10-26 | the 7 encoded bytes in an 8-byte buffer decode back to the record, but the reported count is 6 rather than 7, because the fixed string `"ab"` counts only its length + 1 |
| `Tag.CommaIndexSpec` | stob.go:147 | the split point is the first comma, or the end when there is none |
| `Tag.Split` | stob.go:147 | `strings.Split` always yields at least one piece |
| `Tag.JoinSplit` | stob.go:147 | joining the pieces with commas gives back the tag |
| `Tag.SplitJoin` | stob.go:147 | splitting comma-free pieces joined by commas gives back the pieces |
| `Tag.AtoiDecimal` | stob.go:149 | `Atoi` reads back the decimal form of any representable length |
| `Tag.ScanAppend` | stob.go:149 | `strconv`'s digit scan over `a + b` is the scan over `a`, continued over `b` only when `a` ends without error |
| `Tag.ScanValue` | stob.go:149 | a digit string whose value is below 2^64 scans to that value |
| `Tag.ScanOverflow` | stob.go:149 | a digit string whose value is 2^64 or more ends the scan with a range error, whatever follows it |
| `Tag.ScanSyntax` | stob.go:149 | after `i` digits the value is below `10^i`, so a non-digit at most `19 - i` characters further on ends the scan with a syntax error before any range error |
| `Tag.ReadTagEmpty` | stob.go:146-157 | a missing tag gives length 0 and the default little endian |
| `Tag.ReadTagLength` | stob.go:146-157 | a tag `"n"` gives length `n` and the default endian |
| `Tag.ReadTagLengthEndian` | stob.go:146-157 | a tag `"n,e,..."` gives length `n` and endian `e`, whatever follows |
| `Tag.ReadTagOfPieces` | stob.go:146-157 | in general the length is `Atoi` of the first piece and the endian is the second piece |
| `Tag.ReadTagNotANumber` | stob.go:149 | a first piece that is empty, or starts with no sign and has a non-digit among its first twenty characters, gives length 0 |
| `Tag.ReadTagOverflow` | stob.go:149 | digits worth 2^64 or more give the largest `int` as length, even when a non-digit follows them |
| `Stream.SlotOf` | stob.go:52 | each field is paired with the length and endian `readTag` gives its tag |
| `Stream.WriteInt` | stob.go:32-40 | fails exactly for an unknown endian, with nothing written; otherwise emits the value's bytes in that order |
| `Stream.GetBytes` | stob.go:136-144 | returns the first `l` elements |
| `Stream.WriteValue` | stob.go:59-125 | emits what the type switch writes for the value under its tag, and reports `writeInt`'s error only for the signed cases; a byte array with length 0 is excluded because the warning at stob.go:114 panics |
| `Stream.Write` | stob.go:42-134 | returns the concatenated output of the fields up to and including the first erroring one, and whether one erred |
| `Stream.ReadInt` | stob.go:159-163 | reads `Btoi` of the bytes available (zero-filled when the stream runs short) and advances by the number read |
| `Stream.ReadString` | stob.go:291-305 | reads up to the first NUL or the end and advances past the NUL when there is one |
| `Stream.WrapSpec` | stob.go:183-192 | `SetInt` on a narrow field keeps the value modulo `256^size`, in the signed range |
| `Stream.ReadValue` | stob.go:182-270 | decodes one field as the type switch does: by type, zero-fill on a short stream, a byte array with length 0 skipped; a `[]byte` with length 0 is excluded because the warning at stob.go:209 panics |
| `Stream.Read` | stob.go:165-273 | the fields are replaced by `ReadSpec`'s values in order, the tags are kept, and the position is the bytes consumed |
| `StreamLaws.UintReadBack` | stob.go:194-201 | an unsigned value below `256^size` reads back unchanged |
| `StreamLaws.TakeEmit` | stob.go:59-270 | each field that `Read` can restore reads back from what `Write` emitted for it, consuming exactly that many bytes |
| `StreamLaws.EmitWidth` | stob.go:59-125 | the bytes `Write` emits per type: the size for integers, string length + 1, `l` for byte slices and arrays, 1 for bool and byte |
| `StreamLaws.WriteSucceeds` | stob.go:42-134 | restorable fields produce no write error |
| `StreamLaws.ReadAfterWrite` | stob.go:165-273 | reading after a write, from any position, gives back the fields and ends right after their bytes |
| `StreamLaws.StreamRoundTrip` | stob.go:42-273 | `Read` of `Write`'s output, followed by any bytes, restores the fields and consumes exactly the output |
| `StreamLaws.WriteErrorIff` | stob.go:59-129 | `Write` fails exactly when some signed integer field has an unknown endian |
| `StreamLaws.WriteErrorPrefix` | stob.go:127-129 | on the first failing field, `Write` stops with only the earlier fields' bytes written |
| `StreamLaws.UnknownEndian` | stob.go:32-40 | with an unknown endian a signed integer errors, an unsigned one is silently dropped, a byte is written as is but reads back as 0 |
| `StreamLaws.WordNotCarried` | stob.go:85-86 | a Go `uint` field writes nothing, since `binary.Write` refuses it, and `Read` leaves it unchanged |
| `StreamLaws.UntaggedSliceRefused` | stob.go:206-211 | an untagged `[]byte` is written in full, but reading it is outside `TakeSafe`, because the warning asks a slice type for a struct field and panics |
| `StreamLaws.EmptyArray` | stob.go:111-115 | an untagged byte array of length 0 is outside `WriteSafe`, because the warning at stob.go:114 panics, while `Read` skips it at stob.go:252-255 and leaves the position alone |
| `StreamLaws.BoolCodecsDisagree` | stob.go:236-243 | the stream reader treats only `0x01` as true, while the buffer decoder treats any non-zero byte as true |
| `StreamLaws.ShortStream` | stob.go:159-163 | an int32 read from a one-byte stream uses that byte and zero-fills the rest |
| `StreamLaws.Int8Sign` | stob.go:185-186 | an `int8` read of `0xFF` gives -1, by `SetInt`'s truncation |

## Left out

- Floating point: `Float32`/`Float64` and their setters go through `math.Float*bits`. Only the bit-pattern round trip is modelled (`ByteOrder.FloatBitsRoundTrip`); the stream `binary.Read` of floats and `SliceFloat32`/`SliceFloat64` (which also write to `p[n:f.l]`, not `p[n:n+f.l]`) are not part of this model.
- `SetArrayInt` (stob-write.go:138-150): `setWriter` never binds it, so it cannot be reached.
- `time.Time` fields in the stream codec: their binary marshalling is a foreign library.
- The `unsafe` directory and `NewStruct`/`newStruct`, which turn a Go value into fields, are not part of this model. The closed `Schema.Kind` datatype stands in for reflection and for the type switches of `setReader`/`setWriter`. `Schema.Writable` marks the kinds whose decoders are commented out; the decoder fails on them (`Decode.DecWritable`).
- `f.err` is never set by any strategy, so the `if f.err != nil` branches are not modelled.
- I/O: `io.Writer`/`io.Reader` become an output sequence and an input sequence with a position. A short `r.Read` is modelled as "fewer bytes available, the rest zero"; partial reads of a stream that has more data, and read errors other than end of data, are not modelled.
- `log.Printf` output is left out. In `Write`'s default case (stob.go:114) and in `Read`'s `[]byte` case (stob.go:209) the warning's argument calls `Field(i)` on the field's own type, which is not a struct type, so the call panics before the `continue`; those inputs are excluded by `WriteSafe` and `TakeSafe`. The warning in `Read`'s default case (stob.go:254) uses the struct's type, so the model does the `continue` that follows it.
- `SetSliceByte` aliases the caller's buffer (`SetBytes(p[:f.l])`); the model copies the bytes, so later changes to the buffer are not seen.
- Nil pointer fields and the allocation of pointed-to structs are not modelled; a `Ptr` field is a `Nested` field.
- Slice capacity is not modelled, only length.
- The platform `int` is fixed at 8 bytes (`unsafe.Sizeof` on a 64-bit target).
- `Stob.Struct.Read` and `Stob.Struct.Write` use unbounded counts where Go uses `int`; no overflow is possible for buffers that fit in memory.
- `Stream.Write`: tag lengths are Go `int`s, and a negative tag length on `[]byte` would make `make` panic; that caller is excluded by `WriteSafe`, like the other index panics.
- `Stream.Read`: Go panics (an array shorter than its tag, a negative length for `make`) become the `TakeSafe` precondition.
- `Tag.ReadTag`: the `len(ss) > 0` test is always true because `strings.Split` never returns an empty list (`Tag.Split` proves this), so the model drops the test.
- `Tag.Atoi` models `strconv.Atoi` as ASCII decimal with an optional sign and `ParseUint`'s left-to-right scan: a syntax error reads as 0, and a range error, which is raised at the first digit that overflows 64 bits whatever follows, clamps to the nearest `int` bound. Underscores and other bases are not accepted by Go's `Atoi` either. The fast path Go takes for inputs shorter than 19 characters is not modelled separately; it gives the same results.
- `Decode.SetInt` and `Decode.SetUint` store the 64-bit `Btoi` result; a narrower Go field would have `reflect.SetInt` truncate it. The stream reader models that truncation (`Stream.WrapSpec`).
- The fixed-length string count is `Btos`'s `len(s) + 1`, not `l` (stob-write.go:118-121; `Decode.FixedStringCount`).
