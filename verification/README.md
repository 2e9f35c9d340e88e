# Cossack.Core binary protocol codec, in Dafny

A model of the binary protocol layer of the Cossack.Core library (C#). It covers five parts:

- **Codecs.** `BigEndian` and `LittleEndian` pack and unpack 16-, 24-, 32- and 64-bit
  integers at an offset in a byte array.
- **`CRC32`.** A resumable CRC-32 accumulator.
- **Range validation.** `ValidationUtilities.ValidateArraySlice` checks ranges, and
  `ArrayExtensions.Slice` copies them.
- **`ProtocolReader`.** A bounds-checked cursor over a window of an array.
- **`ProtocolWriter` and its placeholders.** An auto-growing writer whose `Mark*` members
  reserve fields. A `ProtocolWriterPlaceholder` fills a reserved field in later, typically
  with a length.

The reader and the writer are immutable values here. Each operation returns what it
produced together with the reader or writer it leaves behind. A C# exception is an `Err`
(or `Fail`, `OutOfRange`, `CopyFailed`) carrying the exception's type and parameter name.
An `int`, `uint` and so on is a subset of `int`. The CRC register is a `bv32`.

The C# shift-and-mask code is written out operation by operation:
- `<<` into the sign bit wraps explicitly (`Wrap`).
- `>>` is division by a power of two.
- `(byte)` is `% 0x100`.

The contracts compare that code with reference definitions of base-256 notation
(`Radix.FromBigEndian`, `Radix.ToLittleEndian`, ...) and of the CRC recurrence
(`Crc32.Feed`).

Modules and files:

| module | file | C# source |
|---|---|---|
| `Primitives` | primitives.dfy | bytes, integer types, exceptions, `ArraySegment`, in-order array stores |
| `Radix` | radix.dfy | reference positional notation and the arithmetic behind the codecs |
| `BigEndian`, `LittleEndian` | big_endian.dfy, little_endian.dfy | Data/BigEndian.cs, Data/LittleEndian.cs |
| `Crc32` | crc32.dfy | Data/CRC32.cs |
| `ValidationUtilities`, `ArrayExtensions` | validation_utilities.dfy, array_extensions.dfy | Miscellaneous/ValidationUtilities.cs, Miscellaneous/ArrayExtensions.cs |
| `Fields` | fields.dfy | the field kinds behind the `Read*`/`Write*`/`Mark*` families, dispatching to the codecs |
| `ProtocolReader` | protocol_reader.dfy | IO/ProtocolReader.cs |
| `ProtocolWriter` | protocol_writer.dfy | IO/ProtocolWriter.cs |
| `ProtocolWriterPlaceholder` | protocol_writer_placeholder.dfy | IO/ProtocolWriterPlaceholder(T).cs |
| `RoundTrip` | round_trip.dfy | a write sequence read back by a reader |
| `Overflow` | overflow.dfy | the 32-bit wrap-around of the original's bounds checks and doubling |

The 18 `Read*`, 18 `Write*` and 18 `Mark*` members of the reader and the writer are each
one function over a field kind (`Fields.Kind`: width, signedness, byte order). The kind
dispatches to the codec function the C# member calls.

Where the code and its documentation disagree, the model follows the code:
- `Read(int)` and `Slice(int)` with a negative count pass `ThrowIfNotAvailable`, which
  rejects only an excess. They then fail in the slice validation with
  `ArgumentOutOfRangeException`, not with `IndexOutOfRangeException`.
- `Write(byte[], int, int)` is documented to throw `IndexOutOfRangeException` for a bad
  range. It grows the array first and then lets `Array.Copy` throw its own exceptions.
  So a failed bulk write can leave the array grown, although nothing more is written.
- The range checks of `ValidateArraySlice`, `CRC32.Update` and `ProtocolReader.Slice`
  promise to reject out-of-range arguments before any work is done. They add two `int`s
  without overflow checking, which lets some arguments through (see Findings). The model
  uses the comparisons as intended. The written versions live in module `Overflow`.

## Model

| member | source | states |
|---|---|---|
| ValidationUtilities.ValidateArraySlice | Cossack.Core/Miscellaneous/ValidationUtilities.cs:31-40 | Passes exactly when the array is present and `count` elements from `offset` lie inside it. Otherwise it throws `ArgumentNullException` with the array's name when the array is null, else `ArgumentOutOfRangeException` with the offset's name when the offset is outside `[0, Length]`, else with the count's name. |
| ValidationUtilities.EmptySliceAtEnd | Cossack.Core/Miscellaneous/ValidationUtilities.cs:36-38 | An empty slice starting exactly at the end of the array is accepted, because the offset check rejects only `offset > Length`. |
| ValidationUtilities.OffsetReportedFirst | Cossack.Core/Miscellaneous/ValidationUtilities.cs:36-37 | When the offset is out of range, the offset is reported whatever the count is. |
| ValidationUtilities.SubSliceValid | Cossack.Core/Miscellaneous/ValidationUtilities.cs:31-40 | A sub-range of an accepted slice is accepted too. |
| ArrayExtensions.Slice | Cossack.Core/Miscellaneous/ArrayExtensions.cs:34-42 | Succeeds exactly when the validation passes, and otherwise fails with the validation's exception under the names `array`, `offset`, `count`. On success it returns `count` elements, element `i` being `array[offset + i]`. |
| ArrayExtensions.SliceOfSlice | Cossack.Core/Miscellaneous/ArrayExtensions.cs:34-42 | Slicing a slice is slicing the original at the summed offset. |
| ArrayExtensions.WholeSlice | Cossack.Core/Miscellaneous/ArrayExtensions.cs:34-42 | The whole array sliced from 0 is an equal copy. |
| Primitives.StoreBytes | Cossack.Core/Data/BigEndian.cs:231-235 | The in-order `buffer[offset + k] = ...` stores of the encoders. The array keeps its length. The stores complete exactly when the window fits. Byte `i` afterwards is `data[i - offset]` inside the window and unchanged outside, so on failure the stores before the first bad index have already happened. |
| BigEndian.ReadU16 | Cossack.Core/Data/BigEndian.cs:32-38 | Succeeds exactly when `offset .. offset + 2` lies inside the array, and otherwise throws `IndexOutOfRangeException`. The value is the 2 bytes read most significant byte first, using the reference `Radix.FromBigEndian` and not the shift code. |
| BigEndian.ReadS16 | Cossack.Core/Data/BigEndian.cs:55-61 | Succeeds exactly when `offset .. offset + 2` lies inside the array, and otherwise throws `IndexOutOfRangeException`. The value is the two's-complement reading (`Signed`) of the 2 bytes read most significant byte first, using the reference `Radix.FromBigEndian` and not the shift code. |
| BigEndian.ReadU24 | Cossack.Core/Data/BigEndian.cs:79-85 | Succeeds exactly when `offset .. offset + 3` lies inside the array, and otherwise throws `IndexOutOfRangeException`. The value is the 3 bytes read most significant byte first, using the reference `Radix.FromBigEndian` and not the shift code. The result is below 2^24. |
| BigEndian.ReadS24 | Cossack.Core/Data/BigEndian.cs:102-108 | Succeeds exactly when `offset .. offset + 3` lies inside the array, and otherwise throws `IndexOutOfRangeException`. The value is the two's-complement reading (`Signed`) of the 3 bytes read most significant byte first, using the reference `Radix.FromBigEndian` and not the shift code. The result lies in the 24-bit range and is negative exactly when the first byte has its top bit set: the shifts sign-extend bit 23. |
| BigEndian.ReadU32 | Cossack.Core/Data/BigEndian.cs:126-133 | Succeeds exactly when `offset .. offset + 4` lies inside the array, and otherwise throws `IndexOutOfRangeException`. The value is the 4 bytes read most significant byte first, using the reference `Radix.FromBigEndian` and not the shift code. |
| BigEndian.ReadS32 | Cossack.Core/Data/BigEndian.cs:150-157 | Succeeds exactly when `offset .. offset + 4` lies inside the array, and otherwise throws `IndexOutOfRangeException`. The value is the two's-complement reading (`Signed`) of the 4 bytes read most significant byte first, using the reference `Radix.FromBigEndian` and not the shift code. |
| BigEndian.ReadU64 | Cossack.Core/Data/BigEndian.cs:175-186 | Succeeds exactly when `offset .. offset + 8` lies inside the array, and otherwise throws `IndexOutOfRangeException`. The value is the 8 bytes read most significant byte first, using the reference `Radix.FromBigEndian` and not the shift code. |
| BigEndian.ReadS64 | Cossack.Core/Data/BigEndian.cs:203-214 | Succeeds exactly when `offset .. offset + 8` lies inside the array, and otherwise throws `IndexOutOfRangeException`. The value is the two's-complement reading (`Signed`) of the 8 bytes read most significant byte first, using the reference `Radix.FromBigEndian` and not the shift code. |
| BigEndian.WriteU16 | Cossack.Core/Data/BigEndian.cs:231-235 | Stores the reference encoding `Radix.ToBigEndian(value, 2)`, most significant byte first, through `StoreBytes`. It completes exactly when the 2-byte window fits. When it completes, the result is that window overwritten. No byte outside the window changes. |
| BigEndian.WriteS16 | Cossack.Core/Data/BigEndian.cs:251-255 | Stores the reference encoding `Radix.ToBigEndian(value, 2)`, most significant byte first, through `StoreBytes`. It completes exactly when the 2-byte window fits. When it completes, the result is that window overwritten. No byte outside the window changes. |
| BigEndian.WriteU24 | Cossack.Core/Data/BigEndian.cs:273-278 | Stores the reference encoding `Radix.ToBigEndian(value, 3)`, most significant byte first, through `StoreBytes`. It completes exactly when the 3-byte window fits. When it completes, the result is that window overwritten. No byte outside the window changes. Only the low 24 bits of the `int`/`uint` argument are stored. |
| BigEndian.WriteS24 | Cossack.Core/Data/BigEndian.cs:295-300 | Stores the reference encoding `Radix.ToBigEndian(value, 3)`, most significant byte first, through `StoreBytes`. It completes exactly when the 3-byte window fits. When it completes, the result is that window overwritten. No byte outside the window changes. Only the low 24 bits of the `int`/`uint` argument are stored. |
| BigEndian.WriteU32 | Cossack.Core/Data/BigEndian.cs:317-323 | Stores the reference encoding `Radix.ToBigEndian(value, 4)`, most significant byte first, through `StoreBytes`. It completes exactly when the 4-byte window fits. When it completes, the result is that window overwritten. No byte outside the window changes. |
| BigEndian.WriteS32 | Cossack.Core/Data/BigEndian.cs:339-345 | Stores the reference encoding `Radix.ToBigEndian(value, 4)`, most significant byte first, through `StoreBytes`. It completes exactly when the 4-byte window fits. When it completes, the result is that window overwritten. No byte outside the window changes. |
| BigEndian.WriteU64 | Cossack.Core/Data/BigEndian.cs:363-373 | Stores the reference encoding `Radix.ToBigEndian(value, 8)`, most significant byte first, through `StoreBytes`. It completes exactly when the 8-byte window fits. When it completes, the result is that window overwritten. No byte outside the window changes. |
| BigEndian.WriteS64 | Cossack.Core/Data/BigEndian.cs:389-399 | Stores the reference encoding `Radix.ToBigEndian(value, 8)`, most significant byte first, through `StoreBytes`. It completes exactly when the 8-byte window fits. When it completes, the result is that window overwritten. No byte outside the window changes. |
| BigEndian.U16RoundTrip | Cossack.Core/Data/BigEndian.cs:231-235 | Reading back, at the same offset, what `WriteU16` stored gives the value written, for every value of the C# parameter type. |
| BigEndian.S16RoundTrip | Cossack.Core/Data/BigEndian.cs:251-255 | Reading back, at the same offset, what `WriteS16` stored gives the value written, for every value of the C# parameter type. |
| BigEndian.U24RoundTrip | Cossack.Core/Data/BigEndian.cs:273-278 | Reading back a `WriteU24` gives `value % 2^24`: the documented truncation of an over-wide argument. |
| BigEndian.S24RoundTrip | Cossack.Core/Data/BigEndian.cs:295-300 | Reading back a `WriteS24` gives the low 24 bits of the value, sign-extended. A value in the 24-bit range comes back unchanged. |
| BigEndian.U32RoundTrip | Cossack.Core/Data/BigEndian.cs:317-323 | Reading back, at the same offset, what `WriteU32` stored gives the value written, for every value of the C# parameter type. |
| BigEndian.S32RoundTrip | Cossack.Core/Data/BigEndian.cs:339-345 | Reading back, at the same offset, what `WriteS32` stored gives the value written, for every value of the C# parameter type. |
| BigEndian.U64RoundTrip | Cossack.Core/Data/BigEndian.cs:363-373 | Reading back, at the same offset, what `WriteU64` stored gives the value written, for every value of the C# parameter type. |
| BigEndian.S64RoundTrip | Cossack.Core/Data/BigEndian.cs:389-399 | Reading back, at the same offset, what `WriteS64` stored gives the value written, for every value of the C# parameter type. |
| BigEndian.SignedReadsAreTwosComplement | Cossack.Core/Data/BigEndian.cs:55-214 | For every buffer with a 16-bit field at the offset, the signed read is the two's-complement reading of the unsigned read of the same bytes, and likewise for the 24-, 32- and 64-bit reads whenever their wider field fits. The 24-bit signed read is the unsigned one less 2^24 exactly when the sign bit is set. |
| BigEndian.S24Minimum | Cossack.Core/Data/BigEndian.cs:102-108 | `80 00 00` reads as -8388608 signed and as 8388608 unsigned. |
| LittleEndian.ReadU16 | Cossack.Core/Data/LittleEndian.cs:32-38 | Succeeds exactly when `offset .. offset + 2` lies inside the array, and otherwise throws `IndexOutOfRangeException`. The value is the 2 bytes read least significant byte first, using the reference `Radix.FromLittleEndian` and not the shift code. |
| LittleEndian.ReadS16 | Cossack.Core/Data/LittleEndian.cs:55-61 | Succeeds exactly when `offset .. offset + 2` lies inside the array, and otherwise throws `IndexOutOfRangeException`. The value is the two's-complement reading (`Signed`) of the 2 bytes read least significant byte first, using the reference `Radix.FromLittleEndian` and not the shift code. |
| LittleEndian.ReadU24 | Cossack.Core/Data/LittleEndian.cs:79-85 | Succeeds exactly when `offset .. offset + 3` lies inside the array, and otherwise throws `IndexOutOfRangeException`. The value is the 3 bytes read least significant byte first, using the reference `Radix.FromLittleEndian` and not the shift code. The result is below 2^24. |
| LittleEndian.ReadS24 | Cossack.Core/Data/LittleEndian.cs:102-108 | Succeeds exactly when `offset .. offset + 3` lies inside the array, and otherwise throws `IndexOutOfRangeException`. The value is the two's-complement reading (`Signed`) of the 3 bytes read least significant byte first, using the reference `Radix.FromLittleEndian` and not the shift code. The result lies in the 24-bit range and is negative exactly when the last byte has its top bit set: the shifts sign-extend bit 23. |
| LittleEndian.ReadU32 | Cossack.Core/Data/LittleEndian.cs:126-133 | Succeeds exactly when `offset .. offset + 4` lies inside the array, and otherwise throws `IndexOutOfRangeException`. The value is the 4 bytes read least significant byte first, using the reference `Radix.FromLittleEndian` and not the shift code. |
| LittleEndian.ReadS32 | Cossack.Core/Data/LittleEndian.cs:150-157 | Succeeds exactly when `offset .. offset + 4` lies inside the array, and otherwise throws `IndexOutOfRangeException`. The value is the two's-complement reading (`Signed`) of the 4 bytes read least significant byte first, using the reference `Radix.FromLittleEndian` and not the shift code. |
| LittleEndian.ReadU64 | Cossack.Core/Data/LittleEndian.cs:175-186 | Succeeds exactly when `offset .. offset + 8` lies inside the array, and otherwise throws `IndexOutOfRangeException`. The value is the 8 bytes read least significant byte first, using the reference `Radix.FromLittleEndian` and not the shift code. |
| LittleEndian.ReadS64 | Cossack.Core/Data/LittleEndian.cs:203-214 | Succeeds exactly when `offset .. offset + 8` lies inside the array, and otherwise throws `IndexOutOfRangeException`. The value is the two's-complement reading (`Signed`) of the 8 bytes read least significant byte first, using the reference `Radix.FromLittleEndian` and not the shift code. |
| LittleEndian.WriteU16 | Cossack.Core/Data/LittleEndian.cs:231-235 | Stores the reference encoding `Radix.ToLittleEndian(value, 2)`, least significant byte first, through `StoreBytes`. It completes exactly when the 2-byte window fits. When it completes, the result is that window overwritten. No byte outside the window changes. |
| LittleEndian.WriteS16 | Cossack.Core/Data/LittleEndian.cs:251-255 | Stores the reference encoding `Radix.ToLittleEndian(value, 2)`, least significant byte first, through `StoreBytes`. It completes exactly when the 2-byte window fits. When it completes, the result is that window overwritten. No byte outside the window changes. |
| LittleEndian.WriteU24 | Cossack.Core/Data/LittleEndian.cs:273-278 | Stores the reference encoding `Radix.ToLittleEndian(value, 3)`, least significant byte first, through `StoreBytes`. It completes exactly when the 3-byte window fits. When it completes, the result is that window overwritten. No byte outside the window changes. Only the low 24 bits of the `int`/`uint` argument are stored. |
| LittleEndian.WriteS24 | Cossack.Core/Data/LittleEndian.cs:295-300 | Stores the reference encoding `Radix.ToLittleEndian(value, 3)`, least significant byte first, through `StoreBytes`. It completes exactly when the 3-byte window fits. When it completes, the result is that window overwritten. No byte outside the window changes. Only the low 24 bits of the `int`/`uint` argument are stored. |
| LittleEndian.WriteU32 | Cossack.Core/Data/LittleEndian.cs:317-323 | Stores the reference encoding `Radix.ToLittleEndian(value, 4)`, least significant byte first, through `StoreBytes`. It completes exactly when the 4-byte window fits. When it completes, the result is that window overwritten. No byte outside the window changes. |
| LittleEndian.WriteS32 | Cossack.Core/Data/LittleEndian.cs:339-345 | Stores the reference encoding `Radix.ToLittleEndian(value, 4)`, least significant byte first, through `StoreBytes`. It completes exactly when the 4-byte window fits. When it completes, the result is that window overwritten. No byte outside the window changes. |
| LittleEndian.WriteU64 | Cossack.Core/Data/LittleEndian.cs:363-373 | Stores the reference encoding `Radix.ToLittleEndian(value, 8)`, least significant byte first, through `StoreBytes`. It completes exactly when the 8-byte window fits. When it completes, the result is that window overwritten. No byte outside the window changes. |
| LittleEndian.WriteS64 | Cossack.Core/Data/LittleEndian.cs:389-399 | Stores the reference encoding `Radix.ToLittleEndian(value, 8)`, least significant byte first, through `StoreBytes`. It completes exactly when the 8-byte window fits. When it completes, the result is that window overwritten. No byte outside the window changes. |
| LittleEndian.U16RoundTrip | Cossack.Core/Data/LittleEndian.cs:231-235 | Reading back, at the same offset, what `WriteU16` stored gives the value written, for every value of the C# parameter type. |
| LittleEndian.S16RoundTrip | Cossack.Core/Data/LittleEndian.cs:251-255 | Reading back, at the same offset, what `WriteS16` stored gives the value written, for every value of the C# parameter type. |
| LittleEndian.U24RoundTrip | Cossack.Core/Data/LittleEndian.cs:273-278 | Reading back a `WriteU24` gives `value % 2^24`: the documented truncation of an over-wide argument. |
| LittleEndian.S24RoundTrip | Cossack.Core/Data/LittleEndian.cs:295-300 | Reading back a `WriteS24` gives the low 24 bits of the value, sign-extended. A value in the 24-bit range comes back unchanged. |
| LittleEndian.U32RoundTrip | Cossack.Core/Data/LittleEndian.cs:317-323 | Reading back, at the same offset, what `WriteU32` stored gives the value written, for every value of the C# parameter type. |
| LittleEndian.S32RoundTrip | Cossack.Core/Data/LittleEndian.cs:339-345 | Reading back, at the same offset, what `WriteS32` stored gives the value written, for every value of the C# parameter type. |
| LittleEndian.U64RoundTrip | Cossack.Core/Data/LittleEndian.cs:363-373 | Reading back, at the same offset, what `WriteU64` stored gives the value written, for every value of the C# parameter type. |
| LittleEndian.S64RoundTrip | Cossack.Core/Data/LittleEndian.cs:389-399 | Reading back, at the same offset, what `WriteS64` stored gives the value written, for every value of the C# parameter type. |
| LittleEndian.SignedReadsAreTwosComplement | Cossack.Core/Data/LittleEndian.cs:55-214 | For every buffer with a 16-bit field at the offset, the signed read is the two's-complement reading of the unsigned read of the same bytes, and likewise for the 24-, 32- and 64-bit reads whenever their wider field fits. The 24-bit signed read is the unsigned one less 2^24 exactly when the sign bit is set. |
| LittleEndian.S24Minimum | Cossack.Core/Data/LittleEndian.cs:102-108 | `00 00 80` reads as -8388608 signed and as 8388608 unsigned. |
| BigEndian.U32MostSignificantFirst | Cossack.Core/Data/BigEndian.cs:317-323 | Byte `k` stored by `WriteU32` is `(value >> (24 - 8k)) & 0xFF`. |
| LittleEndian.U32MirrorsBigEndian | Cossack.Core/Data/LittleEndian.cs:317-323 | The four bytes stored by `LittleEndian.WriteU32` are those stored by `BigEndian.WriteU32`, reversed. |
| Radix.BigEndianRoundTrip | Cossack.Core/Data/BigEndian.cs:231-399 | Encoding a value in `w` bytes and decoding them gives the value modulo 256^w: a narrower write keeps exactly the low bits. |
| Radix.LittleEndianIsReversed | Cossack.Core/Data/LittleEndian.cs:231-399 | The little-endian encoding is the big-endian encoding reversed. |
| Radix.SignedTopByte | Cossack.Core/Data/BigEndian.cs:150-157 | Shifting the top byte into the sign bit wraps it to `b - 256` when `b >= 0x80`. Adding the lower bytes then gives the two's-complement reading of the whole field. |
| Crc32.GenerateLookupTable | Cossack.Core/Data/CRC32.cs:51-65 | Returns 256 entries. Entry `i` is eight rounds from `i`; each round shifts right and XORs in 0xEDB88320 when the dropped bit was set. |
| Crc32.TableSpotValues | Cossack.Core/Data/CRC32.cs:51-65 | Entries 0, 1, 0x80 and 0xFF are 0, 0x77073096, 0xEDB88320 and 0x2D02EF8D. |
| Crc32.Update | Cossack.Core/Data/CRC32.cs:29-38 | A null buffer throws `ArgumentNullException("buffer")`. A negative offset throws `ArgumentOutOfRangeException("offset")`. A negative count or a range past the end throws `ArgumentOutOfRangeException("count")`. Each check happens before any byte is processed. Otherwise the register becomes `Feed` over exactly the `count` bytes from `offset`. |
| Crc32.FeedLoop | Cossack.Core/Data/CRC32.cs:36-37 | The loop leaves the register at `Feed`, the byte-by-byte table recurrence, of the bytes it visited. |
| Crc32.Value | Cossack.Core/Data/CRC32.cs:44 | The reported value is never negative and is below 2^32. |
| Crc32.FreshValueIsZero | Cossack.Core/Data/CRC32.cs:69 | A fresh accumulator, with register 0xFFFFFFFF, reports 0. |
| Crc32.FeedSplit | Cossack.Core/Data/CRC32.cs:29-38 | Resumability: processing `a + b` in one call leaves the register where processing `a` and then `b` does. So splitting the input anywhere gives the same value. |
| Crc32.CheckValue | Cossack.Core/Data/CRC32.cs:29-69 | The value for ASCII "123456789" is 0xCBF43926, the standard check value of CRC-32/ISO-HDLC. |
| Fields.ReadAt | Cossack.Core/IO/ProtocolReader.cs:77-97 | A field read at an offset succeeds exactly when the field's bytes lie inside the array, and otherwise throws `IndexOutOfRangeException`. Its value is the reference `Decode` of those bytes. For `S8` this is the `(sbyte)` cast of the byte. |
| Fields.ReadBig | Cossack.Core/Data/BigEndian.cs:32-214 | Every big-endian read gives the reference `Decode` of its bytes. |
| Fields.ReadLittle | Cossack.Core/Data/LittleEndian.cs:32-214 | Every little-endian read gives the reference `Decode` of its bytes. |
| Fields.WriteAt | Cossack.Core/IO/ProtocolWriter.cs:284-300 | A field store stores the reference `Encode` of the value through `StoreBytes`. For `S8` this is the `(byte)` cast. |
| Fields.WriteBig | Cossack.Core/Data/BigEndian.cs:231-399 | Every big-endian write stores `ToBigEndian(value, width)`. |
| Fields.WriteLittle | Cossack.Core/Data/LittleEndian.cs:231-399 | Every little-endian write stores `ToLittleEndian(value, width)`. |
| Fields.DecodeEncode | Cossack.Core/Data/LittleEndian.cs:231-399 | For every field and every argument of its C# type, decoding the encoding gives the argument back. The 24-bit fields are the exception: they keep only the low 24 bits. |
| Fields.ReadAfterWrite | Cossack.Core/Data/BigEndian.cs:32-399 | Reading a field back where it was just written gives the retained value. |
| Fields.WriteAtWindow | Cossack.Core/Data/BigEndian.cs:231-399 | A store inside the array completes. Afterwards the field's bytes are the encoding and decode to the retained value, and nothing else changes. |
| Fields.MaxValueRetained | Cossack.Core/IO/ProtocolWriter.cs:24-276 | A value up to a placeholder's `maxValue` is a valid argument for the field, and the field keeps it unchanged. This includes 0xFFFFFF and 0x7FFFFF for the 24-bit fields. |
| Fields.DecodeRange | Cossack.Core/IO/ProtocolReader.cs:77-377 | Decoded values lie in the range of the C# return type: `[0, 256^w)` unsigned, `[-256^w/2, 256^w/2)` signed. |
| ProtocolReader.FromSegment | Cossack.Core/IO/ProtocolReader.cs:23-28 | The window is the segment. The position is 0 and `Available` is the segment's count. |
| ProtocolReader.FromArray | Cossack.Core/IO/ProtocolReader.cs:39-43 | A null array throws `ArgumentNullException("data")`. Otherwise the window is the whole array, at position 0. |
| ProtocolReader.FromRange | Cossack.Core/IO/ProtocolReader.cs:58-66 | Succeeds exactly when `ValidateArraySlice` accepts `(data, offset, count)`, and otherwise fails with its exception. On success the window is `data[offset .. offset + count]`, at position 0. |
| ProtocolReader.ThrowIfNotAvailable | Cossack.Core/IO/ProtocolReader.cs:428-432 | Passes exactly when `bytes <= Available`, so a negative count passes. Otherwise it throws `IndexOutOfRangeException`. |
| ProtocolReader.ReadField | Cossack.Core/IO/ProtocolReader.cs:77-377 | A `Read*` succeeds exactly when the field's width is available, and otherwise throws `IndexOutOfRangeException` with the reader unchanged. On success it returns the `Decode` of the next `width` bytes and advances the position by exactly `width`. |
| ProtocolReader.ReadFieldIsCodecRead | Cossack.Core/IO/ProtocolReader.cs:109-377 | The value a `Read*` returns is what its `BigEndian`/`LittleEndian` call returns at the cursor. |
| ProtocolReader.Read | Cossack.Core/IO/ProtocolReader.cs:389-395 | Succeeds exactly when `0 <= bytes <= Available`. Too many bytes throws `IndexOutOfRangeException`. A negative count passes the availability check and then `Slice` throws `ArgumentOutOfRangeException("count")`. On success it returns the next `bytes` bytes and advances by `bytes`. |
| ProtocolReader.Slice | Cossack.Core/IO/ProtocolReader.cs:408-414 | Has the same success and error cases as `Read`. On success the child reader is at position 0 over exactly the next `bytes` bytes, and the parent advances past them. |
| ProtocolReader.ConsumptionIsConserved | Cossack.Core/IO/ProtocolReader.cs:420-426 | Every successful read or slice keeps `Position + Available` and the window: consumption is all or nothing. |
| ProtocolReader.SliceMatchesRead | Cossack.Core/IO/ProtocolReader.cs:389-414 | Reading all `bytes` bytes from a slice gives the same bytes as the parent's `Read(bytes)`, and the parent ends where that `Read` leaves it. |
| ProtocolReader.SliceIsBounded | Cossack.Core/IO/ProtocolReader.cs:408-414 | A child reader cannot see past its window: once its `bytes` bytes are read, `Available` is 0 and every further field read throws. |
| ProtocolWriter.New | Cossack.Core/IO/ProtocolWriter.cs:610-611 | A new writer has 1024 bytes of capacity and nothing written. |
| ProtocolWriter.Reset | Cossack.Core/IO/ProtocolWriter.cs:576-579 | Forgets the written bytes but keeps the array and its contents. |
| ProtocolWriter.NewCapacity | Cossack.Core/IO/ProtocolWriter.cs:597-603 | The do-while doubling gives a reachable capacity (1024 times a power of two). It is at least twice the old capacity and in `[needed, 2 * needed)`. |
| ProtocolWriter.Grow | Cossack.Core/IO/ProtocolWriter.cs:595-608 | If the written bytes plus `requiredBytes` fit, nothing changes. Otherwise the new array holds the written bytes at the same offsets, is zero after them, and is less than twice the needed size. Growth never shrinks the array. |
| ProtocolWriter.GrowToAccommodate | Cossack.Core/IO/ProtocolWriter.cs:595-608 | The loop computes the same writer as `Grow`. |
| ProtocolWriter.GrowChecked | Cossack.Core/IO/ProtocolWriter.cs:595-608 | The growth as evidently intended, for every request: it fails with `OutOfMemory` exactly when the written bytes plus `requiredBytes` exceed 2^30, the largest capacity the doubling reaches inside `int`. Otherwise the grown writer is valid, keeps the written bytes, holds the request, and its capacity stays within 2^30. It is unchanged when the request already fits. |
| ProtocolWriter.DoublingAtLeastInitial | Cossack.Core/IO/ProtocolWriter.cs:602-610 | Every capacity the doubling reaches is a multiple of 1024 and at least 1024. |
| ProtocolWriter.WriteField | Cossack.Core/IO/ProtocolWriter.cs:284-517 | A `Write*` leaves the written bytes followed by the field's encoding of the value, without shrinking the array. |
| ProtocolWriter.WriteFieldIsCodecWrite | Cossack.Core/IO/ProtocolWriter.cs:310-517 | The store a `Write*` makes is its `BigEndian`/`LittleEndian` call at the old end of the grown array, and the call completes. |
| ProtocolWriter.CopyCheck | Cossack.Core/IO/ProtocolWriter.cs:555 | The `Array.Copy` source checks pass exactly when the source is present and the range lies inside it. |
| ProtocolWriter.WriteBytes | Cossack.Core/IO/ProtocolWriter.cs:552-557 | Copies exactly when the array is present and the range is inside it. The written bytes become the old ones followed by `data[offset .. offset + count]`. A failed copy throws the copy's exception and leaves the writer grown but with nothing more written. |
| ProtocolWriter.WriteArray | Cossack.Core/IO/ProtocolWriter.cs:528 | A null array throws `NullReferenceException` with the writer untouched. Otherwise the whole array is appended. |
| ProtocolWriter.WriteSegment | Cossack.Core/IO/ProtocolWriter.cs:536 | A well-formed segment is always appended in full. |
| ProtocolWriter.Mark | Cossack.Core/IO/ProtocolWriter.cs:24-276 | A `Mark*` reserves the field at the old end without storing into it. The placeholder records that position, the field's width and its `maxValue`. The written bytes grow by the width and gain whatever the array held there: zero after a growth, stale bytes otherwise. |
| ProtocolWriter.IssuedIsKept | Cossack.Core/IO/ProtocolWriter.cs:24-29 | A placeholder stays usable through later growth, since growth never shrinks the array. |
| ProtocolWriter.MarkAfterResetShowsStaleBytes | Cossack.Core/IO/ProtocolWriter.cs:576-579 | After `Reset`, a newly reserved field shows the bytes the array held there before. |
| ProtocolWriterPlaceholder.SetValueIsCodecWrite | Cossack.Core/IO/ProtocolWriter.cs:270-276 | The setter's store is the field's codec write at the captured position, and it completes. |
| Overflow.AddInt | Cossack.Core/Miscellaneous/ValidationUtilities.cs:38 | C#'s unchecked `int` addition: the exact sum when it fits, otherwise the sum shifted by 2^32, with the sign flipped. |
| Overflow.ValidateArraySliceAsWritten | Cossack.Core/Miscellaneous/ValidationUtilities.cs:31-40 | The check as written, with `offset + count` wrapping. It agrees with the intended check whenever the sum fits in an `int`. It passes exactly the in-bounds slices plus those whose end passes `int.MaxValue`. |
| Overflow.ValidateArraySliceWrongfulPasses | Cossack.Core/Miscellaneous/ValidationUtilities.cs:38 | The written and the intended checks differ exactly on the wrapping arguments, and all of those are out of bounds. |
| Overflow.ValidateArraySliceCounterexample | Cossack.Core/Miscellaneous/ValidationUtilities.cs:38 | Ten elements, offset 1, count `int.MaxValue`: the written check passes, the intended one throws for `count`. |
| Overflow.UpdateAsWritten | Cossack.Core/Data/CRC32.cs:29-38 | The method as written. It returns normally exactly for in-bounds ranges. A wrapping range gets past the guard, folds in every byte to the end of the array and then throws `IndexOutOfRangeException`. Every other rejection leaves the register untouched. |
| Overflow.LoopAsWritten | Cossack.Core/Data/CRC32.cs:36-37 | The loop folds in `count` bytes when they exist. Otherwise it folds in the bytes up to the end of the array and then throws `IndexOutOfRangeException`. |
| Overflow.UpdateCounterexample | Cossack.Core/Data/CRC32.cs:33-37 | Two bytes, offset 1, count `int.MaxValue`: the range is out of bounds, yet the call changes a fresh accumulator's register before throwing. |
| Overflow.SliceAsWritten | Cossack.Core/IO/ProtocolReader.cs:408-414 | `Slice` as written, with `_position + bytes` wrapping. It agrees with the intended `Slice` when the sum fits. Otherwise it succeeds, leaving the parent at a negative position and the child with its end before its start. |
| Overflow.SliceCounterexample | Cossack.Core/IO/ProtocolReader.cs:428-432 | A reader at 1 of 2 bytes, sliced by `int.MaxValue`. The intended `Slice` throws. As written, the parent goes to position -2^31, the next one-byte read passes `ThrowIfNotAvailable`, and that read indexes outside the array. |
| Overflow.DoublingWrapsToZero | Cossack.Core/IO/ProtocolWriter.cs:602-603 | From a 2^30-byte array the `capacity *= 2` rounds reach zero after two steps and stay there. |
| Overflow.GrowthNeverEnds | Cossack.Core/IO/ProtocolWriter.cs:602-603 | So once more than 2^30 bytes are needed at that capacity, no number of rounds is enough: the do-while never ends. |
| Overflow.DoublingExactBelowLimit | Cossack.Core/IO/ProtocolWriter.cs:602-603 | Below 2^30 the written rounds double exactly, as `ProtocolWriter.NewCapacity` does. |
| RoundTrip.WriteFields | Cossack.Core/IO/ProtocolWriter.cs:284-517 | A sequence of `Write*` calls appends the fields' encodings, one after the other. |
| RoundTrip.ReadFields | Cossack.Core/IO/ProtocolReader.cs:77-377 | A sequence of `Read*` calls succeeds exactly when the fields' total width is available, and otherwise throws `IndexOutOfRangeException`. On success it consumes exactly that many bytes and keeps the window. |
| RoundTrip.ReadEncoded | Cossack.Core/IO/ProtocolReader.cs:77-377 | A reader over the fields' encodings followed by anything reads back, in order, what each field retains of its argument. It stops right after the encodings. |
| RoundTrip.WrittenFromNew | Cossack.Core/IO/ProtocolWriter.cs:565-570 | The array of a fresh writer after the `Write*` calls is exactly the concatenated encodings. |
| RoundTrip.ReadWhole | Cossack.Core/IO/ProtocolReader.cs:39-43 | A reader built on exactly the encodings reads every retained value and ends at the end. |
| RoundTrip.WriteThenRead | Cossack.Core/IO/ProtocolWriter.cs:565-570 | End to end: writing fields with a new writer, taking `ToArray` and reading the fields back gives the retained values, with nothing left over. |

## Placeholder members

The members below model `Cossack.Core/IO/ProtocolWriterPlaceholder(T).cs`. A file name with
parentheses cannot stand in the source column of the table above, so they are listed here,
with the lines of that file.

| member | lines of ProtocolWriterPlaceholder(T).cs | states |
|---|---|---|
| ProtocolWriterPlaceholder.SetValue | 40 | Setting `Value` stores the field's encoding at the placeholder's position in the writer's current array. The bytes there then decode to the retained value. The position, length and every other byte stay as they were. |
| ProtocolWriterPlaceholder.ULongDistance | 29-30 | Casting the `int` difference to `ulong` and then subtracting the size gives the true distance modulo 2^64. |
| ProtocolWriterPlaceholder.Close | 27-34 | Throws `InvalidOperationException` exactly when the distance modulo 2^64 exceeds `maxValue`. Otherwise it sets the value to that distance. |
| ProtocolWriterPlaceholder.CloseAcceptsDistance | 27-34 | While the writer is still past the field, `Close` succeeds exactly when the bytes written after the field (plus its own size with `includeSelf`) are at most the field's maximum. |
| ProtocolWriterPlaceholder.SetValueReadsBack | 40 | A value up to the maximum, set on a field inside the written data, decodes back from `ToArray` at the field's position. Everything before and after the field is unchanged. |
| ProtocolWriterPlaceholder.CloseRecordsDistance | 27-34 | When the distance fits, `Close` succeeds and the field then decodes to exactly that distance. |
| ProtocolWriterPlaceholder.SetValueSplices | 40 | Setting a field that sits between `before` and `after` makes the written data `before + encoding + after`. |
| ProtocolWriterPlaceholder.LengthPrefix | 18-34 | Mark, write a payload, then `Close()` gives the written bytes followed by the encoded payload length and then the payload. |
| ProtocolWriterPlaceholder.LengthPrefixOverflow | 31-32 | When the payload is longer than the field's maximum (300 bytes after a `MarkU8`, say), `Close()` throws `InvalidOperationException` and stores nothing. |
| ProtocolWriterPlaceholder.ResetWrapsULongDistance | 29-33 | A `ulong` placeholder closed after `Reset` moved the writer before it does not throw. The negative distance wraps to 2^64 minus its position, which is stored. |

## Left out

- Null arrays handed to the codec functions (a `NullReferenceException`) are not modelled. A buffer is always a sequence.
- Nothing models a reader or a segment over a null array (a default `ArraySegment<byte>`).
- Aliasing and mutation are not modelled: two placeholders or a `Data` segment sharing the live array, or a segment watching later writes. In the value model a placeholder is applied to whichever writer it is given. Its `Issued` relation says which writers it is valid for.
- The writer operations other than `GrowChecked` require the written data to stay within 2^30 bytes (`ProtocolWriter.MaxCapacity`). Beyond that the C# doubling overflows and never ends, which module `Overflow` shows. `GrowChecked` is the growth for every request, failing there instead.
- The `_bytesInBuffer + requiredBytes` sum in `GrowToAccommodate` and the `int` position arithmetic of the writer are not modelled as wrapping. Below 2^30 they cannot wrap.
- The exception types and parameter names of `Array.Copy` (`ArgumentNullException("sourceArray")`, `ArgumentOutOfRangeException("srcIndex"/"length")`, `ArgumentException`) follow the .NET documentation. Array.Copy's source is not part of this model.
- The `Convert.ChangeType` in `Close` is modelled as exact, because the value has already been checked against `maxValue`, which fits the field's type.
- The CRC register is a `bv32` and the table is computed by its definition. The lookup table is a function (`TableEntry`), not a static array built once; `GenerateLookupTable` shows that the initialiser's loops produce exactly those entries.
- ValidationUtilities.ValidateArraySlice: compares `offset + count` with the length without wrap-around, as evidently intended. The written comparison, which wraps, is `Overflow.ValidateArraySliceAsWritten`.
- Crc32.Update: checks the range without wrap-around, so it rejects before folding any byte. The written guard and loop are `Overflow.UpdateAsWritten`.
- ProtocolReader.ThrowIfNotAvailable: compares `_position + bytes` with the end without wrap-around. The written check, which wraps, is part of `Overflow.SliceAsWritten`.
- ProtocolReader.Slice: uses the availability check and range validation without wrap-around. The written version, which can leave the position at -2^31, is `Overflow.SliceAsWritten`.
- ProtocolWriter.GrowChecked: the source has no such check, so the exception it reports, `OutOfMemory` (what .NET raises for an array it cannot allocate), is a choice of the model.
- Crc32.Value: states only the range of the value. That the value is the register XOR 0xFFFFFFFF is its definition, and `CheckValue` and `FreshValueIsZero` pin it down on concrete registers.
- The rest of the library is not part of this model: the WPF converters, streams (`SubsetStream`, `ConcatenatedReader`, `StreamExtensions`), text encoders, tasks, collections, events and exceptions.

## Findings

| source | as written | input that shows it | evidently intended | confidence | as-written member | corrected member |
|---|---|---|---|---|---|---|
| Cossack.Core/Miscellaneous/ValidationUtilities.cs:38 | `offset + count > array.Length` wraps in `int`, so a count that carries the end past `int.MaxValue` passes | 10 elements, offset 1, count 2147483647: the end wraps to -2^31 and the slice is accepted | reject every count with `offset + count` beyond the length | not executed | Overflow.ValidateArraySliceCounterexample | ValidationUtilities.ValidateArraySlice |
| Cossack.Core/Data/CRC32.cs:33-37 | the same wrapping guard; the loop then folds bytes into `_crc` until `buffer[offset + i]` throws `IndexOutOfRangeException` | 2 bytes, offset 1, count 2147483647: the last byte is folded in, then the index throws, and the CRC has changed | throw `ArgumentOutOfRangeException` before touching the register | not executed | Overflow.UpdateCounterexample | Crc32.Update |
| Cossack.Core/IO/ProtocolReader.cs:408-413 | `_position + bytes` wraps in `ThrowIfNotAvailable`, in the range constructor and in `_position += bytes` | a reader at position 1 of 2 bytes, `Slice(2147483647)`: it succeeds and leaves the parent at position -2^31, where the next `ReadU8` passes the check and indexes outside the array | throw `IndexOutOfRangeException` and leave the reader unchanged | not executed | Overflow.SliceCounterexample | ProtocolReader.Slice |
| Cossack.Core/IO/ProtocolWriter.cs:602-603 | `capacity *= 2` wraps: from 2^30 to -2^31, then to 0, and 0 for ever | a writer at 2^30 bytes of capacity asked for more than 2^30 bytes: the do-while never ends | stop at a capacity that fits, or fail | not executed | Overflow.GrowthNeverEnds | ProtocolWriter.GrowChecked |
