# libicd core, modelled in Dafny

libicd is a small C++ library that decodes and encodes raster tiles: JPEG (8-bit, with a
"Zen" APP3 segment carrying a mask of all-black pixels), PNG, LERC1 and QB3. Every codec gets
the same raster descriptor: a 5-dimensional size, a data type, a no-data value and a format.
A dispatcher reads the first four bytes of a buffer to pick the codec. This project models
that shared core, the LERC1 wrapper and the JPEG glue, and proves properties of the model.

Modules, one per part of the program:

- `Common` covers bytes, the `size_t` and `uint32_t` ranges and their wrap-around, and the
  little-endian and big-endian loads.
- `IcdCodecs` (`src/icd_codecs.h`, `src/icd_codecs.cpp`) covers the data types, `getDT`,
  `getTypeSize`, `getFMT`, the signatures, `sz5`, `Raster`, `storage_manager`,
  `codec_params`, `lerc_params`, `stride_decode`, `image_peek` and `Raster::init`.
- `Strided` is the layout every decoder writes: row `r` starts at byte `r * line_stride`, and
  bytes outside the rows keep their old value.
- `Lerc1Image` (`src/lerc1/Lerc1Image.h`) covers the `BitMaskV1` and `Lerc1Image` classes.
- `LercCodec` (`src/LERC_codec.cpp`) covers `READ_INT32`, `READ_FLOAT`, `checkV1`,
  `Lerc1ImgFill`, `Lerc1ImgUFill`, `lerc_stride_decode` and `lerc_encode`.
- `Jpeg8` (`src/JPEG8.cpp`) covers `skip_input_data_dec`, `zenChunkHandler`, `emitMessage`,
  `nzeros`, `update_mask`, the glue of `jpeg8_stride_decode`, and the Zen payload of
  `jpeg8_encode`.

Where the source updates an object in place, the model is a class:

- `codec_params`, `BitMaskV1`, `Lerc1Image`, the JPEG source manager and the handle.
- The mask `update_mask` clears.
- Caller buffers are `array<Byte>`.

Code that only computes is written as functions. The loops of `getDT`, `getFMT`,
`Lerc1ImgFill`, `Lerc1ImgUFill`, `nzeros`, `update_mask` and the scanline writes are methods
with loop invariants. Each method is proved against a specification function, and lemmas state
what those functions mean.

Code outside the core becomes a function parameter, and the model proves what the core does
with whatever such a parameter returns. That code is:

- libjpeg's `jpeg_read_header` and scanline loop;
- `Lerc1Image::read` and `write`;
- the RLE mask packers;
- `apply_mask`;
- the per-format peek and decode functions;
- the conversion of a value to the bytes of a C type.

## Model

| member | source | states |
|---|---|---|
| Common.ReadLeU32 | src/icd_codecs.cpp:66-67 | the value loaded is exactly the one whose little-endian storage is the four bytes at the offset |
| Common.LeRoundTrip | src/LERC_codec.cpp:24-27 | loading the four stored bytes of any 32-bit value gives the value back |
| Common.ReadBeU16 | src/JPEG8.cpp:99-100 | the length is below 2^16 and its high and low bytes are the two bytes read |
| IcdCodecs.DataTypeAliases | src/icd_codecs.h:106-122 | each alias equals the type it names, and every integer type orders before the floating point types |
| IcdCodecs.GetTypeSize | src/icd_codecs.cpp:34-50 | `n` for Byte; `2n`, `4n` and `8n` modulo 2^64 for the 16-, 32- and 64-bit types; all ones for every other value |
| IcdCodecs.TypeSizeExact | src/icd_codecs.cpp:34-50 | without wrap-around the size is the type width times `n`, is at least `n`, and is positive exactly when `n` is |
| IcdCodecs.TypeByName | src/icd_codecs.cpp:9-32 | a null name gives Byte; the result is always a known type, and it is not Byte exactly when the lower-cased name is one of the eleven recognised names |
| IcdCodecs.Lower | src/icd_codecs.cpp:14-16 | the name with every ASCII capital replaced by its small letter, as `std::tolower` does in the C locale; `TypeByNameIgnoresCase` states its use |
| IcdCodecs.GetDT | src/icd_codecs.cpp:9-32 | the copy, lower-case-in-place and compare loop returns `TypeByName` of the name |
| IcdCodecs.TypeByNameIgnoresCase | src/icd_codecs.cpp:14-16 | upper-casing a name first gives the same type |
| IcdCodecs.GetFMT | src/icd_codecs.cpp:52-61 | the result is format `i` exactly when the name is `IMG_NAMES[i]` for some `i` below IMG_UNKNOWN, and IMG_UNKNOWN exactly when no name matches; the empty name is unknown |
| IcdCodecs.SignatureBytes | src/icd_codecs.h:91-95 | each signature constant is the little-endian load of its format's magic bytes, and the five constants are distinct |
| IcdCodecs.FormatOfSignature | src/icd_codecs.cpp:69-90 | JPEG exactly for the two JPEG signatures, PNG, LERC and QB3 exactly for theirs, never IMG_ANY |
| IcdCodecs.Sz5.Equals | src/icd_codecs.h:145-148 | true exactly when the two sizes are equal |
| IcdCodecs.Sz5.NotEquals | src/icd_codecs.h:149-151 | true exactly when the two sizes differ |
| IcdCodecs.StorageManager.constructor | src/icd_codecs.h:156-157 | the manager holds the given buffer and size |
| IcdCodecs.CodecParams.constructor | src/icd_codecs.h:178-183 | the raster is copied, the stride is a tight row of `x * c` values, the message is empty and nothing is marked modified |
| IcdCodecs.CodecParams.Reset | src/icd_codecs.h:186-188 | the stride becomes the tight row size of the current raster |
| IcdCodecs.RowBytes | src/icd_codecs.h:186-188 | the default stride: `getTypeSize` of the `x * c` values of one row, with `size_t` wrap-around; `BufferIsRowsTimesStride` relates it to the buffer |
| IcdCodecs.BufferBytes | src/icd_codecs.h:190-192 | the bytes of all `x * y * c` values, with `size_t` wrap-around; `BufferIsRowsTimesStride` gives its meaning without wrap |
| IcdCodecs.CodecParams.GetBufferSize | src/icd_codecs.h:190-192 | for a known type and sizes that do not wrap, the buffer is `y` rows of the default stride |
| IcdCodecs.BufferIsRowsTimesStride | src/icd_codecs.h:186-192 | without wrap-around the buffer size is `y` times the default stride, and a non-empty row has a nonzero stride |
| IcdCodecs.LercPrecision | src/icd_codecs.h:222-226 | the precision is half the resolution, raised to 0.5 for integer types only, and never below either bound |
| IcdCodecs.LercParams.constructor | src/icd_codecs.h:222-226 | the common parameters are those of a fresh `codec_params`, and the precision is `LercPrecision` |
| IcdCodecs.ImagePeek | src/icd_codecs.cpp:95-113 | success only comes from a known signature of a buffer of at least four bytes; a shorter buffer or an unknown signature is an error with the raster left as it was |
| IcdCodecs.PeekByMagic | src/icd_codecs.cpp:95-113 | a buffer goes to a format's reader exactly when it starts with that format's magic bytes; every other prefix is refused as an unknown format |
| IcdCodecs.ShortBufferNeverRouted | src/icd_codecs.cpp:96-98 | for a short buffer the answer is the size error whatever the readers would do |
| IcdCodecs.RasterInit | src/icd_codecs.cpp:115-117 | initialising a raster is peeking into it |
| IcdCodecs.StrideDecode | src/icd_codecs.cpp:63-92 | the dispatcher itself changes only the raster's format, to the detected one (IMG_UNKNOWN for an unknown signature); the error is the chosen decoder's, or the unknown-format message |
| Strided.ScatterCell | src/LERC_codec.cpp:130-134 | byte `i` of cell (`r`, `c`), the cell at row-major index `k`, lands at byte `r * stride + c * sz + i` |
| Strided.ScatterGap | src/LERC_codec.cpp:130-134 | the bytes of a row after its cells keep their old value |
| Strided.ScatterBeyond | src/LERC_codec.cpp:130-134 | no byte at or after row `h` is touched |
| Strided.PutBytes | src/LERC_codec.cpp:134 | the buffer is overwritten at the offset by the bytes given and unchanged elsewhere |
| Lerc1Image.MaskSizeIsCeil | src/lerc1/Lerc1Image.h:48-51 | `1 + (n - 1) / 8` is the number of bytes needed for `n` bits, and one byte for an empty mask |
| Lerc1Image.MaskCovers | src/lerc1/Lerc1Image.h:48-51 | the byte of every pixel's bit is inside the mask |
| Lerc1Image.MaskSize | src/lerc1/Lerc1Image.h:48-51 | `size()` with C division truncating toward zero; `MaskSizeIsCeil` states what it counts |
| Lerc1Image.Bit | src/lerc1/Lerc1Image.h:86-89 | the bit of pixel `k` in its byte, most significant bit first |
| Lerc1Image.ValidIn | src/lerc1/Lerc1Image.h:61-64 | a pixel is valid when its bit is set in byte `k >> 3` |
| Lerc1Image.WithBit | src/lerc1/Lerc1Image.h:53-59 | `Set(k, v)` on the bytes keeps their number; `WithBitEffect` states that only pixel `k` changes |
| Lerc1Image.BitMaskV1.Size | src/lerc1/Lerc1Image.h:48-51 | the mask's byte count is `MaskSize` of its pixel count |
| Lerc1Image.BitMaskV1.IsValid | src/lerc1/Lerc1Image.h:61-64 | the object's `IsValid(k)` is `ValidIn` of its bytes |
| Lerc1Image.WithBitEffect | src/lerc1/Lerc1Image.h:53-64 | after `Set(k, v)`, `IsValid(k)` is `v` and every other pixel reads as before |
| Lerc1Image.ZeroMaskInvalid | src/lerc1/Lerc1Image.h:66-71 | every pixel of a zero-filled mask reads invalid |
| Lerc1Image.BitMaskV1.constructor | src/lerc1/Lerc1Image.h:44-46 | an empty mask of 0 by 0 pixels |
| Lerc1Image.BitMaskV1.SetValid | src/lerc1/Lerc1Image.h:91-94 | the pixel's bit is or-ed into its byte |
| Lerc1Image.BitMaskV1.SetInvalid | src/lerc1/Lerc1Image.h:96-99 | the pixel's bit is and-ed out of its byte |
| Lerc1Image.BitMaskV1.Set | src/lerc1/Lerc1Image.h:53-59 | the bits become `WithBit(bits, k, v)` and the mask stays consistent |
| Lerc1Image.BitMaskV1.Resize | src/lerc1/Lerc1Image.h:66-71 | the dimensions are stored and the byte vector is resized to `size()`, keeping its prefix and zero-filling |
| Lerc1Image.Lerc1Image.constructor | src/lerc1/Lerc1Image.h:110-112 | an empty 0 by 0 image with an empty mask |
| Lerc1Image.Lerc1Image.GetSize | src/lerc1/Lerc1Image.h:136-139 | the pixel count `width * height` |
| Lerc1Image.Lerc1Image.Get | src/lerc1/Lerc1Image.h:141-144 | the value at row-major index `row * width + col`, which is in range for every cell |
| Lerc1Image.Lerc1Image.IsValid | src/lerc1/Lerc1Image.h:167-170 | the mask bit of the cell at `row * width + col` |
| Lerc1Image.Lerc1Image.SetSize | src/lerc1/Lerc1Image.h:118-124 | the dimensions are stored, the values are resized to `w * h` and it reports success; the mask is untouched |
| Lerc1Image.Lerc1Image.Resize | src/lerc1/Lerc1Image.h:161-165 | values and mask both take the new dimensions, and the image is consistent |
| Lerc1Image.Lerc1Image.Put | src/lerc1/Lerc1Image.h:146-149 | exactly the value at `row * width + col` changes |
| Lerc1Image.Lerc1Image.SetMask | src/lerc1/Lerc1Image.h:172-175 | the mask bit at `row * width + col` is set to `v` |
| Lerc1Image.SetMaskEffect | src/lerc1/Lerc1Image.h:167-175 | after `SetMask(row, col, v)`, `IsValid` is `v` at that cell and unchanged at every other cell |
| Lerc1Image.Lerc1Image.Assign | src/LERC_codec.cpp:152 | after a successful read the image holds the decoded tile and is consistent |
| LercCodec.ReadInt32 | src/LERC_codec.cpp:24-27 | the value's storage is the four bytes at the cursor, and the cursor advances by four |
| LercCodec.ReadFloat | src/LERC_codec.cpp:30-33 | the float's bit pattern is stored in the four bytes at the cursor, and the cursor advances by four |
| LercCodec.IsZeroOrOne | src/LERC_codec.cpp:107-109 | the mask maximum is `0.0`, `-0.0` or `1.0`, compared by bit pattern |
| LercCodec.CheckV1Prefix | src/LERC_codec.cpp:83-109 | the fixed header is accepted exactly when every field is as required, leaving the mask byte count and the cursor at offset 50 |
| LercCodec.CheckV1Data | src/LERC_codec.cpp:114-124 | when the mask and the data header fit, no read passes the end, and the check accepts exactly when the block counts are at most 10000 and the data bytes fit |
| LercCodec.CheckV1 | src/LERC_codec.cpp:83-125 | the corrected check never reads past the buffer, rejects buffers under 67 bytes, and accepts exactly the well-formed LERC1 headers |
| LercCodec.CheckV1Core | src/LERC_codec.cpp:83-125 | the header check with the guard at line 112 in `uint32_t` or in full, as `wrap32` selects |
| LercCodec.CheckV1AsWritten | src/LERC_codec.cpp:83-125 | `checkV1` as written, with the 32-bit guard; `AsWrittenAgreesBelowWrap` and `GuardWrapOverrun` state where it differs from `CheckV1` |
| LercCodec.V1HeaderOk | src/LERC_codec.cpp:83-125 | the reference definition of a well-formed LERC1 header: the fixed fields, the mask, the two block counts and the data all inside the buffer; `CheckV1` accepts exactly these |
| LercCodec.AsWrittenAgreesBelowWrap | src/LERC_codec.cpp:112-113 | the 32-bit guard and the corrected one agree whenever the mask byte count is below 2^32 - 66 |
| LercCodec.WrappedGuardOverruns | src/LERC_codec.cpp:112-118 | when the sum wraps to at most the buffer length, the guard passes and the next read starts past the end |
| LercCodec.WrapHeaderFields | src/LERC_codec.cpp:84-109 | the 67-byte example header passes every fixed check and declares 0xFFFFFFFF mask bytes |
| LercCodec.GuardWrapOverrun | src/LERC_codec.cpp:112-118 | as written, the example header passes the guard and the next read is at offset 50 + 0xFFFFFFFF |
| LercCodec.GuardWrapRejected | src/LERC_codec.cpp:112-113 | the corrected check rejects the same header |
| LercCodec.MaskOfValid | src/LERC_codec.cpp:46-51 | each pixel set so far is valid exactly when its value differs from the no-data value; the others keep their bit |
| LercCodec.MaskOf | src/LERC_codec.cpp:46-51 | the mask after the first `k` pixels have their bit set by the no-data test, with as many bytes as the base; `MaskOfValid` states the result |
| LercCodec.FilledImage | src/LERC_codec.cpp:40-52 | the filled image is consistent: `w * h` values and a mask of `size()` bytes |
| LercCodec.FilledImagePixel | src/LERC_codec.cpp:46-51 | pixel `k` of the filled image holds `src[k]`, and it is valid exactly when `src[k]` is not the no-data value |
| LercCodec.Lerc1ImgFill | src/LERC_codec.cpp:40-52 | the image is resized to `w` by `h` and holds the first `w * h` source values with the mask `MaskOf` gives |
| LercCodec.FillRow | src/LERC_codec.cpp:47-51 | one row of values and mask bits is filled, extending the row-major prefix |
| LercCodec.FillPixel | src/LERC_codec.cpp:48-50 | one pixel takes its source value and validity bit, extending the row-major prefix by one |
| LercCodec.Lerc1ImgUFill | src/LERC_codec.cpp:127-136 | the buffer becomes the strided layout of the image's cells: the value for valid pixels, the no-data value otherwise |
| LercCodec.UFillRow | src/LERC_codec.cpp:130-135 | one row's cells are written at `row * stride`, advancing the partial layout |
| LercCodec.UFillElement | src/LERC_codec.cpp:134 | one element is written where the pointer stands, advancing the partial layout by one cell and the pointer by one element |
| LercCodec.UFillPixel | src/LERC_codec.cpp:130-134 | byte `i` of element (`r`, `c`) is byte `i` of the stored value if the pixel is valid, and of the no-data value otherwise |
| LercCodec.UFillCells | src/LERC_codec.cpp:127-136 | one cell of `sz` bytes per pixel, row-major, each the stored value of a valid pixel and of the no-data value otherwise |
| LercCodec.DecodeStride | src/LERC_codec.cpp:146-147 | a zero `line_stride` becomes the type size of one row of `x` values; any other is kept |
| LercCodec.LercStrideDecode | src/LERC_codec.cpp:138-171 | each error in order: multi-band, header check, failed read, wrong size. The default stride is set once the header passes, and the buffer receives the strided layout of the tile only when every check passes |
| LercCodec.FillFromTile | src/LERC_codec.cpp:148-170 | a failed read and a size mismatch are errors with the buffer untouched; otherwise there is no error and the buffer gets the strided layout of the tile's cells (untouched for a type the switch skips) |
| LercCodec.LercEncode | src/LERC_codec.cpp:54-80 | an unsupported type fails with nothing written. Otherwise the filled image is written: a failed write is an error; output longer than the capacity is the overflow error with the size kept; else the size becomes the encoded length |
| Jpeg8.CInt | src/JPEG8.cpp:256-258 | a value cast to 32-bit `int` is in range, at most the value, congruent to it modulo 2^32, and equal to it below 2^31 |
| Jpeg8.ToSizeT | src/JPEG8.cpp:105 | a negative `int` converted to `size_t` gains 2^64; others are unchanged |
| Jpeg8.SourceManager.constructor | src/JPEG8.cpp:157 | the cursor starts at the first byte with every byte remaining |
| Jpeg8.SkipAmount | src/JPEG8.cpp:58-64 | the skip is `min(l, remaining)` for a non-negative `l`, everything left for a negative one, never more than is left |
| Jpeg8.SkipInputData | src/JPEG8.cpp:58-64 | the cursor advances by the skip amount and stays consistent with the input |
| Jpeg8.SourceManager.Position | src/JPEG8.cpp:157 | the source manager's `next_input_byte` and `bytes_in_buffer` as one cursor |
| Jpeg8.CompareZenFrom | src/JPEG8.cpp:109 | a match exactly when the remaining signature bytes are present, an over-read exactly when the input ends while the bytes still agree |
| Jpeg8.CompareZen | src/JPEG8.cpp:109 | a match exactly when the four bytes `"Zen\0"` are at the cursor, an over-read exactly when the input ends inside an agreeing prefix |
| Jpeg8.App3 | src/JPEG8.cpp:92-128 | as written: a refused length exactly when the length bytes are missing, below 2, or longer than what is left. An over-read exactly when the signature compare reaches the end. Otherwise the cursor lands after the declared segment, and a match records the chunk after the signature |
| Jpeg8.JpgHandle.constructor | src/JPEG8.cpp:152 | an empty message and a null Zen chunk |
| Jpeg8.ZenChunkHandler | src/JPEG8.cpp:92-128 | the handler's exit, new cursor and new chunk are `App3` of the old ones |
| Jpeg8.App3Fixed | src/JPEG8.cpp:92-128 | corrected: the same refusals, never an over-read, the cursor after the segment, and a recorded chunk that starts after the signature and ends at the segment's end |
| Jpeg8.FixedAgreesOnLongSegments | src/JPEG8.cpp:105-113 | on every segment long enough for the signature the corrected handler behaves as written |
| Jpeg8.ShortSegmentWraps | src/JPEG8.cpp:105-123 | as written, a 5-byte segment whose signature compare reads one byte past its end is taken as a Zen chunk starting past the segment, with a size of 2^64 - 1 |
| Jpeg8.ShortSegmentSkipped | src/JPEG8.cpp:105-113 | the corrected handler skips that segment and records nothing |
| Jpeg8.ErrorManager.constructor | src/JPEG8.cpp:153-154 | the warning count starts at zero |
| Jpeg8.EmitStep | src/JPEG8.cpp:29-38 | trace messages change nothing; every warning is counted; the text is stored exactly while the earlier count is within the limit |
| Jpeg8.EmitMessage | src/JPEG8.cpp:29-38 | as written: one step of `EmitStep` that keeps a message while the earlier count is at most 1 |
| Jpeg8.EmitMessageFirst | src/JPEG8.cpp:34-37 | corrected: one step that keeps a message only when no warning came before |
| Jpeg8.EmitAll | src/JPEG8.cpp:29-38 | `emitMessage` applied to each message in turn; `EmitAllKeeps` states the result |
| Jpeg8.Warnings | src/JPEG8.cpp:32-35 | the texts of the warnings among the messages, in order, never more than the messages |
| Jpeg8.EmitAllKeeps | src/JPEG8.cpp:29-38 | over any message sequence the count is the number of warnings, and the message kept is warning number `min(n, limit + 1)` |
| Jpeg8.FirstWarningKept | src/JPEG8.cpp:34-37 | the corrected filter keeps the first warning |
| Jpeg8.SecondWarningOverwrites | src/JPEG8.cpp:34-37 | as written, two warnings leave the second; the corrected filter leaves the first |
| Jpeg8.RowZeros | src/JPEG8.cpp:259-266 | the all-zero pixels among the first `x` of row `y`; `RowZerosNone` states its bounds |
| Jpeg8.Zeros | src/JPEG8.cpp:252-270 | the all-zero pixels of the first `y` rows; `ZerosNone` states its bounds |
| Jpeg8.RowZerosNone | src/JPEG8.cpp:259-266 | a row counts at most its pixels, and zero exactly when none of them is all-zero |
| Jpeg8.ZerosNone | src/JPEG8.cpp:252-270 | the count is at most `y * w`, and zero exactly when no pixel in the scanned rows is all-zero |
| Jpeg8.PixelIsZero | src/JPEG8.cpp:261-263 | the and-accumulation is true exactly when every sample of the pixel is 0 |
| Jpeg8.NZeros | src/JPEG8.cpp:252-270 | the count is `Zeros` over the sizes cast to `int`, rows `line_stride` apart |
| Jpeg8.CountRow | src/JPEG8.cpp:260-266 | one row's count of all-zero pixels |
| Jpeg8.BitMask.constructor | src/JPEG8.cpp:324 | a full mask of the given dimensions |
| Jpeg8.BitMask.Clear | src/JPEG8.cpp:286 | exactly the flag of pixel (`y`, `x`) becomes false |
| Jpeg8.ClearedRow | src/JPEG8.cpp:281-289 | the mask after the first `x` pixels of row `y` are scanned, the same length as before; `ClearedRowAt` states which flags are cleared |
| Jpeg8.ClearedRows | src/JPEG8.cpp:280-291 | the mask after the first `y` rows are scanned, the same length as before; `ClearedRowsAt` states which flags are cleared |
| Jpeg8.ClearedRowAt | src/JPEG8.cpp:281-289 | after scanning part of a row, a flag is cleared exactly for the all-zero pixels scanned |
| Jpeg8.ClearedRowsAt | src/JPEG8.cpp:280-291 | after scanning `y` rows, a flag is cleared exactly for the all-zero pixels of those rows |
| Jpeg8.UpdateMaskEffect | src/JPEG8.cpp:272-293 | once every row is scanned, a flag is cleared exactly on an all-zero pixel and kept as it was on every other pixel |
| Jpeg8.UpdateMask | src/JPEG8.cpp:272-293 | the mask becomes `ClearedRows` of the old mask and the count returned is the same `Zeros` that `nzeros` computes |
| Jpeg8.UpdateRow | src/JPEG8.cpp:281-289 | one row's flags cleared and counted |
| Jpeg8.HeaderChecks | src/JPEG8.cpp:184-195 | no message exactly when there was none and the image is decodable for the raster. A size mismatch always reports the size error, and the message is one of the five possible ones |
| Jpeg8.Decodable | src/JPEG8.cpp:184-195 | the image is 1 or 3 bands, single-scan, Huffman-coded, 8-bit and of the raster's width and height |
| Jpeg8.JpegStride | src/JPEG8.cpp:198-200 | a zero `line_stride` becomes `c * x` bytes; any other is kept |
| Jpeg8.FullMask | src/JPEG8.cpp:229 | a `w` by `h` mask with every flag set, as a fresh `BitMap2D` |
| Jpeg8.CheckHeader | src/JPEG8.cpp:184-195 | the message buffer ends as `HeaderChecks` of the header and the message it held |
| Jpeg8.WriteRows | src/JPEG8.cpp:207-213 | the rows delivered are stored `line_stride` apart and the rest of the buffer is untouched |
| Jpeg8.Jpeg8StrideDecode | src/JPEG8.cpp:139-248 | the full outcome: wrong data type, header fatal error, and header-check errors, with the buffer untouched; then fatal and warning messages after the scan; no Zen chunk means not modified; a failed mask load is reported; otherwise the mask is applied and `modified` records whether any pixel changed |
| Jpeg8.ApplyZen | src/JPEG8.cpp:224-247 | nothing marked modified and no change without a Zen chunk; a chunk whose mask does not load is an error with the buffer untouched; otherwise the mask (full for an empty chunk) is applied and its report sets `modified` |
| Jpeg8.ZeroMask | src/JPEG8.cpp:322-325 | the encoder's mask: a full mask cleared by `update_mask` over the image, with one flag per pixel; `ZeroMaskAt` states which are clear |
| Jpeg8.ZeroMaskAt | src/JPEG8.cpp:322-325 | in the mask the encoder builds, a flag is clear exactly on an all-zero pixel |
| Jpeg8.StoreZenMask | src/JPEG8.cpp:324-330 | the bytes stored come from packing the zero mask into a region twice `mask.size()` bytes long |
| Jpeg8.ZenPayload | src/JPEG8.cpp:315-334 | as written: an empty payload when no pixel is all-zero, else `"Zen\0"` followed by the stored mask |
| Jpeg8.ZenPayloadFixed | src/JPEG8.cpp:316-334 | corrected: `"Zen\0"` alone when no pixel is all-zero, else `"Zen\0"` followed by the stored mask |
| Jpeg8.EmptyPayloadMeansNoZeros | src/JPEG8.cpp:323 | the zero count is 0 exactly when no pixel of the image is all-zero |
| Jpeg8.App3Segment | src/JPEG8.cpp:359-361 | the segment is the payload behind its two length bytes |
| Jpeg8.ZenSegmentRoundTrip | src/JPEG8.cpp:359-361 | the decoder's handler, run on a Zen segment the encoder wrote, records exactly the stored mask bytes and resumes after the segment |
| Jpeg8.EmptySegmentSkipped | src/JPEG8.cpp:316-320 | an empty APP3 segment is skipped by the decoder's handler, and no Zen chunk is recorded |

## Left out

- PNG, QB3 and netpbm codecs, and the per-format `*_peek` functions: not part of this model. They appear only as the `peek` and `decode` parameters of the dispatcher.
- libjpeg itself is the `readHeader` and `scan` parameters: header parsing, Huffman and DCT decoding, colour conversion and the `setjmp`/`longjmp` control flow. A fatal `errorExit` is modelled as the scan outcome's `fatal` field.
- The bodies of `BitMap2D`, `BitMask::store`, `BitMap2D::load`, the RLE packers and `apply_mask` are not part of this model. They are the `store`, `loadMask` and `applyMask` parameters.
- `Lerc1Image::read`, `write`, the RLE mask codec and `getwh` are not part of this model. They are the `read` and `write` parameters.
- `set_lerc_params` is not modelled: it is not part of the core here.
- Floating point: values are `real`, and the cast to each C type is the `store` parameter. The no-data test is exact equality rather than `FIsEqual`. `FIsEqual` calls an unqualified `abs` on a `float` (src/LERC_codec.cpp:37) without including `<cmath>`, so its tolerance depends on which `abs` overload the compiler picks: `1e-12` for the `float` one, or a difference under 1 after truncation for `int abs(int)`. A value within that tolerance of the no-data value, but not equal to it, is valid in the model and invalid in the source. The `float` mask maximum in `checkV1` is compared by its bit pattern.
- The big-endian branch of the signature reading is not modelled; LERC1 only builds on little-endian machines.
- libjpeg's own fields in `jpeg8_encode` are not modelled: quality, colour space, the scanline loop over the packed `linesize`, and `dst.size -= free_in_buffer`.
- `nzeros` and `update_mask` step through `line_stride` bytes per row, while the scanline loop steps `linesize` bytes. The model covers only the mask scan.
- Jpeg8.UpdateMask: requires the mask dimensions below 2^31. The source converts them to `int` as `unsigned` values, and larger ones would turn the loops negative.
- LercCodec.LercEncode: writing past the end of `dst.buffer` is not modelled. The model clips the written bytes to the buffer, while the source reports the overflow only after `write` has already run past the capacity. It requires the raster's `x * y` to fit an `int`, as `Lerc1ImgFill` does. `src` is the sequence of values already converted to `real`, not `src.buffer` read as the C type `T` by `FILL(T)` (src/LERC_codec.cpp:58-64). A failing `write` is modelled as writing nothing, so the ensures that `dst.buffer` is unchanged on that path is a property of the model only: `Lerc1Image::write` writes through the destination pointer (src/lerc1/Lerc1Image.h:178), and bytes it may have left in `dst.buffer` before failing (src/LERC_codec.cpp:71-72) are not modelled.
- LercCodec.Lerc1ImgFill: requires non-negative sizes whose product fits an `int`, and `w * h` source values. The `static_cast<int>` of `rsize.x` and `rsize.y` (src/LERC_codec.cpp:42-43), an `int` overflow of `w * h`, and reads past the end of `src` are not modelled.
- LercCodec.LercStrideDecode: the tile is checked with the corrected `CheckV1`, not with `CheckV1AsWritten`. A mask byte count within 66 of 2^32 passes the guard at src/LERC_codec.cpp:112 and reads past the tile in the source (`GuardWrapOverrun`), but is rejected by the model.
- Lerc1Image.BitMaskV1.Resize: requires non-negative dimensions whose product fits an `int`. The `int` overflow of `m_nCols * m_nRows` in `size()` (src/lerc1/Lerc1Image.h:48-51) and the `length_error` of resizing to a negative size converted to `size_t` are not modelled.
- Lerc1Image.Lerc1Image.SetSize: requires non-negative dimensions whose product fits an `int`; the `int` overflow of `width * height` and a negative size converted to `size_t` are not modelled.
- Lerc1Image.Lerc1Image.Resize: requires the same range as `SetSize` and `BitMaskV1.Resize`, for the same reason.
- Jpeg8.StoreZenMask: `maskBytes` stands for `mask.size()`. The body of `BitMask` is not part of this model, so it is a free parameter, not derived from the dimensions.
- Jpeg8.ZenPayload: `maskBytes` is the same free parameter. The requires that the packed mask fits `2 * maskBytes` bytes is what the source assumes of the RLE packer without checking.
- Jpeg8.ZenPayloadFixed: the same free `maskBytes` and the same assumption about the packer as `ZenPayload`.
- Jpeg8.Jpeg8StrideDecode: the `apply_mask` result is clipped to the buffer length. Rows delivered before a fatal error are modelled as whole rows.
- IcdCodecs.StrideDecode: requires at least four bytes of input, because the source loads the signature without a length check. The decoders' own effects are not carried through: `decode` is a pure parameter that returns only the error, so what `lerc_stride_decode` and `jpeg8_stride_decode` do to `params.line_stride`, `error_message`, `modified` and the output buffer is stated by `LercCodec.LercStrideDecode` and `Jpeg8.Jpeg8StrideDecode`, not by the dispatcher.
- Jpeg8.NZeros: requires the scanned rows to lie inside the source buffer, which the caller's storage must hold; the source does not check this.
- Concurrency, memory allocation failures and the `error_message` buffer length of 1024 are not modelled.

## Findings

| source | as written | input that shows it | evidently intended | confidence | as-written member | corrected member |
|---|---|---|---|---|---|---|
| src/LERC_codec.cpp:112 | `msz + 50 + 16 > sz` is computed in `uint32_t`, so a mask byte count of at least 2^32 - 66 wraps and passes the guard | the 67-byte `WrapHeader`: a valid fixed header with `msz = 0xFFFFFFFF`; the sum wraps to 65, and the next read is at offset 50 + 0xFFFFFFFF | the guard compares the full sum, so the mask and data header must fit in the buffer | not executed | LercCodec.GuardWrapOverrun | LercCodec.CheckV1 |
| src/JPEG8.cpp:105-123 | the `"Zen"` compare runs even when the segment is shorter than the 4-byte signature; `len - 4` then goes negative and wraps in `size_t` | `00 05 5A 65 6E 00 FF D9`: a 5-byte APP3 segment whose signature compare reads one byte past its end (the `00`) records a chunk at offset 6 of size 2^64 - 1 | only segments at least 6 bytes long can carry the signature; shorter ones are skipped | not executed | Jpeg8.ShortSegmentWraps | Jpeg8.App3Fixed |
| src/JPEG8.cpp:34-35 | `num_warnings++ > 1` lets the first two warnings through, so the second overwrites the first | the warnings "first" then "second" leave "second" in the message | as the comment says, store only the first warning (`> 0`) | not executed | Jpeg8.SecondWarningOverwrites | Jpeg8.FirstWarningKept |
| src/JPEG8.cpp:316-320 | with no all-zero pixel the chunk size stays 0, so the APP3 segment is written empty, without the signature | any image without an all-zero pixel: the empty segment `00 02` is skipped by the decoder, so no full mask is applied | the comment and the decoder (src/JPEG8.cpp:231) expect the bare `"Zen\0"` signature, a zero-size chunk meaning a full mask | not executed | Jpeg8.EmptySegmentSkipped | Jpeg8.ZenPayloadFixed |
