# png.py in Dafny

A model of the `PNG` class of `png.py`, a small decoder and encoder for
8-bit RGB, non-interlaced PNG files (RFC 2083). The class keeps the bytes of
a file, the seven IHDR fields read from it and the decoded image. It
provides these operations:

- `valid_png` and `read_header` check the 8-byte signature and the IHDR tag,
  then read the header fields from bytes 16..29.
- `read_chunks` walks the records from offset 33 and gathers the IDAT
  payloads up to the first IEND. It decompresses them and hands them to
  `process_data`.
- `process_data` strips one filter byte per scanline and undoes the Sub, Up,
  Average and Paeth filters (`unfilter_1` .. `unfilter_4`, section 6 of
  RFC 2083) with mod-256 byte arithmetic. It then cuts each row into 3-byte
  pixels.
- `save_rgb` keeps one colour channel of the image and zeroes the other
  two. It lays the rows out behind filter byte 0 and frames the signature,
  IHDR, IDAT and IEND records with `_create_chunk` and `_to_bytes`.

The modules follow that structure:

| module | contents |
|---|---|
| `Bytes` | bytes, Python's clamping slices, `int.from_bytes` / `int.to_bytes` (big-endian) |
| `Errors` | one constructor per exception the class raises |
| `Compression` | `crc32`, `compress` and `decompress`, passed in as functions |
| `Chunks` | record framing (`_create_chunk`) and the record scan of `read_chunks` |
| `Header` | `valid_png`, `read_header`, and the IHDR payload `save_rgb` writes |
| `Scanlines` | the five filters, their reconstruction recurrence, and the `unfilter_*` loops |
| `Decoding` | the scanline layout and the row loop of `process_data`, as a function |
| `Encoding` | the channel projection and the file layout of `save_rgb`, as functions |
| `Png` | the class `PNG`, with its fields and the methods that update them, plus the loops they run |
| `RoundTrip` | what `read_header` and `read_chunks` make of the file `save_rgb` writes |

Each loop of the source is a Dafny method. Each method is proved against a
function that states what the loop computes: `Unfiltered` for the
`unfilter_*` loops, `DecodeImage` for `process_data`, `IdatPayload` for the
scan of `read_chunks`, and `EncodeRgb` for `save_rgb`. The properties of
those functions are proved as lemmas. Exceptions are modelled as a
`Failure` carrying an `Error`, in the order the source raises them.

## Model

| member | source | states |
|---|---|---|
| Png.PNG.constructor | png.py:6-19 | a new object has no data, an empty info string, every header field 0 and an empty image |
| Bytes.Slice | png.py:149-152 | Python's clamping slice `s[lo:hi]`: its length is the part of lo..hi inside s (0 for an empty or out-of-range range), its byte k is byte lo + k of s, and within bounds it is the ordinary slice |
| Bytes.BeValue | png.py:72-78 | `int.from_bytes(s)` in big-endian order, 0 for the empty sequence; the value is below 256^len(s). `BeValueInjective` and `FromBytesThenToBytes` pin it down as the inverse of `to_bytes` |
| Header.ValidPng | png.py:36-49 | true exactly when the data has at least 8 bytes and they are the PNG signature (empty data is not valid) |
| Header.ParseHeader | png.py:60-78 | success exactly when the signature matches and bytes 12..16 are `IHDR`; NotValidPng on a bad signature, otherwise InvalidIhdr; on a full header, width and height are the big-endian values of bytes 16..20 and 20..24 and the other five fields are bytes 24..28 in order; the declared IHDR length is not consulted |
| Png.PNG.ReadHeader | png.py:51-78 | on success the seven fields hold the parsed header; on a ValueError the object is left unchanged; data, info and img never change |
| Bytes.ToBytes | png.py:199-201 | success exactly when the value fits in len bytes (otherwise OverflowError), and the bytes then have length len and big-endian value n |
| Bytes.BeBytes | png.py:199-201 | the len-byte big-endian encoding of a value that fits: it has len bytes and reads back, by `int.from_bytes`, as that value |
| Bytes.BeValueInjective | png.py:72-73 | two byte strings of one length with the same big-endian value are equal |
| Bytes.FromBytesThenToBytes | png.py:199-201 | `to_bytes` at the original length, applied to what `int.from_bytes` reads, gives the bytes back |
| Chunks.CreateChunk | png.py:203-213 | fails with OverflowError exactly when the payload has 2^32 bytes or more; otherwise the record has 12 + len(data) bytes: the big-endian length, the tag, the payload, and the big-endian CRC of tag + payload mod 2^32 |
| Chunks.CrcMask | png.py:209 | after `& 0xffffffff` any value lies in 0 .. 2^32 - 1, so it fits the 4-byte CRC field; a value already in that range, such as Python 3's unsigned crc32, is unchanged |
| Chunks.CreateChunkFields | png.py:203-213 | a record with a 4-byte tag: length field, tag at bytes 4..8, payload from byte 8 on |
| Chunks.ChunkLength | png.py:149 | `chunk_length`: the big-endian value of the (clamped) 4-byte length field, so below 2^32, and on a complete field the value of bytes offset..offset + 4 |
| Chunks.ChunkType | png.py:150 | `chunk_type`: at most 4 bytes, and bytes offset + 4..offset + 8 when the data reaches that far |
| Chunks.ChunkData | png.py:151 | `chunk_data`: never longer than the declared length, and exactly the declared bytes from offset + 8 when the data holds them; `RecordFields` shows it is the payload of a laid-out record |
| Chunks.NextOffset | png.py:158 | `offset += 8 + chunk_length + 4`: the next record starts at least 12 bytes further on, which is why the scan terminates |
| Chunks.IdatPayload | png.py:148-158 | the IDAT payloads from offset on, in file order, up to the end of the data or the first IEND; what it gathers is never longer than the bytes scanned. `ScanStep`, `ScanDone` and `Png.CollectIdat` tie it to the loop |
| Chunks.ScanStep | png.py:148-158 | a pass over a record that is not IEND adds its payload if it is IDAT, skips it otherwise, and moves on to the next record, keeping the scan invariant |
| Chunks.ScanDone | png.py:148-157 | when the scan stops, at the end of the data or at IEND, what it gathered is the whole IDAT stream |
| Chunks.ScanRecord | png.py:154-158 | unfolds IdatPayload at one record with known fields: IEND ends the scan; any other record contributes its payload only if it is IDAT |
| Chunks.RecordFields | png.py:149-152 | the length, type and data the scan slices out of a laid-out record are its own, and the next offset is right after it |
| Chunks.ScanIdatThenIend | png.py:154-157 | an IDAT record followed by an IEND record yields exactly the IDAT payload |
| Chunks.IdatPayloadOfSavedRecords | png.py:148-158 | the records `_create_chunk` writes for IDAT then IEND scan back to exactly the compressed data |
| Png.CollectIdat | png.py:145-158 | the loop gathers exactly the IDAT payloads, in file order, from offset 33 up to the first IEND; each pass moves past 12 + length bytes, so it terminates |
| Png.ReadImage | png.py:142-160 | ValueError when width or height is 0; the zlib error when the gathered stream does not decompress; otherwise the decoded image |
| Png.PNG.ReadChunks | png.py:137-160 | on success img is the image decoded from the IDAT stream; on an exception img keeps its old value; no other field changes |
| Scanlines.FilterOf | png.py:181-190 | filter bytes 0, 1, 2, 3 and 4 select None, Sub, Up, Average and Paeth, each exactly |
| Scanlines.PaethPredictor | png.py:123-132 | the inline choice of `unfilter_4` among left, above and upper left, by the distances pa, pb, pc to p = left + above - upper left; `PaethPredictorNearest` states what it picks |
| Scanlines.Predict | png.py:91-132 | the prediction each filter adds to a byte: 0 for None, left for Sub, above for Up, floor((left + above) / 2) for Average, the Paeth predictor for Paeth; `UnfilteringIffUnfiltered` pins down the row it produces |
| Scanlines.Reconstruct | png.py:92-134 | a reconstructed byte is (filtered byte + prediction) mod 256; `SubBytes` and `UnfilterUp` spell it out for Sub and Up |
| Scanlines.Unfiltered | png.py:89-135 | the row reconstructed left to right under one filter, with the same length as the filtered row; `UnfilteringIffUnfiltered` shows it is the one row satisfying the reconstruction equation |
| Scanlines.PaethPredictorNearest | png.py:123-132 | the Paeth predictor is one of left, above and upper left, and lies nearest to p = left + above - upper left; ties go to left, then to above |
| Scanlines.UnfilteredIsUnfiltering | png.py:89-135 | the row Unfiltered builds satisfies, byte by byte, the reconstruction equation of its filter over the bytes to its left and the row above |
| Scanlines.UnfilteringUnique | png.py:89-135 | two rows that satisfy the reconstruction equation of one filter over one filtered row are equal |
| Scanlines.UnfilteringIffUnfiltered | png.py:89-135 | a row satisfies the reconstruction equation exactly when it is Unfiltered |
| Scanlines.UnfilteredSnoc | png.py:90-92 | unfolds Unfiltered by one byte: reconstructing one more byte appends that byte's reconstruction to the bytes already reconstructed |
| Scanlines.UnfilterSub | png.py:80-93 | `unfilter_1` returns the Sub reconstruction of the row |
| Scanlines.SubBytes | png.py:89-93 | under Sub the result has the row's length, the first bpp bytes stand as they are, and every later byte is (byte + the result byte bpp places left) mod 256 |
| Scanlines.SubIgnoresAbove | png.py:183-184 | the Sub reconstruction does not depend on the row above, so calling `unfilter_1` without the previous row loses nothing |
| Scanlines.SubExample | png.py:89-93 | [5,5,5,10,10,10] with 3 bytes per pixel reconstructs to [5,5,5,15,15,15] |
| Scanlines.UnfilterUp | png.py:95-103 | `unfilter_2` returns a row of the same length: the row itself when there is no previous row, otherwise (byte + byte above) mod 256 at each column |
| Scanlines.UpSolves | png.py:99-103 | what `unfilter_2` returns is the Up reconstruction |
| Scanlines.UnfilteredUpFirstRow | png.py:101 | Up over the first row, with nothing above, leaves the row unchanged |
| Scanlines.UnfilterAverage | png.py:105-113 | `unfilter_3` returns the Average reconstruction, whose prediction is floor((left + above) / 2) |
| Scanlines.UnfilterPaeth | png.py:115-135 | `unfilter_4` returns the Paeth reconstruction; the inline choice of predictor is the Paeth predictor of left, above and upper left |
| Scanlines.UnfilteredNoneIsIdentity | png.py:181-182 | filter 0 returns the row as it stands, whatever the row above |
| Decoding.Group | png.py:194 | the pieces put back together give the row; every piece has 1 to 3 bytes, and all but the last have exactly 3 |
| Decoding.GroupExact | png.py:194 | a row of exactly 3 * m bytes cuts into m pixels of 3 bytes each |
| Decoding.RowOffset | png.py:173-179 | where row k's filter byte sits: each row moves `offset` on by 1 + width * 3; `RowOffsetIsMultiple` shows it is k * (1 + width * 3) |
| Decoding.RowOffsetIsMultiple | png.py:173-179 | row k starts k strides of 1 + width * 3 bytes into the stream |
| Decoding.RowData | png.py:178 | `row_data`: the clamped slice after row k's filter byte, never longer than width * 3 bytes; `RowDataFull` shows it is exactly width * 3 bytes on a long enough stream |
| Decoding.RowError | png.py:176-192 | the exception of a bad row: IndexError when its filter byte lies past the end, otherwise ValueError with that byte; `DecodeRowsFirstError` shows decoding raises the first bad row's |
| Decoding.DecodeRows | png.py:169-197 | the loop of `process_data` from row i on, over the reconstruction of row i - 1; on success it has one row per remaining row. `DecodeRowsOutcome`, `DecodeRowsFirstError` and `DecodeRowsSolveFilters` state its outcome and rows |
| Decoding.DecodeImage | png.py:162-197 | `process_data` for a width x height image: on success exactly height rows, the image `DecodeRowsSolveFilters` and `SolvingFiltersIsDecoding` characterise |
| Decoding.DecodeRowsStep | png.py:175-196 | unfolds DecodeRows at a row with a known filter type: the row decodes to the grouping of its reconstruction, and that reconstruction, not the filtered bytes, is the previous row for the next row |
| Decoding.DecodeRowsFails | png.py:176-192 | unfolds DecodeRows at a row whose filter byte is missing or unknown: decoding stops with that row's error |
| Decoding.DecodeRowsOutcome | png.py:175-192 | decoding succeeds exactly when every row has a filter byte in 0..4 |
| Decoding.DecodeRowsFirstError | png.py:175-192 | a failed decode raises the error of the first bad row: IndexError when its filter byte lies past the end, ValueError for a byte outside 0..4 |
| Decoding.DecodeRowsSolveFilters | png.py:175-196 | a successful decode returns exactly height rows, each the grouping of bytes that satisfy their filter's equation over the previous reconstructed row |
| Decoding.SolvingFiltersIsDecoding | png.py:175-196 | any image whose rows satisfy their filters' equations in this way is what decoding returns |
| Decoding.DecodeRowsShape | png.py:169-197 | when the stream holds every row in full, a successful decode has height rows of width 3-byte pixels |
| Decoding.NoneRowsDecode | png.py:181-182 | rows whose filter byte is 0 decode to their bytes as they stand, cut into pixels |
| Decoding.RowDataFull | png.py:178 | a stream long enough for every row gives each row its full width * 3 bytes |
| Png.ReadRow | png.py:176-179 | IndexError when the row's filter byte lies past the end; otherwise the row's bytes reconstructed under its filter byte, or the ValueError for an unknown one |
| Png.UnfilterRow | png.py:181-192 | filter bytes 0..4 give the reconstruction under None, Sub, Up, Average or Paeth; any other byte raises ValueError with that byte |
| Png.PNG.ProcessData | png.py:162-197 | the loop returns exactly the image DecodeImage describes, or the exception it raises |
| Png.PrependStep | png.py:194-196 | one more decoded row joins the image, and decoding resumes at the next row over this row's reconstruction |
| Encoding.ProjectPixel | png.py:245-250 | the chosen channel keeps the pixel's value and the other two become 0 |
| Encoding.ProjectRow | png.py:243-253 | the row, pixel by pixel, cut down to the chosen channel |
| Encoding.ProjectImage | png.py:238-256 | rows and pixels keep their places; every pixel has 3 bytes, the chosen channel keeps its value and the other two are 0; an image of width x height pixels stays width x height |
| Encoding.ChannelData | png.py:235-256 | one flat byte row per image row, 3 bytes per pixel; byte i of row k is the chosen channel of pixel i / 3 when i % 3 is that channel, and 0 otherwise |
| Encoding.FlatProjectedRow | png.py:243-253 | the bytes `modified_row` collects for a row: 3 per pixel, with the chosen channel of pixel i / 3 at every position i % 3 equal to that channel, and 0 elsewhere |
| Encoding.FlattenPixels | png.py:253 | 3-byte pixels laid end to end with `extend`: byte i is byte i % 3 of pixel i / 3 |
| Png.ModifiedRow | png.py:240-253 | the inner loop yields the row's projected pixels laid end to end, or IndexError when a pixel lacks the chosen channel |
| Png.ModifiedRowStep | png.py:243-253 | one more pixel extends the bytes laid out so far by its projection |
| Png.CollectChannelData | png.py:235-256 | the outer loop yields ChannelData when every pixel has the chosen channel, otherwise IndexError |
| Bytes.FlattenAppend | png.py:253 | laying out two lists of pixels end to end is laying out each, one after the other |
| Encoding.GroupFlatten | png.py:194 | pixels of 3 bytes laid end to end and cut again into 3-byte pieces give back the pixels |
| Encoding.RawData | png.py:272 | `b''.join(b'\x00' + bytes(row) ...)`: every row behind a filter byte 0; `RawDataLength` and `RawDataRow` give its length and where each row sits |
| Encoding.RawDataLength | png.py:272 | the raw stream of rows of width * 3 bytes holds one filter byte and one row per row |
| Encoding.RawDataRow | png.py:272 | in the raw stream, row k sits where `process_data` looks for it, behind filter byte 0 |
| Header.IhdrData | png.py:259-268 | OverflowError exactly when width or height does not fit in 4 bytes; otherwise the 13-byte IHDR payload |
| Header.IhdrRecordLayout | png.py:268-269 | the IHDR record placed after the signature puts the tag at bytes 12..16, width and height at 16..24, and 8, 2, 0, 0, 0 at 24..28 |
| Header.HeaderRoundTrip | png.py:259-269 | `read_header` on a file that starts with the signature and the IHDR record `save_rgb` builds reads back that width and height, with bit depth 8, colour type 2 and three zero fields |
| Encoding.PngFile | png.py:259-279 | the file fails with OverflowError exactly when width, height or the compressed data overflows a 4-byte field; otherwise it is a valid PNG |
| Encoding.PngFileReadsBack | png.py:259-279 | the file's header parses to width, height and the 8-bit RGB settings, and the scan from offset 33 gathers exactly the compressed data |
| Encoding.EncodeRgb | png.py:226-256 | ValueError for a channel outside 1..3; otherwise ValueError for an empty image; otherwise IndexError for a pixel that lacks the channel |
| Encoding.EncodeRgbSucceeds | png.py:226-279 | unfolds EncodeRgb on success: the save had a channel in 1..3, a non-empty image whose pixels all have that channel, and wrote the file laid out from those rows |
| Png.PNG.SaveRgb | png.py:215-279 | `save_rgb` returns the bytes of the file EncodeRgb describes, or the exception it raises first |
| RoundTrip.SavedStreamShape | png.py:226-279 | for an image of the announced shape and a channel in 1..3, the raw stream holds exactly height rows of 1 + width * 3 bytes, and `save_rgb` succeeds exactly when width, height and the compressed stream fit their 4-byte fields |
| RoundTrip.ShapedHasChannel | png.py:243-250 | in an image of 3-byte pixels, every pixel has every channel |
| RoundTrip.ChannelRows | png.py:253-256 | each saved row has width * 3 bytes and cuts back into the projected row |
| RoundTrip.ProjectedRow | png.py:272 | row i of the saved stream has filter byte 0 and holds the projected row i |
| RoundTrip.ProjectedImageDecodes | png.py:272 | `process_data` on the stream `save_rgb` compresses returns the image cut down to the saved channel |
| RoundTrip.SaveThenLoad | png.py:215-279 | for an image of the announced shape, when compress and decompress are inverse, reading back a saved file gives its width, height and 8-bit RGB settings, and an image with every pixel cut down to the saved channel |
| RoundTrip.GreenPixelExample | png.py:247-248 | saving the green channel of [50, 100, 150] keeps [0, 100, 0] |

## Left out

- `load_file` and the file write at the end of `save_rgb` (png.py:21-34, 282-293) are file I/O. `SaveRgb` returns the bytes the file would hold, and `data` is whatever the object holds.
- `zlib.crc32`, `zlib.compress` and `zlib.decompress` are foreign calls. They are parameters of type `Zlib`, and a failing `decompress` is `None`. The round-trip lemmas require only that `decompress` inverts `compress`.
- CRCs are written but never checked on reading. The model matches the source here.
- The `info` string is a field that nothing in the model changes, since only `load_file` sets it.
- Bit depths other than 8, colour types other than RGB, palettes and interlacing are not modelled. The code fixes bpp at 3 and never interprets those header fields.
- Python lists and `bytes` are both `seq<byte>`. The model ignores that filter 0 yields a `bytes` slice where the other filters yield lists, because indexing either yields the same integers.
- Scanlines.UnfilterUp: requires a previous row at least as long as the row, via `FitsAbove`; the source would raise IndexError on a shorter one. `process_data` never passes one, because a later row is never longer than the one above it (`RowDataShrinks`).
- Scanlines.UnfilterAverage: the same `FitsAbove` precondition as UnfilterUp, for the same reason.
- Scanlines.UnfilterPaeth: the same `FitsAbove` precondition as UnfilterUp, for the same reason.
- Decoding.DecodeRowsShape: states the width * 3-byte row shape only for a stream long enough for every row. The source does not check the length, and a short stream gives a short last row rather than an error.
- RoundTrip.SaveThenLoad: requires width and height above 0 and an image of that shape. With 0, `read_chunks` raises ValueError, and an image of another shape does not decode back to itself.
- Chunks.IdatPayloadOfSavedRecords: covers the IDAT-then-IEND layout `save_rgb` writes, not files with several IDAT records or extra chunk types. `CollectIdat` and `IdatPayload` handle those generally.
