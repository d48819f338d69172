# PNG bound fixer: a verified model

`fix_png_bound.py` is a forensic tool for PNG files whose IHDR header declares
a smaller image than the pixel data holds. It works in four steps, and this
project models each in Dafny:

1. It reads the file's chunks.
2. It decodes the header.
3. It compares the decompressed pixel stream with the declared size and
   guesses the real width and height.
4. It unfilters every scanline and picks the colour mode the rebuilt image is
   saved in.

Modules, one per part of the tool:

- `Bytes`: bytes, big-endian 32-bit fields, and what a file read at a cursor
  yields.
- `Crc`: CRC-32 as RFC 2083 section 3.4 defines it.
- `Chunks`: the chunk reader, written as the tool's cursor loop
  (`ReadChunks`). It is proved equal to a recursive parser (`ParseChunks`);
  the record layout, read-back and truncation properties are proved about that
  parser. It also holds the first-IHDR selection used by the driver.
- `Header`: the IHDR decoder, channel count and bytes per pixel.
- `Recovery`: the size comparison and the ascending width search.
- `Filters`: the four filters Sub to Paeth as in-place loops over an array,
  each proved against one function (`Unfilter`); None and unknown tags return
  the copy. RFC 2083 section 6 describes the
  forward filter (`Filter`); `Unfilter` and `Filter` are proved inverse to
  each other.
- `Reconstruct`: the row loop, proved against a row-by-row specification
  (`Rebuild`); the round trip from encoded rows to the image bytes; and the
  choice of colour mode.

The CRC routine is a parameter of the reader, so every reader fact holds
whatever that routine computes. The decompressed pixel stream is an input.

Behaviour of the code worth knowing, which the model keeps:

- A filter tag outside 0 to 4 leaves the row as it is, with no error.
  RFC 2083 section 6 defines only filter types 0 to 4.
- A payload or CRC cut short by the end of the file makes the whole read
  `None`: the `struct.error` handler discards every chunk already read.
- An IHDR payload longer than 13 bytes is accepted, and its extra bytes are
  ignored. RFC 2083 section 4.1.1 gives IHDR exactly 13 bytes.
- A decompressed stream exactly as long as the declared image gives `None`,
  the same result as a shorter one.

## Model

| member | source | states |
|---|---|---|
| Chunks.ReadChunks | v1t-ctf-2025/Forensics/tryna_crack/artifacts/fix_png_bound.py:19-71 | the signature check and the cursor loop return exactly what the record parser `ParseChunks` returns, including its three exits (IEND, short length or type field, short payload or CRC) |
| Chunks.ChunksOfCount | v1t-ctf-2025/Forensics/tryna_crack/artifacts/fix_png_bound.py:32-69 | the record loop over the bytes after the cursor: it returns no records exactly when fewer than 8 bytes remain, and every record it returns takes at least its 12 header and CRC bytes |
| Chunks.MakeChunkWellFormed | v1t-ctf-2025/Forensics/tryna_crack/artifacts/fix_png_bound.py:53-61 | the record keeps the fields as read; crcValid holds only for a stored CRC below 2^32, and a record built from a 4-byte type, data of the stated length and 32-bit fields is well formed. This unfolds the record's definition; its partner is `Chunks.ChunksOfLayout`, which shows every record the reader returns is this record of the bytes it occupies |
| Chunks.ParseChunks | v1t-ctf-2025/Forensics/tryna_crack/artifacts/fix_png_bound.py:25-30 | a result other than None means the file starts with the 8-byte PNG signature |
| Chunks.ReadPngChunks | v1t-ctf-2025/Forensics/tryna_crack/artifacts/fix_png_bound.py:53 | the reader with the CRC-32 of RFC 2083 section 3.4 plugged in is the same record parser |
| Crc.Crc32 | v1t-ctf-2025/Forensics/tryna_crack/artifacts/fix_png_bound.py:53 | the checksum, masked with 0xffffffff, is an unsigned 32-bit value |
| Bytes.BE32 | v1t-ctf-2025/Forensics/tryna_crack/artifacts/fix_png_bound.py:38 | an unpacked '>I' field is below 2^32 |
| Bytes.BE32OfToBE32 | v1t-ctf-2025/Forensics/tryna_crack/artifacts/fix_png_bound.py:38 | decoding the big-endian bytes of a 32-bit value gives the value back |
| Bytes.ToBE32OfBE32 | v1t-ctf-2025/Forensics/tryna_crack/artifacts/fix_png_bound.py:38 | re-encoding a decoded 4-byte field gives the same bytes |
| Bytes.Take | v1t-ctf-2025/Forensics/tryna_crack/artifacts/fix_png_bound.py:46-49 | a read of n bytes yields exactly n bytes when that many remain, otherwise the rest of the file |
| Chunks.ChunksOfEncoded | v1t-ctf-2025/Forensics/tryna_crack/artifacts/fix_png_bound.py:32-65 | encoded records read back as the same records in file order, whatever their CRCs; reading stops at IEND and ignores what follows, or stops at a tail shorter than 8 bytes |
| Chunks.ParseEncoded | v1t-ctf-2025/Forensics/tryna_crack/artifacts/fix_png_bound.py:25-65 | the signature followed by encoded records parses to exactly those records: an invalid CRC is marked, never fatal |
| Chunks.ChunksOfTruncated | v1t-ctf-2025/Forensics/tryna_crack/artifacts/fix_png_bound.py:46-69 | when a record's payload or CRC runs past the end before any IEND, the whole read is None and earlier records are lost |
| Chunks.ChunksOfLayout | v1t-ctf-2025/Forensics/tryna_crack/artifacts/fix_png_bound.py:32-65 | every returned record is well formed: its length is the big-endian u32 of its field and the size of its data, and crcValid holds exactly when the stored CRC equals the CRC of type and data. Records tile the input in order, only the last can be IEND, and a run without IEND left fewer than 8 bytes |
| Chunks.FirstRecord | v1t-ctf-2025/Forensics/tryna_crack/artifacts/fix_png_bound.py:34-65 | the record at the head of accepted input re-encodes to exactly its 12 + length bytes; the reader keeps it and stops after it if it is IEND |
| Chunks.ParseLayout | v1t-ctf-2025/Forensics/tryna_crack/artifacts/fix_png_bound.py:25-65 | the same layout facts for a whole file, after its signature |
| Chunks.FirstOfKind | v1t-ctf-2025/Forensics/tryna_crack/artifacts/fix_png_bound.py:328 | None exactly when no chunk has the type; otherwise the earliest chunk of that type |
| Header.ColorTypeName | v1t-ctf-2025/Forensics/tryna_crack/artifacts/fix_png_bound.py:87-93 | "Unknown" exactly for codes the name table lacks; otherwise the table's name for the code |
| Header.Channels | v1t-ctf-2025/Forensics/tryna_crack/artifacts/fix_png_bound.py:96-107 | 0 exactly for codes outside {0, 2, 3, 4, 6}; for those five codes, the samples per pixel their colour, palette and alpha bits describe |
| Header.BytesPerPixel | v1t-ctf-2025/Forensics/tryna_crack/artifacts/fix_png_bound.py:109-111 | the ceiling of bit_depth * channels / 8: the least whole number of bytes holding those bits |
| Header.AnalyzeIhdr | v1t-ctf-2025/Forensics/tryna_crack/artifacts/fix_png_bound.py:74-124 | None exactly for payloads shorter than 13 bytes; otherwise width and height come from big-endian bytes 0-3 and 4-7, the single-byte fields sit at offsets 8-12, channels and the colour type name are the tables' entries for the colour type, channels is 0 exactly when the name is "Unknown", and bytes per pixel is the ceiling division |
| Header.AnalyzeEncodedIhdr | v1t-ctf-2025/Forensics/tryna_crack/artifacts/fix_png_bound.py:79-85 | decoding an encoded header gives back every field, whatever bytes follow the thirteenth |
| Recovery.CombinedIdat | v1t-ctf-2025/Forensics/tryna_crack/artifacts/fix_png_bound.py:173-174 | the joined IDAT payload is empty exactly when every IDAT chunk's data is empty, and it is at least as long as each IDAT chunk's data |
| Recovery.CombinedIdatAppend | v1t-ctf-2025/Forensics/tryna_crack/artifacts/fix_png_bound.py:173-174 | the joined IDAT payload of two chunk lists in sequence is the join of each |
| Recovery.CombinedIdatIgnoresOthers | v1t-ctf-2025/Forensics/tryna_crack/artifacts/fix_png_bound.py:173-174 | chunks of other types contribute no bytes |
| Recovery.SearchWidth | v1t-ctf-2025/Forensics/tryna_crack/artifacts/fix_png_bound.py:224-242 | None exactly when no width in [declared - 100, declared + 500) is positive and divides the stream into more rows than declared; otherwise the smallest such width, with stride * height == length and height > declared |
| Recovery.AnalyzeImageData | v1t-ctf-2025/Forensics/tryna_crack/artifacts/fix_png_bound.py:185-244 | None when the stream is no longer than declared; the declared width with length / stride rows when the stride divides the length; otherwise the first width in the search window that fits: positive, dividing the stream exactly, with more rows than declared. Every result satisfies stride * height == length and height > declared height |
| Filters.PredictorCases | v1t-ctf-2025/Forensics/tryna_crack/artifacts/fix_png_bound.py:133-162 | the value each filter adds: 0 for unknown tags; for Sub, the byte one pixel to the left, or 0 in the first pixel; for Up, the byte above; for Average, the floor of half the sum of left and up; for Paeth, one of left, up and upper-left. This is the predictor's definition by cases; its partners are `Filters.UnfilterRecurrence` and `Filters.UnfilterFilter` |
| Filters.Paeth | v1t-ctf-2025/Forensics/tryna_crack/artifacts/fix_png_bound.py:150-160 | the predictor is one of left, up and upper-left and is nearest to left + up - upLeft; ties go to left, then to up |
| Filters.UnfilterUpTo | v1t-ctf-2025/Forensics/tryna_crack/artifacts/fix_png_bound.py:133-162 | the filter loop never changes the row's length |
| Filters.Unfilter | v1t-ctf-2025/Forensics/tryna_crack/artifacts/fix_png_bound.py:129-164 | the rebuilt row has the filtered row's length and is unchanged for tag 0 and every tag outside 0 to 4 |
| Filters.SubFirstPixel | v1t-ctf-2025/Forensics/tryna_crack/artifacts/fix_png_bound.py:134 | the Sub loop leaves the bytes of the first pixel as they are |
| Filters.SubInPlace | v1t-ctf-2025/Forensics/tryna_crack/artifacts/fix_png_bound.py:133-135 | the in-place Sub loop leaves the array holding the Sub reconstruction of its old contents |
| Filters.UpInPlace | v1t-ctf-2025/Forensics/tryna_crack/artifacts/fix_png_bound.py:136-138 | the in-place Up loop leaves the Up reconstruction |
| Filters.AverageInPlace | v1t-ctf-2025/Forensics/tryna_crack/artifacts/fix_png_bound.py:139-143 | the in-place Average loop leaves the Average reconstruction |
| Filters.PaethInPlace | v1t-ctf-2025/Forensics/tryna_crack/artifacts/fix_png_bound.py:144-162 | the in-place Paeth loop leaves the Paeth reconstruction |
| Filters.SubIgnoresPrior | v1t-ctf-2025/Forensics/tryna_crack/artifacts/fix_png_bound.py:133-135 | Sub's result does not depend on the previous row |
| Filters.UnfilterScanline | v1t-ctf-2025/Forensics/tryna_crack/artifacts/fix_png_bound.py:127-164 | copying the scanline and running the loop of its filter type yields Unfilter of the scanline |
| Filters.UnfilterUpToShape | v1t-ctf-2025/Forensics/tryna_crack/artifacts/fix_png_bound.py:133-162 | after k steps, the positions not yet reached hold the filtered bytes, and each passed position holds its filtered byte plus the predictor over the row as it now stands, mod 256 |
| Filters.UnfilterRecurrence | v1t-ctf-2025/Forensics/tryna_crack/artifacts/fix_png_bound.py:133-162 | each rebuilt byte is its filtered byte plus the filter's predictor over the rebuilt left neighbour and the previous row, mod 256, with 0 for positions in the first pixel |
| Filters.UnfilterFilter | v1t-ctf-2025/Forensics/tryna_crack/artifacts/fix_png_bound.py:127-164 | unfiltering a row filtered with RFC 2083's forward filter gives the row back, for every tag and every previous row |
| Filters.UnfilterFilterUpTo | v1t-ctf-2025/Forensics/tryna_crack/artifacts/fix_png_bound.py:133-162 | after k steps over a forward-filtered row, the first k bytes are raw again and the rest are still filtered |
| Filters.FilterUnfilter | v1t-ctf-2025/Forensics/tryna_crack/artifacts/fix_png_bound.py:127-164 | forward-filtering an unfiltered row gives the filtered row back, so the two are inverse bijections on rows |
| Reconstruct.ZeroRow | v1t-ctf-2025/Forensics/tryna_crack/artifacts/fix_png_bound.py:263 | the row above the first has width * bpp bytes |
| Reconstruct.SpanIsProduct | v1t-ctf-2025/Forensics/tryna_crack/artifacts/fix_png_bound.py:266 | counting rows one stride at a time reaches the offset y * scanline_size |
| Reconstruct.Rebuild | v1t-ctf-2025/Forensics/tryna_crack/artifacts/fix_png_bound.py:265-272 | after y rows the output holds y * (scanline_size - 1) bytes and the row above the next has scanline_size - 1 bytes |
| Reconstruct.UnfilterImage | v1t-ctf-2025/Forensics/tryna_crack/artifacts/fix_png_bound.py:259-272 | the rebuilt image has height * (width * bpp) bytes |
| Reconstruct.RebuildAppend | v1t-ctf-2025/Forensics/tryna_crack/artifacts/fix_png_bound.py:265-272 | one more row: the tag at the row's offset and the bytes after it are unfiltered against the last row, appended, and become the next row's previous row. This is one step of `Rebuild`'s definition; its partner is `Reconstruct.UnfilterImageOfFilterRows` |
| Reconstruct.UnfilterRowAt | v1t-ctf-2025/Forensics/tryna_crack/artifacts/fix_png_bound.py:266-270 | row y is unfiltered with the tag at y * scanline_size, over the scanline_size - 1 bytes after it, against the previous row |
| Reconstruct.ReconstructRows | v1t-ctf-2025/Forensics/tryna_crack/artifacts/fix_png_bound.py:259-272 | the row loop, starting from a zero row and threading each rebuilt row into the next, produces exactly the row-by-row specification |
| Reconstruct.ConcatAtStrides | v1t-ctf-2025/Forensics/tryna_crack/artifacts/fix_png_bound.py:271 | rows of one width, extended one after another, put row j at offset j * width |
| Reconstruct.RebuildEncodedRows | v1t-ctf-2025/Forensics/tryna_crack/artifacts/fix_png_bound.py:265-272 | on a stream of rows each encoded with RFC 2083's filters against the row before, after k rows the output is those k rows and the previous row is row k - 1 |
| Reconstruct.UnfilterImageOfFilterRows | v1t-ctf-2025/Forensics/tryna_crack/artifacts/fix_png_bound.py:259-272 | round trip: encode any rows with any filter tags (a zero row above the first) and the loop gives back exactly those rows, concatenated |
| Reconstruct.ModeOf | v1t-ctf-2025/Forensics/tryna_crack/artifacts/fix_png_bound.py:275-286 | a mode exists exactly for colour types 6, 2 and 0, and its channel count (4, 3, 1) is the header's channel count for that type |
| Reconstruct.ReconstructFullImage | v1t-ctf-2025/Forensics/tryna_crack/artifacts/fix_png_bound.py:259-286 | None (the function's False) exactly for colour types other than 6, 2 and 0; otherwise the recovered width and height, the loop's rebuilt bytes, and the mode for that type |
| Reconstruct.PixelsFillImage | v1t-ctf-2025/Forensics/tryna_crack/artifacts/fix_png_bound.py:274-283 | at bit depth 8 the rebuilt bytes number height * width * channels, the shape they are reshaped to |

## Left out

- File I/O: the file is a byte sequence. Opening it, and an OSError raised while reading, are not modelled; the reader's exception handler is modelled only for the `struct.unpack` failure on a short CRC.
- zlib.crc32 is a parameter of the reader (`Checksum`). `Crc.Crc32` is a separate CRC-32 definition and is not proved equal to zlib's.
- zlib.decompress and its failure path are not modelled: the decompressed stream is an input of `AnalyzeImageData`, and the joined IDAT payload (`CombinedIdat`) is not connected to it.
- Printing, `sys.argv`, `sys.exit` and the rest of `main` are not modelled, apart from the first-IHDR selection. The driver's use of a `None` header without a check is a crash path of the driver.
- The numpy reshape, `Image.fromarray` and the PNG save are not modelled: a foreign image library. The model hands over the width, height, mode and bytes (`Image`). The reshape raises, uncaught, when bytes per pixel differ from the mode's channel count and the image is not empty, for example with 16-bit samples or with colour types 2 and 6 below 8 bits; `ReconstructFullImage` returns `Some` there. `PixelsFillImage` covers bit depth 8.
- Reconstruct.UnfilterImageOfFilterRows: proved for bytes per pixel >= 1, as are Filters.UnfilterFilter and Filters.FilterUnfilter. With 0 bytes per pixel, Sub, Average and Paeth read the byte being rewritten and are not inverted by a forward filter; the loops and `Unfilter` still model that case as the code runs it.
- Reconstruct.ZeroRow: states only the length of the zero row; its zero contents are given by its definition.
- Reconstruct.ReconstructFullImage: requires the geometry that `AnalyzeImageData` guarantees (stride = 1 + width * bpp, rows filling the stream). The slicing of a stream that does not fit is not modelled.
