# Verification of the kernel's codecs, allocator, name spaces and text engine

This project is a Dafny 4.11 model of the parts of the kernel whose correctness is a matter of arithmetic, pointers
and framing, with proofs of what they promise. `dafny verify dfyconfig.toml` checks everything.

| part | modules | source |
|---|---|---|
| PNG row filters, their SSE2 rewrites, filter selection, byte order | `ScanlineFilter`, `Simd`, `FilterChoice`, `ByteOrder` | `kernel/lib/spng.c` |
| Samples packed in bytes, interlacing, subimages, row order | `Samples`, `Pixels`, `Interlace`, `Adam7`, `ImageHeader`, `RowOrder` | `kernel/lib/spng.c` |
| Whole images: specification, length, round trip, the running encoder and decoder | `ImageStream`, `StreamSize`, `ImageRoundTrip`, `ImageCodec` | `kernel/lib/spng.c` |
| Chunks: format, writer, reader, whole files | `ChunkFormat`, `ChunkWriter`, `ChunkReader`, `PngFile` | `kernel/lib/spng.c` |
| Heap allocator | `HeapShape`, `HeapState`, `Kmalloc`, `Memset` | `kernel/mem/kmalloc.c` |
| Names of the home-made file system | `PathNames`, `Namespace`, `Asvfs`, `NamespaceTheorems`, `Reachability`, `NamespaceExamples` | `kernel/fs/asvfs.c` |
| Mount lookup | `MountPoints` | `kernel/fs/vfs.c` |
| printf | `PrintfNumbers`, `Printf`, `PrintfEngine`, `PrintfReadBack`, `PrintfPrecision`, `PrintfSpelling` | `kernel/support/printf.c` |
| Doubly linked list | `LinkedList` | `kernel/lib/list.c` |
| Base64, TCP checksum | `Base64`, `Checksum` | `kernel/net/avs_dev_api.c`, `kernel/net/tcp.c` |

## How things are modelled

- Code that rewrites buffers or links is imperative: classes with the fields of the C structures, arrays for buffers,
  loops with invariants. Each such method is proved against a function of its inputs or of the old state, and the
  promises are lemmas about those functions.
- Bytes are integers below 256, and C conversions are written out (`Bytes.Plus`, `Bytes.Minus`, `Kmalloc.ToInt`,
  `Printf.ToSigned`). The vector code is modelled lane by lane on 8- and 16-bit values with their wrap-around and
  saturation.
- Deflate and inflate pass their input on unchanged, one byte stream in and the same out. The CRC is a fold of a step
  that is a parameter; so everything about chunks holds for any CRC.
- The encoder keeps the filter byte in front of the row at index -1 of its buffer; the model emits the filter byte and
  then the row.
- The decoder reports the end of an interlaced image one call late, as the source does (`ImageCodec.Decoder.DecodeRow`).
- The headers of the allocator are records kept at addresses in two maps, the links are addresses, and everything else
  in memory is a map from addresses to numbers. Headers in pages that were given back stay in the maps, marked dead.
  What liballoc_alloc returns is a parameter: nothing, or pages that do not overlap those in use.
  Between calls the user may write inside live blocks (`Kmalloc.Allocator.Store`).
- A disk of the file system is a sequence of block headers and a sequence of blocks read as directories.
  Directories are in order, no block is in two slots, and the root is in none.

## Where the code does less than its documentation

- printf drops the sign of a negative number when digits and zeros fill its buffer of 32 characters: "%.32d" prints -1
  as 1. `PrintfReadBack.SignIsLost` shows it, `PrintfReadBack.ConversionReadsBack` says exactly when a number reads back.
- A precision of printf is not always met: a minus flag turns off its zeros, and there are never more than 32 digits.
  `PrintfPrecision.PrecisionIsMissed` shows "%-.5d" and "%.33d" of 42, `PrintfPrecision.PrecisionIsMet` says exactly when
  as many digits are shown as the precision asks for.
- Creating "." or ".." succeeds but the name never resolves, because the listing starts with those two names without a
  block (`Namespace.CreateIsConservative` gives the exact condition, `NamespaceExamples.CreateDoesNotResolve` an example).
- Unlinking a path that ends in a slash takes out the last entry of the directory instead of the directory, or nothing
  if the directory is empty (`NamespaceTheorems.UnlinkTrailingSlash`). `NamespaceTheorems.UnlinkTakesOut`: what the path
  names leaves its slot exactly if the path does not end in a slash. `NamespaceExamples.UnlinkTakesAnother` is an example.
- Unlinking a directory that has entries cuts these off, and moving a directory below itself cuts it off with all that is
  in it. The source tests neither. `Reachability.UnlinkKeepsReachable` and `Reachability.RenameKeepsReachable` say exactly
  when everything stays below the root; `NamespaceExamples.UnlinkCutsOff` and `NamespaceExamples.RenameCutsOff` are
  examples.
- Renaming onto a name that is taken does not replace the old entry: the one that is listed first is found
  (`NamespaceTheorems.RenameIsConservative`).
- Asking to use ancillary chunks whatever their CRC also turns off the check for critical chunks, but for IHDR, which is
  not read by read_header: a file with corrupt critical chunks is then accepted exactly if the CRC of IHDR is right
  (`ChunkFormat.CriticalUnchecked`, `ChunkFormat.FirstIsChecked`). `ChunkFormat.CorruptedIsAccepted` is an example: a
  corrupt PLTE behind a correct IHDR.
- The TCP checksum leaves out an odd last byte of the options; the segment checks exactly if that byte is zero
  (`Checksum.SendHeaderAndOptions`).

## Model

| member | source | states |
|---|---|---|
| ScanlineFilter.DefilterFilter | kernel/lib/spng.c:1454-1604 | for every filter, pixel size and row, defiltering the filtered row gives the row back |
| ScanlineFilter.FilterDefilter | kernel/lib/spng.c:1454-1604 | filtering a defiltered row gives the coded row back |
| ScanlineFilter.RestoresUnique | kernel/lib/spng.c:1500-1540 | at most one row satisfies the reconstruction equations, so any order of computation that satisfies them is the inverse |
| ScanlineFilter.DefilterRestores | kernel/lib/spng.c:1500-1540 | the inverse as defined satisfies the reconstruction equations, each byte from restored neighbours |
| ScanlineFilter.AddedByte | kernel/lib/spng.c:1500-1540 | restored less coded byte is, modulo 256, the byte on the left (1), the byte above (2), n with 2n <= a + b <= 2n + 1 (3), and the first of left, above and above left that is nearest to left + above - above left (4) |
| ScanlineFilter.PrevUnused | kernel/lib/spng.c:1500-1540 | filters None and Sub do not depend on the row above |
| ScanlineFilter.PrevPrefix | kernel/lib/spng.c:1500-1540 | no filter looks at the row above beyond the length of the row |
| ScanlineFilter.FilterScanline | kernel/lib/spng.c:1545-1604 | the filter loop computes the specified row, and its error codes |
| ScanlineFilter.DefilterGeneric | kernel/lib/spng.c:1500-1540 | the generic loop replaces the row in place by its inverse |
| Simd.AverageLaneTruncates | kernel/lib/spng.c:6305-6388 | the rounding average corrected by the low bit of the exclusive or is the truncating average: n with 2n <= a + b <= 2n + 1 |
| Simd.PaethLaneIsPaeth | kernel/lib/spng.c:6423-6513 | the 16-bit lane selection is the Paeth predictor, ties included |
| Simd.PackedSum | kernel/lib/spng.c:6423-6513 | packing the predicted sum of masked lanes gives the byte sum modulo 256 |
| Simd.DefilterSub3 | kernel/lib/spng.c:6256-6282 | equals the generic inverse of Sub on every row of whole 3-byte pixels, the unused lane included |
| Simd.DefilterSub4 | kernel/lib/spng.c:6284-6303 | equals the generic inverse of Sub on every row of whole 4-byte pixels |
| Simd.DefilterAvg3 | kernel/lib/spng.c:6305-6354 | equals the generic inverse of Average on rows of 3-byte pixels |
| Simd.DefilterAvg4 | kernel/lib/spng.c:6356-6388 | equals the generic inverse of Average on rows of 4-byte pixels |
| Simd.DefilterPaeth3 | kernel/lib/spng.c:6423-6513 | equals the generic inverse of Paeth on rows of 3-byte pixels |
| Simd.DefilterPaeth4 | kernel/lib/spng.c:6515-6572 | equals the generic inverse of Paeth on rows of 4-byte pixels |
| Simd.DefilterUp | kernel/lib/spng.c:1441-1448 | adds the row above |
| Simd.DefilterScanline | kernel/lib/spng.c:1454-1543 | whichever code is chosen, the row becomes its inverse; illegal filters leave it alone |
| FilterChoice.FilterSum | kernel/lib/spng.c:1606-1666 | computes the sum of magnitudes unless a sum would not fit int32, and then gives up with the largest value |
| FilterChoice.Magnitude | kernel/lib/spng.c:1662 | the smaller of x and 256 - x |
| FilterChoice.ScoreIs | kernel/lib/spng.c:1606-1666 | up to 16777215 bytes the score is the sum of the magnitudes, and 2^31 - 1 beyond |
| FilterChoice.GetBestFilter | kernel/lib/spng.c:1668-1706 | returns the specified choice |
| FilterChoice.BestFilterIsLeast | kernel/lib/spng.c:1668-1706 | with several choices, an enabled filter of least score is chosen whenever some score is below the largest value |
| FilterChoice.BestFilterIsFirst | kernel/lib/spng.c:1668-1706 | exactly: a single filter as it is, of several the first of least score, and None if no score is below 2^31 - 1 |
| FilterChoice.ChosenIsLegal | kernel/lib/spng.c:1668-1706 | the chosen filter is one of the five |
| FilterChoice.SamePrevSameResult | kernel/lib/spng.c:4580-4606 | without Up, Average and Paeth the result does not depend on what the row above holds, which is why it is not cleared then |
| ByteOrder.SwapConverts | kernel/lib/spng.c:518-538 | swapping turns big-endian words into little-endian words |
| ByteOrder.SwapTwice | kernel/lib/spng.c:518-538 | swapping twice changes nothing |
| ByteOrder.U16RowToHost | kernel/lib/spng.c:518-527 | swaps the bytes of each word in place |
| ByteOrder.U16RowToBigEndian | kernel/lib/spng.c:529-538 | swaps the bytes of each word in place |
| ByteOrder.SwapCommutesWithDefilter | kernel/lib/spng.c:3218-3257 | converting a 16-bit row before defiltering against a converted row above equals defiltering first and converting after |
| ImageStream.Converted | kernel/lib/spng.c:518-538 | rows are converted for 16-bit samples and the format PNG only, and then the two bytes of each sample trade places |
| Samples.ByteAndSlot | kernel/lib/spng.c:3577-3588 | byte and slot of a packed sample are its index divided by the samples in a byte |
| Samples.ShiftFormula | kernel/lib/spng.c:3577-3588 | the shift of the source is that of the sample's slot |
| Samples.SampleBits | kernel/lib/spng.c:488-516 | sample x of 1, 2 or 4 bits is in byte x / 8, x / 4 or x / 2, the first one in the highest bits |
| Samples.OrBits | kernel/lib/spng.c:3577-3588 | a bit of the result is set if it is set in either number |
| Samples.SampleAfterOr | kernel/lib/spng.c:3577-3588 | or-ing a sample into a blank slot makes it readable there and leaves every other sample as it was |
| Samples.SampleIterator.GetSample | kernel/lib/spng.c:488-516 | the iterator returns the samples of a row in order |
| Pixels.PartAfterPut | kernel/lib/spng.c:3577-3603 | a pixel put at a blank place is read back, and no other pixel changes, for packed samples and whole bytes |
| Pixels.SamePixelsSameRow | kernel/lib/spng.c:3591-3603 | a row of whole bytes is determined by its pixels |
| Interlace.ExtractedPart | kernel/lib/spng.c:4639-4682 | the extracted subimage row holds the pixels at the columns of its pass |
| Interlace.DepositPuts | kernel/lib/spng.c:3566-3604 | depositing a subimage row over blank places puts every pixel in its column |
| Interlace.DepositKeeps | kernel/lib/spng.c:3566-3604 | and leaves the pixels of all other columns alone |
| Interlace.InterlacePacked | kernel/lib/spng.c:4639-4675 | the sample loop of encode_row computes the extracted row |
| Interlace.InterlaceBytes | kernel/lib/spng.c:4677-4682 | so does the memcpy loop |
| Interlace.DeinterlacePacked | kernel/lib/spng.c:3566-3590 | the sample loop of spng_decode_row deposits the row, and nothing else changes |
| Interlace.DeinterlaceBytes | kernel/lib/spng.c:3591-3604 | so does the memcpy loop |
| Adam7.SubWidthCounts | kernel/lib/spng.c:370-373 | the computed subimage width is the number of columns the tables place inside the image |
| Adam7.SubHeightCounts | kernel/lib/spng.c:594-610 | the computed subimage height is the number of rows the tables place inside the image |
| Adam7.PlaceHasPass | kernel/lib/spng.c:370-373 | a pixel placed by the tables determines its pass, column and row |
| Adam7.PassOfTile | kernel/lib/spng.c:370-373 | the passes in a tile of eight by eight pixels are the matrix of the standard |
| Adam7.Partition | kernel/lib/spng.c:594-610 | every pixel of the image is in exactly one pass, column and row, inside that subimage |
| Adam7.AreasSum | kernel/lib/spng.c:594-610 | the areas of the seven subimages add up to the image |
| ImageHeader.RowSizes | kernel/lib/spng.c:550-585 | w pixels take w * 3, 2 or 4 * depth / 8 bytes for types 2, 4 and 6, and the least number of bytes that hold depth * w bits for types 0 and 3 |
| ImageHeader.PixelSizes | kernel/lib/spng.c:2307-2308 | the filter distance is 3 or 6, 2 or 4, 4 or 8 bytes for types 2, 4 and 6, and 1, or 2 for depth 16, for types 0 and 3 |
| ImageHeader.ScanlineWidth | kernel/lib/spng.c:565-585 | the filter byte and the least number of bytes that hold the bits of the row, or overflow exactly if that does not fit 32 bits |
| ImageHeader.CalculateSubimages | kernel/lib/spng.c:587-631 | sizes, widths, the widest and the last non-empty pass, or overflow exactly if some width does not fit |
| RowOrder.NextIsLeast | kernel/lib/spng.c:3259-3289 | the next row is the least row after this one, and there is an end only if there is none |
| RowOrder.VisitsEachRowOnce | kernel/lib/spng.c:3259-3289 | from the first row on, exactly all rows of all non-empty passes are visited, each once |
| RowOrder.ImageRowInside | kernel/lib/spng.c:3259-3289 | the row number in the image is below the height |
| RowOrder.NothingAfterLast | kernel/lib/spng.c:3259-3289 | after the last non-empty pass there are no rows |
| RowOrder.RowInfo.Update | kernel/lib/spng.c:3259-3289 | the cursor moves to the next row or reports the end |
| ImageStream.ShiftedFraming | kernel/lib/spng.c:3218-3257 | reading each row with the next row's filter byte gives the same rows, ends at the same place and fails in the same way as reading each filter byte with its own row |
| ImageStream.DecodeStep | kernel/lib/spng.c:3985-4009 | decoding takes one filtered row and goes on with the next row and the rest |
| ImageStream.LinesInOrder | kernel/lib/spng.c:4001-4003 | row y of an image starts at y times the bytes of a row, and the image is height times as long |
| StreamSize.EncodedHasSize | kernel/lib/spng.c:4739-4878 | the stream is as long as the rows of all passes with their filter bytes, computed from width, height, depth and colour type |
| StreamSize.DecodedHasSize | kernel/lib/spng.c:3985-4009 | a successful decoding takes exactly that many bytes |
| StreamSize.CodedRow | kernel/lib/spng.c:4564-4626 | every row is filtered, and restored, with the left neighbour 3, 2, 4 or 1 samples away as the colour type says |
| ImageRoundTrip.RestoredIsPixelRow | kernel/lib/spng.c:4564-4626 | decoding an encoded row against the row above gives its pixels, in both formats and byte orders |
| ImageRoundTrip.RoundTripFrom | kernel/lib/spng.c:3985-4009 | from any row on, decoding the encoding completes the image and consumes exactly that |
| ImageRoundTrip.RoundTrip | kernel/lib/spng.c:4867-4873 | every pixel survives encoding and decoding, for every size, depth, filter choice, format and interlace method; unless packed samples are interlaced every byte does |
| ImageRoundTrip.EncodeAndDecode | kernel/lib/spng.c:4739-4878 | the same for the running encoder and decoder, which only fail if a scanline width overflows |
| ImageCodec.Encoder.EncodeScanline | kernel/lib/spng.c:4564-4626 | one row is converted, filtered by the best filter and emitted; the cursor and the row above move on |
| ImageCodec.Encoder.EncodeRow | kernel/lib/spng.c:4628-4685 | the pixels of the row are taken from the image first |
| ImageCodec.Encoder.EncodeImage | kernel/lib/spng.c:4867-4873 | the loop emits the encoding of the image |
| ImageCodec.LastRowEnds | kernel/lib/spng.c:3225-3235 | the test for the last row of the last pass is true exactly at the end |
| ImageCodec.Decoder.ReadScanline | kernel/lib/spng.c:3218-3257 | one step of the shifted framing, with its errors |
| ImageCodec.Decoder.DecodeScanline | kernel/lib/spng.c:3291-3551 | the restored row is stored and the cursor moves on, for the formats PNG and RAW |
| ImageCodec.Decoder.DecodeRow | kernel/lib/spng.c:3553-3608 | the pixels of the row are put in their places |
| ImageCodec.Decoder.DecodeImage | kernel/lib/spng.c:3985-4009 | the loop computes the specified decoding, errors included |
| ImageCodec.EncodeWhole | kernel/lib/spng.c:4739-4878 | encodes an image, or overflow exactly if some scanline width does not fit; the length of the stream follows from dimensions, depth and colour type |
| ImageCodec.DecodeWhole | kernel/lib/spng.c:3620-4009 | decodes a stream as specified, from the first filter byte on, and takes from it the length that dimensions, depth and colour type give |
| ChunkFormat.CrcPieces | kernel/lib/spng.c:1119-1152 | the CRC may be computed piece by piece |
| ChunkFormat.SameNumber | kernel/lib/spng.c:448-479 | different byte strings are different numbers |
| ChunkFormat.WriteU32 | kernel/lib/spng.c:448-479 | the shifts give the four bytes whose number is read back |
| ChunkFormat.NumberBytes | kernel/lib/spng.c:448-454 | the first byte of a number counts 2^24, the next 2^16, 2^8 and 1 |
| ChunkFormat.WireBytes | kernel/lib/spng.c:922-980 | the bytes of a chunk are its length, its type, its data and the CRC of type and data |
| ChunkFormat.Judgement | kernel/lib/spng.c:1023-1051 | bit 5 of the first byte of the type decides which policy applies; exactly when a chunk is kept, dropped and refused |
| ChunkFormat.StartBytes | kernel/lib/spng.c:2277-2291 | a file starts with 137 80 78 71 13 10 26 10, the length 13 and IHDR, and the first of these that is wrong is the error |
| ChunkFormat.BadHeaders | kernel/lib/spng.c:1069-1082 | a header that is cut off, a length with bit 31 set, and an IEND with data are errors |
| ChunkFormat.EmittedIsParsed | kernel/lib/spng.c:1054-1097 | under any CRC policy, all emitted chunks are recovered with their types and data, up to the end of IEND |
| ChunkFormat.ParsedWasEmitted | kernel/lib/spng.c:2370-2456 | a reader that minds every CRC only accepts what was emitted from the chunks it returns and an empty IEND |
| ChunkFormat.ParsesExactly | kernel/lib/spng.c:2370-2456 | so reading, IEND included, is exactly the inverse of emitting |
| ChunkFormat.StoredIsParsed | kernel/lib/spng.c:1023-1097 | a file of chunks with any stored CRCs is read, without the chunks that are dropped, exactly if no chunk is refused; the CRC is skipped as the policy says for each chunk but the first |
| ChunkFormat.CriticalUnchecked | kernel/lib/spng.c:1084-1086 | a file with a wrong CRC on a critical chunk is accepted, although such chunks are to be refused, exactly if ancillary chunks are to be used as they are and the CRC of the first chunk is right |
| ChunkFormat.FirstIsChecked | kernel/lib/spng.c:1033-1047 | a wrong CRC of the first chunk, a critical one, is always refused then |
| ChunkFormat.CorruptedIsAccepted | kernel/lib/spng.c:1084-1086 | for example IHDR and a corrupt PLTE: accepted when ancillary chunks are to be used as they are, refused when not |
| ChunkWriter.Writer.RequireBytes | kernel/lib/spng.c:795-852 | makes room and keeps what was written; a buffer is doubled from 16384 bytes on until it is enough, a stream gets the size asked for |
| ChunkWriter.Writer.WriteHeader | kernel/lib/spng.c:888-910 | opens a chunk with room for its data, or refuses its length |
| ChunkWriter.Writer.TrimChunk | kernel/lib/spng.c:912-920 | shortens the open chunk only |
| ChunkWriter.Writer.FinishChunk | kernel/lib/spng.c:922-980 | appends exactly the length, type, data and CRC of the chunk, in both modes |
| ChunkWriter.Writer.WriteChunk | kernel/lib/spng.c:982-995 | both modes emit the same bytes of the chunk |
| ChunkWriter.Writer.WriteData | kernel/lib/spng.c:854-886 | appends the bytes, or refuses more than 8192 on a stream |
| ChunkWriter.IendIsChunk | kernel/lib/spng.c:997-1001 | the constant end of the file is an empty IEND chunk exactly if the CRC of its type is the expected one |
| ChunkWriter.IendBytes | kernel/lib/spng.c:997-1001 | its twelve bytes |
| ChunkWriter.Writer.WriteIdatBytes | kernel/lib/spng.c:4489-4523 | full pieces of 8192 bytes are written as IDAT chunks, the rest stays in the open chunk |
| ChunkWriter.Writer.FinishIdat | kernel/lib/spng.c:4525-4562 | the last chunk is trimmed to what is left |
| ChunkReader.Reader.ReadIhdr | kernel/lib/spng.c:2267-2291 | signature, size and type of IHDR with their errors; its CRC is computed whatever the policy |
| ChunkReader.Reader.ReadAndCheckCrc | kernel/lib/spng.c:1023-1051 | the verdict on a chunk under each policy, with or without skip_crc |
| ChunkReader.Reader.ReadHeader | kernel/lib/spng.c:1054-1097 | the next header, after the verdict, with all errors in their order; and whether its CRC is skipped |
| ChunkReader.Reader.ReadChunkBytes | kernel/lib/spng.c:1100-1116 | the next bytes of a chunk; the CRC covers them |
| ChunkReader.Reader.ReadChunkBytes2 | kernel/lib/spng.c:1119-1152 | the same in pieces, from buffer and stream |
| ChunkReader.Reader.ReadChunks | kernel/lib/spng.c:2370-2398 | the reading loop returns what the parser returns, taking chunks back whose CRC is to be discarded |
| ChunkReader.Reader.ReadEnd | kernel/lib/spng.c:2442-2454 | IEND must be empty, and its CRC is judged |
| ChunkReader.Reader.ReadPng | kernel/lib/spng.c:2267-2454 | signature, IHDR and all chunks of a file are what the parser of whole files finds, errors included |
| ChunkReader.Reader.ReadIdatBytes | kernel/lib/spng.c:1361-1389 | whatever the file holds: at least one more byte of the IDAT stream, across chunk borders, or the error at its end |
| ChunkReader.Reader.ReadScanlineBytes | kernel/lib/spng.c:1391-1425 | the next bytes of the IDAT stream, however it is cut into chunks and reads, or the error at its end: a wrong CRC, a bad length, a truncated file, a chunk of another kind |
| ChunkReader.ChunksAhead | kernel/lib/spng.c:1361-1389 | the IDAT stream of emitted chunks is all their data, and ends as too short at the next header |
| PngFile.PiecesHoldStream | kernel/lib/spng.c:4489-4562 | the IDAT chunks of a stream hold the stream |
| PngFile.PieceSizes | kernel/lib/spng.c:4489-4562 | piece i holds bytes 8192 i to 8192 i + 8191 of the stream, and the last one what is left |
| PngFile.FileIsParsed | kernel/lib/spng.c:2360-2456 | the chunks around the IDAT chunks and those are parsed back, and the IDAT data is the stream |
| PngFile.WholeFileIsParsed | kernel/lib/spng.c:2267-2456 | so is a whole file, from the signature to the end of IEND |
| PngFile.HeaderIsRead | kernel/lib/spng.c:4037-4045 | the data of IHDR is read back as the header it was written from |
| PngFile.IhdrBytes | kernel/lib/spng.c:4037-4043 | the thirteen bytes one by one |
| PngFile.HeaderAccepted | kernel/lib/spng.c:2032-2076 | exactly the dimensions, depths, colour types and methods of the standard are accepted |
| PngFile.FileRoundTrip | kernel/lib/spng.c:4739-4878 | an image that is encoded, cut into chunks, written, parsed and decoded is the same image |
| PngFile.Transfer | kernel/lib/spng.c:4489-4562 | the header and the stream that are read from a file are those that were written to it, however the stream is cut, written and read |
| PngFile.LengthsAddUp | kernel/lib/spng.c:3218-3257 | the lengths that rows are written with, and those they are read with one byte out of step, both add up to the stream |
| PngFile.SaveAndLoad | kernel/lib/spng.c:4739-4878 | running encoder, chunk writer, chunk reader and decoder, written and read row by row, give back the header and every pixel, unless a scanline width overflows |
| HeapShape.UserIsAligned | kernel/mem/kmalloc.c:14-28 | the pointer handed out is 16-aligned and the extra room suffices for note and padding |
| HeapShape.TakenFits | kernel/mem/kmalloc.c:48-72 | blocks in order without overlap take no more than the space they lie in |
| HeapShape.UsageFits | kernel/mem/kmalloc.c:48-56 | a major block never uses more than it has |
| HeapShape.InsertKeepsMajor | kernel/mem/kmalloc.c:296-419 | linking a block into a gap that fits keeps links, order, disjointness, notes and usage |
| HeapShape.RemoveKeepsMajor | kernel/mem/kmalloc.c:530-541 | unlinking a block keeps them too |
| HeapState.InsertKeepsHeap | kernel/mem/kmalloc.c:296-419 | the invariant of the whole heap after a block is added, counters included |
| HeapState.RemoveKeepsHeap | kernel/mem/kmalloc.c:525-541 | after a block is removed |
| HeapState.AppendKeepsHeap | kernel/mem/kmalloc.c:166-214 | after a major block is appended |
| HeapState.DropKeepsHeap | kernel/mem/kmalloc.c:545-554 | after an empty major block is dropped |
| HeapState.ShrinkKeepsHeap | kernel/mem/kmalloc.c:651-656 | after a request shrinks |
| HeapState.LiveApart | kernel/mem/kmalloc.c:216-469 | different live blocks do not overlap |
| HeapState.UserRangeSafe | kernel/mem/kmalloc.c:14-38 | a live user range is 16-aligned, inside its block and its pages, and apart from every other live block, header and note |
| Kmalloc.HeaderOfUser | kernel/mem/kmalloc.c:30-38 | undoing the alignment of a live pointer finds its own header |
| Kmalloc.TooFullForGaps | kernel/mem/kmalloc.c:271-283 | a major block with too little free memory in all has no gap that fits, so skipping it loses nothing |
| Kmalloc.Allocator.Align | kernel/mem/kmalloc.c:14-28 | computes the user's pointer and writes only the note |
| Kmalloc.Allocator.AllocateNewPage | kernel/mem/kmalloc.c:166-214 | enough pages, an empty major block, and the counters |
| Kmalloc.PagesFor | kernel/mem/kmalloc.c:171-187 | the least number of pages of 4096 bytes that hold a block with both headers |
| Kmalloc.Allocator.TakeFirst | kernel/mem/kmalloc.c:301-324 | case 2 adds one block to an empty major block |
| Kmalloc.Allocator.TakeFront | kernel/mem/kmalloc.c:326-354 | case 3 adds one block in front |
| Kmalloc.Allocator.TakeBack | kernel/mem/kmalloc.c:362-397 | case 4.1 adds one block at the end |
| Kmalloc.Allocator.TakeBetween | kernel/mem/kmalloc.c:399-437 | case 4.2 adds one block between two |
| Kmalloc.Allocator.Fit | kernel/mem/kmalloc.c:301-441 | finds the first gap in a major block that fits, if there is one |
| Kmalloc.Allocator.Search | kernel/mem/kmalloc.c:262-466 | the search over all major blocks ends, and fails only if no gap fits and no pages can be had; it takes the first gap that fits on its way from the best bet to the last major block and then from the first one on, and the best bet becomes the roomiest block it has looked at |
| Kmalloc.Allocator.Kmalloc | kernel/mem/kmalloc.c:216-469 | returns NULL exactly if no gap fits and there are no pages; asks for pages only if no gap fits; adds one block of the requested size at the first gap that fits, from the best bet on if that has more room than needed; changes no other block and no byte but one note; keeps the invariant |
| Kmalloc.Allocator.Unlink | kernel/mem/kmalloc.c:521-536 | takes exactly one block out of the lists and the counters |
| Kmalloc.Allocator.DropMajor | kernel/mem/kmalloc.c:541-549 | takes an empty major block out of the list |
| Kmalloc.Allocator.Kfree | kernel/mem/kmalloc.c:471-568 | frees exactly the block of the pointer; gives its pages back exactly if it was the only block there; the best bet afterwards; counts NULL and bad pointers and changes nothing else then |
| Kmalloc.Allocator.Memcpy | kernel/mem/kmalloc.c:102-125 | copies exactly n bytes between ranges that do not overlap |
| Kmalloc.Allocator.Krealloc | kernel/mem/kmalloc.c:584-668 | frees, allocates, refuses, shrinks in place, or moves: the new block has the bytes of the old one, and every other live block keeps its size and its bytes; pages are added exactly if no gap has room, the pages of the old block go back exactly if no other live block and not the new one is there, and the counters change by just that |
| Memset.Memset | kernel/mem/kmalloc.c:670-707 | sets all n bytes and no others, at any alignment |
| PathNames.GetPathParts | kernel/fs/asvfs.c:457-510 | the child is what follows the last slash; the parent is all elements before it with a slash in front of each, or empty if there is no slash |
| Namespace.FirstNamedIs | kernel/fs/asvfs.c:215-231 | a lookup finds the first entry of the name, or there is none |
| Namespace.PathAgreement | kernel/fs/asvfs.c:157-213 | resolving a path equals looking up its child in what its parent resolves to, both zero if the parent does not resolve |
| Namespace.AddedKeepsDisk | kernel/fs/asvfs.c:551-580 | adding an entry keeps the directories in order and every block in at most one slot |
| Namespace.AddedWalk | kernel/fs/asvfs.c:520-589 | what every list of path elements leads to after an entry was added |
| Namespace.CreateIsConservative | kernel/fs/asvfs.c:520-679 | a new name resolves to the old next_free exactly unless it is "." or ".."; what resolved before resolves to the same block; nothing else starts to resolve |
| Namespace.RemovedKeepsDisk | kernel/fs/asvfs.c:785-808 | taking out an entry keeps the directories in order |
| Namespace.RemovedEntries | kernel/fs/asvfs.c:785-808 | the other entries keep their order, and the block is in no slot any more |
| Namespace.MovedInKeepsDisk | kernel/fs/asvfs.c:909-914 | appending a block that is in no slot keeps slots unique |
| Asvfs.FileSystem.ReadDir | kernel/fs/asvfs.c:86-131 | lists ".", ".." and the entries in order, with names, kinds and blocks; nothing for a block that is no directory |
| Asvfs.FileSystem.GetBlockMetaFromDir | kernel/fs/asvfs.c:215-231 | the first entry of the name |
| Asvfs.FileSystem.GetBlockIdFromPathname | kernel/fs/asvfs.c:157-213 | the character loop resolves the elements of the path one after the other |
| Asvfs.FileSystem.LinkFile | kernel/fs/asvfs.c:551-580 | the next free block becomes the last entry of the parent, with its header in use, named, a file, and with the permissions asked for |
| Asvfs.FileSystem.LinkDirectory | kernel/fs/asvfs.c:643-676 | the same with an empty directory |
| Asvfs.FileSystem.Mknod | kernel/fs/asvfs.c:520-589 | adds one entry to the parent with its header filled in, or the error that applies |
| Asvfs.FileSystem.Mkdir | kernel/fs/asvfs.c:612-679 | the same with an empty directory |
| Asvfs.FileSystem.CloseSlot | kernel/fs/asvfs.c:785-804 | the shifting loop closes the first slot that holds the block |
| Asvfs.FileSystem.Unlink | kernel/fs/asvfs.c:751-818 | takes out the first slot of the parent that holds the block, or the last one if none does |
| Asvfs.FileSystem.Rename | kernel/fs/asvfs.c:852-937 | a new name in the same directory, or out of one directory and last into another, with every block still in one slot |
| NamespaceTheorems.UnlinkRemovesEntry | kernel/fs/asvfs.c:785-808 | for a path that does not end in a slash, exactly the entry that resolution found goes, and paths that do not take it resolve as before |
| NamespaceTheorems.UnlinkTrailingSlash | kernel/fs/asvfs.c:785-808 | for a path that ends in a slash the last entry of the named directory goes, or nothing if it is empty, and the directory stays |
| NamespaceTheorems.WalkedSlot | kernel/fs/asvfs.c:157-213 | what a path resolves to is in a slot of another directory, and never in one of its own |
| NamespaceTheorems.UnlinkTakesOut | kernel/fs/asvfs.c:751-818 | what the path names leaves its slot exactly if the path does not end in a slash |
| NamespaceTheorems.WalkOnce | kernel/fs/asvfs.c:157-213 | resolution does not come to a block twice |
| NamespaceTheorems.RenameIsConservative | kernel/fs/asvfs.c:852-937 | renaming to a free or a taken name: what the new path resolves to, and paths that do not pass through the block resolve as before, unless they take a name that shows something else now |
| Reachability.CreateKeepsReachable | kernel/fs/asvfs.c:520-679 | creating a name cuts nothing off from the root, and the new block is below it |
| Reachability.UnlinkKeepsReachable | kernel/fs/asvfs.c:751-818 | unlinking cuts nothing off exactly if it is no directory with entries that goes |
| Reachability.RenameKeepsReachable | kernel/fs/asvfs.c:852-937 | moving cuts nothing off exactly if the path of the new directory does not pass through what is moved; renaming in the same directory never does |
| NamespaceExamples.UnlinkCutsOff | kernel/fs/asvfs.c:785-808 | on a small disk, unlinking "/a" cuts "/a/b" off |
| NamespaceExamples.UnlinkTakesAnother | kernel/fs/asvfs.c:785-808 | there, unlinking "/a/" takes out "/a/b" instead |
| NamespaceExamples.RenameCutsOff | kernel/fs/asvfs.c:895-930 | there, renaming "/a" to "/a/b/c" cuts both directories off |
| NamespaceExamples.CreateDoesNotResolve | kernel/fs/asvfs.c:520-589 | there, creating "/." succeeds and the path does not resolve |
| MountPoints.GetMountPoint | kernel/fs/vfs.c:93-178 | the mount found for a normalised absolute path |
| MountPoints.DeepestIsLongest | kernel/fs/vfs.c:137-175 | it is the mount with the longest root that is a prefix of the path component by component |
| MountPoints.FirstAtIsFirst | kernel/fs/vfs.c:150-176 | of several mounts at the same root the first in the list counts |
| PrintfNumbers.DigitsValue | kernel/support/printf.c:282-302 | the digits spell the number exactly if it has at most as many as the buffer takes |
| PrintfNumbers.ParseBack | kernel/support/printf.c:228-302 | exactly when a number that was printed reads back as itself |
| Printf.IntFlags | kernel/support/printf.c:708-727 | which flags of an integer conversion count, given base, sign and precision |
| PrintfEngine.Printer.OutRev | kernel/support/printf.c:200-224 | puts the reversed buffer in its field |
| PrintfEngine.Printer.NtoaFormat | kernel/support/printf.c:228-278 | zeros, prefix, sign and field as specified |
| PrintfEngine.Printer.NtoaLong | kernel/support/printf.c:282-327 | the text of a number |
| PrintfEngine.Printer.Vsnprintf | kernel/support/printf.c:577-857 | stores the first min(n - 1, L) characters of the unbounded text and a terminator, returns L, and touches nothing else; stores nothing for a size of 0 or without a buffer |
| PrintfReadBack.ConversionReadsBack | kernel/support/printf.c:692-762 | for any flags without '#', width and precision an integer conversion reads back as the converted number exactly if a binary number has at most 32 digits and a negative one leaves room for its sign |
| PrintfReadBack.SignIsLost | kernel/support/printf.c:264-275 | "%.32d" of -1 reads back as 1 |
| PrintfPrecision.PrecisionIsMet | kernel/support/printf.c:228-240 | an integer conversion without '#' shows at least as many digits as its precision exactly if as many of the number fit the buffer, or there is no minus flag and the precision is no more than 32 |
| PrintfPrecision.PrecisionIsMissed | kernel/support/printf.c:228-240 | "%-.5d" shows 42 with two digits, "%.33d" with 32 |
| PrintfSpelling.Radix | kernel/support/printf.c:282-302 | division and digits in base 2, 8, 10 and 16 are the usual ones |
| PrintfSpelling.DigitsAreNumeral | kernel/support/printf.c:282-302 | the digits generated backwards are the last 32 characters of the usual numeral, in lower or upper case |
| PrintfSpelling.TextIsLaid | kernel/support/printf.c:228-278 | the text put together backwards in the buffer is, from left to right, blanks, sign, prefix, zeros and numeral, and blanks on the right with '-'; under all flags, widths and precisions |
| PrintfSpelling.IntegerText | kernel/support/printf.c:692-762 | an integer conversion lays out its argument modulo 2^8, 2^16, 2^32 or 2^64, signed for d and i, in the base of the specifier |
| PrintfSpelling.OtherText | kernel/support/printf.c:776-850 | characters and strings in their fields, strings cut to their precision, pointers as 16 digits, anything else as itself |
| PrintfSpelling.DirectiveIsRead | kernel/support/printf.c:601-680 | flags in any order, a width or *, a precision or .*, and a length are read as what they say, for every directive that is written so |
| PrintfSpelling.SpelledText | kernel/support/printf.c:586-850 | a format that starts with a directive stands for its conversion and the text of the rest with the arguments left |
| PrintfSpelling.LiteralText | kernel/support/printf.c:589-595 | other characters stand for themselves |
| PrintfSpelling.DecimalLengths | kernel/support/printf.c:646-762 | %d, %ld, %lld, %zd, %jd, %td, %hd and %hhd show the argument wrapped to 32, 64, 64, 64, 64, 64, 16 and 8 bits |
| PrintfSpelling.UnsignedLengths | kernel/support/printf.c:646-762 | %u with each length shows the argument modulo 2^32, 2^64, 2^16 and 2^8 |
| PrintfSpelling.HexadecimalLengths | kernel/support/printf.c:646-762 | so does %x in base 16 |
| LinkedList.List.InsertBefore | kernel/lib/list.c:101-129 | inserts at the place of the given node and keeps links, head, tail and size in agreement |
| LinkedList.List.InsertAfter | kernel/lib/list.c:139-173 | inserts behind the given node, or at the end |
| LinkedList.List.Append | kernel/lib/list.c:47-68 | adds at the end |
| LinkedList.List.Prepend | kernel/lib/list.c:77-91 | adds at the front; push and enqueue are this |
| LinkedList.List.Remove | kernel/lib/list.c:252-281 | removes exactly that node |
| LinkedList.List.Pop | kernel/lib/list.c:192-203 | takes the first, or nothing from an empty list |
| LinkedList.List.Dequeue | kernel/lib/list.c:384-395 | takes the last |
| LinkedList.List.Empty | kernel/lib/list.c:355-361 | ends with an empty list |
| LinkedList.List.AtIndexNode | kernel/lib/list.c:229-243 | the node at an index, or none outside the list |
| LinkedList.List.AtIndexData | kernel/lib/list.c:212-220 | the data at an index |
| LinkedList.List.FindData | kernel/lib/list.c:331-348 | the first node that compares as equal, or none |
| LinkedList.List.ForEach | kernel/lib/list.c:305-316 | visits every node in order |
| LinkedList.StackIsLifo | kernel/lib/list.c:182-203 | what is pushed comes off in the opposite order |
| LinkedList.QueueIsFifo | kernel/lib/list.c:370-395 | what is enqueued comes out in the same order |
| Base64.Letter | kernel/net/avs_dev_api.c:9-13 | the alphabets, undone by the reverse maps |
| Base64.LetterIsPrinted | kernel/net/avs_dev_api.c:9-13 | the three alphabets, letter by letter |
| Base64.ReverseIsLetter | kernel/net/avs_dev_api.c:152-178 | a character with a value is the letter of that value, and the padding character has none |
| Base64.EncodedBits | kernel/net/avs_dev_api.c:201-243 | the letters of a text, six bits each with the highest first, are the bytes, eight bits each with the highest first, and one or two last bytes take two or one pad characters |
| Base64.DecodeEncode | kernel/net/avs_dev_api.c:193-243 | decoding the encoding gives the bytes, for every variant and padding mode |
| Base64.AcceptedIsEncoded | kernel/net/avs_dev_api.c:193-243 | only canonical text is accepted |
| Base64.DecodesExactly | kernel/net/avs_dev_api.c:193-243 | a text decodes to some bytes exactly if it is their encoding |
| Base64.WrittenIsData | kernel/net/avs_dev_api.c:193-243 | for a valid text the decoder writes as many bytes as the text decodes to |
| Base64.Base64Decode | kernel/net/avs_dev_api.c:193-243 | the running decoder returns the bytes whose encoding the text is, or -1 if it is that of no bytes |
| Checksum.FoldEachIsFoldLast | kernel/net/tcp.c:48-53 | folding after every word stays within 16 bits and equals folding at the end |
| Checksum.ComplementCompletes | kernel/net/tcp.c:87 | adding the complement gives all ones |
| Checksum.OnlyComplementCompletes | kernel/net/tcp.c:87 | and nothing else does, up to the two forms of zero |
| Checksum.AllOnes | kernel/net/tcp.c:44-88 | a sum folds to all ones exactly if it is a positive multiple of 0xFFFF |
| Checksum.WordSumFront | kernel/net/tcp.c:44-85 | the sum word by word, high byte first, an odd last byte as a high byte |
| Checksum.PseudoBytes | kernel/net/tcp.c:101-108 | the twelve bytes of the pseudo-header: addresses, 0, 6, length |
| Checksum.CalculateTcpChecksum | kernel/net/tcp.c:44-88 | the complement of the one's-complement sum of pseudo-header, header with its even options, and payload, odd lengths included |
| Checksum.SegmentChecks | kernel/net/tcp.c:101-133 | with the checksum filled in, the words of the addresses, 6, the length and the words of the segment fold to 0xFFFF |
| Checksum.SendHeaderAndData | kernel/net/tcp.c:101-118 | the words of the addresses, 6, the length and the words of the segment that is sent fold to 0xFFFF, and only bytes 16 and 17 of the header changed |
| Checksum.SendHeader | kernel/net/tcp.c:120-133 | the same without data |
| Checksum.SendHeaderAndOptions | kernel/net/tcp.c:135-148 | that sum folds to 0xFFFF exactly if the options have even length or end in a zero byte |

## Left out

- Inflate and deflate, the polynomial of the CRC, and the code for ARM processors.
- Output formats of the PNG decoder other than PNG and RAW, gamma, transparency and colour conversion.
- Samples.SampleIterator.GetSample: samples of 1, 2 and 4 bits; with 8 bits the iterator only serves the colour conversions.
- ImageCodec.EncodeWhole: rows are appended to a stream; `PngFile.SaveAndLoad` hands them to the chunk writer one by one afterwards, and the interface checks of spng_encode_image are left out.
- ImageCodec.DecodeWhole: reads from a stream that the chunk reader has read before; what is left of the last IDAT chunk is not discarded, and the interface checks are left out.
- Parsing of the metadata chunks, the chunk cache and its limits; `ChunkReader.Reader.ReadChunks` and `PngFile.FileIsParsed` keep every chunk as it is, IDAT chunks included.
- ChunkReader.Reader.ReadIhdr: ends with the data of IHDR; the checks on it are `PngFile.HeaderOf`, without the limits a user can set.
- Failure of memory allocation in the codec, and sizes near the end of the address range.
- The interlaced row of the PNG encoder is at most as long as its buffers; the width checks of the interface functions are preconditions.
- Simd.DefilterScanline: for 3- and 4-byte pixels the row consists of whole pixels, because the vector loops write whole pixels only.
- Kmalloc.Allocator.Kmalloc: sizes are not bounded to 32 bits, and the lock is not modelled; one caller is inside at a time.
- Kmalloc.Allocator.Krealloc: growing requires that a gap or pages can be had, because the source copies to the result without a test, and a pointer into a live block must be the one that was handed out.
- Kmalloc.Allocator.Kfree: a word where no header was ever written does not carry the magic number, and the header of a freed block still reads as freed after its bytes have become part of another block; pointers are not in the first page.
- kcalloc, liballoc_memset and the dump of the heap.
- File contents, truncation and files of several blocks; blocks of files are not read as directories.
- Asvfs.FileSystem.Mknod: the disk has a free block and the parent fewer than 98 entries, which the source does not test; names fit their buffers.
- Asvfs.FileSystem.Unlink: a path that ends in a slash does not name a file, whose contents would be taken for a directory.
- Asvfs.FileSystem.Rename: the source path does not end in a slash, and the new parent is a directory that is not full.
- MountPoints.GetMountPoint: only normalised absolute paths; the buffers for 25 elements of 255 characters are not bounded.
- PrintfEngine.Printer.Vsnprintf: no floating-point conversions, no formats that end inside a directive, which the source reads beyond, and no terminator inside the format.
- Arguments of printf that are missing or of the wrong type read as 0 or "" instead of being undefined; the smallest integer prints with its magnitude.
- Output of printf to the console and to callbacks.
- Callbacks of avs_list_for_each that change the list; avs_list_insert_before without a node on a list that is not empty, and dequeuing from an empty list.
- The IPv4 header checksum, connections and everything else of the network stack.
- Concurrency: all parts are modelled for one caller at a time.
