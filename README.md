# Remix PNG codec, modelled in Dafny

This project models the PNG codec of the Remix image library, along with the integer pixel
machinery beneath it. It covers:

- the scanline filters of section 6 of RFC 2083, with the reconstruction loop of the
  reader and the filtered buffer of the writer;
- chunk framing and the table-driven CRC-32 of section 3 of RFC 2083;
- the `IHDR`, `PLTE` and `iTXt` payloads;
- the header-once state machine of the writer;
- the median-cut palette and the nearest-index remap;
- the flat and two-dimensional unmanaged buffers, the image and the `RGBA` pixel;
- the integer-only image operations: `Flip`, `CreateHistogram`, `ChannelShift` and
  `MinMax`.

There is one module per source file:

| module | models |
|---|---|
| `Common` | the integer types, errors and `Result` |
| `Color` | `RGBA` |
| `Memory` | `UMem` |
| `Memory2D` | `UMem2D` |
| `Images` | `Image` |
| `MathExtension` | `MinMax` |
| `Palettes` | `Palette` |
| `ColorModes` | `PNGColorMode` and the channel table |
| `PNGFilters` | `PNGFilter` |
| `Crc` | the CRC-32 register |
| `Chunks` | `PNGChunk` |
| `Headers` | `PNGHeader` |
| `PNGPalettes` | `PNGPalette` |
| `TextChunks` | `TextChunk` |
| `Utf8` | the encoding `TextChunk` uses |
| `Scanlines` | the filtered-scanline layout shared by reader and writer |
| `PNGReaders` | `PNGReader` |
| `PNGWriters` | `PNGWriter` |
| `ChannelShifts` | `ChannelShift` |
| `Transforms` | `Flip` and `CreateHistogram` |
| `Streams` | the output stream |
| `Grid` | row-major grids |

The modelling follows the form of the code:

- Objects whose fields change are classes: the chunks, the header, the reader, the
  writer, `UMem2D`, `Image` and `ChannelShift`. Their methods carry `modifies` frames.
- Buffers filled in place are arrays. These include the CRC table, the filtered buffer,
  the median-cut buckets and the pixel storage.
- Every loop of the source is a `while` loop with its invariants, except the `while (true)`
  of `ReadPaletteTable`, which always ends after one pass and is modelled without a loop.
  Each loop method is proved
  against a specification function, and the laws the source promises are proved about that
  function as lemmas.

The central results are these:

- `Scanlines.ReconGridInvertsEncoding`: reconstructing the writer's filtered buffer gives
  back every carried channel of every source pixel, for any choice of filter types.
  `PNGReaders.PNGReader.Unfilter` computes exactly that reconstruction.
- `Chunks.FrameRoundTrip`: a framed chunk parses back to its name and payload.
- `Crc.RegisterByTable`: the table-driven CRC equals the bitwise CRC-32.
- `Palettes.Create`: the entries are the bucket means of the median cut, a chain of rounds
  each sorting the previous round's buckets within themselves. `Palettes.TwoColourCut` shows
  on a small image that the result does not depend on the unstable sort's choices.
- The read-back lemmas:
  - `PNGReaders.HeaderReadBack` and `PNGReaders.DetectIDATsOfFile` show that the reader
    recovers what the writer and the chunk classes emit.
  - `PNGReaders.PaletteOfFile` shows the same for the corrected palette reading (see
    "## Findings"); the palette reading as written loses entries.
  - `TextChunks.TextRoundTrip` parses the `iTXt` payload with a reference parser, since the
    source has no `iTXt` reader.

A file is a sequence of bytes with a cursor. The output stream is a `seq<byte>` that
writes append to.

## Model

| member | source | states |
|---|---|---|
| Color.FromChannels | Primitives/RGBA.cs:73-79 | the four channels are the arguments; alpha defaults to 255 |
| Color.FromU32 | Primitives/RGBA.cs:71 | packing the result gives the u32 back, with R in the top byte and A in the low byte |
| Color.PackRoundTrip | Primitives/RGBA.cs:90 | unpacking the packed pixel gives the pixel back, so the u32 view and the pixel are one-to-one |
| Color.ZeroIsPackedZero | Primitives/RGBA.cs:15-22 | the colour 0x00000000 is all-zero, alpha included |
| Color.FromSpan | Primitives/RGBA.cs:81-88 | R, G and B are bytes 0 to 2; alpha is 255 for a 3-byte span and byte 3 for a longer one; a shorter span is an error |
| Color.Add | Primitives/RGBA.cs:67-68 | each of the four channels is the sum mod 256 |
| Color.AddZeroIdentity | Primitives/RGBA.cs:67-68 | adding the zero pixel changes nothing |
| Color.WithChannel | Primitives/RGBA.cs:17-22 | setting channel i changes channel i and no other |
| Color.CopyFrom | Primitives/RGBA.cs:109-136 | length 1 sets R; 2 sets R and A; 3 sets R, G and B with A := 255; 4 sets all four; any other length changes nothing |
| Color.CopyTo | Primitives/RGBA.cs:138-162 | a span of length 1 to 4 receives R, R A, R G B or R G B A; any other span is left as it was |
| Color.CopyRoundTrip | Primitives/RGBA.cs:109-162 | copying p into a span and back into q makes the copied channels of q equal to p's; for length 3 alpha is 255; the other channels keep q's values |
| Common.BigEndian32RoundTrip | Image/PNG/IO/Chunks/PNGChunk.cs:43-46 | reading back the 4 big-endian bytes of a u32 gives the u32 |
| Common.ReadBigEndian32RoundTrip | Image/PNG/IO/PNGReader.cs:164-167 | the 4 big-endian bytes of a read u32 are the bytes read |
| Common.WrapI32 | Primitives/Palette.cs:109-115 | unchecked `i32` arithmetic: the result lies in the `i32` range, is congruent to the input mod 2^32, and equals it in range |
| Common.WrapI32Add | Primitives/Palette.cs:112-114 | wrapping after each addition equals wrapping once at the end |
| Common.TruncDiv | Primitives/Palette.cs:117 | C# `/` on `int` truncates toward zero: for a non-negative dividend 0 <= q and q * b <= a < q * b + b, for a negative one q <= 0 and q * b - b < a <= q * b, so the quotient never overshoots `a` in either direction |
| Common.Wrap8 | Primitives/Palette.cs:117 | the `(u8)` cast: the result is congruent to the input mod 256 and equals it in byte range |
| Common.Pow2IsPow2 | Primitives/Palette.cs:105 | every power of two produced by `f32.Pow(2, k)` satisfies `IsPow2` |
| Memory.Invalid | Primitives/UMem.cs:22 | the invalid buffer has no storage and length 0 |
| Memory.Create | Primitives/UMem.cs:49-57 | `Create(0)` is `Invalid`; `Create(n)` for n > 0 is a fresh buffer of length n |
| Memory.CreateFilled | Primitives/UMem.cs:64-74 | a fresh buffer of length n whose every element is the default |
| Memory.Clear | Primitives/UMem.cs:76-80 | every element becomes the fill value; nothing past the length changes |
| Memory.Get | Primitives/UMem.cs:30-37 | an index at or past the length is `IndexOutOfRange`; otherwise the element is returned |
| Memory.Set | Primitives/UMem.cs:30-37 | an index at or past the length is `IndexOutOfRange` with nothing written; otherwise exactly that element changes |
| Memory.AsSpan | Primitives/UMem.cs:93-98 | the span starts at `from` and has length min(len, max(0, Length - from)), within the buffer |
| Memory.WholeSpan | Primitives/UMem.cs:93-98 | the span over the whole buffer views its contents |
| Memory.Equals | Primitives/UMem.cs:100-101 | equal exactly when the lengths and the pointers are equal |
| Memory.EqualsInvalid | Primitives/UMem.cs:100-101 | a buffer equals `Invalid` exactly when it has no storage and length 0 |
| Memory.Dispose | Primitives/UMem.cs:103-108 | the length becomes 0 |
| Memory.DisposeIdempotent | Primitives/UMem.cs:103-108 | disposing twice is the same as disposing once |
| Memory2D.UMem2D.Adopt | Primitives/UMem2D.cs:53-59 | the buffer and scale are the given ones and the buffer is valid |
| Memory2D.UMem2D.Invalid | Primitives/UMem2D.cs:42 | scale (0, 0) over the invalid buffer, with no rows |
| Memory2D.UMem2D.Scale | Primitives/UMem2D.cs:47 | the scale is the stored pair |
| Memory2D.UMem2D.Get | Primitives/UMem2D.cs:30-37 | x >= X or y >= Y is `IndexOutOfRange`; otherwise the cell at row y, column x |
| Memory2D.UMem2D.Set | Primitives/UMem2D.cs:30-37 | out of bounds writes nothing; otherwise cell (x, y) changes and no other cell does |
| Memory2D.UMem2D.CopyFrom | Primitives/UMem2D.cs:87-98 | a source larger in either dimension is `ArgumentError` with nothing changed; otherwise cells inside the source's extent equal the source and all others are unchanged |
| Memory2D.UMem2D.CopyRow | Primitives/UMem2D.cs:93-97 | one row of the copy loop: rows up to y inside the source extent equal the source, all other cells keep their earlier values |
| Memory2D.UMem2D.Dispose | Primitives/UMem2D.cs:100-115 | the scale becomes (0, 0) and the disposed flag is set |
| Memory2D.UMem2D.EqualsInvalid | Primitives/UMem2D.cs:105-106 | a buffer equals `Invalid` exactly when it is not disposed and its storage is empty |
| Memory2D.UMem2D.Equals | Primitives/UMem2D.cs:105-106 | every object equals itself; equal objects are non-null, have the same disposed flag and share the same storage pointer and length |
| Memory2D.New | Primitives/UMem2D.cs:53-59 | a zero dimension is `ArgumentError`; otherwise a fresh valid buffer of that scale |
| Memory2D.NewFilled | Primitives/UMem2D.cs:66-72 | the same error case; otherwise every cell equals the default |
| Images.Image.WithBuffer | Image/Image.cs:52-64 | the image holds the given buffer and bit depth |
| Images.Image.Scale | Image/Image.cs:30 | the scale is the buffer's scale |
| Images.Image.Get | Image/Image.cs:25 | out of bounds is an error; otherwise the pixel at (x, y) |
| Images.Image.Set | Image/Image.cs:25 | out of bounds changes nothing; otherwise pixel (x, y) changes and no other pixel does |
| Images.Image.SwapBuffer | Image/Image.cs:83-89 | a current buffer equal to `Invalid` is `InvalidOperation` with nothing changed; otherwise the old buffer is disposed with scale (0, 0) and the new buffer is held |
| Images.Image.Dispose | Image/Image.cs:91-104 | the first dispose sets the bit depth to 0 and disposes the buffer; a later one changes nothing |
| Images.NewFilled | Image/Image.cs:43-46 | a zero dimension is `ArgumentError`; otherwise scale (x, y), bit depth 8, and every pixel equal to the colour |
| Images.New | Image/Image.cs:71-74 | the same error case; otherwise scale (x, y) and bit depth 8 |
| Images.FromImage | Image/Image.cs:52-64 | a copy of an image with a zero dimension is `ArgumentError`; otherwise a copy gets a fresh buffer with the same pixels and scale and leaves the source unchanged; an owner takes the source's buffer and leaves the source holding `Invalid` with scale (0, 0); the bit depth is copied in both cases |
| MathExtension.MinMax | Extensions/MathExtension.cs:42-59 | (0, 0) for an empty span; min = max = selector(element) for one element; min <= selector(e) <= max for every element, and both bounds are attained |
| MathExtension.MinMaxIsSeqMinMax | Extensions/MathExtension.cs:46-58 | attained bounds of the selected values are their minimum and maximum |
| MathExtension.AttainedBoundsAreExtremes | Extensions/MathExtension.cs:46-58 | bounds that hold for every element and are attained are the minimum and maximum |
| MathExtension.Selected | Extensions/MathExtension.cs:46-58 | the selected values, one per element in order |
| Palettes.RoundCapacity | Primitives/Palette.cs:28-45 | a capacity below 2 becomes 2; a power of two is kept; a non-power of two below 512 becomes the next power of two above it; one above 512 is kept |
| Palettes.New | Primitives/Palette.cs:28-46 | the rounded count, with that many zero entries |
| Palettes.Get | Primitives/Palette.cs:17 | an index outside the colour array is `IndexOutOfRange`; otherwise the entry at that index |
| Palettes.LargestChannelIsWidest | Primitives/Palette.cs:121-129 | the channel is r, g or b, and its range is at least every other channel's; it is 'r' exactly when R's range strictly exceeds both the G and the B range |
| Palettes.ChannelExtremes | Primitives/Palette.cs:122-124 | the minimum and maximum of a channel bound every element and are attained |
| Palettes.ChannelRangeBounds | Primitives/Palette.cs:137 | a channel range lies between 0 and 255 |
| Palettes.RangeOf | Primitives/Palette.cs:137 | the `MinMax` of the channel, then max - min, is the channel's range |
| Palettes.GetLargestChannel | Primitives/Palette.cs:121-129 | the result is the largest channel of the bucket |
| Palettes.SortOn | Primitives/Palette.cs:75-100 | some permutation of the bucket, sorted non-decreasing on the channel |
| Palettes.Insert | Primitives/Palette.cs:75-100 | inserting into a sorted bucket gives a sorted bucket with one more element and the multiset extended by it |
| Palettes.RangeOfPermutation | Primitives/Palette.cs:122-124 | a channel's range depends only on the bucket's multiset |
| Palettes.LargestChannelOfPermutation | Primitives/Palette.cs:68-71 | the largest channel depends only on the bucket's multiset, not on its order |
| Palettes.SortBucket | Primitives/Palette.cs:68-100 | the bucket's slice becomes a sorted permutation of itself; everything outside it is unchanged |
| Palettes.SortOnLargestChannel | Primitives/Palette.cs:68-101 | the bucket's slice becomes a permutation of itself sorted on its widest channel, and the rest of the buffer is unchanged |
| Palettes.CutBucket | Primitives/Palette.cs:65-103 | one iteration of the bucket loop records bucket i's bounds and sorts it, extending the arranged prefix by one bucket |
| Palettes.ArrangedMeans | Primitives/Palette.cs:65-103 | in an arranged buffer every bucket is sorted on its widest channel |
| Palettes.UnitsFit | Primitives/Palette.cs:63-66 | the bucket bounds `unit * i` and `unit * (i + 1)` increase and stay within the buffer |
| Palettes.LastRound | Primitives/Palette.cs:62-105 | the last round's bucket count b satisfies b <= `Count` < 2b |
| Palettes.CopyTo | Primitives/Palette.cs:131-135 | the flat buffer holds the pixels in row-major order, `arr[x + y * W] = image[x, y]` |
| Palettes.CopyRow | Primitives/Palette.cs:133-134 | one pass of the inner `x` loop: after row y, which starts at cell y * W, the first (y + 1) * W cells hold the image's row-major cells, and the image is unchanged |
| Palettes.Round | Primitives/Palette.cs:63-103 | `RoundOf`: each bucket [unit * i, unit * (i + 1)) with unit = N / bucketCount keeps its colours and ends sorted on its own widest channel, the colours past the last bucket stay, and the bucket bounds are recorded |
| Palettes.Rounds | Primitives/Palette.cs:62-106 | `MedianCut`: the buffer is the last link of a chain of rounds with 1, 2, 4, ... buckets up to the last power of two not above `Count`, each round sorting the buckets of the previous round's result within themselves |
| Palettes.ChainedRound | Primitives/Palette.cs:61-105 | one pass of the `while` loop: from the loop state `Progress` before the round with 2^(pow-1) buckets, the round extends the chain by one `RoundOf` link, records its bounds and gives `Progress` for pow + 1 |
| Palettes.RoundsLoop | Primitives/Palette.cs:62-106 | the `while (bucketCount <= _count)` loop: it stops at the first power of two above `Count`, in the state `Progress`, whose chain runs from the pixels through one `RoundOf` link per round to the current contents, with the last round's bounds in `buckets` |
| Palettes.RoundsEnd | Primitives/Palette.cs:61-106 | when the loop stops (bucket count above `Count`) the last round had `LastRound(Count)` buckets, the chain is a `MedianCut` of the pixels, the result is a permutation of them sorted bucket by bucket, and the bounds left are that round's |
| Palettes.BucketBounds | Primitives/Palette.cs:108-111 | the bounds the means read lie within the buffer |
| Palettes.FinalBuckets | Primitives/Palette.cs:53-106 | after all rounds, bucket i's bounds are those of the last round below it and (0, 0) above, as the zeroed bucket array leaves them |
| Palettes.SumBucket | Primitives/Palette.cs:109-115 | the loop's sums are the channel sums of the bucket, wrapped to i32 |
| Palettes.SumOf | Primitives/Palette.cs:111-115 | a channel sum lies between 0 and 255 times the bucket's size |
| Palettes.MeanOf | Primitives/Palette.cs:117 | the entry is each wrapped sum truncated-divided by the divisor, narrowed to a byte, with alpha 255 |
| Palettes.LastRoundUnique | Primitives/Palette.cs:62-105 | the last round is the power of two 2^k with 2^k <= `Count` < 2^(k+1) |
| Palettes.AverageOf | Primitives/Palette.cs:108-117 | N < `Count` is `DivideByZero`; otherwise entry i is the truncated mean of each channel over its bucket, narrowed to a byte, with alpha 255 |
| Palettes.Averages | Primitives/Palette.cs:108-118 | the divide-by-zero case leaves the colours unchanged; otherwise every entry is the mean of its bucket |
| Palettes.Cut | Primitives/Palette.cs:52-106 | the flat buffer is the median cut of the image's row-major pixels, with every entry's bucket bounds recorded |
| Palettes.Create | Primitives/Palette.cs:52-119 | the arrangement is the median cut of the pixels (`MedianCut`, the chain of rounds); N < `Count` fails with `DivideByZero` and leaves the colours unchanged, and otherwise entry k is the mean of bucket k of that arrangement |
| Palettes.TwoColourCut | Primitives/Palette.cs:52-119 | for the 2x2 image black, white, black, white and two entries, every median cut gives the entries black and white, whichever order the unstable sorts pick |
| Palettes.MedianCutPermutes | Primitives/Palette.cs:62-106 | the median cut is a permutation of the pixels, sorted bucket by bucket for the last round |
| Palettes.KeptWhole | Primitives/Palette.cs:66-101 | a round that keeps each bucket's colours keeps the colours of the whole buffer |
| Palettes.KeptStep | Primitives/Palette.cs:66-101 | sorting bucket i within itself adds it to the buckets that keep their colours |
| Palettes.EntryIsMean | Primitives/Palette.cs:108-118 | when `Count` is a power of two and sums fit in i32, entry k is exactly the floor mean of each channel over part k, with alpha 255 |
| Palettes.MeanWithinBucket | Primitives/Palette.cs:117 | a bucket's mean channel lies between the bucket's minimum and maximum of that channel |
| Palettes.MeanChannel | Primitives/Palette.cs:117 | when the sums fit in i32, the wrapped, truncated and narrowed mean is floor(sum / d), between 0 and 255 |
| Palettes.SumBounds | Primitives/Palette.cs:111-115 | channel values between lo and hi give a sum between lo and hi times the size |
| Palettes.UnreachedEntry | Primitives/Palette.cs:108-118 | entries past the last round come from empty buckets and are (0, 0, 0, 255) |
| ColorModes.Channels | Image/PNG/IO/PNGReader.cs:19-25 | the five colour-mode codes map to 1 to 4 channels, with 1 exactly for grayscale and indexed; any other code is `KeyNotFound` |
| PNGFilters.Filter | Image/PNG/PNGFilter.cs:11-28 | channel c of the result is channel c of the pixel plus or minus the predictor mod 256 when c < ch, and channel c of the pixel otherwise |
| PNGFilters.AvgPredictor | Image/PNG/PNGFilter.cs:30-47 | each channel is floor((up + sub) / 2), computed before narrowing |
| PNGFilters.PaethPredictor | Image/PNG/PNGFilter.cs:68-79 | returns one of its three arguments, the closest to a + b - c, with ties going to a and then b |
| PNGFilters.PaethPixel | Image/PNG/PNGFilter.cs:49-66 | each channel is the Paeth predictor of the neighbours' channels |
| PNGFilters.FilterInverse | Image/PNG/PNGFilter.cs:11-66 | encoding and then decoding with the same predictor restores the pixel |
| PNGFilters.ChannelInverse | Image/PNG/PNGFilter.cs:15 | the same for one channel |
| PNGFilters.ZeroPredictorIdentity | Image/PNG/PNGFilter.cs:11-28 | a zero predictor leaves the pixel as it is |
| PNGFilters.PaethOfUniform | Image/PNG/PNGFilter.cs:53-79 | Paeth-encoding a pixel equal to all three neighbours gives 0 in every filtered channel |
| PNGFilters.FilterNext | Image/PNG/PNGFilter.cs:12-27 | the per-channel loop after channel i equals the filter restricted to the first i + 1 channels |
| PNGFilters.PNGFilter.constructor | Image/PNG/PNGFilter.cs:7-9 | the direction is fixed at construction |
| PNGFilters.PNGFilter.PrimitiveFilter | Image/PNG/PNGFilter.cs:11-28 | the pixel becomes the filter with the neighbour as predictor: decode adds it and encode subtracts it |
| PNGFilters.PNGFilter.AvgFilter | Image/PNG/PNGFilter.cs:30-47 | the same with the average predictor |
| PNGFilters.PNGFilter.PaethFilter | Image/PNG/PNGFilter.cs:49-66 | the same with the Paeth predictor |
| Crc.Register | Image/PNG/IO/Chunks/PNGChunk.cs:61-74 | the bitwise CRC-32 register (reflected polynomial 0xEDB88320, initial value 0xFFFFFFFF) stays below 2^32 |
| Crc.Crc32Is | Image/PNG/IO/Chunks/PNGChunk.cs:61-74 | the CRC-32 is the register xored with 0xFFFFFFFF |
| Crc.XorCommutes | Image/PNG/IO/Chunks/PNGChunk.cs:70 | xor commutes |
| Crc.XorAssociates | Image/PNG/IO/Chunks/PNGChunk.cs:70 | xor associates |
| Crc.StepsFit | Image/PNG/IO/Chunks/PNGChunk.cs:76-90 | the shift and xor steps keep a value below 2^32, so every table entry is below 2^32 |
| Crc.StepsLinear | Image/PNG/IO/Chunks/PNGChunk.cs:82-86 | the shift and xor steps distribute over xor |
| Crc.TableStepIsBitwise | Image/PNG/IO/Chunks/PNGChunk.cs:70-90 | one table lookup equals eight bitwise steps on the register xored with the byte |
| Crc.RegisterByTable | Image/PNG/IO/Chunks/PNGChunk.cs:61-74 | the table-driven update of the register gives the CRC of the byte string extended by one byte |
| Crc.RegisterAdvance | Image/PNG/IO/Chunks/PNGChunk.cs:67-71 | one iteration of the CRC loop advances the register from prefix i to prefix i + 1 |
| Crc.RegisterSnoc | Image/PNG/IO/Chunks/PNGChunk.cs:67-71 | the register after one more byte is eight bitwise steps on the register xored with that byte |
| Crc.XorFits32 | Image/PNG/IO/Chunks/PNGChunk.cs:70 | the xor of two u32 values is a u32 |
| Chunks.Latin1 | Image/PNG/IO/Chunks/PNGChunk.cs:42 | characters below 256 encode as themselves and others as '?' |
| Chunks.NameField | Image/PNG/IO/Chunks/PNGChunk.cs:39-44 | four bytes: the Latin-1 name when it has at most 4 characters, zero elsewhere |
| Chunks.NameFieldRoundTrip | Image/PNG/IO/Chunks/PNGChunk.cs:42 | a 4-character Latin-1 name reads back from its field |
| Chunks.FieldName | Image/PNG/IO/PNGReader.cs:266 | the name a reader sees in a 4-byte field, one character per byte |
| Chunks.Frame | Image/PNG/IO/Chunks/PNGChunk.cs:37-57 | a chunk is 12 + L bytes |
| Chunks.FrameSlices | Image/PNG/IO/Chunks/PNGChunk.cs:43-56 | in order: the big-endian length L, the 4 name bytes, the payload and the CRC |
| Chunks.FrameRoundTrip | Image/PNG/IO/Chunks/PNGChunk.cs:37-57 | parsing a framed chunk followed by anything gives back its name, payload and the rest |
| Chunks.ParseFrame | Image/PNG/IO/Chunks/PNGChunk.cs:37-57 | the reference parser of a framed chunk: on success a 4-byte name and a strictly shorter rest |
| Chunks.Framing | Image/PNG/IO/Chunks/PNGChunk.cs:43-56 | a frame with a given trailer is 12 + L bytes |
| Chunks.FrameParts | Image/PNG/IO/Chunks/PNGChunk.cs:43-56 | the length, name, payload and CRC written one after another are the frame |
| Chunks.CorruptFrameRefused | Image/PNG/IO/Chunks/PNGChunk.cs:53 | a trailer that is not the CRC of name and payload is refused |
| Chunks.IendFrame | Image/PNG/IO/Chunks/PNGChunk.cs:43-56 | with an empty payload the IEND chunk is a zero length, the name 49 45 4E 44 and the CRC of the name alone |
| Chunks.FramesAppend | Image/PNG/IO/Chunks/PNGChunk.cs:37-57 | the frames of two chunk lists concatenate |
| Chunks.FramesCons | Image/PNG/IO/Chunks/PNGChunk.cs:37-57 | the frames of a chunk list are its first chunk's frame followed by the frames of the rest |
| Chunks.ChecksumsAppend | Image/PNG/IO/Chunks/PNGChunk.cs:61-74 | the CRCs of two chunk lists concatenate |
| Chunks.FramingThenChunks | Image/PNG/IO/Chunks/PNGChunk.cs:37-57 | a framed chunk followed by a run of chunks is a run one chunk longer |
| Chunks.FramesWithLayout | Image/PNG/IO/Chunks/PNGChunk.cs:37-57 | a run of framed chunks lies in the byte stream chunk after chunk, each 12 + L bytes after the last |
| Chunks.ChunkAtOffset | Image/PNG/IO/Chunks/PNGChunk.cs:37-57 | chunk k of such a run starts at its computed offset |
| Chunks.ChunksShift | Image/PNG/IO/PNGReader.cs:250-277 | a run of chunks keeps its layout when bytes are put in front, at offsets shifted by their length |
| Chunks.FramesAt | Image/PNG/IO/PNGReader.cs:250-277 | the frames of a chunk list found at a position lie there as a run of chunks |
| Chunks.LayoutAt | Image/PNG/IO/PNGReader.cs:250-277 | a run of chunks found in a suffix lies in the whole stream at the suffix's offset |
| Chunks.IdatName | Image/PNG/IO/PNGReader.cs:266 | a name field reads as "IDAT" exactly when its bytes are 49 44 41 54 |
| Chunks.CreateCRCTable | Image/PNG/IO/Chunks/PNGChunk.cs:76-90 | each table entry is 8 reflected shift and xor steps with 0xEDB88320 applied to its index |
| Chunks.ComputeEntry | Image/PNG/IO/Chunks/PNGChunk.cs:79-88 | the inner loop computes the table entry of its index |
| Chunks.CreateCRC | Image/PNG/IO/Chunks/PNGChunk.cs:61-74 | the result is the CRC-32 of the name bytes followed by the payload |
| Chunks.PNGChunk.Empty | Image/PNG/IO/Chunks/PNGChunk.cs:19 | an empty name over the invalid buffer |
| Chunks.PNGChunk.Adopt | Image/PNG/IO/Chunks/PNGChunk.cs:21-24 | the chunk adopts the given buffer, without copying |
| Chunks.PNGChunk.FromSpan | Image/PNG/IO/Chunks/PNGChunk.cs:26-31 | the chunk copies the span into a fresh buffer, so the payload equals the span |
| Chunks.PNGChunk.CopyTo | Image/PNG/IO/Chunks/PNGChunk.cs:37-57 | exactly the frame of the name and payload is appended to the stream |
| Chunks.PNGChunk.Dispose | Image/PNG/IO/Chunks/PNGChunk.cs:59 | the buffer is disposed and the name kept |
| Headers.HeaderPayloadFields | Image/PNG/IO/Chunks/PNGHeader.cs:23-38 | bytes 0 to 3 are the width big-endian, 4 to 7 the height, 8 the depth, 9 the colour mode, and 10 to 12 zero |
| Headers.HeaderPayload | Image/PNG/IO/Chunks/PNGHeader.cs:23-38 | the IHDR payload is 13 bytes |
| Headers.PNGHeader.constructor | Image/PNG/IO/Chunks/PNGHeader.cs:10-21 | a fresh IHDR chunk with scale (0, 0), depth 0 and colour mode 0 |
| Headers.PNGHeader.CopyTo | Image/PNG/IO/Chunks/PNGHeader.cs:23-38 | the buffer holds the 13-byte payload of the current fields, and exactly the IHDR frame of it is appended |
| PNGPalettes.PayloadAt | Image/PNG/IO/Chunks/PNGPalette.cs:31-35 | payload bytes 3i, 3i + 1 and 3i + 2 are R, G and B of entry i |
| PNGPalettes.PalettePayload | Image/PNG/IO/Chunks/PNGPalette.cs:30-38 | the PLTE payload is 3 bytes per entry |
| PNGPalettes.ReadPalette | Image/PNG/IO/PNGReader.cs:228-235 | the reference reader of a PLTE payload gives one entry per 3 bytes |
| PNGPalettes.PayloadExtend | Image/PNG/IO/Chunks/PNGPalette.cs:31-35 | one iteration of the payload loop appends R, G and B of the next entry |
| PNGPalettes.PaletteRoundTrip | Image/PNG/IO/Chunks/PNGPalette.cs:30-38 | reading the payload back gives every entry with alpha made opaque, since alpha is never written |
| PNGPalettes.WriteEntries | Image/PNG/IO/Chunks/PNGPalette.cs:31-35 | the buffer's first 3 * Count bytes become the payload of the palette |
| PNGPalettes.PNGPalette.constructor | Image/PNG/IO/Chunks/PNGPalette.cs:25-28 | a fresh PLTE chunk over a fresh palette whose count is the `Palette` rounding of `(i32)capacity`, so 2 for a capacity of 2^31 or more, with every entry zero |
| PNGPalettes.PNGPalette.CopyTo | Image/PNG/IO/Chunks/PNGPalette.cs:30-38 | every payload byte is rewritten from the palette at write time, and exactly the frame of it is appended |
| TextChunks.KeywordName | Image/PNG/IO/Chunks/TextChunk.cs:56-60 | each keyword's name is 5 to 8 upper-case letters |
| TextChunks.KeywordFits | Image/PNG/IO/Chunks/TextChunk.cs:31-35 | the keyword's UTF-8 bytes fit the field and contain no zero byte |
| TextChunks.TryGetBytes | Image/PNG/IO/Chunks/TextChunk.cs:34-42 | succeeds exactly when the UTF-8 bytes fit the capacity; either way the span receives the bytes of the characters that fit, the whole encoding on success |
| TextChunks.FitCharsLongest | Image/PNG/IO/Chunks/TextChunk.cs:41-42 | the characters that fit are the whole string when its encoding fits, and otherwise a prefix one character short of overflowing |
| TextChunks.LayoutSteps | Image/PNG/IO/Chunks/TextChunk.cs:29-43 | the header is the keyword padded with zeros, the flag at byte 81, and the language at bytes 83 to 102 |
| TextChunks.HeaderInfos | Image/PNG/IO/Chunks/TextChunk.cs:31-42 | the method builds that 106-byte header, with the bytes the discarded `TryGetBytes` writes in the language field |
| TextChunks.TextPayload | Image/PNG/IO/Chunks/TextChunk.cs:47-50 | the payload is 106 bytes plus the text's UTF-8 bytes |
| TextChunks.TextRoundTrip | Image/PNG/IO/Chunks/TextChunk.cs:29-53 | parsing the payload with a reference parser gives back the keyword's name, the compression flag, the language's characters that fit 20 bytes, and the text |
| TextChunks.KeywordReadBack | Image/PNG/IO/Chunks/TextChunk.cs:34-35 | bytes 0 to 79 hold the keyword's name, followed by zeros |
| TextChunks.LanguageReadBack | Image/PNG/IO/Chunks/TextChunk.cs:41-42 | bytes 83 to 102 read back as the longest prefix of the language whose UTF-8 bytes fit 20 bytes: the whole language when it fits |
| TextChunks.LanguageField | Image/PNG/IO/Chunks/TextChunk.cs:41-42 | at most 20 bytes, and the language's whole encoding when that fits |
| TextChunks.Header | Image/PNG/IO/Chunks/TextChunk.cs:31-43 | the iTXt header is 106 bytes |
| TextChunks.Layout | Image/PNG/IO/Chunks/TextChunk.cs:31-43 | the header laid out from its fields is 106 bytes |
| TextChunks.UntilZeroPadded | Image/PNG/IO/Chunks/TextChunk.cs:34-42 | a zero-padded field read up to its first zero gives the bytes before the padding |
| TextChunks.KeywordFieldRead | Image/PNG/IO/Chunks/TextChunk.cs:34-35 | the keyword field reads back as the keyword's bytes |
| TextChunks.LanguageFieldRead | Image/PNG/IO/Chunks/TextChunk.cs:41-42 | the language field reads back as the language's bytes |
| TextChunks.Place | Image/PNG/IO/Chunks/TextChunk.cs:47-50 | the buffer holds the header followed by the text |
| TextChunks.TextChunk.constructor | Image/PNG/IO/Chunks/TextChunk.cs:21-27 | an iTXt chunk with the given keyword, text and flag, and an empty language |
| TextChunks.TextChunk.CopyTo | Image/PNG/IO/Chunks/TextChunk.cs:29-53 | text over 4096 UTF-8 bytes is `ArgumentError`, with nothing built or written; otherwise the buffer holds the payload and exactly its frame is appended |
| Utf8.EncodeChar | Image/PNG/IO/Chunks/TextChunk.cs:34 | a character encodes as 1 to 4 bytes, as one byte exactly when it is ASCII |
| Utf8.Encode | Image/PNG/IO/Chunks/TextChunk.cs:34 | a string encodes as at least one byte per character |
| Utf8.DecodeEncodeChar | Image/PNG/IO/Chunks/TextChunk.cs:34 | decoding the encoding of one character followed by anything gives the character and its length |
| Utf8.DecodeTwo | Image/PNG/IO/Chunks/TextChunk.cs:34 | the same for the two-byte range 0x80 to 0x7FF |
| Utf8.DecodeThree | Image/PNG/IO/Chunks/TextChunk.cs:34 | the same for the three-byte range 0x800 to 0xFFFF |
| Utf8.DecodeFour | Image/PNG/IO/Chunks/TextChunk.cs:34 | the same for the four-byte range from 0x10000 |
| Utf8.EncodeAscii | Image/PNG/IO/Chunks/TextChunk.cs:34 | an ASCII string encodes as its own character codes, one byte each |
| Utf8.DecodeEncode | Image/PNG/IO/Chunks/TextChunk.cs:34 | decoding the encoding of a string gives the string back |
| Utf8.EncodeAppend | Image/PNG/IO/Chunks/TextChunk.cs:49 | encoding distributes over concatenation |
| Utf8.EncodeNoZero | Image/PNG/IO/Chunks/TextChunk.cs:34 | a string without NUL encodes without a zero byte |
| Scanlines.ChannelwisePredictor | Image/PNG/IO/PNGReader.cs:81-128 | channel c of every predictor depends only on channel c of the neighbours |
| Scanlines.Encoded | Image/PNG/IO/PNGWriter.cs:112-176 | the filtered buffer is h * (w * ch + 1) bytes |
| Scanlines.FilterTypeAt | Image/PNG/IO/PNGWriter.cs:116-123 | the byte at y * (w * ch + 1) is row y's filter type |
| Scanlines.PixelAt | Image/PNG/IO/PNGWriter.cs:170-171 | pixel (x, y) is stored at y * (w * ch + 1) + 1 + x * ch as the `CopyTo` bytes of the encoded pixel |
| Scanlines.PixelByteAt | Image/PNG/IO/PNGWriter.cs:170-171 | byte c of pixel (x, y) is byte c of the encoded pixel's `CopyTo` bytes |
| Scanlines.PixelInBounds | Image/PNG/IO/PNGReader.cs:62-79 | every pixel's bytes lie inside the buffer |
| Scanlines.PixelByteIndex | Image/PNG/IO/PNGReader.cs:62-79 | the byte of channel c of pixel (x, y) lies in row y, at column 1 + x * ch + c, so row, pixel and channel are recovered from the index |
| Scanlines.RowColumn | Image/PNG/IO/PNGWriter.cs:113-173 | every byte index of the buffer falls in a row, and a non-zero column falls in a pixel and a channel |
| Scanlines.PixelBytes | Image/PNG/IO/PNGReader.cs:81-128 | the bytes the reader takes for a pixel are ch bytes |
| Scanlines.EncodedCarries | Image/PNG/IO/PNGWriter.cs:112-176 | the filtered buffer carries every row's filter type and every pixel's encoded bytes |
| Scanlines.PixelRoundTrip | Image/PNG/IO/PNGReader.cs:81-131 | decoding a pixel's bytes once the carried channels of its neighbours are correct gives back its carried channels |
| Scanlines.ChannelBack | Image/PNG/IO/PNGReader.cs:81-128 | decoding a carried channel with a predictor equal in that channel to the encoder's gives the channel back |
| Scanlines.ReconOfCarried | Image/PNG/IO/PNGReader.cs:81-131 | on a buffer that carries the encoding, the reconstruction of a pixel is its decoded bytes under the reconstructed neighbours |
| Scanlines.ReconGrid | Image/PNG/IO/PNGReader.cs:62-131 | the reconstructed image has the same scale |
| Scanlines.ReconInverts | Image/PNG/IO/PNGReader.cs:81-131 | reconstruction in scanline order gives back every source pixel's carried channels, for any filter type per row |
| Scanlines.ReconGridInvertsEncoding | Image/PNG/IO/PNGWriter.cs:112-176 | reconstructing the filtered buffer gives back every carried channel of every source pixel |
| Scanlines.PartialStep | Image/PNG/IO/PNGReader.cs:62-131 | one step of the loop turns the image reconstructed up to pixel k into the image reconstructed up to k + 1 |
| Scanlines.PartialNone | Image/PNG/IO/PNGReader.cs:62 | before the loop nothing is reconstructed |
| Scanlines.PartialNeighbours | Image/PNG/IO/PNGReader.cs:81-128 | when pixel k is next, it still holds its old value and its left, upper and upper-left neighbours are already reconstructed |
| Scanlines.PartialUpdate | Image/PNG/IO/PNGReader.cs:62-131 | writing pixel k's reconstruction extends the reconstructed prefix by one |
| Scanlines.UnfilteredOf | Image/PNG/IO/PNGReader.cs:81-128 | what the loop writes for a pixel is its bytes decoded with the row's filter type and the current neighbours |
| Scanlines.PartialAll | Image/PNG/IO/PNGReader.cs:62-131 | after all w * h pixels the image is the reconstruction |
| Scanlines.ScanEnd | Image/PNG/IO/PNGReader.cs:70-77 | the index reaches the end of the buffer exactly after the last pixel of the last row |
| Scanlines.ScanColumn | Image/PNG/IO/PNGReader.cs:70-77 | within a row the index reaches the next row's filter byte exactly after the last pixel |
| Scanlines.NextRow | Image/PNG/IO/PNGReader.cs:70-77 | if the next row's filter byte is inside the buffer, there is a next row |
| PNGReaders.Available | Image/PNG/IO/PNGReader.cs:158-190 | a read of n bytes at a position yields n, what is left of the file, or 0 at its end |
| PNGReaders.Overlay | Image/PNG/IO/PNGReader.cs:158-190 | a read overwrites the first bytes of the buffer with the available bytes of the file and leaves the rest |
| PNGReaders.HeaderBytes | Image/PNG/IO/PNGReader.cs:158-190 | in a file that starts with the signature and an IHDR chunk, bytes 16 to 25 are the payload's first 10 bytes |
| PNGReaders.PNGReader.constructor | Image/PNG/IO/PNGReader.cs:34-37 | the reader starts at position 0 with a decoding filter |
| PNGReaders.PNGReader.Read | Image/PNG/IO/PNGReader.cs:158-190 | the buffer is overlaid with the file from the position, and the position advances by the bytes read |
| PNGReaders.PNGReader.ReadByte | Image/PNG/IO/PNGReader.cs:176-186 | at the end of the file `EndOfStream`; otherwise the byte at the position, advancing it by one |
| PNGReaders.PNGReader.IsPNG | Image/PNG/IO/PNGReader.cs:143-150 | true exactly when the first 8 bytes are 89 50 4E 47 0D 0A 1A 0A |
| PNGReaders.PNGReader.ReadHeaderEntry | Image/PNG/IO/PNGReader.cs:158-190 | width is the big-endian u32 at offset 16, height the one at 20, depth byte 24, and colour mode byte 25; any other entry is 0 |
| PNGReaders.HeaderReadBack | Image/PNG/IO/PNGReader.cs:158-190 | after the signature and the header's IHDR chunk, those reads give back the width, height, depth and colour mode written |
| PNGReaders.PNGReader.DetectIDATs | Image/PNG/IO/PNGReader.cs:250-277 | the result is the walk from offset 33 that advances 12 + len per chunk |
| PNGReaders.PNGReader.DetectStep | Image/PNG/IO/PNGReader.cs:259-274 | one iteration of that walk |
| PNGReaders.StepOverChunk | Image/PNG/IO/PNGReader.cs:259-274 | a step over a chunk advances 12 + len, records the first IDAT offset and adds an IDAT's length |
| PNGReaders.WalkStep | Image/PNG/IO/PNGReader.cs:259-274 | a step of the walk keeps 4-byte buffers and advances at least 4 bytes |
| PNGReaders.WalkStepOf | Image/PNG/IO/PNGReader.cs:259-274 | one step reads the length and name, skips len + 4 bytes, notes the first IDAT offset and adds an IDAT's length |
| PNGReaders.Peel | Image/PNG/IO/PNGReader.cs:259-274 | over a run of chunks one step moves to the next chunk and keeps the result of the walk |
| PNGReaders.DetectAtEnd | Image/PNG/IO/PNGReader.cs:259 | at the end of the file the walk stops with what it has |
| PNGReaders.DetectChunks | Image/PNG/IO/PNGReader.cs:250-277 | over a file laid out as chunks the walk visits exactly those chunks |
| PNGReaders.DetectIDATsOfFile | Image/PNG/IO/PNGReader.cs:250-277 | on a file of framed chunks after 33 bytes, the result is the offset of the first IDAT chunk and the sum of the IDAT payload lengths |
| PNGReaders.ChunkWalkFinds | Image/PNG/IO/PNGReader.cs:250-277 | the walk over a chunk list finds the first IDAT and the IDAT total |
| PNGReaders.ChunkWalkIgnoresBuffers | Image/PNG/IO/PNGReader.cs:259-274 | the result of the walk does not depend on the stale contents of its buffers |
| PNGReaders.PNGReader.ReadInto | Image/PNG/IO/PNGReader.cs:295 | a span read copies the available file bytes into the buffer at the offset and nothing more |
| PNGReaders.PNGReader.ReadChunkHead | Image/PNG/IO/PNGReader.cs:289-293 | reads the chunk's name and length and advances by 8 |
| PNGReaders.PNGReader.CopyChunk | Image/PNG/IO/PNGReader.cs:288-298 | copies the chunk's payload into the buffer at the offset, as far as there is room, then skips 4 bytes: the stream ends 12 + n bytes on, n being the bytes copied, which is past the chunk when the whole payload fit |
| PNGReaders.PNGReader.CopyNext | Image/PNG/IO/PNGReader.cs:288-300 | one pass of the `do`-`while` loop: the name read is `IDAT` exactly for a chunk of the run; an `IDAT` appends its payload behind the earlier ones and leaves the stream at the next chunk, and the final chunk completes the destination as `Filled` |
| PNGReaders.PNGReader.CopyIDATsBuffer | Image/PNG/IO/PNGReader.cs:279-301 | the buffer holds the payloads of the consecutive IDAT chunks in file order, then the first bytes of the next chunk's payload as far as room remains, then its previous bytes |
| PNGReaders.PayloadsAppend | Image/PNG/IO/PNGReader.cs:279-301 | the concatenated payloads of two runs concatenate |
| PNGReaders.PayloadsStep | Image/PNG/IO/PNGReader.cs:288-300 | the payloads after one more chunk are the earlier payloads plus its payload |
| PNGReaders.DataPrefix | Image/PNG/IO/PNGReader.cs:295 | the bytes after a chunk's name are its payload |
| PNGReaders.CopyAt | Image/PNG/IO/PNGReader.cs:295 | copying data into a buffer at an offset changes only the cells it covers |
| PNGReaders.FillStep | Image/PNG/IO/PNGReader.cs:288-300 | each copied IDAT payload extends the filled prefix; when the run ends, the buffer is filled |
| PNGReaders.CopyBehind | Image/PNG/IO/PNGReader.cs:295-298 | copying behind a filled prefix appends as much of the data as fits |
| PNGReaders.PNGReader.Undo | Image/PNG/IO/PNGReader.cs:81-128 | each filter type decodes with its predictor: Sub the left pixel, Up the one above, Average their mean, Paeth called as (up, sub, sub_up), and any other type leaves the pixel |
| PNGReaders.PNGReader.UnfilterPixel | Image/PNG/IO/PNGReader.cs:62-131 | pixel (x, y) becomes its reconstruction from already reconstructed neighbours, and no other pixel changes |
| PNGReaders.PNGReader.UnfilterNext | Image/PNG/IO/PNGReader.cs:62-131 | writing the next pixel extends the reconstructed prefix by one |
| PNGReaders.PNGReader.UnfilterTurn | Image/PNG/IO/PNGReader.cs:62-131 | one turn of the loop reconstructs the next pixel and advances the cursor |
| PNGReaders.NextCursor | Image/PNG/IO/PNGReader.cs:70-77 | at the end of a row the next filter byte is read and the cursor moves to the next row |
| PNGReaders.PNGReader.Unfilter | Image/PNG/IO/PNGReader.cs:47-131 | with L = w * ch + 1 the filter byte of row y is at y * L and pixel (x, y) is read from y * L + 1 + x * ch; the image becomes the reconstruction of the buffer in scanline order |
| PNGReaders.PNGReader.ReadPaletteTable | Image/PNG/IO/PNGReader.cs:196-240 | corrected (see ## Findings): the palette table `PaletteOf(file, 768, false)` that the chunk after the header gives, or its error |
| PNGReaders.PaletteTable | Image/PNG/IO/PNGReader.cs:226-235 | the evidently intended table: entry j of the payload at index j, with alpha 255, and zeros after |
| PNGReaders.WrittenTable | Image/PNG/IO/PNGReader.cs:228-235 | the table the loop leaves as written has 256 entries |
| PNGReaders.PaletteOf | Image/PNG/IO/PNGReader.cs:196-235 | the table read from the chunk after the header, when there is one, has 256 entries |
| PNGReaders.OpaqueTable | Image/PNG/IO/PNGReader.cs:228-235 | a palette as a 256-entry table |
| PNGReaders.PaletteFileFields | Image/PNG/IO/PNGReader.cs:210-226 | in a file with a PLTE chunk after the header, the length at 33 is the payload length, the name at 37 is PLTE, and the payload starts at 41 |
| PNGReaders.FillPalette | Image/PNG/IO/PNGReader.cs:228-235 | corrected (see ## Findings): the loop stores entry i / 3 at index i / 3 and fills the `PaletteTable` of the buffer |
| PNGReaders.Lookup | Image/PNG/IO/PNGReader.cs:241-247 | each pixel becomes the table entry its red channel indexes |
| PNGReaders.Recolor | Image/PNG/IO/PNGReader.cs:241-247 | every pixel is replaced by the table entry its red channel indexes |
| PNGReaders.RecolorPixel | Image/PNG/IO/PNGReader.cs:243-246 | recolouring one pixel extends the recoloured prefix by one |
| PNGReaders.PNGReader.ConvertToRGBA | Image/PNG/IO/PNGReader.cs:196-248 | corrected (see ## Findings): only the first chunk after IHDR is inspected: an IDAT chunk is `FileLoad`, and so is a PLTE length that is not a multiple of 3; in both cases the image is unchanged; otherwise every pixel is replaced by the entry of the corrected table its red channel indexes, where any other chunk gives an all-zero table |
| PNGReaders.PaletteOfFile | Image/PNG/IO/PNGReader.cs:196-248 | the palette `PNGPalette.CopyTo` writes reads back, once corrected, as its entries made opaque |
| PNGReaders.PaletteTableOf | Image/PNG/IO/PNGReader.cs:226-235 | the table of a written payload is the opaque palette |
| PNGReaders.WrittenTableLosesEntries | Image/PNG/IO/PNGReader.cs:228-235 | as written, indices 2 and up stay zero, and from three entries on the table differs from the palette |
| PNGReaders.LargePaletteRefused | Image/PNG/IO/PNGReader.cs:204-226 | as written, a palette of 86 entries or more fails with `ArgumentOutOfRange` |
| PNGWriters.Nearest | Image/PNG/IO/PNGWriter.cs:181-191 | the index is below the palette count |
| PNGWriters.NearestIsFirstMinimum | Image/PNG/IO/PNGWriter.cs:181-191 | the index is the lowest of minimal distance: no entry is closer and every earlier entry is strictly farther |
| PNGWriters.NearestUnique | Image/PNG/IO/PNGWriter.cs:184-190 | any lowest index of minimal distance is that index |
| PNGWriters.Indexed | Image/PNG/IO/PNGWriter.cs:193 | the pixel's red channel becomes the nearest index and G, B and A are unchanged |
| PNGWriters.NearestIndex | Image/PNG/IO/PNGWriter.cs:181-191 | the loop with strict `<` finds the nearest index |
| PNGWriters.IndexAll | Image/PNG/IO/PNGWriter.cs:178-196 | every pixel of the caller's image is indexed in place |
| PNGWriters.IndexPixel | Image/PNG/IO/PNGWriter.cs:181-193 | indexing one pixel extends the indexed prefix by one |
| PNGWriters.PNGWriter.ConvertToIndexed | Image/PNG/IO/PNGWriter.cs:178-196 | without a recorded palette a non-empty image is `NullReference`; otherwise every pixel's R becomes its nearest palette index, with G, B and A unchanged |
| PNGWriters.FilterTypes | Image/PNG/IO/PNGWriter.cs:123 | one filter type per row: None for indexed mode and Up otherwise |
| PNGWriters.FilteredPixel | Image/PNG/IO/PNGWriter.cs:125-168 | the pixel as the writer filters it is the encoded pixel: raw under None and in row 0, otherwise raw minus the pixel above mod 256 |
| PNGWriters.FilterRows | Image/PNG/IO/PNGWriter.cs:115-173 | the nested loops fill the buffer with the filtered bytes |
| PNGWriters.FilterRow | Image/PNG/IO/PNGWriter.cs:116-172 | one row of the loop writes the row's filter byte and its pixels' bytes |
| PNGWriters.FilterPixels | Image/PNG/IO/PNGWriter.cs:125-172 | the pixel loop of a row writes each pixel's filtered bytes in turn |
| PNGWriters.FilterPixel | Image/PNG/IO/PNGWriter.cs:125-171 | one pixel's filtered bytes are written at the cursor |
| PNGWriters.Place | Image/PNG/IO/PNGWriter.cs:170-171 | the bytes are written at the offset, with the earlier bytes kept |
| PNGWriters.RowStart | Image/PNG/IO/PNGWriter.cs:116-123 | row y's filter byte is at y * (w * ch + 1) |
| PNGWriters.BufferLength | Image/PNG/IO/PNGWriter.cs:113 | the length W * H * ch + H is H rows of W * ch + 1 bytes |
| PNGWriters.PNGWriter.constructor | Image/PNG/IO/PNGWriter.cs:25-31 | the 8-byte signature is written before any chunk, with a fresh header and no palette |
| PNGWriters.SignatureKept | Image/PNG/IO/PNGWriter.cs:30 | appending to the stream keeps the signature at its start |
| PNGWriters.PNGWriter.WriteHeaderEntry | Image/PNG/IO/PNGWriter.cs:33-53 | only the named field changes, with depth and colour mode narrowed to a byte; an unknown entry is `ArgumentError`; after the header is written, `NullReference` |
| PNGWriters.PNGWriter.FlushHeader | Image/PNG/IO/PNGWriter.cs:74-97 | the header's IHDR chunk is appended if it is still held, and then the header is dropped |
| PNGWriters.PNGWriter.WriteChunk | Image/PNG/IO/PNGWriter.cs:91-103 | the stream receives the pending header's chunk, if any, and then the chunk, so IHDR is written exactly once, before the first chunk |
| PNGWriters.PNGWriter.WritePalette | Image/PNG/IO/PNGWriter.cs:91-103 | a palette chunk is written the same way and recorded as the indexing palette |
| PNGWriters.PNGWriter.AppendPalette | Image/PNG/IO/Chunks/PNGPalette.cs:30-38 | with the header already written, a palette chunk appends exactly its frame |
| PNGWriters.PNGWriter.WriteText | Image/PNG/IO/PNGWriter.cs:91-103 | a text chunk is written the same way; text over 4096 bytes fails after the header has been flushed |
| PNGWriters.PNGWriter.AppendText | Image/PNG/IO/Chunks/TextChunk.cs:29-53 | with the header already written, a text chunk appends its frame or fails with nothing written |
| PNGWriters.PNGWriter.CreateFilteredBuffer | Image/PNG/IO/PNGWriter.cs:112-176 | an unknown colour mode is `KeyNotFound`; otherwise the buffer is exactly the scanline encoding of the image with None or Up per row |
| PNGWriters.PNGWriter.WriteIdat | Image/PNG/IO/PNGWriter.cs:74-82 | the pending header, if any, then one IDAT chunk of the compressed bytes |
| PNGWriters.PNGWriter.WriteImageData | Image/PNG/IO/PNGWriter.cs:59-84 | the compressed filtered buffer of the image is written as one IDAT chunk after the pending header |
| PNGWriters.PNGWriter.WriteBuffer | Image/PNG/IO/PNGWriter.cs:55-85 | indexed mode first remaps the pixels to palette indices; the stream then receives the pending header and one IDAT chunk of the compressed filtered pixels; an unknown colour mode (`KeyNotFound`) or a missing palette for a non-empty indexed image (`NullReference`) fails with nothing written |
| PNGWriters.PNGWriter.Dispose | Image/PNG/IO/PNGWriter.cs:105-110 | an IEND chunk with an empty payload is appended |
| Streams.ByteStream.Write | Image/PNG/IO/PNGWriter.cs:30 | a write appends its bytes to the stream |
| ChannelShifts.ZeroGrid | Effects/Distorts/ChannelShift.cs:59 | the split starts all zero |
| ChannelShifts.ChannelOnly | Effects/Distorts/ChannelShift.cs:55-71 | the split of one channel has the image's scale |
| ChannelShifts.ChannelOnlyAt | Effects/Distorts/ChannelShift.cs:55-71 | split c holds channel c of the image and zero in the others |
| ChannelShifts.ShiftedAt | Effects/Distorts/ChannelShift.cs:33-48 | R at (x, y) is the original R at (x - red.X, y - red.Y) when that is in bounds and the original R otherwise; G and B likewise with their own offsets; alpha never changes |
| ChannelShifts.Shifted | Effects/Distorts/ChannelShift.cs:33-48 | the shifted image has the same scale |
| ChannelShifts.ShiftedChannelOf | Effects/Distorts/ChannelShift.cs:36-46 | channel c of the shifted pixel is channel c taken at the channel's own offset |
| ChannelShifts.ShiftedInTurn | Effects/Distorts/ChannelShift.cs:36-46 | the three conditional writes, one channel at a time, make the shifted pixel |
| ChannelShifts.ZeroShiftIdentity | Effects/Distorts/ChannelShift.cs:36-46 | with all offsets zero the image is unchanged |
| ChannelShifts.ShiftBack | Effects/Distorts/ChannelShift.cs:33-48 | shifting by the opposite offsets gives back every channel whose shifted position stays in bounds, and alpha |
| ChannelShifts.ShiftBackChannel | Effects/Distorts/ChannelShift.cs:33-48 | per channel: shifting by d and then by -d restores the channel where the shifted position stays in bounds |
| ChannelShifts.ChannelShift.constructor | Effects/Distorts/ChannelShift.cs:24-28 | the three offsets are stored |
| ChannelShifts.SplitPixel | Effects/Distorts/ChannelShift.cs:64-66 | one pixel of a split takes channel c of the image pixel |
| ChannelShifts.SplitRow | Effects/Distorts/ChannelShift.cs:62-67 | one row of a split is filled |
| ChannelShifts.SplitAll | Effects/Distorts/ChannelShift.cs:61-68 | the split holds channel c of the image and zero elsewhere |
| ChannelShifts.NewSplit | Effects/Distorts/ChannelShift.cs:58-59 | a fresh buffer of the image's scale holding the split of channel c |
| ChannelShifts.DisposeAll | Effects/Distorts/ChannelShift.cs:51-52 | the three splits are disposed |
| ChannelShifts.ShiftChannel | Effects/Distorts/ChannelShift.cs:36-46 | one conditional channel write, reading from the channel's split |
| ChannelShifts.ChannelShift.SplitChannels | Effects/Distorts/ChannelShift.cs:55-71 | three fresh, distinct buffers, split i holding channel i of the image and zeros elsewhere; a zero dimension is `ArgumentError` |
| ChannelShifts.ChannelShift.ShiftAll | Effects/Distorts/ChannelShift.cs:33-48 | the nested loops, reading only from the splits, make the shifted image |
| ChannelShifts.ChannelShift.ShiftPixel | Effects/Distorts/ChannelShift.cs:36-46 | writing one pixel's three shifted channels extends the shifted prefix by one |
| ChannelShifts.ChannelShift.ShiftRow | Effects/Distorts/ChannelShift.cs:34-47 | one row of the loop shifts every pixel of the row |
| ChannelShifts.ChannelShift.Apply | Effects/Distorts/ChannelShift.cs:30-53 | the image becomes the channel-shift of the original, with the same scale; a zero dimension is `ArgumentError` with the image unchanged |
| Transforms.Flipped | Extensions/TransformExtension.cs:19-43 | the flipped image has the same scale |
| Transforms.FlippedAt | Extensions/TransformExtension.cs:19-43 | vertically the new (x, y) is the old (x, H - 1 - y); horizontally it is the old (W - 1 - x, y) |
| Transforms.FlipTwice | Extensions/TransformExtension.cs:19-43 | flipping twice in the same direction is the identity |
| Transforms.FlipMiddle | Extensions/TransformExtension.cs:19-43 | the middle row or column of an odd dimension is untouched |
| Transforms.FlipVStep | Extensions/TransformExtension.cs:25-28 | one swap of the vertical loop extends the flipped part by one pixel pair |
| Transforms.FlipHStep | Extensions/TransformExtension.cs:37-40 | one swap of the horizontal loop extends the flipped part by one pixel pair |
| Transforms.FlipVNone | Extensions/TransformExtension.cs:22 | before the vertical loop nothing is swapped |
| Transforms.FlipVColumnEnd | Extensions/TransformExtension.cs:22-30 | finishing a column's swaps is starting the next column |
| Transforms.FlipVAll | Extensions/TransformExtension.cs:20-31 | after every column the image is flipped vertically |
| Transforms.FlipHNone | Extensions/TransformExtension.cs:34 | before the horizontal loop nothing is swapped |
| Transforms.FlipHRowEnd | Extensions/TransformExtension.cs:35-41 | finishing a row's swaps is starting the next row |
| Transforms.FlipHAll | Extensions/TransformExtension.cs:34-42 | after every row the image is flipped horizontally |
| Transforms.SwapVertical | Extensions/TransformExtension.cs:25-28 | one swap of pixel (x, y) with (x, H - 1 - y) |
| Transforms.FlipColumn | Extensions/TransformExtension.cs:23-29 | the swaps down the top half of one column |
| Transforms.SwapHorizontal | Extensions/TransformExtension.cs:37-40 | one swap of pixel (x, y) with (W - 1 - x, y) |
| Transforms.FlipRow | Extensions/TransformExtension.cs:36-41 | the swaps across the left half of one row |
| Transforms.FlipVertical | Extensions/TransformExtension.cs:20-31 | the nested loops over columns and the top half of the rows flip the image vertically |
| Transforms.FlipHorizontal | Extensions/TransformExtension.cs:34-42 | the nested loops over rows and the left half of the columns flip the image horizontally |
| Transforms.Flip | Extensions/TransformExtension.cs:19-43 | the image becomes its flip in the given direction, with the scale unchanged |
| Transforms.Bump | Extensions/TransformExtension.cs:186-187 | `TryAdd` then `++` leaves the keys before plus the pixel's key |
| Transforms.BumpSum | Extensions/TransformExtension.cs:186-187 | a bump that does not overflow adds one to the sum of the counts |
| Transforms.TallySnoc | Extensions/TransformExtension.cs:180-191 | counting one more pixel is one more bump |
| Transforms.SumValuesRemove | Extensions/TransformExtension.cs:180-191 | the sum of the counts is one key's count plus the sum over the others |
| Transforms.Count | Extensions/TransformExtension.cs:180-191 | the number of pixels with a given key is at most the number of pixels |
| Transforms.TallyCounts | Extensions/TransformExtension.cs:180-191 | a key is present exactly when some pixel maps to it, and its count is the number of such pixels, wrapped to i32 |
| Transforms.TallyExact | Extensions/TransformExtension.cs:180-191 | below 2^31 pixels each count is exact |
| Transforms.TallySum | Extensions/TransformExtension.cs:180-191 | below 2^31 pixels the counts sum to W * H |
| Transforms.CountPixel | Extensions/TransformExtension.cs:186-187 | `TryAdd` and then `++` bump the pixel's key |
| Transforms.CountRow | Extensions/TransformExtension.cs:183-188 | one row of the loop adds the row's pixels to the tally |
| Transforms.VisitedStep | Extensions/TransformExtension.cs:182-188 | the pixels visited after one more step are those before plus the new pixel |
| Transforms.VisitedRow | Extensions/TransformExtension.cs:182-188 | after a full row the visited pixels are the rows so far |
| Transforms.CreateHistogram | Extensions/TransformExtension.cs:176-192 | a missing selector is `ArgumentError`; otherwise the tally of the pixels in row-major order, with the image unchanged |

## Left out

- zlib inflate and deflate. Compression is a function parameter of the writer, and the reader's reconstruction starts from the inflated bytes. The `Position + 6` length arithmetic and the `1.75 * length + 6` allocation are not modelled.
- The top-level `ReadBuffer` and the `PNG.Load` and `Save` sequencing around the reader are not modelled. Their parts are: `DetectIDATs`, `CopyIDATsBuffer`, `Unfilter` for the reconstruction loop, and `ConvertToRGBA`.
- `PNG.ColorMode` is a parameter, because `PNG.cs` is not part of this model.
- File and stream plumbing is not modelled. The file is a byte sequence with a cursor and the output is an appended byte sequence. `Seek` is a position assignment. Closing and disposing the streams is not modelled.
- `NativeMemory` allocation, finalizers and `GC.SuppressFinalize` are not modelled. Buffers are owned arrays with a disposed flag.
- `UMem.AsStream`, the `RGBA` hex constructor and `ToString` are not modelled.
- Float operations are not modelled: `EuclidianDistance`, `Luminance`, `operator *`, the Gaussian kernels, and `Resize` and the other float or concurrent transforms.
- Effect pipelines, `async`/`Task` returns and cancellation are not modelled.
- PNGWriters.Nearest: the float `sqrt` of the RGB distance is modelled as the integer squared distance, which orders palette entries the same way except where float rounding would tie.
- PNGWriters.NearestIndex: requires a palette of at most 65535 entries, because the source's `u16` loop counter would wrap past that.
- The Sub, Average and Paeth branches of `CreateFilteredBuffer` are not modelled. They are unreachable, since the writer only ever stores None or Up. The Average and Paeth branches would also pass the wrong neighbours.
- PNGWriters.PNGWriter.CreateFilteredBuffer: requires width and height below 2^31 and the buffer length below 2^32. These are where the source's `i32` loop counters and `u32` length product stop being exact.
- PNGWriters.PNGWriter.WriteBuffer: the postcondition does not restate the remapped image after writing. It does state the bytes written from the remapped pixels.
- PNGWriters.PNGWriter.WriteHeaderEntry: an entry value cast by `Unsafe.As` is modelled as a u32 narrowed to a byte for depth and colour mode.
- Chunks.PNGChunk.CopyTo: requires payloads below 2^31 bytes, because the source takes the payload as an `i32`-length span.
- Chunks.IendFrame: the trailer is stated as the CRC-32 of "IEND", not as the concrete bytes AE 42 60 82. The CRC is a recursive definition that the verifier does not evaluate on constants.
- PNGReaders.PNGReader.Unfilter: requires width and height of at least 1 and below 2^31 and a buffer below 2^32 bytes. These are where the `u32` coordinates and the index stay exact. An empty image does not occur, because `UMem2D` refuses a zero dimension.
- PNGReaders.PNGReader.CopyIDATsBuffer: requires that chunks follow from the given offset and that the payloads fit the buffer. A truncated or malformed file is not modelled there.
- PNGReaders.PNGReader.ReadPaletteTable: the source's `while (true)` loop always ends after one chunk. It is modelled without the loop.
- Memory2D.New: requires X * Y < 2^32. The source computes the length `scale.X * scale.Y` in unchecked `u32`, so a scale such as 65536 x 65536 allocates a wrapped, shorter buffer; the model keeps the length equal to X * Y as the buffer's invariant and does not follow that case.
- Memory2D.NewFilled: the same X * Y < 2^32 bound, for the same wrapped `u32` product.
- Images.New: the same X * Y < 2^32 bound, inherited from the `UMem2D` constructor it calls.
- Images.NewFilled: the same X * Y < 2^32 bound, inherited from the `UMem2D` constructor it calls.
- PNGPalettes.PNGPalette.constructor: requires a capacity of at most 0x2AAA_AAAA or of at least 2^31. The `(i32)` cast of the larger ones is modelled, and gives a 2-entry palette. In between, the `i32` products `3 * Count` and `i * 3` leave the exact range, and the model does not follow them.
- PNGReaders.PNGReader.ReadPaletteTable: models the corrected palette reading (a 768-byte buffer, entry i / 3 at index i / 3). The code as written is `PNGReaders.PaletteOf(file, 256, true)`, which `WrittenTable`, `WrittenTableLosesEntries` and `LargePaletteRefused` describe (see ## Findings).
- PNGReaders.FillPalette: models the corrected loop that stores entry i / 3 at index i / 3. The loop as written stores it at `palette[i % 2]`, which is `PNGReaders.WrittenTable`.
- PNGReaders.PNGReader.ConvertToRGBA: recolours with the corrected table. As written, the table is the one from `PNGReaders.PaletteOf(file, 256, true)`.
- TextChunks.TryGetBytes: when the span is too small, the call writes the bytes of the whole characters that fit and then returns false. This is the behaviour of the .NET UTF-8 encoder, which is not part of this model; `HeaderInfos` and `LanguageReadBack` rely on it for a language longer than 20 bytes.
- Utf8: strings are sequences of Unicode scalar values. A C# string holding a lone surrogate, which `Encoding.UTF8` writes as EF BF BD, is outside the model.
- Palettes.Create: requires fewer than 2^30 entries and fewer than 2^31 pixels. Those keep the `f32.Pow` cast and the `(i32)` length casts exact.
- The capacity rounding loop of the `Palette` constructor runs on `f32` powers of two, which are exact in the range it reaches. It is modelled on integers.
- ChannelShifts.ChannelShift.SplitChannels: fills the three splits one after another rather than interleaved pixel by pixel. The result is the same because the splits are distinct buffers.
- ChannelShifts.ChannelShift.Apply: writes each pixel once with all three channels. The source writes each channel in turn through a reference. The state is the same after each pixel.
- Transforms.CreateHistogram: the `where` delegate is an optional pure total function. The `INumber` key type is any type with equality. The dictionary's initial capacity of 255 has no observable effect.
- Transforms.Flip: direction values other than `VERTICAL` and `HORIZONTAL` behave as horizontal in the source. The model has only the two enumerators.

## Findings

| source | as written | input that shows it | evidently intended | confidence | as-written member | corrected member |
|---|---|---|---|---|---|---|
| Image/PNG/IO/PNGReader.cs:229 | each palette entry is stored at `palette[i % 2]`, where `i` is the byte offset; only indices 0 and 1 are ever written | a PLTE chunk of three entries: entry 2 (offset 6) overwrites index 0, and index 2 stays zero | entry `i / 3` at index `i / 3` | not executed | PNGReaders.WrittenTableLosesEntries | PNGReaders.PaletteTableOf |
| Image/PNG/IO/PNGReader.cs:204-226 | the palette is read into a 256-byte buffer, so a PLTE length above 256 makes the slice `paletteBuff[..cLen]` throw | a 128-entry palette (384 bytes), as `PNGPalette.CopyTo` writes it | a 768-byte buffer, room for the 256 entries an 8-bit index addresses | not executed | PNGReaders.LargePaletteRefused | PNGReaders.PaletteOfFile |
