# Image decoding, resampling and header codec: a verified model

The repository reads camera images through a single-file image decoder (`stb_image.h`), resizes them with a
single-file resampler (`stb_image_resize2.h`), and frames its own encrypted messages with a 32-bit variable-length
header (`ManagedSecurity.Common/Bindings.Header.cs`). This project models the parts of these three files where a fast,
stateful implementation stands for something simple, and proves that it does.

* **Inflate** (`Words`, `BitStream`, `Canonical`, `ZHuffman`, `DeflateFormat`, `Metering`, `Overrun`, `ZStream`,
  `Inflate`, `Rfc1951`, `WorkedStreams`, `Tape`). The reference is declarative: token lists and blocks that a zero-extended bit string spells, following section 3.2 of RFC 1951. It is
  proved to be a function of the bits. The decoder, with its 32-bit buffer, 9-bit table, left-aligned search, growing
  output and block loop, is proved sound and complete against it, and to end on every input. `Metering` says which
  streams that run past the input are still decoded, from the input alone.
* **PNG** (`PngFilter`, `Adam7`, `PngImage`). Unfiltering with two alternating line buffers, substituted first-row filters and the
  rewritten Paeth predictor equals section 9 of the PNG specification and inverts filtering; the seven interlace passes
  are a bijection onto the image, and are read one after the other from one stream.
* **GIF** (`GifOrder`, `GifLzw`, `GifRun`). The linked code tables with recursive output implement a dictionary of strings; the
  interlace cursor visits each pixel once, in the order of appendix E of GIF89a.
* **Resampler** (`Sampling`, `GatherRing`, `EdgeFold`, `Polyphase`, `Rational`, `Splits`, `Arith`). The scanline ring agrees with
  direct convolution; edge folding keeps weighted sums; the overlapping copy is a periodic extension; the continued
  fraction converges in lowest terms; the thread ranges tile the output. Weights and samples are exact reals.
* **Header** (`HeaderCodec`). Writer and parser undo each other, and the regions tile the message.

Reference definitions are themselves pinned from outside: by the numbers of the standards (`Rfc1951`,
`PngFilter.FilterTypes`, `Adam7.PassPattern`, `HeaderCodec.RegionNumbers`), by what determines them (impulse and
linearity of `GatherRing`, the meaning of a code sequence in `GifRun`), and by inputs worked out in full
(`WorkedStreams`, `GifRun.SmallRaster`).

Objects that the code updates in place are classes over arrays; the allocator is a largest block it will
give. Conditions the code tests but that cannot occur are written out and proved dead.

Where the code does not do what its comments or documented preconditions say:

* The inflate comments at lines 4249-4251 and 4327-4330 of `stb_image.h` say that consuming padding is always caught. It
  is not: `stbi__fill_bits` also pads with zero bytes, which are not counted. The single byte `0x03`, without zlib
  header, is an empty fixed block that ends at bit 10, and is decoded (`Inflate.TruncatedInput`). A stream that runs
  past the input is decoded exactly if `Metering.StreamMeter` finds it in full supply (`Inflate.DecodeBuffer`).
* `stbir_overlapping_memcpy` documents that it is asked for at least as many bytes as source and destination are apart.
  Its caller does not ensure this. `Copied` gives the exact condition under which nothing beyond the request is written.
* `stbir__get_split_info` may look one entry past the contributor table (`j <= stop` with `stop == each` in the last
  share; or, with no output rows, the first entry). `Splits.GetSplitInfo` says exactly when; the tiling holds whatever is found there.
* `GetRequiredSize` sizes a message by the whole profile number, while the written header keeps its two low bits.
* `stbir__cleanup_gathered_coefficients` drops weights of a row off the left edge that leaves no room for pixel 0, and
  takes an unused coefficient for a weight if the row ends before position -1. `EdgeFold.Excess` is what the sum is
  then off by.

## Model

| member | source | states |
|---|---|---|
| `Words.BitReverse16IsRev` | stb_image.h:4107-4114 | the four masked swaps of `stbi__bitreverse16` reverse the low 16 bits, for every word |
| `Words.BitReverseIsRev` | stb_image.h:4116-4122 | reversing 16 bits and shifting reverses any `bits` <= 16 bits of a value below `2^bits` |
| `Words.RevInvolution` | stb_image.h:4116-4122 | reversing twice gives back the low bits |
| `BitStream.WindowSplit` | stb_image.h:4214-4222 | masking and shifting a window yields the next bits and the window after them: the algebra the bit buffer relies on |
| `BitStream.WindowPastEnd` | stb_image.h:4197-4200 | beyond the input every window is zero |
| `Canonical.KraftIffRoom` | stb_image.h:4134-4149 | the Kraft sum is at most one if and only if, at every length, the running code stays within that length |
| `Canonical.CodeFits` | stb_image.h:4138-4149 | under the Kraft inequality every assigned code fits its length |
| `Canonical.PrefixFree` | stb_image.h:4138-4167 | no assigned code is a prefix of another symbol's code |
| `Canonical.PositionInjective` | stb_image.h:4151-4157 | two symbols never share a slot of the sorted tables |
| `Canonical.PositionBound` | stb_image.h:4151-4157 | every slot lies inside the sorted tables |
| `Canonical.SpelledUnique` | stb_image.h:4243-4271 | at any bit position at most one symbol's code appears |
| `Canonical.LimitMonotone` | stb_image.h:4139-4150 | the left-aligned code limits (`maxcode`) never decrease with length |
| `Canonical.Locate` | stb_image.h:4224-4241 | a 16-bit window between two consecutive limits starts with the code of a symbol of that length |
| `Canonical.LocateBelow` | stb_image.h:4224-4241 | a window below a limit starts with the code of some symbol no longer than that |
| `Canonical.BelowLimit` | stb_image.h:4224-4241 | conversely, a window that starts with a symbol's code is below its length's limit |
| `ZHuffman.Huffman.Build` | stb_image.h:4124-4169 | succeeds if and only if the lengths satisfy the Kraft inequality, and then all six tables decode the canonical code of those lengths |
| `ZHuffman.Huffman.CountSizes` | stb_image.h:4130-4134 | the histogram counts each length and drops length 0 |
| `ZHuffman.Huffman.AssignCodes` | stb_image.h:4138-4150 | first codes, first symbols and limits are those of the canonical code; rejection is exactly oversubscription |
| `ZHuffman.Huffman.AssignLength` | stb_image.h:4140-4148 | one length: rejected exactly when its codes overflow it |
| `ZHuffman.Huffman.EnterSymbols` | stb_image.h:4151-4167 | every fast entry is the one symbol whose reversed code starts the index, or empty; every sorted slot holds its symbol and length |
| `ZHuffman.Huffman.EnterSymbol` | stb_image.h:4152-4166 | one symbol extends both tables |
| `ZHuffman.Huffman.FillFast` | stb_image.h:4158-4164 | the strided loop writes exactly the indices whose low bits spell the code |
| `ZHuffman.FastMatchUnique` | stb_image.h:4158-4164 | no two short codes claim one fast index, so no entry is overwritten |
| `ZHuffman.FirstSpelling` | stb_image.h:4159 | the loop's start is the least index that spells the code |
| `ZHuffman.NextSpelling` | stb_image.h:4160-4163 | the stride reaches the very next index that spells it |
| `ZStream.Zbuf.Get8` | stb_image.h:4192-4200 | takes the next byte, or zero at the end without moving |
| `ZStream.Zbuf.FillBits` | stb_image.h:4202-4212 | keeps the reader invariant (0 <= bits <= 32, buffer = next bits of input and zeros) and leaves 25 to 32 bits; the early return is proved unreachable |
| `ZStream.Zbuf.FillByte` | stb_image.h:4204-4209 | one byte more in the buffer, the cursor unmoved |
| `ZStream.Zbuf.Receive` | stb_image.h:4214-4222 | returns the next n bits, least significant first, of the input followed by zeros, and advances by n |
| `ZStream.Zbuf.Decode` | stb_image.h:4243-4271 | fast table plus slow path return exactly the symbol spelled at the cursor and consume its length; failure means that none is spelled or that the cursor has passed the input and the zeros supplied for it |
| `ZStream.Zbuf.Refill` | stb_image.h:4246-4261 | end-of-input padding: at least 16 bits afterwards; refused exactly when the cursor has passed the input and the zero bytes supplied for it |
| `ZStream.Zbuf.DecodeBuffered` | stb_image.h:4263-4270 | with 16 bits in the buffer: the symbol spelled at the cursor, or none is |
| `ZStream.Zbuf.DecodeSlow` | stb_image.h:4224-4241 | after a fast miss finds the spelled symbol or none exists; the `b >= STBI__ZNSYMS` and `size[b] != s` rejections are proved unreachable |
| `ZStream.FastIndex` | stb_image.h:4262-4268 | the 9-bit index matches a short symbol if and only if that symbol is spelled at the cursor |
| `ZStream.NoShortSymbol` | stb_image.h:4229-4232 | without a short symbol the window lies above the 9-bit limit, so the search may start at 10 |
| `ZStream.NoSymbol` | stb_image.h:4232 | past the last limit no symbol is spelled |
| `ZStream.Zbuf.GetAligned` | stb_image.h:4423-4425 | with an empty bit buffer the next byte is the next eight bits |
| `ZStream.Zbuf.ZExpand` | stb_image.h:4273-4293 | on success room for n bytes and all prior output kept; fails exactly if the buffer is fixed or cannot be doubled that far within 32 bits and what the allocator gives, and then changes nothing |
| `ZStream.Zbuf.PutLiteral` | stb_image.h:4316-4320 | appends the literal, growing if needed; fails exactly when there is no room |
| `ZStream.Zbuf.PutMatch` | stb_image.h:4343-4354 | appends the match, growing if needed; fails exactly when there is no room |
| `ZStream.Zbuf.CopyMatch` | stb_image.h:4348-4354 | both copy loops append the bytes of the LZ77 meaning, overlap included |
| `ZStream.Zbuf.CopyInput` | stb_image.h:4432-4434 | appends the stored bytes and moves both cursors by their number |
| `Rfc1951.CodesOrdered` | stb_image.h:4138-4149 | codes come by length, and by symbol within a length (section 3.2.2 of RFC 1951) |
| `Rfc1951.CodesConsecutive` | stb_image.h:4138-4149 | without gaps: the next symbol in that order has the next code, extended by zeros |
| `Rfc1951.FirstCodeZero` | stb_image.h:4138-4149 | the first of all has code zero; with the two before, this fixes every code |
| `Rfc1951.FixedCode` | stb_image.h:4452-4463 | the fixed literal and length codes are those tabulated in section 3.2.6 |
| `Rfc1951.FixedDistCode` | stb_image.h:4464-4467 | fixed distance codes are five bits, the symbol's own number |
| `Rfc1951.StepKinds` | stb_image.h:4314-4343 | symbols 0-255 are literals, 256 ends the block, 257-285 with a distance symbol 0-29 are a match that reaches back no further than the output; nothing else is accepted |
| `Rfc1951.ExtraBits` | stb_image.h:4295-4307 | how many extra bits each length and distance symbol has |
| `Rfc1951.LengthLengthsAt` | stb_image.h:4361-4376 | where the length of each code length symbol is read, symbol by symbol; those not listed have none |
| `Rfc1951.RepeatNumbers` | stb_image.h:4387-4394 | repeat symbols: the last length 3-6 times, zero 3-10 times, zero 11-138 times |
| `Rfc1951.RepeatMeaning` | stb_image.h:4380-4402 | what each symbol of the length list adds, and what is rejected |
| `Rfc1951.HeaderCounts` | stb_image.h:4367-4370 | the counts of a dynamic header: from 257, from 1 and from 4, in five, five and four bits |
| `Rfc1951.StoredIsSlice` | stb_image.h:4413-4434 | a stored block inside the input is a stretch of it, behind two bytes of length, low byte first, and their complements |
| `Rfc1951.BlockKinds` | stb_image.h:4490-4506 | one bit marks the last block, two give its type |
| `DeflateFormat.CopyRepeats` | stb_image.h:4348-4354 | the meaning of a match: earlier output is kept and every new byte equals the one `dist` before it |
| `DeflateFormat.LengthsTile` | stb_image.h:4295-4301 | the length ranges of symbols 257-284 follow one another without gap or overlap, up to 258 |
| `DeflateFormat.DistsTile` | stb_image.h:4303-4307 | the distance ranges tile 1-32768 |
| `DeflateFormat.TokensUnique` | stb_image.h:4309-4357 | from a bit position at most one token list is spelled |
| `DeflateFormat.BlockUnique` | stb_image.h:4489-4506 | at most one block is spelled |
| `DeflateFormat.StreamUnique` | stb_image.h:4489-4506 | a bit stream spells at most one sequence of blocks: the reference decoding of section 3.2 of RFC 1951 is a function |
| `DeflateFormat.BlockForward` | stb_image.h:4489-4506 | a block consumes at least its three header bits |
| `Inflate.LengthTable` | stb_image.h:4295-4301 | the literal tables are what the grouping rule gives: eight single lengths, groups of four with one more extra bit each, and 258 |
| `Inflate.DistTable` | stb_image.h:4303-4307 | likewise for distances: four single ones, then pairs |
| `Inflate.ReadToken` | stb_image.h:4312-4342 | one step reads the token, or the end, that the bits spell; if one is spelled, it fails exactly if it runs short, with the cursor past the input and the zeros supplied for it |
| `Inflate.ReadMatch` | stb_image.h:4335-4343 | length, distance symbol and extra bits, with every rejection of the source |
| `Inflate.PutToken` | stb_image.h:4314-4354 | emits the token's meaning |
| `Inflate.ParseHuffmanBlock` | stb_image.h:4309-4357 | success: the output grew by the expansion of exactly the spelled tokens, in full supply; if tokens are spelled, rejection means exactly that they run short; terminates because each round adds a byte below the 2^32-1 cap |
| `Inflate.ReadLengthLengths` | stb_image.h:4372-4376 | code lengths of the length code, in the permuted order |
| `Inflate.ReadLengthStep` | stb_image.h:4381-4401 | one run-length step agrees with section 3.2.7 of RFC 1951 |
| `Inflate.ReadLengthList` | stb_image.h:4379-4403 | the whole list is read, or no valid list is spelled, or it runs short; every step advances |
| `Inflate.ComputeHuffmanCodes` | stb_image.h:4359-4407 | builds both codes of the dynamic header, or no valid header is spelled, or it runs short |
| `Inflate.BuildCodes` | stb_image.h:4404-4406 | both tables are built exactly if both length lists satisfy the Kraft inequality |
| `Inflate.ReadStoredHeader` | stb_image.h:4413-4425 | draining the bit buffer and reading bytes gives the four bytes at the byte boundary; the negative `num_bits` check is proved unreachable |
| `Inflate.ReadStoredLength` | stb_image.h:4426-4428 | accepts exactly complementary LEN and NLEN |
| `Inflate.ParseUncompressedBlock` | stb_image.h:4409-4436 | appends exactly the stored bytes; rejects exactly if none are spelled or they run past the input |
| `Inflate.FixedCodesComplete` | stb_image.h:4452-4467 | the fixed codes fill the code space exactly, so building them cannot fail |
| `Inflate.BlockUsesOnes` | stb_image.h:4489-4506 | every block that is spelled consumes at least one 1-bit of the zero-extended input: the termination measure |
| `Inflate.PrepareCodes` | stb_image.h:4496-4503 | the codes of a fixed or dynamic block, or none is spelled, or it runs short |
| `Inflate.ParseCompressed` | stb_image.h:4496-4505 | a fixed or dynamic block, decoded or rightly refused |
| `Inflate.ParseBlock` | stb_image.h:4492-4505 | any block type, decoded or rightly refused |
| `Inflate.ParseZlibHeader` | stb_image.h:4438-4450 | accepts exactly the headers of section 2.2 of RFC 1950 without preset dictionary, followed by more input |
| `Inflate.ParseBlocks` | stb_image.h:4486-4508 | the block loop, in full; it ends on every input |
| `Inflate.ParseZlib` | stb_image.h:4481-4508 | soundness and completeness together: success means that the zero-extended input spells the blocks whose meaning is the output, in full supply; a spelled stream is rejected exactly if it runs short, which happens only past what is always read; room runs out only if it does not fit |
| `Inflate.DecodeBuffer` | stb_image.h:4557-4592 | a spelled stream that fits the buffer is decoded to its meaning if and only if it is in full supply, a condition on the input alone; it is if it ends within the input or its first four bytes, and only if it ends at most 4568 bits past the input; nothing else is decoded |
| `Inflate.DecodeMalloc` | stb_image.h:4520-4582 | the same with a growing buffer: a spelled stream is decoded if and only if it is in full supply and the initial size can be doubled to its output within the allocator's limit |
| `WorkedStreams.DecodeDynamic` | stb_image.h:4359-4407 | thirteen bytes, one dynamic block with run-length coded lengths, decode to the letter A |
| `WorkedStreams.DecodeFixed` | stb_image.h:4309-4357 | nine bytes, one fixed block: six letters and an overlapping match with extra bits decode to the letters four times |
| `WorkedStreams.RefuseShort` | stb_image.h:4324-4334 | four bytes that end inside the last symbol are refused, although zeros would complete it |
| `Inflate.ZlibHeaders` | stb_image.h:4438-4450 | the usual headers are accepted; a wrong check, a preset dictionary, another method and a missing byte are not |
| `Inflate.GrownByDoubling` | stb_image.h:4282-4285 | the capacity reached is the initial one doubled while 32 bits and the allocator allow the next doubling |
| `Inflate.TruncatedInput` | stb_image.h:4249-4251 | decoding the single byte 3 without header succeeds, although its only stream ends at bit 10 |
| `Overrun.ShortBlock` | stb_image.h:4326-4332 | that byte, followed by zeros, spells one final, empty, fixed block of ten bits |
| `Overrun.TokensPastEnd` | stb_image.h:4312-4357 | no token but the end symbol is spelled past the input in a block that ends |
| `Overrun.BlockStartsInside` | stb_image.h:4489-4506 | no block starts past the input |
| `Overrun.BlockOverrun` | stb_image.h:4309-4407 | a fixed block ends at most 62 bits past the input, a dynamic one at most 4568 |
| `Metering.TokensFitStep` | stb_image.h:4246-4270 | running short is a property of the first step, or of the tokens after it |
| `Metering.StreamFitsStep` | stb_image.h:4489-4506 | and of the first block, or of the blocks after it |
| `Inflate.DoublingEndsIff` | stb_image.h:4282-4285 | the doubling loop ends if and only if the capacity it starts from is positive |
| `PngFilter.PaethAgrees` | stb_image.h:4657-4668 | the rewritten predictor equals the Paeth predictor of section 9.4 of the PNG specification, for all integers |
| `PngFilter.FilterTypes` | stb_image.h:4754-4785 | what each filter type adds to a byte, on the rows themselves: nothing, left, above, their average rounded down, or the Paeth choice; left of the row everything is zero |
| `PngFilter.PaethNearest` | stb_image.h:4657-4668 | the Paeth choice is the nearest of left, above and above left to their linear prediction, ties in that order |
| `PngFilter.ImageRow` | stb_image.h:4737-4752 | row i is reconstructed from scanline i and the row above |
| `PngFilter.ScanlineAt` | stb_image.h:4743-4787 | scanline i is its type byte and the bytes after it, i * (nk + 1) bytes on |
| `PngFilter.RowRoundTrip` | stb_image.h:4754-4785 | reconstruction undoes filtering of a row, for every filter type, stride and row above |
| `PngFilter.ImageRoundTrip` | stb_image.h:4737-4787 | reconstruction undoes filtering of an image with any filter choice per row |
| `PngFilter.FirstRowAdded` | stb_image.h:4648-4655 | the substituted first-row filter adds what the specified filter adds below a row of zeros |
| `PngFilter.AddedIsPredict` | stb_image.h:4754-4785 | in the other rows each loop adds the specified prediction, the first pixel's special loops included |
| `PngFilter.UnfilteredIsRecon` | stb_image.h:4754-4785 | a row filled byte by byte is the specified reconstruction |
| `PngFilter.UnfilteredFirstIsRecon` | stb_image.h:4751-4785 | so is a first row filled with the substituted filter |
| `PngFilter.NextByte` | stb_image.h:4754-4785 | the byte each branch computes from the two buffers |
| `PngFilter.UnfilterRow` | stb_image.h:4754-4787 | fills the current buffer and leaves the prior one alone |
| `PngFilter.DecodeRow` | stb_image.h:4737-4787 | one row against whichever buffer holds its predecessor |
| `PngFilter.Reconstruct` | stb_image.h:4720-4787 | with two alternating buffers, succeeds if and only if the data is long enough and every filter type is at most 4, and then yields the specified image |
| `Adam7.PassRemainders` | stb_image.h:4873-4877 | a pixel lies on a pass's grid, in both directions, if and only if that pass is its own |
| `Adam7.PassPattern` | stb_image.h:4873-4877 | every pixel arrives in the pass that the eight by eight pattern of section 8.2 of the PNG specification gives it |
| `Adam7.PlacesAscend` | stb_image.h:4888-4891 | samples come from left to right and from top to bottom |
| `Adam7.ExtentExact` | stb_image.h:4880-4881 | the computed sub-image size counts exactly the grid points inside the image |
| `Adam7.SampleIff` | stb_image.h:4888-4893 | a scatter position is a given pixel if and only if pass, column and row are that pixel's |
| `Adam7.Bijection` | stb_image.h:4873-4900 | every pixel is the target of exactly one sample of the seven passes |
| `Adam7.Deinterlace` | stb_image.h:4873-4901 | every pixel of the result is its own sample, and no write leaves the image |
| `Adam7.ScatterPass` | stb_image.h:4888-4895 | one pass completes the pixels up to and including that pass |
| `Adam7.PutSample` | stb_image.h:4889-4894 | one sample lands on its pixel and disturbs no earlier one |
| `PngImage.EncodedRoundTrip` | stb_image.h:4720-4787 | filtered rows written as bytes, whatever follows them, are accepted and reconstruct to the rows |
| `PngImage.RowBytesExact` | stb_image.h:4718 | a row takes the bytes its bits fill, the last one perhaps in part |
| `PngImage.CreateInterlaced` | stb_image.h:4870-4904 | accepted if and only if each pass that has pixels can be read where the one before it ends; then every pixel is its own sample |
| `PngImage.ReadPasses` | stb_image.h:4873-4899 | the seven passes, the data advanced by each pass's bytes and not at all by empty passes |
| `PngImage.ReadPass` | stb_image.h:4880-4898 | one pass: sizes, reconstruction, expansion and advance |
| `PngImage.PassRoundTrip` | stb_image.h:4880-4898 | an encoded pass is read back, and what follows it is left |
| `PngImage.InterlacedRoundTrip` | stb_image.h:4870-4904 | seven encoded passes are accepted and read back |
| `GifOrder.RowOrderIsPasses` | stb_image.h:6679-6688 | the interlaced order is rows 0, 8, ..., then 4, 12, ..., then 2, 6, ..., then 1, 3, ... (appendix E of GIF89a) |
| `GifOrder.ArrivalOrder` | stb_image.h:6679-6688 | which row arrives when, in closed form, with and without interlacing |
| `GifOrder.PixelsAt` | stb_image.h:6664-6688 | which position is painted when: rows in order, each from left to right |
| `GifOrder.RowOrderIsPermutation` | stb_image.h:6679-6688 | interlaced or not, every row comes exactly once |
| `GifOrder.VisitsEachPixelOnce` | stb_image.h:6664-6688 | the positions visited are distinct and are exactly the rectangle's pixels |
| `GifOrder.PaintResult` | stb_image.h:6666-6676 | each visited pixel gets its own colour (unless transparent) and no other pixel changes |
| `GifLzw.InitialFitsIff` | stb_image.h:6699-6715 | after initialisation the next free code fits the width if and only if the minimum code size is at least 2 |
| `GifLzw.FeedFits` | stb_image.h:6733-6768 | every code keeps the next free code within the width, below 12 bits |
| `GifLzw.EveryRunFits` | stb_image.h:6691-6774 | hence in every run over every sequence of codes |
| `GifRun.EveryRunWidth` | stb_image.h:6691-6774 | in every run the code width is exact: the least that holds the next free code, from the initial width up to 12 bits |
| `GifRun.RunMeaning` | stb_image.h:6744-6768 | after a clear, codes are accepted exactly if each names a string already there or just being made and the table holds them; each new entry is the string before with the first symbol of the string after, and the output is the strings |
| `GifRun.ControlCodes` | stb_image.h:6733-6748 | in every run the clear code starts afresh and the end code ends; before the first clear nothing else is accepted |
| `GifRun.RootSymbols` | stb_image.h:6707-6711 | a root stands for its own number |
| `GifRun.PayloadOfBlocks` | stb_image.h:6719-6727 | the data of sub-blocks, up to the empty one, is their contents joined |
| `GifRun.SmallRaster` | stb_image.h:6691-6774 | a raster worked out: codes 4, 0, 1, 2 in three bits and 5 in four give the symbols 0, 1, 2 |
| `GifLzw.FeedSound` | stb_image.h:6733-6768 | every code keeps all strings non-empty and the previous code valid |
| `GifLzw.LinksAdd` | stb_image.h:6749-6757 | a new entry keeps every prefix below its own index and `first` the head of its string |
| `GifLzw.LinksCut` | stb_image.h:6733-6738 | a clear keeps the entries that remain |
| `GifLzw.Gif.constructor` | stb_image.h:6857-6880 | the cursor starts at the first of the rectangle's positions in arrival order, or past the end for an empty rectangle |
| `GifLzw.Gif.AtStart` | stb_image.h:6857-6880 | at the corner, or below for an empty width, the whole rectangle is still to come |
| `GifLzw.Gif.PutPixel` | stb_image.h:6664-6688 | paints the symbol at the next position and advances; once all are visited, changes nothing |
| `GifLzw.Gif.Advance` | stb_image.h:6677-6688 | the remaining positions lose their first |
| `GifLzw.Gif.NextRow` | stb_image.h:6679-6688 | the remaining rows are those after the current one, passes that are empty being skipped |
| `GifLzw.Gif.DrawAt` | stb_image.h:6666-6676 | one pixel painted and marked in the history |
| `GifLzw.Gif.OutCode` | stb_image.h:6654-6689 | the recursion along prefixes terminates and emits exactly the code's string |
| `GifLzw.Gif.InitTables` | stb_image.h:6701-6715 | the tables spell the initial dictionary |
| `GifLzw.Gif.AddEntry` | stb_image.h:6749-6757 | appends the previous string with the first symbol of the current one, also when the current code is the entry itself |
| `GifLzw.Gif.GrowSize` | stb_image.h:6763-6766 | the width grows as the reference says and stays within 13 |
| `GifLzw.Gif.Clear` | stb_image.h:6733-6738 | back to the roots |
| `GifLzw.Gif.FeedData` | stb_image.h:6744-6768 | a string code does what the reference dictionary does, with every rejection |
| `GifLzw.Gif.FeedCode` | stb_image.h:6733-6771 | so does any code |
| `GifLzw.Gif.ProcessRaster` | stb_image.h:6691-6774 | the symbols emitted, and success or failure, are those of the string-based reference on the concatenated sub-blocks; the image is the old one painted with them in arrival order; ends on every input |
| `GatherRing.ResidentIffWithinReach` | stb_image_resize2.h:6329-6364 | a row finds all its scanlines in the ring if and only if it starts no earlier than the first row and no row so far reaches a ring's length beyond its start |
| `GatherRing.RowImpulse` | stb_image_resize2.h:6269-6272 | where only contributor j shows, and shows one, the output row shows that contributor's own weight |
| `GatherRing.RowLinear` | stb_image_resize2.h:6269-6272 | combined scanlines give the combined output |
| `GatherRing.RowCopied` | stb_image_resize2.h:10127-10134 | a single contributor whose weight is within a millionth of one is copied |
| `GatherRing.NearOneRange` | stb_image_resize2.h:10129 | which weights count as one |
| `GatherRing.SlotsDiffer` | stb_image_resize2.h:6230-6234 | scanlines less than a ring apart occupy different slots |
| `GatherRing.LastIsMaximum` | stb_image_resize2.h:6339-6361 | the newest scanline held is the furthest any row asked for |
| `GatherRing.Split.GetScanline` | stb_image_resize2.h:6230-6234 | the slot looked up holds the scanline asked for |
| `GatherRing.Split.LoadNext` | stb_image_resize2.h:6344-6360 | loads the next scanline over the oldest and keeps all others that are held |
| `GatherRing.Split.LoadUpTo` | stb_image_resize2.h:6339-6361 | loads up to the row's last contributor |
| `GatherRing.Split.Fetch` | stb_image_resize2.h:6264-6267 | the group's inputs are the consecutive scanlines |
| `GatherRing.Split.GatherGroup` | stb_image_resize2.h:6269-6272 | a group of up to eight extends the partial sums |
| `GatherRing.Split.ResampleRow` | stb_image_resize2.h:6248-6275 | the grouped accumulation is the full weighted sum, or the copy of a single contributor of weight within a millionth of one (line 10129) |
| `GatherRing.Split.GatherLoop` | stb_image_resize2.h:6310-6369 | every output row is the direct convolution of its own contributors, the ring notwithstanding |
| `EdgeFold.ClampIsNearest` | stb_image_resize2.h:3053-3062 | the clamped position is the nearest pixel of the image |
| `EdgeFold.StoredWeights` | stb_image_resize2.h:3380-3420 | coefficients are stored from the range's first pixel on |
| `EdgeFold.BlendImpulse` | stb_image_resize2.h:3626-3661 | a pixel that alone is one shows its own weight in the sum, so the sums fix the weights |
| `EdgeFold.ExcessIs` | stb_image_resize2.h:3640-3660 | the excess in each case, from the row's range and coefficients |
| `EdgeFold.NoExcess` | stb_image_resize2.h:3640-3660 | a range that reaches position -1 is folded without loss if it reaches the image, is only position -1, or has room for pixel 0 |
| `EdgeFold.NoRoomLosesWeight` | stb_image_resize2.h:3647-3659 | positions -2 and -1 in a row of two coefficients: the second weight is lost |
| `EdgeFold.KeptIff` | stb_image_resize2.h:3626-3661 | folding keeps every weighted sum if and only if there is no excess, which is known from the row beforehand |
| `EdgeFold.FoldOffSum` | stb_image_resize2.h:3640-3660 | a row off the left edge: the sum changes by the excess at pixel 0, exactly |
| `EdgeFold.FoldKeepsSum` | stb_image_resize2.h:3626-3661 | folding right and then left leaves, for every pixel row, the weighted sum of the edge-extended row unchanged |
| `EdgeFold.FoldedRightBlend` | stb_image_resize2.h:3630-3638 | the right-hand fold keeps the sum |
| `EdgeFold.FoldedLeftBlend` | stb_image_resize2.h:3640-3660 | the left-hand fold keeps the sum |
| `EdgeFold.GatherRow.InsertCoeff` | stb_image_resize2.h:3380-3420 | adds the weight at that pixel and at no other, widening the range to just cover it; without room, changes nothing |
| `EdgeFold.GatherRow.ShiftUp` | stb_image_resize2.h:3389-3400 | widening to the left keeps all weights |
| `EdgeFold.GatherRow.Append` | stb_image_resize2.h:3408-3419 | widening to the right keeps all weights |
| `EdgeFold.GatherRow.FoldRight` | stb_image_resize2.h:3630-3638 | all weight beyond the last pixel is gathered there, also for a row that starts just past the image |
| `EdgeFold.GatherRow.FoldLeft` | stb_image_resize2.h:3640-3660 | all weight before pixel 0 is gathered there, although the first weight is saved across the slide; for a row off the image, what that makes of it |
| `EdgeFold.GatherRow.AccumulateLeft` | stb_image_resize2.h:3645-3651 | the descending loop adds all but the outermost weight |
| `EdgeFold.GatherRow.FoldClamp` | stb_image_resize2.h:3626-3661 | for every row read without leaving it: the result lies inside the image and weighs every pixel row as before, but for the excess of rows off the left edge |
| `EdgeFold.GatherRow.CutZero` | stb_image_resize2.h:3602-3625 | exactly the weights inside the image remain, for every range |
| `EdgeFold.GatherRow.Trim` | stb_image_resize2.h:3663-3684 | no weight changes; the last one kept is non-zero; all unused coefficients are zero |
| `EdgeFold.GatherRow.CleanUpClamp` | stb_image_resize2.h:3626-3684 | fold and trim together: in the image, same weighted sum for every pixel row but for the excess, no trailing zero |
| `Polyphase.Copied` | stb_image_resize2.h:2841-2886 | the two do-loops write exactly the words asked for if and only if these are two or more, or one over a period of one; in particular under the documented precondition |
| `Polyphase.OneWordOverruns` | stb_image_resize2.h:2846-2886 | asked for one word over a period of two, the copy also changes words past the end |
| `Polyphase.OverlappingMemcpy` | stb_image_resize2.h:2840-2886 | the chunked overlapping copy is the periodic extension of the words between source and destination |
| `Polyphase.CopyPair` | stb_image_resize2.h:2850-2873 | a two-word chunk equals two single-word steps when the period is at least two |
| `Polyphase.PhaseIsRemainder` | stb_image_resize2.h:2837-2886 | a word's place in the period is its offset modulo the period |
| `Polyphase.ExtendedRow` | stb_image_resize2.h:3580-3593 | whole rows repeat with the period |
| `Polyphase.ShiftContributors` | stb_image_resize2.h:3583-3591 | row n's range is that of row n mod numerator moved by (n div numerator) * denominator |
| `Polyphase.ReplicatedRanges` | stb_image_resize2.h:3583-3591 | the two ends of row n's range, as numbers |
| `Polyphase.CopyExtent` | stb_image_resize2.h:3592 | how far the replication writes: the table, and two words more exactly for one added single-word row after two or more |
| `Polyphase.Replicate` | stb_image_resize2.h:3580-3593 | coefficients and ranges of every row are those of its phase, and nothing further on changes |
| `Rational.StartConverges` | stb_image_resize2.h:7574-7582 | the invariant holds at the start |
| `Rational.RefineConverges` | stb_image_resize2.h:7611-7625 | each refinement flips the determinant's sign, keeps the distance to the scaled input equal to `bot` and makes `bot` smaller |
| `Rational.LowestTerms` | stb_image_resize2.h:7611-7625 | numerator and denominator have no common factor |
| `Rational.ConvergentBounds` | stb_image_resize2.h:7611-7625 | the denominator never exceeds 2^25 nor the numerator the scaled input, once there is a denominator |
| `Rational.ExhaustedIsExact` | stb_image_resize2.h:7607-7609 | when nothing remains the ratio is exactly the scaled input over 2^25 |
| `Rational.ExhaustedIsAccurate` | stb_image_resize2.h:7593-7609 | so the accuracy test has succeeded before the exhaustion test can: that exit is unreachable |
| `Rational.RefinementStep` | stb_image_resize2.h:7611-7625 | one refinement is a step of Euclid's algorithm and the recurrence of the convergents |
| `Rational.StopsWhenAccurate` | stb_image_resize2.h:7580-7609 | it starts from the input in units of 2^-25, and stops at the first ratio less than 2^-24 off or at the limit |
| `Rational.FallbackNumbers` | stb_image_resize2.h:7628-7638 | the fallback is the nearest integer to the product or quotient |
| `Rational.RunFits` | stb_image_resize2.h:7574-7626 | no number of any state exceeds the scaled input or 2^25, so 64 bits hold them all if they hold the scaled input |
| `Rational.FinalIsAccurate` | stb_image_resize2.h:7584-7626 | from every state of the invariant the refinement ends at the limit or with an accurate ratio in lowest terms, denominator at most 2^25 |
| `Rational.Search` | stb_image_resize2.h:7584-7626 | the loop ends where the reference sequence of convergents first meets the limit or is accurate, and finds a ratio exactly in the second case |
| `Rational.DoubleToRational` | stb_image_resize2.h:7571-7646 | returns that accurate ratio in lowest terms or, at the limit, the rounded fallback together with whether it is accurate |
| `Splits.GetMaxSplit` | stb_image_resize2.h:6868-6881 | the largest share is height / splits rounded up |
| `Splits.SharesEven` | stb_image_resize2.h:6753-6759 | the unadjusted shares differ by at most one and use up the height |
| `Splits.SharesGrow` | stb_image_resize2.h:6753-6759 | the first shares are the smaller ones, beginning with the mean rounded down |
| `Splits.ScanReach` | stb_image_resize2.h:6783-6786 | a scan goes three margins or to the end of its share |
| `Splits.MovesForEarlier` | stb_image_resize2.h:6797-6801 | a boundary moves only to a row that starts earlier than all before it |
| `Splits.ScanGoesOn` | stb_image_resize2.h:6792-6802 | starts 5, 5, 4: the scan passes the equal row and picks the earlier one; a later row stops it |
| `Splits.Scan` | stb_image_resize2.h:6783-6802 | finds the first of the rows that start earliest, among those before the first row that starts later, and says which table entry it read last |
| `Splits.EarliestUnique` | stb_image_resize2.h:6783-6802 | that row is unique, so the specification fixes the boundary |
| `Splits.NoRowStartsEarlier` | stb_image_resize2.h:6761-6775 | what the adjustment is for: when the contributor starts dip only within the scan, no row of a range needs a scanline before its first row's |
| `Splits.ScanReadsPast` | stb_image_resize2.h:6783-6802 | one scan reads the entry after the table if and only if there are no rows, or it is the last share's, that share is at most three margins long, and no row of it starts later than its first |
| `Splits.TwoEqualRows` | stb_image_resize2.h:6783-6802 | two rows with the same start, two threads, a margin of one: the scan reads a third entry |
| `Splits.RangeSettles` | stb_image_resize2.h:6761-6806 | so no row of any range starts before its first, the rows taken over from the next share included |
| `Splits.RangesWithinReach` | stb_image_resize2.h:6761-6806 | and every range meets the gather loop's condition, if the ring spans what the rows need |
| `Splits.TilesExtend` | stb_image_resize2.h:6804-6809 | moving a boundary into the next share keeps the ranges contiguous |
| `Splits.GetSplitInfo` | stb_image_resize2.h:6747-6815 | for every height, split count and contributor table the ranges are ordered, contiguous and cover the output, and each starts at its share or, when gathering, at the row the scan finds; the furthest table entry read is at most one past the end, and exactly when that happens |
| `HeaderCodec.DecodeVariableLength12` | ManagedSecurity.Common/Bindings.Header.cs:111-171 | the shifting loop and the byte loop decode the field as its bit pattern defines, errors included |
| `HeaderCodec.FieldMeaning` | ManagedSecurity.Common/Bindings.Header.cs:111-171 | the value of a field from its base and extension bytes, for each number of leading ones, the signed 32-bit wrap included |
| `HeaderCodec.FieldWidths` | ManagedSecurity.Common/Bindings.Header.cs:242-249 | no extension below 2^11, one below 2^18, two below 2^25 |
| `HeaderCodec.FieldRoundTrip` | ManagedSecurity.Common/Bindings.Header.cs:251-321 | decoding an encoded value gives the value and consumes its extension bytes, for all values below 2^25 |
| `HeaderCodec.ReencodeNeverLonger` | ManagedSecurity.Common/Bindings.Header.cs:242-249 | a value read from at most two extension bytes needs no more of them |
| `HeaderCodec.ComposeIsSum` | ManagedSecurity.Common/Bindings.Header.cs:219-233 | the or-ed word is the sum of its fields: none overlaps another |
| `HeaderCodec.WriteParse` | ManagedSecurity.Common/Bindings.Header.cs:26-107 | parsing a written header followed by any bytes recovers payload length, key index and profile |
| `HeaderCodec.ParseIff` | ManagedSecurity.Common/Bindings.Header.cs:26-93 | which four bytes are a header, bit by bit, and where length and index are |
| `HeaderCodec.RegionNumbers` | ManagedSecurity.Common/Bindings.Header.cs:53-70 | sequence, IV and MAC lengths of profiles 0, 1 and 2, and where that puts the payload |
| `HeaderCodec.LengthLimit` | ManagedSecurity.Common/Bindings.Header.cs:102-107 | messages of up to 2^31 - 1 bytes are accepted |
| `HeaderCodec.SizeNumbers` | ManagedSecurity.Common/Bindings.Header.cs:190-212 | the required size: 32, 52 or 40 bytes, the extensions and the payload |
| `HeaderCodec.RegionsTile` | ManagedSecurity.Common/Bindings.Header.cs:90-107 | sequence, IV, MAC and payload follow one another from the extensions to the total length |
| `HeaderCodec.RegionsInsideIff` | ManagedSecurity.Common/Bindings.Header.cs:173-181 | all four slices stay inside a message if and only if the payload length is not negative and the message has the total length |
| `HeaderCodec.RequiredSizeExactIff` | ManagedSecurity.Common/Bindings.Header.cs:190-212 | the parsed total length is the required size if and only if the profile is 1, 2 or a multiple of 4 |
| `HeaderCodec.RewriteNeverLonger` | ManagedSecurity.Common/Bindings.Header.cs:214-240 | writing a parsed header with at most two extensions per field again never lengthens it |
| `HeaderCodec.EncodeVariableLength12` | ManagedSecurity.Common/Bindings.Header.cs:251-321 | writes the extension bytes at the offset and nothing else, and advances past them; refuses exactly the values from 2^25 up |
| `HeaderCodec.Write` | ManagedSecurity.Common/Bindings.Header.cs:214-240 | succeeds if and only if both values are encodable, the buffer has the required size and the header fits it; then exactly the header bytes change; otherwise nothing does, except that a negative payload length can let a buffer shorter than the header pass the size check, and then the bytes before the first that does not fit are written |
| `HeaderCodec.WriteFields` | ManagedSecurity.Common/Bindings.Header.cs:224-232 | both fields' extensions, in order |
| `HeaderCodec.PutWord` | ManagedSecurity.Common/Bindings.Header.cs:234-239 | four big-endian bytes |
| `HeaderCodec.ParseHeader` | ManagedSecurity.Common/Bindings.Header.cs:26-107 | the constructor computes the fields of the format, or refuses |

## Left out

- JPEG decoding, the inverse cosine transform, colour conversion and all SIMD code.
- File and callback input and error strings; allocation failure other than for a block too large.
- The BMP, TGA, PSD, PIC, HDR and PNM loaders: header plumbing and plain copies.
- PNG after unfiltering: expansion of low bit depths, 16-bit byte order, palettes, transparency and the added alpha channel enter as a function from a row's bytes to its pixels; size overflow checks before unfiltering.
- PngImage.CreateInterlaced: reads all passes before scattering them, where the source alternates; the result is the same, and after a failure the source discards the image.
- GIF frame disposal, extension blocks, palette parsing and the skip to the end of the data after an end code; coordinates count pixels, not groups of four bytes, and the palette is taken with its channels already in output order.
- Floating point: filter kernels, coefficient generation, renormalisation, rounding of the weighted sums, half floats and sRGB.
- REFLECT folding, wrap mode and the gather-to-scatter pivot, where insertion may drop weights that do not fit; the extents (lowest, highest, widest) collected over all rows.
- The scatter direction of the vertical loop and the horizontal pass, which enters as the function that gives each decoded scanline.
- MasterHeader, ciphers, streams, analyzers, benchmarks, demo programs and the ONNX interop.
- Inflate.DecodeMalloc: takes a positive initial size, since from zero the doubling loop never ends (DoublingEndsIff).
- EdgeFold.GatherRow.FoldClamp: takes a non-empty range that is read without leaving the row, at most one past the image on the right and no more than the row's width before it on the left; beyond that the code reads other memory.
- Polyphase.OverlappingMemcpy: the 8-byte aligned branch and the two-int branch are one model, since both read two words before writing them.
- Rational.DoubleToRational: quotients are exact reals where the source has doubles; the casts to 32 bits are modelled, and 64 bits hold every number of the run if they hold the scaled input (RunFits).
- Rational.Search: the same.
- GatherRing.Split.GatherLoop: takes rows within reach of the ring; that a given filter's contributor table has this property is not derived.
- HeaderCodec.WriteParse: values from 2^25 up are refused by the writer; three-extension fields, which only a foreign writer could produce, occur in the parser alone.
