# Verified models of opencodecs' hand-written and vendored codecs

This project models the hardest algorithms of the repository in Dafny and proves what they are for: that the compressors
are lossless, that their decoders do the same on every input as a plain decoder of bit strings, and that the concurrent
chain and the dependency walk are safe and finish.

- **H-compress** (`fits_hcompress.c`, `fits_hdecompress.c`; FITS Standard 4.0, section 10.4.4). The integer wavelet
  (`HQuad`, `HShuffle`, `HBlock`, `HLevel`, `HButterfly`, `HTransform`) discards bits by rounding and recovers them from
  parity; `HMeaning` says what its coefficients are and `HError` what errors in them do. The coder goes from bits to
  streams: positions in a byte stream (`HStream`), the two bit buffers (`HBitIO`), the fixed Huffman code and the code
  buffer that is filled backwards (`HHuffman`), bit planes and their quadtree (`HPlanes`), the routines that reduce and
  expand it in place (`HScratch`, `HExpand`, `HInsert`), rectangles and quadrants (`HQtree`, `HQuadrants`, `HBody`),
  signs and bit counts (`HSigns`), the stream with its header (`HCoder`, `HRoundTrip`), how long it gets (`HLength`),
  and the whole compressor (`HCompress`).
- **TIFF LZW** (`oc_tifflzw.c`; section 13 of TIFF 6.0). `LzwSpec` is the dictionary of strings with both sides'
  code-width rules; `LzwTable` the hash table with epochs; `MsbWriters` and `LzwReader` the accumulators; `LzwEncoder`
  and `LzwDecoder` the two loops; `TiffLzw` the round trip and the size bound. `LzwCodes` holds the streams that any
  encoder may write, for this dialect in both bit orders and for GIF, and `LzwLongest` the encoder as a longest match.
- **IOchain** (`iochain.c`). `IoChain` is a transition system: any number of workers, each doing one lock or memory
  operation at a time, in any interleaving.
- **Rice** (`ricecomp.c`; FITS Standard 4.0, section 10.4.1). `RiceSpec` is the code over bit strings, `RiceBound` its
  length, `RiceSigns` the encoder's signed copies, `RiceEncoder` and `RiceDecoder` the two different buffers,
  `RiceCoder` the round trip. One model, parametrised by the split-level width, its maximum and the pixel width, stands
  for the three sample widths.
- **PLIO** (`pliocomp.c`; FITS Standard 4.0, section 10.4.3): `PlioSpec`, `Plio`.
- **Bitshuffle** (`bitshuffle_core.c`): the 64-bit kernel (`BitKernel`), the scalar transposes, and the blocks
  (`Bitshuffle`).
- **GIF LZW** (`oc_giflzw.c`; Appendix F of GIF89a): `GifSpec`, `GifDecoder`, and how it differs from the TIFF decoder.
- **EER** (`oc_eer.c`): `Eer` is the plain event parser, `EerDecoder` the incremental one.
- **Dependency cycles** (`check_pipeline_catalog.py`): `CycleWalk`.

`KnownAnswers` holds small streams byte for byte, which fix the tables, headers and orders that a writer and a reader
could otherwise agree to change. `Powers`, `Grids` and `Bits` hold powers of two and quotients, two-dimensional views of
arrays, and bit strings.

The shape is the same everywhere. The source's loops are methods over arrays and objects, with its branches and
constants. Each is proved equal to a function on values, on every input it accepts, errors included. The laws are lemmas
about these functions. `x & -2^m` is the largest multiple of 2^m up to x, and `log2n` the least k with 2^k >= n.

## What the proofs found

- PLIO is not always lossless. Where a run of zeros is a multiple of 4095 long, its last word is 4095, and adding 20481
  to it for a single pixel gives the instruction 6 instead of 5. `Plio.LineRoundTrip` gives the exact condition and
  `Plio.Counterexample` the shortest line.
- The GIF decoder does not stop when its output is full: it reads one more code, and an undefined one makes it return -4
  where the TIFF decoder has already returned all bytes. `GifSpec.GifFollowsTiff` gives the exact condition and
  `GifSpec.TiffStopsEarlier` an input.
- The comment of `oc_tifflzw_encode_bound` counts a CLEAR every 3836 codes; the code emits one after 3837
  (`TiffLzw.ClearFollows`). The bound holds.
- For 32-bit pixels the Rice coder copies a difference to a signed variable in split blocks. With blocks of up to 63
  pixels it is never negative; for every longer block there is a line on which it is, 2^30 behind zeros, and the shift
  counts computed from it are negative (`RiceSigns.NeverNegativeExactly`, `RiceSigns.LongBlockLosesSign`). The coder is
  proved on all lines on which this does not happen, whatever the block size.
- `output_nbits` of the Rice coder has a 32-bit buffer. It loses pending bits exactly if n is at most 24 more than the
  number of pending bits and both are more than 32 together (`RiceEncoder.PendingSurvive`); with up to seven pending
  bits that cannot happen for widths of up to 25 bits, and of 32, and it can for all others (`RiceEncoder.SafeWidths`).
  Its callers use at most 5 bits, 8, 16 or 32.
- A split block can be longer than its pixels stored directly: by at least a bit from 64 pixels of 8 bits on, or 16384
  of 16 bits (`RiceBound.DirectIsLongestExactly`). The bound of `RiceBound.BlockLength` counts these bits and is exact.
- The comment at the top of `ricecomp.c` says that a buffer 1% larger than the pixels is always large enough. With
  blocks of 32 pixels that is so exactly from 225 pixels of 32 bits on, exactly if nx >= 100 + 50 ceil(nx/64) for nx
  pixels of 16 bits, and for no number of 8-bit pixels (`RiceBound.RuleOfThumbFor32`).

## Model

| member | source | states |
|---|---|---|
| HTransform.Lossless | 3rdparty/cfitsio/fits_hdecompress.c:398-587 | For every nx by ny integer image, odd sizes and negative pixels included, undoing all levels of the transform (after rounding the sum of all pixels) gives back the image |
| HTransform.UntransformTransform | 3rdparty/cfitsio/fits_hdecompress.c:460-584 | Undoing levels n-1 down to 0 restores what levels 0 up to n-1 transformed, for any number of levels |
| HTransform.LevelRoundTrip | 3rdparty/cfitsio/fits_hdecompress.c:477-571 | One inverse level undoes one forward level when the block entering it holds multiples of the level's grain |
| HTransform.TransformMultiples | 3rdparty/cfitsio/fits_hcompress.c:225-313 | Before level k every cell of the block still to be transformed is a multiple of 2^(k+1) (of 1 at level 0), which is what the inverse relies on |
| HTransform.TopIsCeiling | 3rdparty/cfitsio/fits_hcompress.c:296-300 | The sizes after k halvings are n / 2^k rounded up |
| HTransform.TopEndsAtOne | 3rdparty/cfitsio/fits_hcompress.c:195-199 | After log2n halvings both dimensions are one cell |
| HTransform.NextSize | 3rdparty/cfitsio/fits_hdecompress.c:455-469 | The "cryptic" doubling of the sizes keeps n == (ntop-1)*c + nf with 1 <= nf <= c, so it runs the halved sizes back up |
| HTransform.Htrans | 3rdparty/cfitsio/fits_hcompress.c:184-316 | In place, the array becomes the log2n-level transform of the image it held |
| HTransform.Hinv | 3rdparty/cfitsio/fits_hdecompress.c:398-587 | In place and without smoothing, the array becomes the inverse transform of what it held |
| HTransform.RoundTrip | 3rdparty/cfitsio/fits_hdecompress.c:398-587 | Calling the forward routine, then the inverse: the intermediate coefficients are the transform and the array is restored |
| HMeaning.LevelMeans | 3rdparty/cfitsio/fits_hcompress.c:225-295 | What a level computes, without its code: for every block, at its place in the regrouped image, the sum, the row difference, the column difference and the diagonal difference of its pixels, halved above the first level and rounded to the nearest multiple of 4u or 2u with ties away from zero; at an odd edge the last row or column counts twice |
| HError.SnapSumNearest | 3rdparty/cfitsio/fits_hdecompress.c:446-449 | The first coefficient is rounded to the nearest multiple, ties away from zero |
| HError.SnapSideNearest | 3rdparty/cfitsio/fits_hdecompress.c:500-505 | A side coefficient is rounded to the nearest multiple, ties away from zero |
| HError.SnapDiagonalNearest | 3rdparty/cfitsio/fits_hdecompress.c:470-506 | The diagonal coefficient is rounded to the nearest multiple, ties away from zero, and left alone at the last level |
| HError.LevelTolerance | 3rdparty/cfitsio/fits_hdecompress.c:477-571 | Undoing a level gives the cells that entered it from any coefficients that are off by less than u (sides) or u/2 (diagonal) |
| HError.Tolerance | 3rdparty/cfitsio/fits_hdecompress.c:398-587 | The inverse gives the image back exactly from every array whose coefficients are each off by less than half of what they are multiples of, all levels at once, for every size |
| HError.SumTolerance | 3rdparty/cfitsio/fits_hdecompress.c:446-449 | So the first coefficient may be off by anything below 2^n |
| HError.PixelError | 3rdparty/cfitsio/fits_hdecompress.c:398-587 | If every coefficient is off by at most b, then after n levels every pixel is off by at most (6b + 11n + 6)/4 |
| HQuad.QuadRoundTrip | 3rdparty/cfitsio/fits_hdecompress.c:500-529 | The inverse of a 2x2 block recovers the four pixels from the rounded sum, the rounded sides and the diagonal, for all signs and all levels |
| HQuad.SumsShareParity | 3rdparty/cfitsio/fits_hdecompress.c:507-522 | All four sums have the same bit 0, and bit 1 of h0 is the exclusive or of bit 1 of the other three |
| HQuad.RestoreForward | 3rdparty/cfitsio/fits_hdecompress.c:500-522 | From the rounded coefficients the inverse recovers the exact sums |
| HQuad.PairRoundTrip | 3rdparty/cfitsio/fits_hdecompress.c:533-562 | At an odd edge the two halved sums are recovered through the bit they share |
| HQuad.CornerRoundTrip | 3rdparty/cfitsio/fits_hdecompress.c:563-570 | The corner pixel of two odd edges is recovered |
| HLevel.InverseForward | 3rdparty/cfitsio/fits_hdecompress.c:490-571 | On a whole block the inverse butterfly undoes the forward butterfly |
| HLevel.SumsAreMultiples | 3rdparty/cfitsio/fits_hcompress.c:240-286 | The sums that a level leaves have lost their two bottom bits |
| HButterfly.ForwardBlock | 3rdparty/cfitsio/fits_hcompress.c:226-286 | The nested loops, with their odd row, odd column and corner cases, replace the block by its forward butterfly and touch nothing else |
| HButterfly.InverseBlock | 3rdparty/cfitsio/fits_hdecompress.c:490-571 | The same for the inverse butterfly |
| HShuffle.ShuffledInverse | 3rdparty/cfitsio/fits_hdecompress.c:591-634 | The positions of shuffle and unshuffle are inverse permutations |
| HShuffle.Shuffle | 3rdparty/cfitsio/fits_hcompress.c:456-498 | In place, even elements of a strided line move to its first half and odd ones to its second; nothing off the line changes |
| HShuffle.Unshuffle | 3rdparty/cfitsio/fits_hdecompress.c:591-634 | In place, the elements go back to their even and odd places; nothing off the line changes |
| HBlock.RegroupUndone | 3rdparty/cfitsio/fits_hdecompress.c:480-485 | Unshuffling rows and columns of a block undoes shuffling them |
| HBlock.RegroupBlock | 3rdparty/cfitsio/fits_hcompress.c:290-295 | Rows and columns of the block are regrouped in place, the rest of the image stays |
| HBitIO.BitReader.InputNbits | 3rdparty/cfitsio/fits_hdecompress.c:2540-2562 | Reads the next n bits of the stream, counted from the position where the last call stopped |
| HBitIO.BitReader.InputBit | 3rdparty/cfitsio/fits_hdecompress.c:2521-2535 | Reads the next bit |
| HBitIO.BitReader.InputNybble | 3rdparty/cfitsio/fits_hdecompress.c:2566-2583 | Reads the next four bits |
| HBitIO.BitReader.InputNnybble | 3rdparty/cfitsio/fits_hdecompress.c:2587-2651 | Reads the next n nybbles, with its backspace over a whole buffered byte leaving the position unchanged |
| HBitIO.BitWriter.OutputNbits | 3rdparty/cfitsio/fits_hcompress.c:1109-1132 | Appends exactly the low n bits of the value to what has been written |
| HBitIO.BitWriter.OutputNybble | 3rdparty/cfitsio/fits_hcompress.c:1136-1155 | Appends four bits |
| HBitIO.BitWriter.OutputNnybble | 3rdparty/cfitsio/fits_hcompress.c:1159-1224 | Appends n nybbles, whether or not the output is at a byte boundary |
| HBitIO.BitWriter.Done | 3rdparty/cfitsio/fits_hcompress.c:1231-1242 | The bytes are the bits written, padded with zeros to a whole byte |
| HHuffman.HuffDecodes | 3rdparty/cfitsio/fits_hdecompress.c:2370-2426 | The reader of the fixed code maps every one of the 16 codes back to its nybble and stops right behind it |
| HHuffman.InputHuffman | 3rdparty/cfitsio/fits_hdecompress.c:2370-2426 | The branching reader returns the symbol of the code at its position, on every input |
| HHuffman.ReadsCodesBack | 3rdparty/cfitsio/fits_hdecompress.c:1505-1519 | Codes inserted at the front, so written in reverse order, are read back from the last element to the first, given marks for the non-zero elements |
| HHuffman.CodeBuffer.Insert | 3rdparty/cfitsio/fits_hcompress.c:1534-1558 | A code goes above the pending bits, that is, in front of all codes collected so far |
| HHuffman.CodeBuffer.BufCopy | 3rdparty/cfitsio/fits_hcompress.c:1534-1558 | Collects the codes of all non-zero elements in reverse order; it reports a full buffer exactly if their bits would fill it |
| HHuffman.CodeBuffer.WriteTo | 3rdparty/cfitsio/fits_hcompress.c:1371-1396 | Writes out the collected codes, pending bits first and then the bytes from the last to the first, or the code of zero if there are none |
| KnownAnswers.CanonicalCode | 3rdparty/cfitsio/fits_hcompress.c:1259-1268 | The code table is the canonical prefix code of its lengths: shorter codes first, equal ones in the order of their nybbles, and none left over |
| KnownAnswers.SmallPlane | 3rdparty/cfitsio/fits_hcompress.c:1405-1527 | A plane of two by two marks is the format code and the code of the one nybble, upper left mark first |
| KnownAnswers.LargerPlane | 3rdparty/cfitsio/fits_hcompress.c:1343-1396 | A plane of four by four marks: the top nybble first, and then its level from the last nybble to the first |
| HPlanes.SpreadPacked | 3rdparty/cfitsio/fits_hdecompress.c:1528-1719 | Spreading the nybbles of a packed plane gives the plane back, odd sizes included |
| HPlanes.TopNybble | 3rdparty/cfitsio/fits_hcompress.c:1371-1396 | The stream of a quadtree is the code of its top nybble and then those of the levels below; an empty tree is the one code of zero |
| HPlanes.Descend | 3rdparty/cfitsio/fits_hdecompress.c:1376-1396 | Reading expands the levels from the top down, each to what was coded, and leaves the reader where the next level's codes begin |
| HPlanes.PlaneRoundTrip | 3rdparty/cfitsio/fits_hdecompress.c:1355-1402 | Decoding a coded bit plane gives the plane back and stops right behind it, in the quadtree format and in the direct one |
| HLength.PlaneLength | 3rdparty/cfitsio/fits_hcompress.c:1405-1527 | A plane takes at most its quadtree and the format code, and at most its bit map, the format code and three bits |
| HLength.FormatChoice | 3rdparty/cfitsio/fits_hcompress.c:1309-1433 | A plane is written as its bit map if and only if its codes take at least as many bits as the bit map does in whole bytes |
| HScratch.OneBit | 3rdparty/cfitsio/fits_hcompress.c:1708-1765 | Packs one bit plane of a rectangle into nybbles, with zeros off an odd edge |
| HScratch.Reduce | 3rdparty/cfitsio/fits_hcompress.c:1773-1822 | In place, the level at the front of the scratch array is replaced by the packed level above it |
| HScratch.ReadAhead | 3rdparty/cfitsio/fits_hcompress.c:1773-1822 | The slot written never lies behind a cell still to be read |
| HExpand.QtreeCopy | 3rdparty/cfitsio/fits_hdecompress.c:1528-1719 | In place, the level at the front of the array is replaced by its cells spread over the next level's size |
| HExpand.DestAhead | 3rdparty/cfitsio/fits_hdecompress.c:1528-1719 | Copying the nybbles to their corners from the last to the first never overwrites one not yet moved |
| HInsert.BitIns | 3rdparty/cfitsio/fits_hdecompress.c:2026-2311 | Sets exactly the marked cells' bit in the rectangle, and changes nothing else of the image |
| HQtree.CopyLevels | 3rdparty/cfitsio/fits_hcompress.c:1343-1366 | The loop over the levels collects the codes of all levels, or stops because they fill the buffer |
| HQtree.EncodePlane | 3rdparty/cfitsio/fits_hcompress.c:1405-1527 | Writes one plane: as a quadtree, or as a bitmap exactly when the codes fill the buffer |
| HQtree.QtreeEncode | 3rdparty/cfitsio/fits_hcompress.c:1405-1527 | Appends the coded bit planes of the rectangle, the top plane first |
| HQtree.ExpandLevel | 3rdparty/cfitsio/fits_hdecompress.c:1505-1519 | Spreads a level and reads a code for each of its non-zero cells |
| HQtree.QtreeDecode | 3rdparty/cfitsio/fits_hdecompress.c:1408-1496 | On every input, sets the decoded planes in the rectangle one by one, or fails exactly on a bad format code |
| HQuadrants.QuadRoundTrip | 3rdparty/cfitsio/fits_hdecompress.c:1408-1496 | For every rectangle and bit count, decoding what was encoded into an image that has the planes above already restores the rectangle and leaves the rest of the image alone |
| HQuadrants.SetNext | 3rdparty/cfitsio/fits_hdecompress.c:2026-2311 | Or-ing the next bit into a number read down to bit nb gives the number read down to bit nb-1 |
| HBody.NoneEmpty | 3rdparty/cfitsio/fits_hdecompress.c:1257-1281 | All four quadrants have pixels if and only if the image has at least two rows and two columns |
| HBody.InQuadrant | 3rdparty/cfitsio/fits_hdecompress.c:1268-1281 | The four rectangles do not overlap and together cover the image |
| HBody.DoEncode | 3rdparty/cfitsio/fits_hcompress.c:1040-1076 | Writes the four quadrants and the end mark, padded to a byte |
| HBody.InputQuadrants | 3rdparty/cfitsio/fits_hdecompress.c:1268-1289 | On every input, decodes the four quadrants and checks the end mark |
| HBody.BodyRoundTrip | 3rdparty/cfitsio/fits_hdecompress.c:1268-1289 | From zeros, decoding what the quadrants were coded to restores every magnitude |
| HSigns.SignsRoundTrip | 3rdparty/cfitsio/fits_hdecompress.c:1294-1299 | Reading the sign bits of the non-zero magnitudes gives the signed numbers back |
| HSigns.TakeSigns | 3rdparty/cfitsio/fits_hcompress.c:796-839 | Replaces the elements by their magnitudes and gathers one sign bit for each non-zero one, padded to a byte |
| HSigns.InputSigns | 3rdparty/cfitsio/fits_hdecompress.c:1294-1299 | Applies the sign bits at the reader's position to the first nel elements |
| HSigns.CountPlanes | 3rdparty/cfitsio/fits_hcompress.c:845-872 | Counts the bits of the largest magnitude in each of the three classes of quadrants |
| HSigns.CountsCover | 3rdparty/cfitsio/fits_hcompress.c:845-872 | The counts are large enough for every magnitude of every quadrant |
| HCoder.NumberThere | 3rdparty/cfitsio/fits_hdecompress.c:2439-2479 | A big-endian number of n bytes reads back modulo 2^(8n) |
| HCoder.WriteNumber | 3rdparty/cfitsio/fits_hcompress.c:936-970 | Stores a number as its n low bytes, most significant first, for negative ones too |
| HCoder.Encode | 3rdparty/cfitsio/fits_hcompress.c:761-922 | Produces the header, the coded body and the sign bytes of the image, and succeeds exactly if that is less than the output size |
| HLength.StreamLength | 3rdparty/cfitsio/fits_hcompress.c:761-922 | The stream of an image is never longer than its bit maps, its sign bits and the header, so `HCoder.Encode` succeeds in every buffer larger than that |
| HLength.LengthForBits | 3rdparty/cfitsio/fits_hcompress.c:761-922 | The same bound for every image with magnitudes of at most b bits |
| KnownAnswers.HeaderBytes | 3rdparty/cfitsio/fits_hcompress.c:773-888 | The header byte for byte: magic number, rows, columns, scale, the sum of all pixels (a negative one here) and the three counts |
| KnownAnswers.SmallStream | 3rdparty/cfitsio/fits_hcompress.c:761-922 | A whole stream byte for byte: header, quadrants in order, planes from the top, end mark, padding and signs |
| HCoder.Decode | 3rdparty/cfitsio/fits_hdecompress.c:1115-1170 | On every input, decodes the stream or fails with the first check that fails: magic, division by zero, overflow, allocation, format |
| HRoundTrip.StreamRoundTrip | 3rdparty/cfitsio/fits_hdecompress.c:1115-1170 | Decoding an encoded image gives back its dimensions, its scale and every signed coefficient, for nx, ny of at least 2 and magnitudes below 2^60 |
| HRoundTrip.HeaderFirst | 3rdparty/cfitsio/fits_hcompress.c:773-790 | The header's bytes come out first and unchanged, so the bit-oriented body starts at a byte boundary |
| HRoundTrip.CountsAreBytes | 3rdparty/cfitsio/fits_hcompress.c:870-888 | Magnitudes below 2^60 need at most 60 planes, so the counts fit the header's bytes |
| HCompress.Hcompress | 3rdparty/cfitsio/fits_hcompress.c:126-171 | Transforms, quantises and encodes the array |
| HCompress.Hdecompress | 3rdparty/cfitsio/fits_hdecompress.c:142-191 | Decodes, multiplies by the scale and inverts the transform, or reports the decoder's failure |
| HCompress.DecodedSize | 3rdparty/cfitsio/fits_hdecompress.c:1115-1170 | A stream is decoded only if it starts with the magic number and its size fits the array and a 32-bit integer |
| HCompress.CompressDecompress | 3rdparty/cfitsio/fits_hdecompress.c:142-191 | For every scale: what was compressed into a large enough buffer is decompressed to the same image without quantisation, and with it to one in which no pixel is off by more than (6 floor(scale/2) + 11 n + 6)/4 for n levels; pixels behind it stay |
| HCompress.RestoresNearly | 3rdparty/cfitsio/fits_hdecompress.c:142-191 | The bound on the pixels after quantising and undoing it |
| HCompress.TransformBounds | 3rdparty/cfitsio/fits_hcompress.c:225-313 | Coefficients after k levels stay below 2^k(2b+k) for pixels up to b, so the limit of the coder can be met from the pixels |
| HCompress.CoefficientBounds | 3rdparty/cfitsio/fits_hcompress.c:126-171 | The same bound for all levels and the whole array |
| HCompress.DigitError | 3rdparty/cfitsio/fits_hcompress.c:571-583 | Quantising and undoing it moves a coefficient by at most half the scale, ties towards zero, and not at all for scales up to 1 |
| HCompress.DigitShrinks | 3rdparty/cfitsio/fits_hcompress.c:571-583 | Quantising makes no coefficient larger, so the limit of the coder is still met |
| LzwSpec.RoundTrip | 3rdparty/oc_tifflzw/oc_tifflzw.c:284-393 | The textbook decoder with room for exactly |x| bytes maps the bits of the encoder's codes to x, whatever padding follows |
| LzwSpec.EncodeFromDecodes | 3rdparty/oc_tifflzw/oc_tifflzw.c:333-381 | The same from any state in which encoder and decoder are in step, through any number of table resets |
| LzwSpec.ReadInStep | 3rdparty/oc_tifflzw/oc_tifflzw.c:173-217 | Reading a data code, the decoder puts out its string and adds the entry that the encoder added one code earlier, K-w-K included |
| LzwSpec.WidthStaysInStep | 3rdparty/oc_tifflzw/oc_tifflzw.c:352-366 | Because the decoder's table lags by one entry, widening at 2^w on one side and 2^w-1 on the other falls on the same code |
| LzwSpec.ResetDecodes | 3rdparty/oc_tifflzw/oc_tifflzw.c:367-375 | A full table: after the CLEAR both sides start over in step |
| LzwLongest.EncodeIsLongest | 3rdparty/oc_tifflzw/oc_tifflzw.c:284-393 | For every input the encoder, with its map from prefix and byte to code, writes a CLEAR, then the longest strings that the decoder knows one after the other, with a CLEAR when the table is full, and the end code |
| LzwLongest.PendingIsLongest | 3rdparty/oc_tifflzw/oc_tifflzw.c:333-366 | The string that is put out is the longest that the rest of the input begins with |
| LzwEncoder.TiffEncode | 3rdparty/oc_tifflzw/oc_tifflzw.c:284-393 | The bytes written are the codes of the encoder over a plain map, most significant bit first and padded; -2 exactly if they do not fit the output |
| LzwTable.CodeTable.Lookup | 3rdparty/oc_tifflzw/oc_tifflzw.c:334-347 | The probe finds a key exactly if the map has it, with its code, or else ends at a free slot of the key's chain |
| LzwTable.CodeTable.Insert | 3rdparty/oc_tifflzw/oc_tifflzw.c:352-355 | Writing the slot where the lookup ended adds the entry to the map |
| LzwTable.CodeTable.Clear | 3rdparty/oc_tifflzw/oc_tifflzw.c:368-372 | The next epoch empties the map, through the wrap-around too |
| LzwTable.FreeSlot | 3rdparty/oc_tifflzw/oc_tifflzw.c:337-342 | With fewer keys than slots some slot is stale, so every probe ends |
| LzwTable.ProbeFailed | 3rdparty/oc_tifflzw/oc_tifflzw.c:337-347 | A key that the probe passes over to a stale slot is not in the map |
| LzwTable.TagParts | 3rdparty/oc_tifflzw/oc_tifflzw.c:256-275 | A tag spells out its epoch and its key, so a stale slot never matches |
| LzwReader.CodeReader.Read | 3rdparty/oc_tifflzw/oc_tifflzw.c:132-161 | In both bit orders the accumulator yields the next code of the stream, or finds fewer bits left than the code needs |
| LzwDecoder.TiffDecodeOrder | 3rdparty/oc_tifflzw/oc_tifflzw.c:85-223 | On every input and in both bit orders, the decoder of pointers and lengths returns what the decoder of strings returns: the count and the bytes, or the same error |
| LzwDecoder.TiffDecoder.EmitString | 3rdparty/oc_tifflzw/oc_tifflzw.c:175-191 | The 8-byte chunks, written past the string, leave the earlier output alone and put the string behind it |
| LzwDecoder.TiffDecoder.EmitRepeat | 3rdparty/oc_tifflzw/oc_tifflzw.c:192-204 | The overlapping forward copy puts out the previous string and its first byte |
| LzwDecoder.TiffDecoder.AddEntry | 3rdparty/oc_tifflzw/oc_tifflzw.c:206-212 | The entry recorded as pointer and length denotes the previous string and the first byte of this one |
| LzwDecoder.EntryDenotes | 3rdparty/oc_tifflzw/oc_tifflzw.c:36-70 | The new entry's string is found in the output where the previous string starts |
| TiffLzw.TiffDecode | 3rdparty/oc_tifflzw/oc_tifflzw.c:225-237 | The bit order is chosen by the first byte's high bit |
| TiffLzw.EncodedIsMsb | 3rdparty/oc_tifflzw/oc_tifflzw.c:229-236 | Every encoder's stream is recognised as most significant bit first |
| TiffLzw.DecodesEncoded | 3rdparty/oc_tifflzw/oc_tifflzw.c:225-237 | For every byte string x, decoding its encoding into exactly |x| bytes reproduces x |
| LzwCodes.WidthIsLeast | 3rdparty/oc_tifflzw/oc_tifflzw.c:112-130 | The width that both dialects are held to is the least one, from the first width to 12, in which a given number can be written |
| LzwCodes.LeastWidthAtStart | 3rdparty/oc_tifflzw/oc_tifflzw.c:85-103 | A decoder that starts, or has read a CLEAR, reads in that least width |
| LzwCodes.LeastWidthKept | 3rdparty/oc_tifflzw/oc_tifflzw.c:112-130 | It still does after every code, whatever the code: late change holds the code about to be added, early change the one after it |
| LzwCodes.TiffListRoundTrip | 3rdparty/oc_tifflzw/oc_tifflzw.c:85-223 | Every list of codes that any encoder may write (CLEARs anywhere, entries, K-w-K, a full table), each in its least width, decodes to its text in both bit orders |
| LzwCodes.TiffRejects | 3rdparty/oc_tifflzw/oc_tifflzw.c:192-197 | In every state that a decoder is in while reading such a list, any code that is neither CLEAR nor end code nor known gives -2 |
| LzwCodes.TiffOverflows | 3rdparty/oc_tifflzw/oc_tifflzw.c:173-200 | A known code whose string does not fit the output gives -3 |
| LzwCodes.BestIsLongest | 3rdparty/oc_tifflzw/oc_tifflzw.c:333-347 | The longest-match encoder takes the longest known string |
| LzwCodes.TiffRoundTrip | 3rdparty/oc_tifflzw/oc_tifflzw.c:85-223 | For every byte string and in both bit orders, what the longest-match encoder writes decodes to it |
| TiffLzw.DecodesLsb | 3rdparty/oc_tifflzw/oc_tifflzw.c:225-237 | A stream that starts with a CLEAR in the low-bit-first order is recognised as such and decodes to its text |
| TiffLzw.ClearFollows | 3rdparty/oc_tifflzw/oc_tifflzw.c:367-375 | The encoder writes a CLEAR right behind every 3837th data code since the last one, and nowhere else |
| TiffLzw.CodesBelow | 3rdparty/oc_tifflzw/oc_tifflzw.c:277-282 | At most one data code a byte, and a CLEAR only after 3837 of them |
| TiffLzw.BoundSuffices | 3rdparty/oc_tifflzw/oc_tifflzw.c:277-282 | The bound is never smaller than the encoding |
| TiffLzw.EncodeDecode | 3rdparty/oc_tifflzw/oc_tifflzw.c:284-393 | Encoding into a buffer of the bound's size succeeds with the specified codes, and decoding them returns x |
| IoChain.NextKeeps | 3rdparty/bitshuffle/iochain.c:42-89 | Every step of every worker keeps the invariant: order of the iterations, who holds which lock, what is recorded in the slots and what was handed out |
| IoChain.StepKeeps | 3rdparty/bitshuffle/iochain.c:42-89 | The same for one given worker and operation |
| IoChain.RunInv | 3rdparty/bitshuffle/iochain.c:17-89 | The invariant holds in every state of every interleaving |
| IoChain.HandedInOrder | 3rdparty/bitshuffle/iochain.c:42-77 | An iteration is handed the input position that the one before it set, and the first output position plus the lengths of all earlier iterations |
| IoChain.RegionsDisjoint | 3rdparty/bitshuffle/iochain.c:67-89 | Output regions are contiguous and do not overlap |
| IoChain.NoEarlyOverwrite | 3rdparty/bitshuffle/iochain.c:59-89 | A ring slot is overwritten only after the iteration that read it has finished |
| IoChain.OldestCanStep | 3rdparty/bitshuffle/iochain.c:42-89 | The oldest unfinished iteration is never blocked, however many workers there are |
| IoChain.SomebodyCanStep | 3rdparty/bitshuffle/iochain.c:42-89 | No deadlock: while a worker has work left, some worker can step |
| IoChain.RunsEnd | 3rdparty/bitshuffle/iochain.c:42-89 | No run is longer than the work it started with |
| IoChain.Started | 3rdparty/bitshuffle/iochain.c:17-28 | The chain as initialised, with any workers and any numbers of iterations, is a start state, so the runs spoken of exist |
| IoChain.CanFinish | 3rdparty/bitshuffle/iochain.c:42-89 | Every run can be continued until all work is done |
| IoChain.StuckMeansFinished | 3rdparty/bitshuffle/iochain.c:42-89 | A run that cannot go on has finished every iteration, exactly as many as were asked for |
| RiceSpec.DifferenceUndone | 3rdparty/cfitsio/ricecomp.c:1071-1078 | Adding the wrapped difference to a neighbour known modulo 2^w gives the pixel modulo 2^w |
| RiceSpec.RunRoundTrip | 3rdparty/cfitsio/ricecomp.c:1018-1079 | At any split level, and stored directly, a run of differences decodes to its pixels and leaves what follows |
| RiceSpec.BlockRoundTrip | 3rdparty/cfitsio/ricecomp.c:998-1080 | Zero blocks, direct blocks and split blocks all decode to their pixels |
| RiceSpec.BlocksRoundTrip | 3rdparty/cfitsio/ricecomp.c:998-1084 | All blocks of a line, the last one short or not, decode to the line and leave what follows them |
| RiceSpec.AnyBlockRoundTrip | 3rdparty/cfitsio/ricecomp.c:998-1080 | Whatever head a block was given, zero for equal pixels, 1 more than any split level, or 1 more than the greatest for direct storage, it decodes to its pixels |
| RiceSpec.AnyBlocksRoundTrip | 3rdparty/cfitsio/ricecomp.c:998-1084 | The same for all blocks of a line, each with a split level of its own |
| RiceBound.SplitIsLeast | 3rdparty/cfitsio/ricecomp.c:238-242 | The split level is the least one for which the differences add up to at most (2^(m+1) + 1/2) n, rounded down |
| KnownAnswers.RiceBytes | 3rdparty/cfitsio/ricecomp.c:123-337 | The streams of the pixels 10 and 12 in the three widths, byte for byte |
| KnownAnswers.RiceZeros | 3rdparty/cfitsio/ricecomp.c:262-276 | A block of equal pixels is its head alone, zero |
| KnownAnswers.RiceDirect | 3rdparty/cfitsio/ricecomp.c:243-261 | A block with a difference of all bits is stored directly behind the head 7, 15 or 26 |
| RiceBound.SumBelow | 3rdparty/cfitsio/ricecomp.c:238-242 | The rule for the split level keeps the sum of the differences below about twice 2^fs a pixel |
| RiceBound.BlockLength | 3rdparty/cfitsio/ricecomp.c:238-320 | No block takes more than its split level, its pixels stored directly, and floor(n/2) / 2^(fsmax-1) extra bits for 8 and 16-bit pixels |
| RiceBound.BlockLengthReached | 3rdparty/cfitsio/ricecomp.c:238-320 | That is the least such bound: for every number of pixels some block takes exactly so many bits |
| RiceBound.DirectIsLongestExactly | 3rdparty/cfitsio/ricecomp.c:238-320 | Blocks of n pixels never take more than their pixels stored directly if and only if n is at most 63 for 8 bits or 16383 for 16 bits; for 32 bits they never do |
| RiceBound.LineLength | 3rdparty/cfitsio/ricecomp.c:123-337 | A line takes at most its first pixel, one split level a block, its pixels stored directly, and the extra bits of its blocks, for every block size |
| RiceBound.LineBoundAttained | 3rdparty/cfitsio/ricecomp.c:123-337 | From two pixels and blocks of two on, the line that alternates between 0 and the least value is stored directly as a whole, so it takes exactly that without the extra bits |
| RiceBound.RuleOfThumb | 3rdparty/cfitsio/ricecomp.c:42-47 | A buffer 1% larger than the pixels is enough for every line of nx pixels if and only if it is for nx pixels stored directly, for every block size of at least two with no extra bits |
| RiceBound.RuleOfThumbFor32 | 3rdparty/cfitsio/ricecomp.c:42-47 | With blocks of 32 it is enough exactly from 225 pixels of 32 bits on; for 16 bits exactly if nx >= 100 + 50 ceil(nx/64), so never below 500 and always from 650 on; and for no line length of 8-bit pixels |
| RiceBound.OnePixel | 3rdparty/cfitsio/ricecomp.c:199-207 | A line of one pixel takes a byte more than the pixel, whatever it is |
| RiceSigns.SplitDiffsSmall | 3rdparty/cfitsio/ricecomp.c:285-287 | In a split block of at most 63 pixels every difference is below 2^31 |
| RiceSigns.LongBlockLosesSign | 3rdparty/cfitsio/ricecomp.c:285-287 | For every n from 64 on, n-1 zeros and 2^30 are a split block whose last difference is -2^31 in the signed copy |
| RiceSigns.NeverNegativeExactly | 3rdparty/cfitsio/ricecomp.c:285-287 | No line has a negative signed copy in a split block if and only if blocks have at most 63 pixels or pixels fewer than 32 bits |
| RiceEncoder.PendingSurvive | 3rdparty/cfitsio/ricecomp.c:844-847 | After n bits have been shifted in, the 32-bit buffer still tells the pending bits apart if and only if all of them are at most 32 |
| RiceEncoder.SafeWidths | 3rdparty/cfitsio/ricecomp.c:830-847 | With up to seven bits pending, a width always fits, after the byte put out first for large ones, if and only if it is at most 25 or is 32 |
| RiceEncoder.Buffer.OutputNbits | 3rdparty/cfitsio/ricecomp.c:813-858 | Appends exactly the low n bits of the value, whenever they fit beside the pending ones |
| RiceEncoder.Buffer.PutTop | 3rdparty/cfitsio/ricecomp.c:287-304 | Appends the unary part, however long, with its whole zero bytes |
| RiceEncoder.Buffer.PutRice | 3rdparty/cfitsio/ricecomp.c:285-320 | Appends one Rice code |
| RiceEncoder.Buffer.Done | 3rdparty/cfitsio/ricecomp.c:863-873 | The bytes are the bits written, padded |
| RiceEncoder.MapBlock | 3rdparty/cfitsio/ricecomp.c:225-233 | Maps the differences of a block to non-negative numbers and adds them up |
| RiceEncoder.SplitLevel | 3rdparty/cfitsio/ricecomp.c:238-242 | Computes the split level from the sum |
| RiceEncoder.Rcomp | 3rdparty/cfitsio/ricecomp.c:123-337 | The output is the coded line, or the line does not fit clen bytes, for every line whose split blocks have no negative signed copy |
| RiceDecoder.Reader.Take | 3rdparty/cfitsio/ricecomp.c:1000-1008 | Takes n bits with a buffer of 32, on every input |
| RiceDecoder.Reader.TakeTop | 3rdparty/cfitsio/ricecomp.c:1051-1060 | Counts zeros across bytes and removes the one behind them, or runs out of input |
| RiceDecoder.Reader.TakeSplit | 3rdparty/cfitsio/ricecomp.c:1051-1069 | Takes one Rice code, or runs out of input |
| RiceDecoder.Reader.TakeDirect | 3rdparty/cfitsio/ricecomp.c:1019-1033 | Assembles a directly stored difference from the top |
| RiceCoder.Rdecomp | 3rdparty/cfitsio/ricecomp.c:911-1089 | On every input, returns the status and the pixels of the decoder over plain bit strings |
| RiceCoder.AnyLineRoundTrip | 3rdparty/cfitsio/ricecomp.c:911-1089 | For every line, width and block size, and whatever split levels an encoder chose, decompressing restores every pixel |
| RiceCoder.LineRoundTrip | 3rdparty/cfitsio/ricecomp.c:911-1089 | For every line, width and block size, decompressing what was compressed restores every pixel, and no byte is left over |
| RiceCoder.BoundSuffices | 3rdparty/cfitsio/ricecomp.c:42-47 | A buffer as large as the bound is large enough, for every line and block size |
| RiceCoder.RoundTrip | 3rdparty/cfitsio/ricecomp.c:123-337 | Compressing and decompressing returns the pixels with status OK, and compressing succeeds in a buffer of the bound's size |
| PlioSpec.ZerosAndOneDo | 3rdparty/cfitsio/pliocomp.c:129-147 | What the decoder makes of a run of zeros whose last word also stands for a pixel: a run that is a multiple of 4095 loses its last 4095 zeros |
| PlioSpec.WordsYield | 3rdparty/cfitsio/pliocomp.c:225-333 | The instructions of a line yield the line exactly if no segment is misread |
| PlioSpec.MisreadIsIsolated | 3rdparty/cfitsio/pliocomp.c:142-146 | A line is misread exactly if some pixel that differs from its right neighbour follows a maximal run of zeros of a length that is a multiple of 4095 |
| PlioSpec.ChangeDoes | 3rdparty/cfitsio/pliocomp.c:96-118 | After the words that change the value, the decoder's value is the encoder's |
| Plio.P2li | 3rdparty/cfitsio/pliocomp.c:26-173 | The line list is the header and the instructions of the line's segments, negative pixels taken as zero |
| Plio.L2pi | 3rdparty/cfitsio/pliocomp.c:183-339 | On every list, returns the interpreted pixels, 0 for an empty list, or -1 for a list that refers to words it does not have |
| Plio.OldFormat | 3rdparty/cfitsio/pliocomp.c:196-209 | A list of the old format, whose third word is its length, is interpreted from its fourth word on |
| Plio.NewFormat | 3rdparty/cfitsio/pliocomp.c:196-209 | A list of the new format is interpreted behind the header words that its second word counts, up to the length in its fourth and fifth |
| KnownAnswers.PlioList | 3rdparty/cfitsio/pliocomp.c:26-173 | A list word for word: header, a run behind zeros, a pixel behind a zero, and a pixel on its own |
| Plio.LineRoundTrip | 3rdparty/cfitsio/pliocomp.c:183-339 | Decoding an encoded line gives the line back if and only if it has no such pixel |
| Plio.Counterexample | 3rdparty/cfitsio/pliocomp.c:142-146 | 4095 zeros and a one do not come back |
| Plio.RoundTrip | 3rdparty/cfitsio/pliocomp.c:26-173 | Encoding and decoding a line, with the same condition |
| Plio.ListShort | 3rdparty/cfitsio/pliocomp.c:104-153 | For pixels below 2^27 and lines of up to 2^28 pixels every word fits its 16 bits |
| CycleWalk.CheckCycles | ci/check_pipeline_catalog.py:115-134 | Every report names an item on a cycle, every cycle goes through a reported item, nothing is reported exactly if there is no cycle, and the items finish in an order that respects all dependencies but those on reported items |
| CycleWalk.Walker.Walk | ci/check_pipeline_catalog.py:117-130 | Visits everything below an item that is not reported, leaves the set of items being visited as it was, and keeps the reports made |
| CycleWalk.OrderedCutsCycles | ci/check_pipeline_catalog.py:117-132 | When the finish order respects all dependencies but those on reported items, every cycle goes through a reported item |
| CycleWalk.StackCycle | ci/check_pipeline_catalog.py:118-120 | Meeting an item that is being visited closes a real path back to it |
| BitKernel.Kernel | 3rdparty/bitshuffle/bitshuffle_core.c:111-118 | The three masked exchanges transpose the 8 by 8 bits of a word |
| Bitshuffle.TransElem | 3rdparty/bitshuffle/bitshuffle_core.c:249-262 | The general transpose of elements of any width |
| Bitshuffle.TransByteElem | 3rdparty/bitshuffle/bitshuffle_core.c:165-192 | The blocked loop and its remainder transpose the bytes of the elements |
| Bitshuffle.TransBitByte | 3rdparty/bitshuffle/bitshuffle_core.c:204-237 | Every word's bits are transposed and dealt out to eight bit rows |
| Bitshuffle.TransBitElem | 3rdparty/bitshuffle/bitshuffle_core.c:278-298 | The three steps together are the bit transpose: row 8j+b, column i is bit b of byte j of element i; sizes that are not multiples of 8 are refused |
| Bitshuffle.StepsTranspose | 3rdparty/bitshuffle/bitshuffle_core.c:278-298 | Composing the byte, bit and row transposes gives the bit transpose |
| Bitshuffle.TransByteBitrow | 3rdparty/bitshuffle/bitshuffle_core.c:303-326 | The bytes of the bit rows are transposed |
| Bitshuffle.ShuffleBitEight | 3rdparty/bitshuffle/bitshuffle_core.c:330-367 | The bits of every eight elements are gathered back |
| Bitshuffle.UntransBitElem | 3rdparty/bitshuffle/bitshuffle_core.c:371-389 | The result is what the input is the bit transpose of |
| Bitshuffle.StepsUntranspose | 3rdparty/bitshuffle/bitshuffle_core.c:371-389 | Composing the inverse's two steps undoes the bit transpose |
| Bitshuffle.TransposeInjective | 3rdparty/bitshuffle/bitshuffle_core.c:371-389 | Only one block has a given bit transpose |
| Bitshuffle.DefaultBlockSize | 3rdparty/bitshuffle/bitshuffle_core.c:2040-2048 | The default block size is the largest multiple of 8 elements that fit the target of 8192 bytes, or the minimum of 128 if that is larger |
| Bitshuffle.BlockedWrap | 3rdparty/bitshuffle/bitshuffle_core.c:1879-1933 | Whole blocks, a last block of whole groups of eight, and the leftover bytes copied; the count is the buffer's size, or -81 for a block size that is not a multiple of 8 |
| Bitshuffle.BlockedInjective | 3rdparty/bitshuffle/bitshuffle_core.c:1879-1933 | Only one buffer shuffles to a given one |
| Bitshuffle.RoundTrip | 3rdparty/bitshuffle/bitshuffle_core.c:1879-1933 | For every size, element size and accepted block size, unshuffling undoes shuffling |
| GifSpec.DoneIsFull | 3rdparty/oc_giflzw/oc_giflzw.c:89-186 | Success means that the output is exactly the bytes asked for |
| GifSpec.FullDecoder | 3rdparty/oc_giflzw/oc_giflzw.c:89-186 | A decoder whose output is full still reads on: it succeeds exactly if, after any clear codes, the data end or the next code is defined |
| GifSpec.TiffAgrees | 3rdparty/oc_giflzw/oc_giflzw.c:89-186 | From states in step, when the TIFF decoder returns the n bytes asked for, the GIF decoder returns them or rejects what follows them |
| GifSpec.GifFollowsTiff | 3rdparty/oc_giflzw/oc_giflzw.c:89-186 | For every input on which the TIFF decoder (least significant bit first) returns all bytes, the GIF decoder with 8-bit literals returns the same ones if and only if the code after them is defined |
| GifSpec.TiffStopsEarlier | 3rdparty/oc_tifflzw/oc_tifflzw.c:219-221 | An input on which the two differ, whatever follows it |
| GifDecoder.GifLzwDecode | 3rdparty/oc_giflzw/oc_giflzw.c:50-187 | On every input, the prefix-chain decoder returns what the decoder of strings returns: 0 and the bytes, -2, -4, or -1 for a bad literal width |
| LzwCodes.LateWidthAtStart | 3rdparty/oc_giflzw/oc_giflzw.c:70-74 | At the start and after a clear code, the code size is the least that holds the code about to be added |
| LzwCodes.LateWidthKept | 3rdparty/oc_giflzw/oc_giflzw.c:173-183 | Every string that is put out keeps it so: 2^(size-1) <= next code unless the size is the first one, and next code < 2^size unless it is 12 |
| LzwCodes.GifListRoundTrip | 3rdparty/oc_giflzw/oc_giflzw.c:89-186 | For 2 to 8 bits a pixel, every list of codes that any encoder may write, each in its least width, decodes to its text |
| LzwCodes.GifRejects | 3rdparty/oc_giflzw/oc_giflzw.c:126-141 | In every state reached while reading such a list, any code that is neither clear code nor end code nor known gives -4 |
| LzwCodes.GifFills | 3rdparty/oc_giflzw/oc_giflzw.c:156-167 | A known code whose string does not fit fills the output with its front, and the decoder returns 0 |
| LzwCodes.GifRoundTrip | 3rdparty/oc_giflzw/oc_giflzw.c:89-186 | For every image of m-bit pixels, m from 2 to 8, what the longest-match encoder writes decodes to it |
| GifDecoder.Decoder.Walk | 3rdparty/oc_giflzw/oc_giflzw.c:143-154 | The chain of a code strictly decreases, ends at its first byte, fits the stack, and leaves its string on it in reverse |
| GifDecoder.Decoder.AddNew | 3rdparty/oc_giflzw/oc_giflzw.c:173-183 | The new entry denotes the previous string and the first byte of this one |
| Eer.ParseInOrder | 3rdparty/oc_eer/oc_eer.c:77-119 | The events of a frame lie in the frame and in strictly increasing cells |
| Eer.PixelInside | 3rdparty/oc_eer/oc_eer.c:111-113 | Every event has a pixel of the frame |
| Eer.SubPixelOfOffset | 3rdparty/oc_eer/oc_eer.c:96-113 | A field, read as a two's complement offset, selects the sub-pixel at that offset from the middle of its cell |
| Eer.ColumnAndRow | 3rdparty/oc_eer/oc_eer.c:111-113 | The column and the row of an event's pixel in the frame |
| Eer.ParseWritten | 3rdparty/oc_eer/oc_eer.c:77-119 | Every list of offsets in order, written with skips, the horizontal field first and both in two's complement, is read back, whatever follows |
| Eer.EventsRoundTrip | 3rdparty/oc_eer/oc_eer.c:77-119 | Every list of events in order can be written, and is read back |
| Eer.SkipPastEnd | 3rdparty/oc_eer/oc_eer.c:98-106 | A skip past the end of the frame, in however many fields, is an error |
| Eer.CellOfPixel | 3rdparty/oc_eer/oc_eer.c:111-113 | A pixel belongs to one base cell only |
| Eer.OneHit | 3rdparty/oc_eer/oc_eer.c:77-119 | A frame hits no pixel twice |
| Eer.DrawnCounts | 3rdparty/oc_eer/oc_eer.c:113-115 | A pixel ends at its first value plus its events, or at the maximum |
| EerDecoder.Window.Refill | 3rdparty/oc_eer/oc_eer.c:22-28 | Refilling keeps the unread bits and stops with more than 56 bits or at the end of the data |
| EerDecoder.Window.Take | 3rdparty/oc_eer/oc_eer.c:30-36 | Takes the next n bits, least significant first |
| EerDecoder.Advance | 3rdparty/oc_eer/oc_eer.c:91-92 | Row and column stay the quotient and the remainder of the position by the base width |
| EerDecoder.EerDecode | 3rdparty/oc_eer/oc_eer.c:41-120 | On every input, the incremental decoder draws the events of the plain parser, or returns its error; bad parameters leave the frame alone |
| EerDecoder.DecodedCounts | 3rdparty/oc_eer/oc_eer.c:77-119 | After a decode without error the return value is the number of events, and every pixel is its first value plus one if an event fell on it, capped |
| EerDecoder.WrittenFrameDecodes | 3rdparty/oc_eer/oc_eer.c:41-120 | Decoding a frame that was written returns the number of its events and draws each of them |

## Left out

- Machine integers: the H-transform, the bit-plane coder and the cell counts use unbounded integers; 32-bit and 64-bit wrap-around is not modelled there. `HCompress.TransformBounds` says how large coefficients get, and `LIMIT` (2^60, from the shift of a quadtree bit by 3) bounds what the coder is proved for.
- Only the 64-bit twins of the H-compress coder are followed where the twins differ; the packing of 64-bit results into 32-bit pixels after `fits_hdecompress64` is not modelled.
- `hsmooth` and `hsmooth64`: smoothing changes pixels by design and has no law to state.
- HBody.DoEncode: images of one row or one column are left out of the whole coder, because a quadrant is empty there (`HBody.NoneEmpty`) and the source then indexes scratch arrays of no elements. The transform is proved for them.
- HBody.InputQuadrants: images of one row or one column, as above.
- HBody.BodyRoundTrip: images of one row or one column, as above.
- HRoundTrip.StreamRoundTrip: images of one row or one column, as above.
- HCompress.Hcompress: images of one row or one column, as above.
- HCompress.CompressDecompress: images of one row or one column, as above.
- `log()` in `log2n` and the `double` sum of a Rice block are exact integer functions here.
- A zero column count in an H-compress header, which the source divides by, is an error of its own in the model.
- Failing allocations, error messages and thread-local state.
- HCoder.Encode: images of one row or one column are left out, as above; bytes stored at or beyond the end of the output, and the output position that stays there, are not modelled; only that encoding then fails.
- HCoder.Decode: reading beyond the end of the input yields zeros in the model, where the source reads on in memory, and sizes of one row or one column are an error of their own.
- LzwDecoder.TiffDecodeOrder: bytes of the output beyond the returned count, or after an error, are unspecified.
- RiceCoder.Rdecomp: the pixels after an error are unspecified.
- HCompress.Hdecompress: the array after an error is unspecified, and the inverse transform runs on a separate array of exactly the image's size.
- RiceEncoder.Rcomp: 32-bit lines with a split block whose signed copy of a difference is negative are left out, because the source then shifts by a count of zero or less, which writes no code or is not defined in C. Bytes stored beyond the end of the output before the check are not modelled; only that it fails.
- RiceCoder.RoundTrip: the same lines.
- RiceEncoder.Buffer.OutputNbits: calls that lose pending bits are left out; no caller makes one.
- HTransform.Hinv: without smoothing, and not for a single pixel, where the source shifts by a negative count.
- The end code of a TIFF stream may be read at a different width than it was written; with an output of exactly the decoded size it is never read.
- IoChain.HandedInOrder: the branch without OpenMP, the insides of the locks and weak memory are not modelled; each operation is one atomic step and block lengths are arbitrary.
- IoChain.Started: how many iterations each worker runs is fixed at the start, where the caller's schedule decides it on the way; every actual assignment is one such choice, and the results hold for all of them.
- Bitshuffle.BlockedWrap: blocks run one after the other, in the order that `IoChain` justifies; LZ4 and zstd blocks are not part of this model.
- The vector paths of bitshuffle (NEON, SSE2, AVX2, AVX-512), the hierarchical byte transpose that only they use, and the kernel for big-endian machines.
- Plio.P2li: the starting offset is fixed at the first pixel, and words are integers; `Plio.ListShort` says when they fit 16 bits.
- Plio.L2pi: lists without the header words that the source reads unchecked (the third, and unless it is positive the first five) are left out.
- `oc_giflzw_decode_blocks`, which joins sub-blocks before decoding, and null-pointer arguments of the TIFF, GIF and EER functions.
- EerDecoder.EerDecode: the two destination types are one model with the maximum as a parameter.
- CycleWalk.CheckCycles: reports are the names only, and the catalog's other checks are left out.
- `bcdec.h`, `spng.h`, `rgbe.h`, the Python wrappers, and the build, benchmark and other CI scripts: bindings, constant tables and plumbing.
