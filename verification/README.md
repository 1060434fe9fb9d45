# Codecs, argument parsing and resampling: a verified model

The project models the parts of the vendored libraries under `externals/` whose behaviour spans several functions, and
proves what they promise. Encoders and decoders of the same repository are proved against one another wherever both exist.

- **DEFLATE and zlib** (RFC 1950, RFC 1951). `Huffman` is canonical coding and the Kraft inequality, `Deflate` is what a
  compressed stream means and `Guarded` what the inflater makes of it, `ZHuffman` and `ZBuf` are the inflater with its tables,
  bit buffer and growing output, `ZWriter`, `ZCompress` and `Adler` are the compressor; `ZlibRoundTrip` joins them.
  `ZRefused` has streams the inflater refuses. `ZDynamic` writes blocks with codes of their own, bit by bit and without the
  inflater's tables, and inflates them; `ZDynamicSample` is one of them as bytes.
- **PNG** (PNG Specification, Second Edition). `PngFilter` and `PngFile` carry an 8-bit image through filters, chunks and
  zlib and back; `PngExpand` unpacks samples of 1, 2 and 4 bits inside their own rows; `PngInterlace` puts Adam7 passes
  together, and `PngPasses` takes images apart into such passes and gets them back.
- **JPEG entropy coding** (ITU-T T.81). `JpegHuffman`, `JpegBits` and `JpegBlock` are the table-driven decoder,
  `JpegWriter` is the bit writer with byte stuffing, `JpegRoundTrip` joins them, `JpegStdTables` does so for the four
  constant tables of the writer.
- **GIF** (GIF89a). `GifLzw` is LZW decoding against a plain dictionary of strings, `GifCoding` what encoders write for it,
  `GifRaster` the interlaced cursor.
- **TGA and Radiance HDR run lengths.** `TgaRle` and `HdrRle` write and read.
- **BC1, BC3 and BC6H textures.** `BcMatch`, `BcRefine`, `BcCompress` and `BcChannel` are the compressor, `BcColor`,
  `BcChannel` and `BcTexture` the decoder, `Bc3` puts a block through both. `Bc6hData`, `Bc6hModes`, `Bc6hColor`, `Bc6h` and
  `Bc6hDecode` are the BC6H decoder, `Bc6hLayout` the layout of its blocks as one rule.
- **getopt** (`Getopt`): option parsing with the permutation of `argv`; `GetoptArguments` spells out which elements are the
  arguments of which options.
- **Resizing** (`ResizeRing`): the ring buffer of rows and the two loops over it.

Classes stand for the C structures and change their fields in place; ghost functions say what the state means and methods
are proved against them. `BitStream`, `BitReversal`, `InputContext` and `Wrappers` are shared vocabulary: bits, numbers and
bytes, and the loaders' cursor through their input, which reads zeros past its end.

## Findings

Properties the code does not have, with an input and the exact condition under which it does.

| expected | where | input for which it fails | when it holds |
|---|---|---|---|
| inflating what was compressed gives it back | externals/stb/stb_image_write.h:985 | the empty input: no block is written (`ZCompress.EmptyIsNoStream`) | for every other input (`ZlibRoundTrip.RoundTrip`) |
| a sound stream is inflated | externals/stb/stb_image.h:4240-4250 | two zero bytes in a block of fixed codes, 63 60 00 00: when the last symbol is looked for the input is used up and 13 bits are left (`ZRefused.Refused`; `ZRefused.RefusedFull` has 15) | exactly when every symbol is looked for with 16 bits in the buffer or input left (`ZBuffer.DecodeMalloc`, `Guarded.Look`); always if two bytes follow the last block (`Guarded.InflatedAgrees`) |
| PNG rows get the filter with the least sum | externals/stb/stb_image_write.h:1150-1166 | a row that ends with 2^24 bytes of 128: the sum without a filter comes to -2^31 in an `int`, so the row is left as it is although differences add up to at most 512 (`PngFile.SearchFails`, for every width from 2^24 on) | for every row of less than 2^24 bytes, and the first of equals (`PngFile.SearchExact`) |
| a PNG the writer makes can be loaded | externals/stb/stb_image.h:5103-5128, 5170-5197 | an image beyond the loader's limits | exactly if width, height and chunk are within them (`PngFile.RoundTrip`) |
| the JPEG look-up table decodes as the code says | externals/stb/stb_image.h:2031-2040, 2104-2130 | one code of 8 bits and 255 of 9: number 255 is the flag for "not in the table", and symbol 255's codeword is read as symbol 254 and a bit too many (`JpegHuffman.FlagMisread`) | exactly when the symbol that comes next is not number 255 with at most 9 bits (`JpegHuffman.ReadExact`) |
| `stbi__mul2shorts_valid` tells whether a product of shorts is a short | externals/stb/stb_image.h:1076-1082 | -1 times -2 is refused, -16384 times -2 passes | unless both are negative and -a differs from 0x7FFF / -b, or b is -1 and a is -32768 (`JpegBlock.Mul2ShortsExact`) |
| the same test guards the DC coefficient, an `int` times a 16-bit unsigned dequantiser | externals/stb/stb_image.h:2224 | 65534, which two differences of 32767 add up to, passes with the dequantiser 1 and becomes -2 (`JpegBlock.DequantiserWraps`); dequantisers from 0x8000 on are taken as negative | exactly unless `DequantiserMisjudged`: a value beyond a short whose low bits pass, or a dequantiser from 0x8000 on and a value in the ranges given there (`JpegBlock.DequantiserExact`) |
| a TGA the writer makes comes back | externals/stb/stb_image_write.h:532-548 | a row of 65537 grey pixels comes back as one pixel, one of 65536 not at all (`TgaRle.TooWide`) | exactly if width and height are from 1 to 65535 and the bytes fit into an `int` (`TgaRle.RoundTrip`) |
| a GIF may go on with a full dictionary, as GIF89a Appendix F lets it | externals/stb/stb_image.h:6749-6752 | a string coded one code to an index without another clear code: entries are counted beyond the 4096 that codes can name, and the 8193rd is an error (`GifCoding.FullTable`) | exactly if no more than 8191 - 2^n codes come between two clear codes, where n is the minimum code size (`GifCoding.RoundTrip`) |
| three-colour matching picks a nearest colour | externals/stb/stb_dxt.cpp:213-224 | black between white and black gets white (`BcMatch.Match3Misses`) | exactly from the first crossover on (`BcMatch.Match3Nearest`) |
| a block of one colour gets the same colour with alpha as without | externals/stb/stb_dxt.cpp:636-642, 676-677 | red 2, whose endpoints are the first two reds, becomes red 4: they are not put in order, and index 2 is half-way instead of a third (`BcCompress.RedTwo`) | exactly if the first endpoint is the greater one, or the third and the half are the same (`BcCompress.ConstantAlike`) |
| BC6H yields finite floats | externals/bc_decoder/bc_decoder.cpp:505-520 | a block of mode 15, signed, with nothing set but the signs of its first endpoint: every float is minus infinity (`Bc6h.MinusInfinity`) | exactly if the weighted sum of the ends is at least 32 - 64 * 32768; always in other modes (`Bc6h.TexelFinite`) |
| unquantising keeps an endpoint's bits | externals/bc_decoder/bc_decoder.cpp:394-428 | the least signed endpoint of each width | for every other endpoint below 15 bits (`Bc6hColor.UnquantizedKeeps`) |
| getopt answers -1 only at the end | externals/getopt/getopt.c:296, 318, 475 | option character 255, which is -1 as a signed `char`, and a long option of value -1 (`Getopt.HeardIff`) | exactly if no answer is -1 (`Getopt.HeardIff`) |
| a reduction writes every output row | externals/stb/stb_image_resize.h:2177-2186 | a scale of one and a shift of -10: nothing reaches the first ten rows (`ResizeRing.RowsUnreached`) | exactly if the first window starts at row 0 or before and the last ends at the last row or after (`ResizeRing.AllEncoded`); always for a region of the image (`ResizeRing.Region`) |

Where comments and code disagree the model follows the code: the GIF decoder's comment says a missing starting clear code is
not supported while the code makes it an error, and its test `code == avail` after `avail` has grown is never true; the PNG
writer's remark that the last filter may be kept never applies, since its loop always ends one past the last filter; the
comment on `consumeBits` counts one bit fewer than the code reads; the TGA writer's search for the end of unequal pixels
compares each pixel with the one before the last.

## Model

| member | source | states |
|---|---|---|
| Huffman.RealizableFits | externals/stb/stb_image.h:4133-4147 | if the Kraft sum is at most 1, the canonical codes of every length fit into it |
| Huffman.FitsRealizable | externals/stb/stb_image.h:4133-4147 | and the other way round, so the over-subscription test is the Kraft inequality |
| Huffman.MatchUnique | externals/stb/stb_image.h:4221-4257 | at most one codeword stands at a position: decoding is a function |
| Huffman.CodewordDecodes | externals/stb/stb_image.h:4240-4257 | a codeword, followed by anything, decodes to its symbol |
| BitReversal.Reverses | externals/stb/stb_image.h:4105-4120 | the four swaps and the shift reverse up to sixteen bits |
| BitReversal.Bitrev | externals/stb/stb_image_write.h:849-857 | the writer's loop reverses the bits of a code |
| ZHuffmanTables.ZHuffman.Build | externals/stb/stb_image.h:4122-4167 | accepts lengths exactly when a prefix code with them exists, and then fills every table with that code |
| ZHuffmanTables.FastLookup | externals/stb/stb_image.h:4156-4162 | an entry of the fast table is the one symbol of up to nine bits that comes next, and zero says there is none |
| ZHuffmanTables.SlowMiss | externals/stb/stb_image.h:4228-4232 | a search past length 15 means that no codeword comes next |
| ZBuffer.ZBuf.FillBits | externals/stb/stb_image.h:4199-4209 | more than 24 bits are buffered, they are the next bits of the stream, and they end at a byte that depends on the position alone |
| ZBuffer.ZBuf.Zreceive | externals/stb/stb_image.h:4211-4219 | the next bits as a number, and where reading and the buffer stand after them |
| ZBuffer.ZBuf.HuffmanDecode | externals/stb/stb_image.h:4240-4257 | fast and slow path give the symbol bit-by-bit decoding gives and consume its length; it fails exactly if there is no codeword, or the input is used up with fewer than 16 bits in the buffer |
| ZBuffer.ZBuf.HuffmanDecodeSlowpath | externals/stb/stb_image.h:4221-4238 | the same for codes of more than nine bits, and failure means there is no codeword |
| ZBuffer.ZBuf.Zexpand | externals/stb/stb_image.h:4259-4279 | succeeds exactly when doubling reaches the size within 32 bits, and keeps what was written |
| ZBuffer.ZBuf.PutMatch | externals/stb/stb_image.h:4323-4333 | a match appends what copying byte by byte appends, overlapping or not |
| ZBuffer.ZBuf.ParseHuffmanBlock | externals/stb/stb_image.h:4295-4336 | succeeds exactly if every symbol can be looked for and there is room, and yields the bytes the symbols stand for |
| ZBuffer.ZBuf.ParseUncompressedBlock | externals/stb/stb_image.h:4388-4415 | a stored block yields its bytes, from the next byte boundary on |
| ZBuffer.ZBuf.ComputeHuffmanCodes | externals/stb/stb_image.h:4338-4386 | the tables are those the block's header describes, repeats included; fails exactly if there are none or a symbol cannot be looked for |
| ZBuffer.ZBuf.ParseZlibHeader | externals/stb/stb_image.h:4417-4429 | accepts exactly the headers whose checks hold |
| Deflate.HeaderOkIs | externals/stb/stb_image.h:4417-4429 | which are those that are a multiple of 31, name no dictionary and say method 8 |
| ZBuffer.ZBuf.ParseZlib | externals/stb/stb_image.h:4460-4486 | output and success are exactly those of the stream read with that guard |
| Guarded.LookAgrees | externals/stb/stb_image.h:4240-4257 | looking for a symbol is canonical decoding, save in the last sixteen bits |
| Guarded.InsideAgrees | externals/stb/stb_image.h:4295-4336 | so a compressed block is read as what it means, or refused where it ends in the last sixteen bits |
| Guarded.InflatedAgrees | externals/stb/stb_image.h:4460-4486 | whatever inflating gives the stream means, and it gives what the stream means if two bytes follow the last block |
| ZRefused.Refused | externals/stb/stb_image.h:4240-4250 | a sound stream of four bytes that is refused |
| ZRefused.RefusedFull | externals/stb/stb_image.h:4240-4250 | one of ten bytes, whose end is looked for with fifteen bits left |
| ZDynamic.FieldIs | externals/stb/stb_image.h:4338-4356 | each three-bit field of a dynamic header is the length of the symbol that has its place in the order: 16, 17, 18, 0, then outwards from 8 |
| ZDynamic.LengthsStep | externals/stb/stb_image.h:4359-4380 | 16 repeats the last length 3 to 6 times, 17 gives 3 to 10 zeros and 18 gives 11 to 138 |
| ZDynamic.HeaderRead | externals/stb/stb_image.h:4338-4386 | a header written with any two codes, any code for their lengths and any runs reads back as the two codes, exactly if they are prefix codes |
| ZDynamic.LengthFits | externals/stb/stb_image.h:4281-4293 | every length from 3 to 258 has the symbol and the extra bits the tables have for it, found by halving |
| ZDynamic.DistFits | externals/stb/stb_image.h:4281-4293 | and so has every distance from 1 to 32768 |
| ZDynamic.CopyRepeats | externals/stb/stb_image.h:4323-4333 | each byte of a match is the one its distance before it |
| ZDynamic.TokensRead | externals/stb/stb_image.h:4295-4336 | bytes and matches written with any two codes decode to what they stand for, exactly if there is room |
| ZDynamic.RoundTrip | externals/stb/stb_image.h:4460-4486 | a block with codes of its own inflates to what was written if two bytes follow it and there is room, and to nothing if there is none |
| ZDynamicSample.SampleInflates | externals/stb/stb_image.h:4338-4386 | one such stream byte by byte, with 256 codes of eight bits |
| ZBuffer.DecodeMalloc | externals/stb/stb_image.h:4498-4533 | exactly the same for output that grows by doubling |
| ZBuffer.DecodeBuffer | externals/stb/stb_image.h:4535-4544 | exactly the same for output of fixed size |
| ZWriter.FixedCodes | externals/stb/stb_image_write.h:884-888 | the constants of the macros are the canonical fixed codes |
| ZWriter.ZWriter.Add | externals/stb/stb_image_write.h:839-847 | bits are appended to those written, least significant first |
| ZWriter.ZWriter.Huff | externals/stb/stb_image_write.h:882-888 | a symbol's codeword is appended |
| Adler.Adler32 | externals/stb/stb_image_write.h:1001-1015 | reducing once per 5552 bytes gives the sums that reduce at every byte |
| Adler.PeakFits | externals/stb/stb_image_write.h:1004-1010 | no sum exceeds 32 bits before it is reduced |
| Adler.ClosedForm | externals/stb/stb_image_write.h:1001-1015 | the sums are one more than the sum of the bytes, and the sum of those sums, modulo 65521 |
| Adler.TrailerIs | externals/stb/stb_image_write.h:1011-1015 | the trailer is the second sum and the first one, high byte first |
| ZCompress.Countm | externals/stb/stb_image_write.h:859-865 | the length of the common prefix, up to the limit and 258 |
| ZCompress.FindMatch | externals/stb/stb_image_write.h:924-933 | a longest usable match of the bucket, inside the window |
| ZCompress.BetterNext | externals/stb/stb_image_write.h:941-955 | says exactly whether the next position has a longer match |
| ZCompress.Step | externals/stb/stb_image_write.h:922-971 | whatever is emitted decodes to the data up to the new position |
| ZCompress.CompressFixed | externals/stb/stb_image_write.h:911-978 | the block decodes to the data |
| ZCompress.StoreUncompressed | externals/stb/stb_image_write.h:984-999 | stored blocks decode to the data |
| ZCompress.Compress | externals/stb/stb_image_write.h:895-1020 | the output is a zlib stream for the data, whichever form was shorter |
| ZCompress.EmptyIsNoStream | externals/stb/stb_image_write.h:984-987 | for the empty input it is not |
| ZlibRoundTrip.ZlibInflates | externals/stb/stb_image.h:4460-4486 | a zlib stream for the data inflates to it exactly if there is room |
| ZlibRoundTrip.NarrowedBlocks | externals/stb/stb_image.h:4281-4336 | with less room a stream inflates to the same bytes if they fit, and to nothing if not |
| ZlibRoundTrip.RoundTrip | externals/stb/stb_image_write.h:895-1020 | inflating what was compressed gives back every non-empty input, at every quality |
| ZlibRoundTrip.RoundTripInto | externals/stb/stb_image.h:4535-4544 | the same into a buffer: it comes back if the buffer is large enough, and fails if not |
| PngFilter.RowRoundTrip | externals/stb/stb_image_write.h:1092-1126 | unfiltering undoes each of the filters, for any row above |
| PngFilter.ImageRoundTrip | externals/stb/stb_image_write.h:1146-1174 | and for images with any choice of filters |
| PngFilter.PaethNearest | externals/stb/stb_image.h:4636-4645 | the Paeth prediction is the neighbour nearest to left plus above minus corner, in that order of preference |
| PngFilter.EncodePngLine | externals/stb/stb_image_write.h:1092-1126 | a line holds the filtered row, with the special filters of the first row |
| PngFilter.DecodeRow | externals/stb/stb_image.h:4680-4752 | a row is unfiltered where it belongs, below the one above it |
| PngFilter.CreatePngImageRaw | externals/stb/stb_image.h:4650-4772 | succeeds exactly if there is enough data and every row names a filter, and then holds the unfiltered image |
| PngFile.FilterRows | externals/stb/stb_image_write.h:1146-1174 | every row is filtered, with the forced filter or the first of those whose sums are least in 32 bits |
| PngFile.SearchExact | externals/stb/stb_image_write.h:1150-1166 | in rows of less than 2^24 bytes that is the first of the filters with the least sum |
| PngFile.SearchFails | externals/stb/stb_image_write.h:1150-1166 | for every greater width there is a row that is left as it is although another filter does better |
| PngFile.WritePngToMem | externals/stb/stb_image_write.h:1128-1212 | the file is signature, header, the compressed filtered rows, and the end chunk |
| PngFile.LoadPng | externals/stb/stb_image.h:5079-5260 | a file of this form loads as its unfiltered rows, or fails at the loader's limits |
| PngFilter.FilteredDecodes | externals/stb/stb_image.h:4680-4752 | filtered rows decode to the rows, whatever follows them |
| PngFile.RoundTrip | externals/stb/stb_image_write.h:1128-1212 | loading what was written gives the image, turned over if it was written so, exactly within the loader's limits |
| PngExpand.Room | externals/stb/stb_image.h:4784-4826 | what is still to be read lies right of what is written, for 1, 2 and 4 bits |
| PngExpand.UnpackRow | externals/stb/stb_image.h:4777-4826 | every sample is read before it is overwritten |
| PngExpand.InsertColor | externals/stb/stb_image.h:4836-4843 | alpha goes into a row in place without losing a sample |
| PngExpand.ExpandRow | externals/stb/stb_image.h:4777-4845 | unpacking in place is unpacking, most significant bits first, with alpha |
| PngExpand.CreateSubByte | externals/stb/stb_image.h:4650-4845 | the image that comes out, exactly if the data suffices, names filters, and packed rows are no longer than the width |
| PngInterlace.WrittenOnce | externals/stb/stb_image.h:4875-4894 | every pixel belongs to one pass and one place in it |
| PngInterlace.Inside | externals/stb/stb_image.h:4881-4882 | the pass sizes do not underflow and count exactly the pixels inside the image |
| PngInterlace.SpreadPass | externals/stb/stb_image.h:4889-4896 | a pass puts its pixels in place and leaves those of earlier passes |
| PngInterlace.CreateInterlaced | externals/stb/stb_image.h:4862-4905 | the passes consume consecutive data, and every byte of the result is the one of its pass |
| PngPasses.PassIs | externals/stb/stb_image.h:4875-4878 | the passes are those of the table of the specification |
| PngPasses.SampleIs | externals/stb/stb_image.h:4775-4829 | a sample packed with others, the first one in the highest bits, is unpacked again |
| PngPasses.UnpackedIs | externals/stb/stb_image.h:4775-4859 | a packed row comes out as its samples, grey ones spread so that the greatest becomes 255, with alpha where it is asked for |
| PngPasses.ReductionReads | externals/stb/stb_image.h:4667-4674 | a reduced image takes one byte and the packed samples for each row: with less data there is none, and what follows does not matter |
| PngPasses.NextStart | externals/stb/stb_image.h:4884-4898 | the next pass starts exactly that much later |
| PngPasses.RoundTrip | externals/stb/stb_image.h:4862-4907 | an image written in seven passes, each filtered in any way, comes back pixel by pixel, exactly if no packed row is longer than its pass is wide |
| JpegHuffman.StbiHuffman.Build | externals/stb/stb_image.h:2001-2044 | accepts counts exactly when a prefix code with them exists and has at most 256 symbols, and fills the tables with it |
| JpegHuffman.RankSorted | externals/stb/stb_image.h:2017-2028 | with ascending lengths a symbol's index is its rank, so one offset per length finds it |
| JpegHuffman.FastLookup | externals/stb/stb_image.h:2031-2042 | an entry below 255 is the symbol that comes next, and 255 says there is no short one but perhaps 255 |
| JpegHuffman.ReadExact | externals/stb/stb_image.h:2095-2144 | reading a symbol is canonical decoding exactly when it is not 255 with a short code |
| JpegHuffman.FlagMisread | externals/stb/stb_image.h:2031-2040 | a table the header can describe, and bits that are misread |
| JpegBits.BitReader.Grow | externals/stb/stb_image.h:2073-2089 | stuffing is removed, and more than 24 bits are buffered or the data has ended |
| JpegBits.FillBytes | externals/stb/stb_image.h:2073-2089 | any number of 0xFF before a zero stand for one, and before anything else they are a marker |
| JpegBits.BitReader.HuffDecode | externals/stb/stb_image.h:2095-2144 | reads one symbol of every table, and succeeds if its bits lie in the data |
| JpegBits.BitReader.ExtendReceive | externals/stb/stb_image.h:2147-2164 | receives and extends a coefficient by rotation |
| JpegBlock.Mul2ShortsExact | externals/stb/stb_image.h:1076-1082 | the overflow test is right exactly unless the factors are both negative and not at the quotient |
| JpegBlock.AddIntsExact | externals/stb/stb_image.h:1068-1073 | the overflow test of two ints is right |
| JpegBlock.DequantiserExact | externals/stb/stb_image.h:2224-2225 | the test before the DC coefficient is stored, for every `int` and every 16-bit dequantiser: exactly when it is right |
| JpegBlock.DequantiserWraps | externals/stb/stb_image.h:2219-2225 | two blocks whose DC values pass, and the second one's coefficient that is wrong |
| JpegBlock.BuildFastAc | externals/stb/stb_image.h:2048-2071 | every entry is zero, or the symbol, run and coefficient its nine bits hold; every coefficient that fits has one |
| JpegBlock.FastRefines | externals/stb/stb_image.h:2231-2243 | one look-up is what decoding the symbol and receiving its coefficient would be |
| JpegBlock.DecodeBlock | externals/stb/stb_image.h:2208-2261 | a block is decoded as its bits say, with any table, unless the data ends before the bits it asks for |
| JpegBlock.ZigzagWalk | externals/stb/stb_image.h:2192-2205 | the stream of coefficients walks along the diagonals from the corner |
| JpegBlock.BlockScaled | externals/stb/stb_image.h:2208-2265 | a block with dequantisers is the block without them, each coefficient times the one of its place, if the test of the DC product passes |
| JpegBlock.DecodeBothWays | externals/stb/stb_image.h:2208-2261 | with and without the combined table two decoders end alike on every block, sound or corrupt, that the data holds |
| JpegWriter.CalcBits | externals/stb/stb_image_write.h:1318-1326 | the size of a coefficient and its low bits |
| JpegWriter.ExtendLow | externals/stb/stb_image.h:2151-2164 | extending those bits gives the coefficient back |
| JpegWriter.JpegWriter.WriteBits | externals/stb/stb_image_write.h:1253-1268 | bits are appended, and 0xFF bytes are followed by zero |
| JpegWriter.ProcessDU | externals/stb/stb_image_write.h:1355-1396 | the DC difference, runs, sizes and coefficients are appended, with ZRL and EOB where they belong |
| JpegRoundTrip.ZigzagInverse | externals/stb/stb_image_write.h:1250-1251 | the two zigzag tables are inverse to one another |
| JpegRoundTrip.UnstuffedStuffed | externals/stb/stb_image.h:2076-2086 | removing stuffed bytes gives the data back |
| JpegRoundTrip.AcDecodes | externals/stb/stb_image.h:2227-2259 | the bits of the AC coefficients decode to them |
| JpegRoundTrip.BlockDecodes | externals/stb/stb_image.h:2208-2261 | the bits of a block decode to the block |
| JpegRoundTrip.RoundTrip | externals/stb/stb_image_write.h:1328-1396 | a scan of blocks of up to three interleaved components, reordered, coded, stuffed and closed by EOI, decodes to the blocks, for any tables that cover them |
| JpegStdTables.CanonicalHas | externals/stb/stb_image_write.h:1400-1474 | an entry that agrees with the counts is the codeword the decoder builds |
| JpegStdTables.LuminanceFits | externals/stb/stb_image_write.h:1400-1454 | the luminance tables are canonical and cover categories up to 11 and 10 |
| JpegStdTables.ChrominanceFits | externals/stb/stb_image_write.h:1413-1474 | the chrominance tables as well |
| JpegStdTables.ScanRoundTrip | externals/stb/stb_image_write.h:1328-1396 | with the writer's own tables every scan of DC differences up to 11 and AC coefficients up to 10 bits comes back, of one component or several |
| JpegStdTables.InterleavedRoundTrip | externals/stb/stb_image_write.h:1550-1602 | and so does that of a colour image, with three predictors and two pairs of tables, its chroma subsampled or not |
| GifRaster.Raster.Plot | externals/stb/stb_image.h:6660-6687 | an index is painted at the cursor, and the cursor moves on |
| GifRaster.Raster.EachPixelOnce | externals/stb/stb_image.h:6676-6687 | the cursor visits no pixel twice and, once done, has visited all, interlaced or not |
| GifRaster.Raster.PixelShown | externals/stb/stb_image.h:6653-6687 | every pixel shows the index at its own place in the data, in the order of the passes, with red and blue exchanged, unless that colour is nearly transparent or the data is shorter |
| GifRaster.PaintAt | externals/stb/stb_image.h:6667-6673 | a pixel shows the one index that was painted on it, or what was there |
| GifLzw.Gif.OutGifCode | externals/stb/stb_image.h:6653-6658 | the linked prefixes of a code are emitted as its string |
| GifLzw.Gif.AddEntry | externals/stb/stb_image.h:6748-6758 | a new entry is the previous string and one byte, also when it is the code itself |
| GifLzw.Gif.ProcessGifRaster | externals/stb/stb_image.h:6690-6773 | emits what decoding with a dictionary of strings emits, or fails where that does |
| GifCoding.CodeDecodes | externals/stb/stb_image.h:6734-6768 | the decoder learns what an encoder learned one code earlier, and code lengths grow with the codes that may come |
| GifCoding.RoundTrip | externals/stb/stb_image.h:6690-6773 | whatever codes an encoder chose and wherever it cleared its dictionary, the text comes back, exactly if there are no more codes between two clear codes than the table has room for |
| GifCoding.GreedyRoundTrip | externals/stb/stb_image.h:6690-6773 | so every text comes back that is coded by taking the longest string each time |
| GifCoding.FullTable | externals/stb/stb_image.h:6748-6752 | and a coding that goes on with a full dictionary does not |
| GifCoding.SubBlocksRead | externals/stb/stb_image.h:6717-6726 | sub-blocks are put together up to the empty one |
| TgaRle.NextPacket | externals/stb/stb_image_write.h:558-590 | packets have 1 to 128 pixels inside the row, and runs are runs |
| TgaRle.WriteRow | externals/stb/stb_image_write.h:555-602 | the packets cover the row and stand for it |
| TgaRle.ReadPixels | externals/stb/stb_image.h:5968-6024 | any packets are read as what they stand for, across rows and past the end of the data |
| TgaRle.InvertRows | externals/stb/stb_image.h:6025-6041 | the image is turned over in place |
| TgaRle.SwapColors | externals/stb/stb_image.h:6050-6061 | red and blue change places, pixel by pixel |
| TgaRle.RoundTrip | externals/stb/stb_image_write.h:532-609 | a written image loads as it was, or turned over if it was written so, exactly if its sizes are from 1 to 65535 and its bytes fit into an `int` |
| TgaRle.Test | externals/stb/stb_image.h:5819-5848 | which files are taken for TGA images |
| TgaRle.TooWide | externals/stb/stb_image_write.h:532-548 | images whose width does not fit into two bytes |
| HdrRle.WritePlane | externals/stb/stb_image_write.h:722-757 | dumps and runs stand for the component |
| HdrRle.ReadPlane | externals/stb/stb_image.h:7258-7276 | any code is expanded as it says, and refused exactly when a count is zero or too large |
| HdrRle.ReadScanline | externals/stb/stb_image.h:7230-7279 | a coded scanline is read back and nothing after it |
| HdrRle.RoundTrip | externals/stb/stb_image_write.h:671-759 | an image of RGBE pixels, flat or coded, comes back exactly if it has pixels and is within the loader's limits |
| HdrRle.SizesValidIs | externals/stb/stb_image.h:1037-1042 | the overflow checks in steps come to one on the whole product |
| BcTexture.Apart | externals/bc_decoder/bc_decoder.cpp:33-39 | no byte of the destination belongs to two texels |
| BcChannel.Decode | externals/bc_decoder/bc_decoder.cpp:111-145 | the texels inside the texture get the values of the block, and nothing else changes |
| BcChannel.PaletteSteps | externals/bc_decoder/bc_decoder.cpp:111-145 | the values between the endpoints are sevenths or fifths of the way, and the other two the ends of the range |
| BcChannel.Nearest | externals/stb/stb_dxt.cpp:709-737 | the biased quotient is the nearest of the eight steps |
| BcChannel.Bounded | externals/stb/stb_dxt.cpp:709-737 | and is exact for ranges up to 7 and within (range + 7) / 14 beyond |
| BcChannel.PickIndex | externals/stb/stb_dxt.cpp:721-731 | the branch-free comparisons compute that quotient's index |
| BcChannel.CompressAlphaBlock | externals/stb/stb_dxt.cpp:690-745 | the block holds the extremes and a nearest index for each alpha |
| BcChannel.PickedApproximates | externals/stb/stb_dxt.cpp:709-737 | the decoder's value for a picked index is nearest and within the bound |
| BcColor.ExtractIs | externals/bc_decoder/bc_decoder.cpp:49-53 | the decoder widens 565 colours as the compressor does |
| BcColor.Colors | externals/bc_decoder/bc_decoder.cpp:19-31 | the decoder's four colours are the palette the compressor assumed |
| BcColor.Decode | externals/bc_decoder/bc_decoder.cpp:19-40 | the texels inside the texture get the colours of the block, and nothing else changes |
| BcMatch.Match4Nearest | externals/stb/stb_dxt.cpp:152-192 | the chosen stop is nearest on the axis of the endpoints |
| BcMatch.Match3Nearest | externals/stb/stb_dxt.cpp:194-226 | with three colours exactly from the first crossover on |
| BcMatch.Match3Misses | externals/stb/stb_dxt.cpp:213-224 | a texel and endpoints for which it is not |
| BcMatch.MatchColorsBlock | externals/stb/stb_dxt.cpp:152-192 | the mask holds those indices in texel order |
| BcMatch.MatchColorsAlphaBlock | externals/stb/stb_dxt.cpp:194-226 | and index 3 exactly where alpha is zero |
| BcMatch.FlipKeeps | externals/stb/stb_dxt.cpp:236-244 | exchanging the endpoints and flipping an index keeps its colour |
| BcMatch.FinalizeColors | externals/stb/stb_dxt.cpp:236-244 | the exclusive or with 0x55555555 flips every index |
| BcMatch.Mul8BitRounds | externals/stb/stb_dxt.cpp:82-85 | the division by 255 is rounded |
| BcMatch.As16Close | externals/stb/stb_dxt.cpp:87-102 | cutting a colour down to 565 and widening it moves no channel by more than 4, green by no more than 2 |
| BcMatch.OptimizeColorsBlock | externals/stb/stb_dxt.cpp:331-350 | the endpoints are texels that are extreme along the axis |
| BcMatch.OptimizeColorsAlphaBlock | externals/stb/stb_dxt.cpp:447-490 | the same among visible texels, with endpoints that differ |
| BcRefine.Accumulate | externals/stb/stb_dxt.cpp:565-590 | the packed accumulator holds the sums of the least-squares system |
| BcRefine.Determinant | externals/stb/stb_dxt.cpp:592 | the system is singular exactly when all indices are equal |
| BcRefine.SameTestIs | externals/stb/stb_dxt.cpp:545 | the test on the mask says exactly that |
| BcRefine.WeightsAre | externals/stb/stb_dxt.cpp:529-530 | the weights are the shares of the first endpoint in the four colours the decoder shows |
| BcCompress.RefineBlock | externals/stb/stb_dxt.cpp:527-614 | the refined endpoints, in ascending order, and exactly whether they differ from the old ones |
| BcCompress.MeanNearest | externals/stb/stb_dxt.cpp:545-557 | blocks of one index are refined by the rounded mean colour |
| BcCompress.CompressColorBlock | externals/stb/stb_dxt.cpp:617-687 | what the decoder makes of the block, whatever the floating-point steps come up with, with alpha and without |
| BcCompress.ConstantAlike | externals/stb/stb_dxt.cpp:636-642 | when a constant block gets the same colour with alpha as without |
| BcCompress.RedTwo | externals/stb/stb_dxt.cpp:636-642 | and one that does not |
| Bc3.RoundTripBc1 | externals/stb/stb_dxt.cpp:747-749 | without alpha no texel is transparent and each has a nearest colour; with alpha exactly those of alpha zero are transparent and the others have the colour matched among three, or that of a constant block |
| Bc3.RoundTripBc3 | externals/stb/stb_dxt.cpp:751-765 | alpha is exact for ranges up to 7 and within the bound beyond; colours are nearest |
| Bc6hData.Data.ConsumeBits | externals/bc_decoder/bc_decoder.cpp:443-472 | consecutive slices of the 128 bits, reversed where the field says so |
| Bc6hModes.ModeIndexed | externals/bc_decoder/bc_decoder.cpp:594-608 | a mode number leads to its description, exactly if there is one |
| Bc6hModes.Once | externals/bc_decoder/bc_decoder.cpp:630-794 | in every mode each bit of each endpoint and of the partition is filled by exactly one field |
| Bc6hModes.Apart | externals/bc_decoder/bc_decoder.cpp:630-794 | no bit of the block serves twice |
| Bc6hModes.HeaderBits | externals/bc_decoder/bc_decoder.cpp:630-794 | mode and fields take 65 or 82 bits |
| Bc6hModes.StoredIs | externals/bc_decoder/bc_decoder.cpp:829-859 | what the fields add up to is the number whose bits stand at those places |
| Bc6hLayout.Layout | externals/bc_decoder/bc_decoder.cpp:630-794 | in every mode every bit of an endpoint and of the partition stands where one rule and a table of the few scattered bits have it |
| Bc6hLayout.StoredAt | externals/bc_decoder/bc_decoder.cpp:829-859 | so a channel of an endpoint is the number whose bits are read there |
| Bc6h.WholeBlock | externals/bc_decoder/bc_decoder.cpp:800-918 | mode, fields and indices are 128 bits in every mode |
| Bc6h.EndpointRange | externals/bc_decoder/bc_decoder.cpp:357-369 | endpoints keep the width of the base |
| Bc6h.EndpointBack | externals/bc_decoder/bc_decoder.cpp:357-369 | an endpoint written as it is, or as its difference from the first one, comes back, whatever its sign |
| Bc6hColor.UnquantizedKeeps | externals/bc_decoder/bc_decoder.cpp:379-428 | a scaled endpoint starts with the endpoint's bits, and never is -32768 |
| Bc6hColor.UnquantizedMiddle | externals/bc_decoder/bc_decoder.cpp:379-428 | and is the middle of the values that start with them |
| Bc6hColor.UnquantizedEnds | externals/bc_decoder/bc_decoder.cpp:379-428 | zero and the greatest endpoint become zero and the greatest value |
| Bc6hColor.InterpolatedNearest | externals/bc_decoder/bc_decoder.cpp:494-505 | blends are rounded to the nearest |
| Bc6hColor.HalfScaled | externals/bc_decoder/bc_decoder.cpp:507-520 | scaling is by 31/64, or by 31/32 of the magnitude, rounded down |
| Bc6hColor.HalfFinite | externals/bc_decoder/bc_decoder.cpp:507-520 | the scaled value is a finite half exactly if it was not -32768 |
| Bc6h.TexelFinite | externals/bc_decoder/bc_decoder.cpp:481-524 | exactly which texels are finite |
| Bc6h.MinusInfinity | externals/bc_decoder/bc_decoder.cpp:505-520 | a block all of whose texels are minus infinity |
| Bc6h.TexelBetween | externals/bc_decoder/bc_decoder.cpp:481-524 | a texel lies between what its two ends decode to |
| Bc6h.WeightNearest | externals/bc_decoder/bc_decoder.cpp:482-492 | weights are the 64ths nearest to equal steps |
| Bc6h.EndTexels | externals/bc_decoder/bc_decoder.cpp:481-505 | the first index shows the first endpoint of the texel's subset and the last one the second |
| Bc6h.SubsetIs | externals/bc_decoder/bc_decoder.cpp:884-903 | the subset is what the block's partition says of the texel |
| Bc6h.PartitionMask | externals/bc_decoder/bc_decoder.cpp:178-244 | the partitions are those of the format, as masks |
| Bc6h.AnchorsInside | externals/bc_decoder/bc_decoder.cpp:245-254 | the texels with a shorter index are one of each subset |
| Bc6hDecode.InterpolateChannel | externals/bc_decoder/bc_decoder.cpp:494-522 | the 32-bit arithmetic does not wrap and gives the half of the blend |
| Bc6hDecode.ReadEndpoints | externals/bc_decoder/bc_decoder.cpp:823-881 | fields, sign extension, differences and scaling give the endpoints of the block |
| Bc6hDecode.Blend | externals/bc_decoder/bc_decoder.cpp:884-916 | all indices are read, 128 bits in all, and texels inside the texture get their blends |
| Bc6hDecode.Decode | externals/bc_decoder/bc_decoder.cpp:800-918 | the texture shows the block, black for illegal modes, and nothing else changes |
| Bc6hDecode.TexelBytes | externals/bc_decoder/bc_decoder.cpp:909-916 | a texel is stored as red, green, blue and an alpha of one, low bytes first |
| Getopt.Exchange | externals/getopt/getopt.c:72-107 | the two stretches change places, each in its order |
| Getopt.GetoptData.PermuteStep | externals/getopt/getopt.c:152-161 | non-options are moved behind the options scanned so far |
| Getopt.GetoptData.NextElement | externals/getopt/getopt.c:146-186 | the next element to scan, or the end with argv partitioned |
| Getopt.GetoptData.FindLong | externals/getopt/getopt.c:201-246 | the loop over the entries finds what the name stands for |
| Getopt.FoundIff | externals/getopt/getopt.c:203-225 | which entry a name or an abbreviation finds, and exactly when it is ambiguous |
| Getopt.GetoptData.LongStep | externals/getopt/getopt.c:187-316 | a long option takes its element, and the next one exactly if it needs an argument of its own; the code, argument and index it answers |
| Getopt.GetoptData.LongFound | externals/getopt/getopt.c:247-297 | the answer of an entry, and the flag it sets |
| Getopt.GetoptData.ShortStep | externals/getopt/getopt.c:317-475 | a short option takes a character, the rest of the element, or the next element; the code and argument it answers |
| Getopt.GetoptData.Getopt | externals/getopt/getopt.c:129-477 | one call gives the next of the answers the elements stand for, keeps the partition of what was scanned, and moves on |
| Getopt.Run | externals/getopt/getopt.c:129-477 | calling until -1 gives exactly the answers the elements stand for, in every order; in the default one options and their arguments end up before optind and the rest behind, in the others argv stays |
| Getopt.HeardIff | externals/getopt/getopt.c:317-475 | all answers are heard exactly if none is -1 |
| Getopt.PartitionConserves | externals/getopt/getopt.c:72-107 | nothing is lost or made up |
| Getopt.PartitionInOrder | externals/getopt/getopt.c:72-107 | both parts keep their order |
| Getopt.LeftBehind | externals/getopt/getopt.c:158-160 | without "--" only non-options are left behind |
| GetoptArguments.TakesIff | externals/getopt/getopt.c:317-475 | an element takes the next one exactly if its last answer holds whatever that one is, and otherwise its answers do not depend on it |
| GetoptArguments.ShortArgument | externals/getopt/getopt.c:438-475 | a required argument is the rest of its element or the element after it, which moves along and is no operand; an optional one is never the element after it |
| GetoptArguments.ShortFlags | externals/getopt/getopt.c:317-334 | options without arguments, several to an element, and undeclared characters take no other element |
| GetoptArguments.LongArgument | externals/getopt/getopt.c:187-297 | a long option by its name or an abbreviation, after two dashes or one, alone or before a value: what it answers and takes up |
| GetoptArguments.LongRefused | externals/getopt/getopt.c:227-316 | a name that stands for no entry is answered by a question mark |
| GetoptArguments.Operand | externals/getopt/getopt.c:158-184 | what becomes of an element that is no option, in each order |
| GetoptArguments.DashDash | externals/getopt/getopt.c:162-172 | "--" ends the options |
| GetoptArguments.Orders | externals/getopt/getopt.c:113-126 | the order is what the option string starts with, or what the environment asks for |
| Getopt.ExactWins | externals/getopt/getopt.c:206-212 | an exact name is found whatever else it abbreviates |
| Getopt.AbsentIff | externals/getopt/getopt.c:203-225 | a name is unknown exactly if it abbreviates no option |
| ResizeRing.RingBuffer.AddEmpty | externals/stb/stb_image_resize.h:1425-1447 | a cleared slot for the next row, and every live row stays |
| ResizeRing.RingBuffer.Pop | externals/stb/stb_image_resize.h:2087-2103 | the first row goes, the others stay |
| ResizeRing.UpWindow | externals/stb/stb_image_resize.h:1009-1021 | the rows an output row needs fit into the buffer and never move back |
| ResizeRing.DownWindow | externals/stb/stb_image_resize.h:1024-1036 | the same for the rows an input row contributes to, without gaps |
| ResizeRing.DownEnds | externals/stb/stb_image_resize.h:1024-1036 | when a part of the image is mapped, the first and the last input row reach the first and the last output row |
| ResizeRing.UpMembers | externals/stb/stb_image_resize.h:1009-1021 | the input rows of an output row are exactly those whose centres are within the support of its own |
| ResizeRing.DownMembers | externals/stb/stb_image_resize.h:1024-1036 | the output rows of an input row the same |
| ResizeRing.MarginCovers | externals/stb/stb_image_resize.h:883-898 | rows beyond the margin reach nothing |
| ResizeRing.BufferLoopUpsample | externals/stb/stb_image_resize.h:2067-2118 | every output row is the direct sum over its input rows |
| ResizeRing.EmptyRing | externals/stb/stb_image_resize.h:2120-2162 | rows that are no longer needed are encoded, finished and in order |
| ResizeRing.BufferLoopDownsample | externals/stb/stb_image_resize.h:2165-2204 | the output rows some window reaches are encoded once, in order, as the direct sum over all input rows, whatever the shift |
| ResizeRing.AllEncoded | externals/stb/stb_image_resize.h:2165-2204 | exactly when no output row is missing |
| ResizeRing.Region | externals/stb/stb_image_resize.h:2229-2236 | none is when a region of the image is mapped |
| ResizeRing.RowsUnreached | externals/stb/stb_image_resize.h:2221-2227 | a shift for which rows are |
| ResizeRing.EncodedAt | externals/stb/stb_image_resize.h:2165-2204 | the encoded row `k` is output row `k` |
| ResizeRing.DownsampledAt | externals/stb/stb_image_resize.h:2165-2204 | each number of that row is the sum of those of the input rows that contribute, times their coefficients |
| ResizeRing.UpsampledAt | externals/stb/stb_image_resize.h:2067-2118 | and so for enlargements |

## Left out

- Allocation failure, failure messages, file and callback input and output, SIMD variants, and integer overflow of sizes beyond what the loaders limit. Memory is allocated successfully.
- PNG checksums: a checksum is any function of the chunk, and the loader does not look at it, as in the source.
- PNG: palettes, transparency chunks, CgBI, 16-bit samples, and conversion to another number of channels; the loader answers `Unmodelled` for them. `PngExpand` and `PngInterlace` start from inflated data.
- ZBuffer.DecodeMalloc: asks for at least one byte of room to start from, because doubling nothing never ends, and at most 32-bit sizes.
- JPEG: the transform, quantisation, colour conversion, file headers, restart intervals and progressive scans. Dequantisation with other than ones is part of `JpegBlock` only. Assertions of the source are not modelled.
- JpegWriter.ProcessDU: starts from quantised coefficients.
- JpegBits.BitReader.HuffDecode: of bits past the end of the data it says only that they were asked for.
- JpegBits.BitReader.ExtendReceive: likewise.
- JpegBlock.DecodeBlock: of data that ends inside a block it says only that the block asks for bits past the end.
- JpegBlock.DecodeBothWays: of such data it says nothing.
- GIF: headers, colour tables, disposal and the background; `GifRaster` starts from the frame the header sets up.
- PngFilter.CreatePngImageRaw: is about 8-bit samples with as many components as the file has; other depths are in `PngExpand`.
- PngFile.LoadPng: is about files of the writer's form.
- HdrRle.ReadScanline: is about scanlines the writer made; `HdrRle.ReadPlane` takes any code.
- TGA: palettes, 15- and 16-bit colours and files that are not run-length encoded; the loader answers `Unmodelled`.
- HDR: conversion between floats and RGBE, text headers, and old files without coded scanlines.
- BC: the search for the axis, the least-squares solution and the table of single colours are arbitrary functions, `Floats`. The floating-point pre-test of `stb__OptimizeColorsAlphaBlock` is part of that search.
- BC2, BC4, BC5 and BC7 decoding.
- BC6H: the second half of the partition table, which a five-bit number cannot reach.
- getopt: "W;" in the option string, error messages, and the copy for wide characters.
- ResizeRing: floats are reals; filter coefficients, the horizontal pass and encoding are arbitrary functions. A slot of the ring is one array element.
- PSD, PIC, PNM and BMP images, user interface and audio code.
