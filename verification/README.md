# Verified models of encoders, thread pool and controllers

A Dafny model of the parts of the repository that compute something intricate, and proofs about them:

* The image encoders of the Linux thumbnailer. `Inflate`, `Matcher`, `ZlibWriter`, `TokenCode` and `Zlib` are the zlib
  compressor (LZ77 with hash buckets and lazy matching, fixed Huffman codes, stored blocks, Adler-32) against a
  decoder of RFC 1950 and RFC 1951; `TokenStream` tells which tokens it chooses, without the hash table. `Crc`,
  `PngFilter`, `Png` and `PngFile` are the PNG writer against a decoder of RFC 2083. `JpegBits`, `JpegTables` and
  `JpegEntropy` are the JPEG entropy coder against the decoder of ITU-T T.81, F.2.2. `HdrRle` and
  `TgaRle` are the two run-length coders, `WriteContext` their output buffer.
* `ThreadPool`: the thread pool and its always multi-threaded twin, as a protocol of workers, clients and destructor;
  `PoolLiveness`: its infinite runs, on which every task is finished in the end.
* `Base64`: encoder and decoder.
* `ProgressiveLod`: the level-of-detail controller of the Windows preview.
* `SimplexWalk` and `RunningStat`: lattice walk of the simplex noise, and running statistics, over exact reals.

Each encoder is written as the source has it, with its loops, buffers and counters, as methods that are proved to
produce a specified form; lemmas prove that an independently written decoder undoes that form. `Bits` holds bytes,
bit strings and what all modules share. `dafny verify dfyconfig.toml` checks everything.

Results a reader may not expect:

* For no data at all the compressor writes a zlib stream without a block, which does not inflate. The fixed block
  takes two bytes more than the header, which is over the limit, and the stored form then has no block.
  `Zlib.Compress` states the round trip as an if-and-only-if in the length.
* A comment in the PNG writer says that the last filter tried is not redone when it is the best. It always is, since
  the loop leaves `filter_type` at 5. The result is the same.
* The raw-packet scan of the TGA coder compares a pixel with the one two before it. Rows still round-trip, but a row
  that alternates between two pixels takes one packet per pixel (`TgaRle.AlternatingIsWorst`).
* The Base64 table is unsigned, so looking up a foreign character gives 255 and the tests for -1 never hold. The
  decoder accepts foreign characters (`Base64.ForeignAccepted`); which texts it accepts is `Base64.ValidIff`.
* Behind a first pad that is not followed by the second one it needs, the Base64 decoder
  has moved its cursor and not its count. `Base64.Base64Decode` tells exactly for which texts it then reads a character
  behind the text; these are rejected anyway (`Base64.PastIsRejected`).
* A pool without threads joins without running its tasks (`ThreadPool.JoinedMeansDone`).
* The preview does not refine again when its target changes after refinement has ended
  (`ProgressiveLod.BetterTargetIgnored`); `ProgressiveLod.NewTargetShown` says when a new target is shown.
* The preview looks only for the coarsest level there is. It can ask for a level that is not there: for one between
  the coarsest and the target, also when the target is automatic, or for a user target that is coarser than any.
  `ProgressiveLod.AlwaysThereIff` states exactly when every level asked for is there, and
  `ProgressiveLod.MinusOneIff` when level -1 is asked for.
* The statistics loop of the thumbnailer starts its count at one, so it averages in a zero
  (`RunningStat.MeanIsPulledToZero`); from 2^32 - 1 values on it does not end (`RunningStat.CounterEndsLoop`).

## Model

| member | source | states |
|---|---|---|
| Matcher.CountMatch | examples/LinuxVDSThumbnailer/stb_image_write.hpp:859-865 | counts exactly the bytes that agree: all before the count do, the one at it does not, unless the count is 258 or the data ends |
| Matcher.MatchLengthIs | examples/LinuxVDSThumbnailer/stb_image_write.hpp:859-865 | the bytes before it agree, and it ends at 258, at the end of the data or where two bytes differ |
| Matcher.HashValues | examples/LinuxVDSThumbnailer/stb_image_write.hpp:867-877 | the hash of one bit in each byte, of all bits and of "abc" |
| Matcher.BucketOfAbc | examples/LinuxVDSThumbnailer/stb_image_write.hpp:924 | the bucket is the low fourteen bits of the hash |
| Matcher.EmptyTableIsGood | examples/LinuxVDSThumbnailer/stb_image_write.hpp:918-919 | with all buckets empty the bucket invariant holds at position 0 |
| Matcher.InsertKeepsTable | examples/LinuxVDSThumbnailer/stb_image_write.hpp:934-939 | halving a full bucket in place and pushing the position keeps, in every bucket, strictly increasing earlier positions with that hash, at most 2 * quality of them |
| Matcher.BestIsLongest | examples/LinuxVDSThumbnailer/stb_image_write.hpp:926-933 | a match is found exactly if the bucket offers one of length 3 or more inside the window; it is in the bucket and no other is longer |
| Matcher.BestIsNearest | examples/LinuxVDSThumbnailer/stb_image_write.hpp:931 | of equally long matches the nearest is taken |
| Matcher.FindBest | examples/LinuxVDSThumbnailer/stb_image_write.hpp:924-933 | the loop over the bucket returns that match |
| Matcher.CheckNext | examples/LinuxVDSThumbnailer/stb_image_write.hpp:941-955 | the lazy check answers whether any bucket entry gives the next position a strictly longer match |
| Matcher.ChoiceReproduces | examples/LinuxVDSThumbnailer/stb_image_write.hpp:922-970 | the token chosen by hash chain and lazy check reproduces the data: length 3 to 258, distance 1 to 32767, inside the data, self-overlap included |
| Matcher.ChoiceIs | examples/LinuxVDSThumbnailer/stb_image_write.hpp:922-970 | exactly when a copy is chosen and which: the nearest of the longest matches of at least three bytes, at most 32767 back, that the bucket offers, unless an entry of the next bucket has a longer match at the next position |
| Matcher.StepIsGood | examples/LinuxVDSThumbnailer/stb_image_write.hpp:922-971 | a step moves forward inside the data and the buckets are good again at the position behind the token |
| Matcher.Step | examples/LinuxVDSThumbnailer/stb_image_write.hpp:922-970 | one pass of the loop over the mutable table returns the token that the buckets before and behind it call for, and leaves the table with the position inserted |
| Matcher.LiteralsCover | examples/LinuxVDSThumbnailer/stb_image_write.hpp:972-974 | the literals at the end cover the rest of the data |
| Matcher.TokensCover | examples/LinuxVDSThumbnailer/stb_image_write.hpp:921-974 | whatever the buckets hold, the tokens of the whole loop cover the data from the current position to its end |
| TokenStream.InsertedIsRecent | examples/LinuxVDSThumbnailer/stb_image_write.hpp:934-939 | what halving leaves in a bucket is exactly the newest of all positions put into it, as many as a closed formula says |
| TokenStream.InsertRemembers | examples/LinuxVDSThumbnailer/stb_image_write.hpp:922-939 | so every bucket holds the newest of the positions with its hash |
| TokenStream.EveryTokenIs | examples/LinuxVDSThumbnailer/stb_image_write.hpp:921-974 | for every data and quality, each token of the whole compression is the one its position calls for, told by the positions of the tokens before it, without a table |
| TokenStream.EqualBytes | examples/LinuxVDSThumbnailer/stb_image_write.hpp:921-974 | n equal bytes become one literal and copies of 258 bytes each, the last one of what is left |
| TokenStream.ThousandZeros | examples/LinuxVDSThumbnailer/stb_image_write.hpp:921-974 | for example a thousand zeros: a literal and copies of 258, 258, 258 and 225 bytes |
| ZlibWriter.OrAboveIsAdd | examples/LinuxVDSThumbnailer/stb_image_write.hpp:880-881 | in 32 bits, or-ing a code above the bits in use is an addition without loss, which is how the buffer is modelled |
| ZlibWriter.BitReverse | examples/LinuxVDSThumbnailer/stb_image_write.hpp:849-857 | the result, sent least significant bit first, is the code most significant bit first |
| ZlibWriter.Writer.constructor | examples/LinuxVDSThumbnailer/stb_image_write.hpp:905-907 | starts with no bytes and no bits |
| ZlibWriter.Writer.Grow | examples/LinuxVDSThumbnailer/stb_image_write.hpp:818-837 | growing keeps the contents, doubles the capacity and adds one, and so leaves room for one more byte and one to spare |
| ZlibWriter.Writer.Push | examples/LinuxVDSThumbnailer/stb_image_write.hpp:818-822 | appends one byte inside the capacity, keeping all others |
| ZlibWriter.Writer.Flush | examples/LinuxVDSThumbnailer/stb_image_write.hpp:839-847 | moves whole bytes out of the bit buffer: fewer than 8 bits stay and the bit stream is unchanged |
| ZlibWriter.Writer.Add | examples/LinuxVDSThumbnailer/stb_image_write.hpp:880-881 | appends exactly the low bits of the code to the bit stream; the buffer stays inside 32 bits |
| ZlibWriter.Writer.HuffAdd | examples/LinuxVDSThumbnailer/stb_image_write.hpp:882 | appends the code most significant bit first |
| ZlibWriter.Writer.Huff | examples/LinuxVDSThumbnailer/stb_image_write.hpp:884-888 | appends the fixed Huffman code of the symbol |
| ZlibWriter.Writer.HuffLiteral | examples/LinuxVDSThumbnailer/stb_image_write.hpp:889 | appends the fixed Huffman code of a literal byte |
| ZlibWriter.Writer.Pad | examples/LinuxVDSThumbnailer/stb_image_write.hpp:976-978 | adds fewer than 8 zero bits and ends on a byte boundary |
| ZlibWriter.Writer.Truncate | examples/LinuxVDSThumbnailer/stb_image_write.hpp:986 | keeps exactly the first bytes |
| ZlibWriter.Writer.CopyUnchecked | examples/LinuxVDSThumbnailer/stb_image_write.hpp:995-996 | the copy without a capacity check appends the bytes, given the room its caller proves |
| TokenCode.FindLength | examples/LinuxVDSThumbnailer/stb_image_write.hpp:960 | the search ends at the one range that holds the length |
| TokenCode.FindDist | examples/LinuxVDSThumbnailer/stb_image_write.hpp:963 | the search ends at the one range that holds the distance |
| TokenCode.LengthRangesAreDisjoint | examples/LinuxVDSThumbnailer/stb_image_write.hpp:901 | a length is in one range only |
| TokenCode.DistRangesAreDisjoint | examples/LinuxVDSThumbnailer/stb_image_write.hpp:903 | a distance is in one range only |
| TokenCode.LengthExtraFits | examples/LinuxVDSThumbnailer/stb_image_write.hpp:901-902 | the extra bits of a length range hold every offset in it |
| TokenCode.DistExtraFits | examples/LinuxVDSThumbnailer/stb_image_write.hpp:903-904 | the extra bits of a distance range hold every offset in it |
| TokenCode.TablesAgree | examples/LinuxVDSThumbnailer/stb_image_write.hpp:901-904 | the four tables are those of RFC 1951, section 3.2.5 |
| TokenCode.SymbolOf | examples/LinuxVDSThumbnailer/stb_image_write.hpp:884-888 | a decoder of the fixed code (RFC 1951, section 3.2.6) reads every symbol back, and no prefix of it as another |
| TokenCode.LengthDistanceOf | examples/LinuxVDSThumbnailer/stb_image_write.hpp:960-965 | the bits of any length and distance are read back as that pair |
| TokenCode.CodesOfToken | examples/LinuxVDSThumbnailer/stb_image_write.hpp:957-970 | decoding the bits of a token has the effect of the token, whatever follows |
| TokenCode.CopyContinues | examples/LinuxVDSThumbnailer/stb_image_write.hpp:957-966 | a byte-by-byte copy from the distance back continues the data, overlapping or not |
| TokenCode.CodesOfCover | examples/LinuxVDSThumbnailer/stb_image_write.hpp:921-975 | decoding the bits of tokens that cover the data, up to end of block, gives the data |
| Zlib.SumBlock | examples/LinuxVDSThumbnailer/stb_image_write.hpp:1007 | 5552 bytes without reducing stay within 32 bits and are right modulo 65521 |
| Zlib.Adler32 | examples/LinuxVDSThumbnailer/stb_image_write.hpp:1003-1011 | the blockwise sums equal the per-byte definition of RFC 1950, section 8.2, also with an empty first block |
| Zlib.StoredLength | examples/LinuxVDSThumbnailer/stb_image_write.hpp:985-998 | stored blocks cost five bytes per block of 32767 begun |
| Zlib.LimitIs | examples/LinuxVDSThumbnailer/stb_image_write.hpp:985 | the limit is the length of the stored form, so data is stored exactly if that is shorter |
| Zlib.AdlerValue | examples/LinuxVDSThumbnailer/stb_image_write.hpp:1001-1020 | the modulus of RFC 1950 and the checksum of "abc" |
| Zlib.FixedDecodes | examples/LinuxVDSThumbnailer/stb_image_write.hpp:913-978 | the fixed-Huffman form, padded and with its checksum, inflates to the data |
| Zlib.StoredBlocksDecode | examples/LinuxVDSThumbnailer/stb_image_write.hpp:987-998 | the stored blocks from any position on continue the data to its end |
| Zlib.StoredDecodes | examples/LinuxVDSThumbnailer/stb_image_write.hpp:984-999 | the stored form inflates to the data when there is any |
| Zlib.EmptyDoesNotDecode | examples/LinuxVDSThumbnailer/stb_image_write.hpp:985-999 | for no data no block is written and the stream does not inflate |
| Zlib.EmptyFixedIsLong | examples/LinuxVDSThumbnailer/stb_image_write.hpp:985 | for no data the fixed form is always longer than the limit, so that case is always taken |
| Zlib.EmitLength | examples/LinuxVDSThumbnailer/stb_image_write.hpp:960-962 | appends the length symbol and its extra bits |
| Zlib.EmitDist | examples/LinuxVDSThumbnailer/stb_image_write.hpp:963-965 | appends the distance code and its extra bits |
| Zlib.EmitToken | examples/LinuxVDSThumbnailer/stb_image_write.hpp:957-970 | appends the bits of the token |
| Zlib.EmitLiterals | examples/LinuxVDSThumbnailer/stb_image_write.hpp:972-974 | appends the codes of the last bytes |
| Zlib.EmitTokens | examples/LinuxVDSThumbnailer/stb_image_write.hpp:918-974 | appends the bits of exactly the tokens the matcher chooses |
| Zlib.PushHead | examples/LinuxVDSThumbnailer/stb_image_write.hpp:990-994 | appends the flags, the length and its complement |
| Zlib.StoreBlock | examples/LinuxVDSThumbnailer/stb_image_write.hpp:988-997 | appends one stored block, final exactly if it is the last |
| Zlib.StoreNext | examples/LinuxVDSThumbnailer/stb_image_write.hpp:987-998 | one pass of the loop writes the next stored block and leaves room for the rest |
| Zlib.Store | examples/LinuxVDSThumbnailer/stb_image_write.hpp:984-999 | replaces what was written by the stored form, without leaving the capacity |
| Zlib.WriteStart | examples/LinuxVDSThumbnailer/stb_image_write.hpp:913-916 | header, final-block bit, fixed-Huffman type |
| Zlib.WriteFixed | examples/LinuxVDSThumbnailer/stb_image_write.hpp:905-978 | writes the fixed form: header, block of the chosen tokens, fewer than 8 zero bits |
| Zlib.AppendAdler | examples/LinuxVDSThumbnailer/stb_image_write.hpp:1012-1015 | appends the checksum, most significant byte first |
| Zlib.Compress | examples/LinuxVDSThumbnailer/stb_image_write.hpp:895-1022 | for every input and quality: inflating the output gives the input if there is at least one byte and fails otherwise; which form is taken; the length is at most n + 2 + 5 * ceil(n / 32767) + 4; it begins with 0x78, 0x5E |
| Crc.CrcTable | examples/LinuxVDSThumbnailer/stb_image_write.hpp:1029-1063 | every one of the 256 entries is eight steps of the polynomial division |
| Crc.Step8IsLinear | examples/LinuxVDSThumbnailer/stb_image_write.hpp:1029-1063 | eight steps of the division are linear over exclusive or |
| Crc.TableStep | examples/LinuxVDSThumbnailer/stb_image_write.hpp:1068 | shifting by a byte and one table lookup is eight steps of the division |
| Crc.LookupStep | examples/LinuxVDSThumbnailer/stb_image_write.hpp:1068 | the loop body adds one byte to the register and does eight steps of the division |
| Crc.UpperBitsWait | examples/LinuxVDSThumbnailer/stb_image_write.hpp:1029-1063 | the bits of a word above the lowest can enter before a step of the division or one place further down behind it |
| Crc.RegisterStep | examples/LinuxVDSThumbnailer/stb_image_write.hpp:1065-1069 | in the serial register, which takes in one bit and does one step at a time, entering the eight bits of a byte is adding the byte at the low end and doing eight steps |
| Crc.ComputeCrc32 | examples/LinuxVDSThumbnailer/stb_image_write.hpp:1065-1069 | the table-driven loop gives, for every buffer, the CRC of RFC 2083, section 3.4: the division of the message bit by bit, each byte least significant bit first |
| Crc.EndValue | examples/LinuxVDSThumbnailer/stb_image_write.hpp:1065-1069 | the checksum of the type of the last chunk, as every PNG file has it |
| PngFilter.UnfilterOfCoded | examples/LinuxVDSThumbnailer/stb_image_write.hpp:1107-1125 | reconstruction (RFC 2083, section 6) undoes every filter, on every line under every line above |
| PngFilter.PaethIs | examples/LinuxVDSThumbnailer/stb_image_write.hpp:1083-1089 | the prediction is the one of left, above and corner nearest to a + b - c, the first of them in a tie |
| PngFilter.PredictIs | examples/LinuxVDSThumbnailer/stb_image_write.hpp:1107-1125 | the other filters predict nothing, left, above, and the mean of both rounded down |
| PngFilter.KindsAgree | examples/LinuxVDSThumbnailer/stb_image_write.hpp:1094-1098 | the remapped filters of the first row are the standard ones over a row of zeros |
| PngFilter.Pixels.ValidIff | examples/LinuxVDSThumbnailer/stb_image_write.hpp:1092-1106 | an image is valid exactly if all of every row is in memory, for any stride |
| PngFilter.Pixels.RowIs | examples/LinuxVDSThumbnailer/stb_image_write.hpp:1099-1103 | where each byte of the y-th row written is in memory |
| PngFilter.FirstLineByte | examples/LinuxVDSThumbnailer/stb_image_write.hpp:1107-1116 | a byte of the first pixel is filtered as the standard filter says, reading the row above only where there is one |
| PngFilter.LaterLineByte | examples/LinuxVDSThumbnailer/stb_image_write.hpp:1117-1125 | so is a byte behind it |
| PngFilter.EncodeLine | examples/LinuxVDSThumbnailer/stb_image_write.hpp:1092-1126 | fills the line buffer with the filtered row, for any stride, negative too, and orientation |
| Png.EstimateLine | examples/LinuxVDSThumbnailer/stb_image_write.hpp:1157-1160 | the estimate is the sum of the magnitudes of the line, in a 32-bit int |
| Png.EstimateFits | examples/LinuxVDSThumbnailer/stb_image_write.hpp:1157-1160 | the int is the sum itself if and only if that is at most 2^31 - 1, and so for every line below 16 MB |
| Png.EstimateIs | examples/LinuxVDSThumbnailer/stb_image_write.hpp:1157-1160 | every byte of a line adds its magnitude, wherever it stands |
| Png.Int32Is | examples/LinuxVDSThumbnailer/stb_image_write.hpp:1157-1160 | the int is in range and differs from the sum by a multiple of 2^32 |
| Png.CheapestFilter | examples/LinuxVDSThumbnailer/stb_image_write.hpp:1152-1169 | takes the first of the filters with the least estimate and leaves its line in the buffer |
| Png.FilterRow | examples/LinuxVDSThumbnailer/stb_image_write.hpp:1147-1173 | one row goes to its place in the buffer under the forced filter or the first cheapest one |
| Png.ChoiceIs | examples/LinuxVDSThumbnailer/stb_image_write.hpp:1147-1173 | settings 0 to 4 force a filter; any other takes the first one whose sum is least |
| Png.ScanlinesDecode | examples/LinuxVDSThumbnailer/stb_image_write.hpp:1146-1174 | the scanlines, each with its filter byte, reconstruct to the rows, whatever the filters |
| Png.ScanlinesLength | examples/LinuxVDSThumbnailer/stb_image_write.hpp:1144 | the scanlines fill the buffer allocated for them exactly |
| Png.FilterRows | examples/LinuxVDSThumbnailer/stb_image_write.hpp:1146-1174 | every row has its filter, the buffer holds the scanlines in order, and they reconstruct to the image |
| Png.AllChosen | examples/LinuxVDSThumbnailer/stb_image_write.hpp:1147-1173 | and none of the rows is left out |
| Png.PutScanline | examples/LinuxVDSThumbnailer/stb_image_write.hpp:1172-1173 | puts the filter byte and the line behind what is there |
| PngFile.Be32RoundTrip | examples/LinuxVDSThumbnailer/stb_image_write.hpp:1073-1074 | a 32-bit number written most significant byte first is read back |
| PngFile.ReadChunkOf | examples/LinuxVDSThumbnailer/stb_image_write.hpp:1198-1207 | a chunk with its length and CRC is read back, whatever follows |
| PngFile.ReadHeaderOf | examples/LinuxVDSThumbnailer/stb_image_write.hpp:1187-1196 | the header is read back as size and channels |
| PngFile.FileDecodes | examples/LinuxVDSThumbnailer/stb_image_write.hpp:1185-1207 | unpacking the file gives what its compressed part unpacks to |
| PngFile.EndChunkIs | examples/LinuxVDSThumbnailer/stb_image_write.hpp:1206-1207 | the last chunk, byte for byte |
| PngFile.FileIsFramed | examples/LinuxVDSThumbnailer/stb_image_write.hpp:1185-1207 | signature, chunk types and last chunk stand where RFC 2083 has them |
| PngFile.Output.Move | examples/LinuxVDSThumbnailer/stb_image_write.hpp:1186 | appends bytes at the write position |
| PngFile.Output.PutWord | examples/LinuxVDSThumbnailer/stb_image_write.hpp:1074 | appends a number, most significant byte first |
| PngFile.Output.PutCrc | examples/LinuxVDSThumbnailer/stb_image_write.hpp:1077-1081 | appends the CRC of the bytes just written |
| PngFile.Output.PutChunk | examples/LinuxVDSThumbnailer/stb_image_write.hpp:1198-1203 | appends a chunk |
| PngFile.PutHeader | examples/LinuxVDSThumbnailer/stb_image_write.hpp:1187-1196 | appends the header chunk |
| PngFile.PutFile | examples/LinuxVDSThumbnailer/stb_image_write.hpp:1181-1211 | writes signature and three chunks; the write position ends exactly at the end of the buffer |
| PngFile.WritePng | examples/LinuxVDSThumbnailer/stb_image_write.hpp:1128-1212 | for every image, channels 1 to 4, stride (also zero or negative), filter setting, compression level and orientation, a PNG decoder gets exactly the pixel rows back in order; signature and chunks stand where they should |
| JpegBits.UnstuffOfStuff | examples/LinuxVDSThumbnailer/stb_image_write.hpp:1258-1262 | removing stuffed zeros undoes stuffing |
| JpegBits.NoMarkers | examples/LinuxVDSThumbnailer/stb_image_write.hpp:1258-1262 | every 0xFF is followed by a zero byte |
| JpegBits.OrBelowIsAdd | examples/LinuxVDSThumbnailer/stb_image_write.hpp:1256 | in 32 bits, or-ing a code into the zeros below the bits in use is an addition, which is how the buffer is modelled |
| JpegBits.HoldsMore | examples/LinuxVDSThumbnailer/stb_image_write.hpp:1255-1256 | a code shifted in right below the waiting bits joins them |
| JpegBits.HoldsLess | examples/LinuxVDSThumbnailer/stb_image_write.hpp:1258-1264 | the byte at the top of the window is the first eight waiting bits, and shifting removes them, also modulo 2^32 |
| JpegBits.Sink.constructor | examples/LinuxVDSThumbnailer/stb_image_write.hpp:1526 | starts with no bits |
| JpegBits.Sink.WriteBits | examples/LinuxVDSThumbnailer/stb_image_write.hpp:1253-1268 | appends exactly the code, most significant bit first, and keeps fewer than 8 bits back |
| JpegBits.Sink.PutByte | examples/LinuxVDSThumbnailer/stb_image_write.hpp:1258-1264 | hands out one byte, stuffed if need be, without changing the bit stream |
| JpegTables.WordsAreAssigned | examples/LinuxVDSThumbnailer/stb_image_write.hpp:1400-1462 | each of the four code tables holds, for every symbol, the word that T.81, Annex C assigns from the counts and values put into the file |
| JpegEntropy.CodesFit | examples/LinuxVDSThumbnailer/stb_image_write.hpp:1400-1422 | no length has more code words than its bits allow |
| JpegEntropy.DecodeReaches | examples/LinuxVDSThumbnailer/stb_image_write.hpp:1424-1462 | a decoder reading a word bit by bit (T.81, F.2.2.3) does not stop at a shorter one |
| JpegEntropy.SymbolDecodes | examples/LinuxVDSThumbnailer/stb_image_write.hpp:1424-1462 | every code word of the four tables is read back as its symbol |
| JpegEntropy.LumDcCovers | examples/LinuxVDSThumbnailer/stb_image_write.hpp:1425 | the luminance DC table has a word for every category to 11 |
| JpegEntropy.ChromDcCovers | examples/LinuxVDSThumbnailer/stb_image_write.hpp:1426 | the chrominance DC table has a word for every category to 11 |
| JpegEntropy.LumAcCovers | examples/LinuxVDSThumbnailer/stb_image_write.hpp:1427-1444 | the luminance AC table has a word for every run and category of the baseline range, for end of block and for sixteen zeros |
| JpegEntropy.ChromAcCovers | examples/LinuxVDSThumbnailer/stb_image_write.hpp:1445-1462 | so has the chrominance AC table |
| JpegEntropy.CalcBits | examples/LinuxVDSThumbnailer/stb_image_write.hpp:1318-1326 | returns the category of a value, the least number of bits of its magnitude, and its extra bits as an unsigned short holds them: modulo 65536, exactly up to 16 bits; for zero one bit |
| JpegEntropy.ExtendOfExtraBits | examples/LinuxVDSThumbnailer/stb_image_write.hpp:1318-1326 | the decoder's EXTEND (T.81, F.2.2.1) gives every value back, negative ones too |
| JpegEntropy.ValueDecodes | examples/LinuxVDSThumbnailer/stb_image_write.hpp:1388-1390 | the extra bits of a value are received as the value |
| JpegEntropy.DcDecodes | examples/LinuxVDSThumbnailer/stb_image_write.hpp:1355-1364 | the DC difference is read back |
| JpegEntropy.LongRunsDecode | examples/LinuxVDSThumbnailer/stb_image_write.hpp:1381-1387 | the symbols for sixteen zeros put sixteen zeros back each |
| JpegEntropy.CoefficientDecodes | examples/LinuxVDSThumbnailer/stb_image_write.hpp:1374-1391 | a coefficient and the zeros before it, however many, are put back |
| JpegEntropy.AcDecodes | examples/LinuxVDSThumbnailer/stb_image_write.hpp:1365-1394 | the AC coefficients are read back, with end of block omitted exactly if the last one is not zero |
| JpegEntropy.UnitDecodes | examples/LinuxVDSThumbnailer/stb_image_write.hpp:1355-1395 | a data unit in baseline range is read back whatever follows it |
| JpegEntropy.FindEnd | examples/LinuxVDSThumbnailer/stb_image_write.hpp:1366-1368 | finds the last coefficient that is not zero |
| JpegEntropy.SkipZeros | examples/LinuxVDSThumbnailer/stb_image_write.hpp:1378-1379 | finds the next coefficient that is not zero |
| JpegEntropy.WriteDc | examples/LinuxVDSThumbnailer/stb_image_write.hpp:1355-1364 | appends the code of the DC difference |
| JpegEntropy.WriteLongRuns | examples/LinuxVDSThumbnailer/stb_image_write.hpp:1382-1385 | appends one symbol for every sixteen zeros |
| JpegEntropy.WriteShortRun | examples/LinuxVDSThumbnailer/stb_image_write.hpp:1388-1390 | appends run and category, and the extra bits |
| JpegEntropy.WriteCoefficient | examples/LinuxVDSThumbnailer/stb_image_write.hpp:1377-1390 | appends the code of a coefficient and the zeros before it |
| JpegEntropy.WriteNext | examples/LinuxVDSThumbnailer/stb_image_write.hpp:1374-1391 | one pass of the loop appends the zeros and the next coefficient |
| JpegEntropy.WriteAc | examples/LinuxVDSThumbnailer/stb_image_write.hpp:1365-1394 | appends the code of all AC coefficients |
| JpegEntropy.WriteUnit | examples/LinuxVDSThumbnailer/stb_image_write.hpp:1355-1396 | appends the code of the unit and returns its DC coefficient |
| JpegEntropy.TablesSelected | examples/LinuxVDSThumbnailer/stb_image_write.hpp:1500-1519 | the scan header and the bytes the tables are defined under name, for each component, the tables it is coded with |
| JpegEntropy.ScanDecodes | examples/LinuxVDSThumbnailer/stb_image_write.hpp:1550-1591 | a whole scan is read back unit by unit, with the tables the scan header selects and one DC predictor per component |
| JpegEntropy.FillLeavesOnes | examples/LinuxVDSThumbnailer/stb_image_write.hpp:1524 | after the fill code the whole bytes are the scan and fewer than eight one-bits |
| JpegEntropy.WriteUnits | examples/LinuxVDSThumbnailer/stb_image_write.hpp:1589-1591 | appends the code of all units, each with the tables and the predictor of its component |
| JpegEntropy.WriteScan | examples/LinuxVDSThumbnailer/stb_image_write.hpp:1589-1602 | for every sequence of quantized units in range: the segment ends in the end-of-image marker and unstuffed decodes, with the tables the scan header selects, to exactly the units with fewer than eight one-bits left |
| WriteContext.Context.Func | examples/LinuxVDSThumbnailer/stb_image_write.hpp:386-392 | hands bytes to the callback |
| WriteContext.Context.WriteFlush | examples/LinuxVDSThumbnailer/stb_image_write.hpp:386-392 | passes the buffer on without changing the output as a whole |
| WriteContext.Context.Write1 | examples/LinuxVDSThumbnailer/stb_image_write.hpp:399-404 | appends one byte, never past the 64 of the buffer |
| WriteContext.Context.Write3 | examples/LinuxVDSThumbnailer/stb_image_write.hpp:406-416 | appends three bytes, never past the 64 of the buffer |
| HdrRle.DumpsDecode | examples/LinuxVDSThumbnailer/stb_image_write.hpp:736-742 | dumps are read back as the literals |
| HdrRle.RunsDecode | examples/LinuxVDSThumbnailer/stb_image_write.hpp:748-754 | runs are read back as the repeated byte |
| HdrRle.EncodedDecodes | examples/LinuxVDSThumbnailer/stb_image_write.hpp:721-757 | for every component of any width, the Radiance decoder reads exactly the component back, whatever follows; no packet is empty or too long |
| HdrRle.EncodedLength | examples/LinuxVDSThumbnailer/stb_image_write.hpp:721-757 | a component of w bytes takes at most w + w / 128 + 1 |
| HdrRle.EncodedIs | examples/LinuxVDSThumbnailer/stb_image_write.hpp:721-757 | literals, a run of three or more and the rest: the literals are dumped, the whole run is taken, and coding starts anew |
| HdrRle.EncodedLiterals | examples/LinuxVDSThumbnailer/stb_image_write.hpp:721-742 | without three equal bytes everything is dumped |
| HdrRle.EqualLength | examples/LinuxVDSThumbnailer/stb_image_write.hpp:743-755 | a component of n equal bytes takes two for every 127 begun |
| HdrRle.WriteRunData | examples/LinuxVDSThumbnailer/stb_image_write.hpp:656-662 | one run packet |
| HdrRle.WriteDumpData | examples/LinuxVDSThumbnailer/stb_image_write.hpp:664-670 | one dump packet |
| HdrRle.FindRun | examples/LinuxVDSThumbnailer/stb_image_write.hpp:727-735 | finds the first three equal bytes, or the end; the repeated test tells the two apart |
| HdrRle.WriteDumps | examples/LinuxVDSThumbnailer/stb_image_write.hpp:736-742 | writes the literals in dumps of at most 128 |
| HdrRle.WriteRuns | examples/LinuxVDSThumbnailer/stb_image_write.hpp:748-754 | writes the run in packets of at most 127 |
| HdrRle.WriteRun | examples/LinuxVDSThumbnailer/stb_image_write.hpp:743-755 | takes the run as far as it goes |
| HdrRle.WriteComponent | examples/LinuxVDSThumbnailer/stb_image_write.hpp:723-757 | the loop over a component terminates and writes exactly the specified code |
| HdrRle.FillScratch | examples/LinuxVDSThumbnailer/stb_image_write.hpp:713-716 | the scratch buffer holds the four components one after the other |
| HdrRle.LinearToRgbe | examples/LinuxVDSThumbnailer/stb_image_write.hpp:639-654 | over exact reals, each mantissa is its component in units of the common exponent, rounded down; the largest is at least 128, unless the pixel is black |
| HdrRle.MantissaIs | examples/LinuxVDSThumbnailer/stb_image_write.hpp:648-650 | there is just one such mantissa, the whole part of the component over the unit |
| HdrRle.TwoToIs | examples/LinuxVDSThumbnailer/stb_image_write.hpp:643-651 | the units are powers of two, and what is below one part in 10^32 is black |
| HdrRle.NormalHasNoRepeats | examples/LinuxVDSThumbnailer/stb_image_write.hpp:639-654 | so no such pixel is 1, 1, 1, n, which a flat scanline would take for a repeat |
| HdrRle.FlatReadsIff | examples/LinuxVDSThumbnailer/stb_image_write.hpp:682-696 | a flat scanline reads back as its pixels if and only if none of them is a repeat pixel |
| HdrRle.ScanlineReadsIff | examples/LinuxVDSThumbnailer/stb_image_write.hpp:672-759 | a scanline of any width reads back as its pixels if and only if it is run-length coded or holds no repeat pixel |
| HdrRle.ScanlineLength | examples/LinuxVDSThumbnailer/stb_image_write.hpp:672-759 | and how long it can get |
| HdrRle.ScanlineIs | examples/LinuxVDSThumbnailer/stb_image_write.hpp:672-759 | below 8 and from 32768 pixels on a scanline is flat; otherwise it is 2, 2, the width and the four components |
| HdrRle.WriteScanline | examples/LinuxVDSThumbnailer/stb_image_write.hpp:719-758 | writes shared-exponent pixels flat below 8 and from 32768 on, otherwise header and four coded components |
| HdrRle.BodyReads | examples/LinuxVDSThumbnailer/stb_image_write.hpp:780-781 | all scanlines of converted pixels are read back one after the other, flat or coded |
| HdrRle.WriteBody | examples/LinuxVDSThumbnailer/stb_image_write.hpp:780-781 | the scanlines of a picture of converted pixels read back as its rows, top down or bottom up as asked |
| TgaRle.RawReads | examples/LinuxVDSThumbnailer/stb_image_write.hpp:593-598 | the pixels of a raw packet are read back |
| TgaRle.LoadedOfStored | examples/LinuxVDSThumbnailer/stb_image_write.hpp:418-449 | a decoder that takes blue first and alpha last gets the pixel back |
| TgaRle.RowDecodes | examples/LinuxVDSThumbnailer/stb_image_write.hpp:559-604 | the packets of a row decode to the row, for 1 to 4 components; none is longer than 128 pixels or crosses the row |
| TgaRle.RawPacketIs | examples/LinuxVDSThumbnailer/stb_image_write.hpp:572-581 | a raw packet ends with the row or at 128 pixels, or one before the first pixel equal to that of two before it |
| TgaRle.RunPacketIs | examples/LinuxVDSThumbnailer/stb_image_write.hpp:582-590 | a run takes all equal pixels, 128 at most |
| TgaRle.RowLengthBound | examples/LinuxVDSThumbnailer/stb_image_write.hpp:563-604 | a row takes at most one header byte per pixel |
| TgaRle.RowLength | examples/LinuxVDSThumbnailer/stb_image_write.hpp:563-604 | from two pixels on at least one less |
| TgaRle.AlternatingIsWorst | examples/LinuxVDSThumbnailer/stb_image_write.hpp:572-581 | because the raw scan compares pixel k with pixel k - 2, a row alternating between two pixels reaches that bound |
| TgaRle.WritePixel | examples/LinuxVDSThumbnailer/stb_image_write.hpp:418-449 | writes blue, green, red and alpha last |
| TgaRle.ScanRaw | examples/LinuxVDSThumbnailer/stb_image_write.hpp:572-581 | the scan for a raw packet, with its lagging comparison, returns the specified length |
| TgaRle.ScanRun | examples/LinuxVDSThumbnailer/stb_image_write.hpp:583-589 | the scan for a run returns the specified length |
| TgaRle.ScanPacket | examples/LinuxVDSThumbnailer/stb_image_write.hpp:563-591 | the scan returns the specified length and kind of packet |
| TgaRle.WriteRaw | examples/LinuxVDSThumbnailer/stb_image_write.hpp:596-598 | writes the pixels of a raw packet |
| TgaRle.WritePacket | examples/LinuxVDSThumbnailer/stb_image_write.hpp:564-603 | writes one packet with its header |
| TgaRle.WriteNext | examples/LinuxVDSThumbnailer/stb_image_write.hpp:563-604 | one pass of the loop writes the next packet |
| TgaRle.WriteRow | examples/LinuxVDSThumbnailer/stb_image_write.hpp:560-604 | writes the packets of one row |
| TgaRle.RowsDecode | examples/LinuxVDSThumbnailer/stb_image_write.hpp:559-605 | all rows are read back one after the other |
| TgaRle.WriteTga | examples/LinuxVDSThumbnailer/stb_image_write.hpp:550-606 | for every size, 1 to 4 components and both orders, the run-length coded pixel data decodes to exactly the rows in file order |
| TgaRle.PictureIs | examples/LinuxVDSThumbnailer/stb_image_write.hpp:550-566 | where each component of each row of the file is in memory |
| ThreadPool.InitKeeps | common/ThreadPool/ThreadPool.h:56-57 | a new pool satisfies the invariant: no lost wakeup, conservation, shutdown order |
| ThreadPool.EnqueueKeeps | common/ThreadPool/ThreadPool.h:94-107 | enqueueing keeps it |
| ThreadPool.NotifyOneKeeps | common/ThreadPool/ThreadPool.h:108 | so does the notification after the unlock, wherever it falls |
| ThreadPool.WakeKeeps | common/ThreadPool/ThreadPool.h:69-73 | so does waking for any reason, spuriously too |
| ThreadPool.AcquireKeeps | common/ThreadPool/ThreadPool.h:68-77 | so does a worker with the mutex: it sleeps, exits, or takes the front task |
| ThreadPool.FinishKeeps | common/ThreadPool/ThreadPool.h:80 | so does the end of a task |
| ThreadPool.NotifyAllKeeps | common/ThreadPool/ThreadPool.h:114-118 | so does the wakeup of the destructor |
| ThreadPool.NextKeeps | common/ThreadPool/ThreadPool.h:56-121 | every step of every thread keeps the invariant |
| ThreadPool.RunsKeep | common/ThreadPool/ThreadPool.h:56-121 | in every state of every run: either nobody sleeps or queued tasks are at most pending notifications plus runnable workers; each task is queued, running or finished exactly once; tasks start in the order enqueued |
| ThreadPool.InternalDecreases | common/ThreadPool/ThreadPool.h:63-81 | every step the pool takes by itself decreases a measure |
| ThreadPool.InternalRunsEnd | common/ThreadPool/ThreadPool.h:63-81 | so it takes at most that many in a row |
| ThreadPool.WorkIsTaken | common/ThreadPool/ThreadPool.h:63-81 | while a task is queued or running and there is a worker, some step is enabled |
| ThreadPool.RestMeansDone | common/ThreadPool/ThreadPool.h:56-110 | a pool at rest has finished every task enqueued |
| PoolLiveness.AlwaysInv | common/ThreadPool/ThreadPool.h:56-121 | the invariant holds in every state of every infinite run, whatever clients, spurious wakeups and the destructor do |
| PoolLiveness.QueueMoves | common/ThreadPool/ThreadPool.h:63-81 | on a fair run, while a task is queued some task will be started: a sleeper is woken by the notification that is not lost |
| PoolLiveness.EveryTaskStarts | common/ThreadPool/ThreadPool.h:63-81 | so every task enqueued is started in the end, in order |
| PoolLiveness.StartedFinishes | common/ThreadPool/ThreadPool.h:80 | and every task started is finished in the end |
| PoolLiveness.EveryTaskFinishes | common/ThreadPool/ThreadPool.h:56-121 | on every infinite run fair to workers, tasks and notifications, with any enqueues and spurious wakeups, all tasks enqueued by any time are finished at some later time |
| PoolLiveness.FinishesIff | common/ThreadPool/ThreadPool.h:56-121 | and that holds if and only if there is a worker or no task |
| PoolLiveness.FairRunExists | common/ThreadPool/ThreadPool.h:56-121 | a fair run in which a worker sleeps, is notified of a task and finishes it |
| ThreadPool.ShutdownSteps | common/ThreadPool/ThreadPool.h:112-121 | after notify_all nobody sleeps again and only decreasing steps and the join are left |
| ThreadPool.ShutdownGoesOn | common/ThreadPool/ThreadPool.h:112-121 | and one of them is always enabled until the join |
| ThreadPool.ShutdownEnds | common/ThreadPool/ThreadPool.h:112-121 | so every run ends within a bound fixed at notify_all |
| ThreadPool.JoinedMeansDone | common/ThreadPool/ThreadPool.h:112-121 | after the join every task enqueued has run exactly once, started in order, if and only if the pool had a worker or nothing was enqueued |
| ThreadPool.NoThreadsDropTasks | common/ThreadPool/ThreadPool.h:56-59 | a run of a pool without threads that is destroyed with its task never run |
| ThreadPool.OneWorkerIsSequential | common/ThreadPool/ThreadPool.h:165-184 | with one worker the finished tasks are always a prefix of the submitted ones and in the end all of them, as in the single-threaded stub |
| ThreadPool.Pool.constructor | common/ThreadPool/ThreadPool.h:206-213 | an empty queue and runnable workers: the invariant of the protocol holds |
| ThreadPool.Pool.PutTask | common/ThreadPool/ThreadPool.h:249-270 | the locked part of Enqueue is the protocol step, or the abort on a stopped pool, and keeps the invariant |
| ThreadPool.Pool.Notify | common/ThreadPool/ThreadPool.h:271 | the notification is the protocol step and keeps the invariant: no wakeup is lost |
| ThreadPool.Pool.TakeTask | common/ThreadPool/ThreadPool.h:216-231 | the locked part of the worker loop is the protocol step and keeps the invariant |
| ThreadPool.Pool.EndTask | common/ThreadPool/ThreadPool.h:233 | the end of a task is the protocol step and keeps the invariant: no task is lost or run twice |
| ThreadPool.Pool.SetStopFlag | common/ThreadPool/ThreadPool.h:240-243 | the locked part of the destructor is the protocol step and keeps the invariant |
| ThreadPool.Pool.WakeAll | common/ThreadPool/ThreadPool.h:244 | its notification is the protocol step and keeps the invariant: nobody sleeps from here on |
| ThreadPool.Pool.JoinAll | common/ThreadPool/ThreadPool.h:245-246 | after the joins every task enqueued has run exactly once, if and only if there was a worker or nothing to run |
| Base64.LetterAt | common/Base64/Base64.cpp:48-49 | the alphabet has 64 letters and the table finds each at its place |
| Base64.BuildTable | common/Base64/Base64.cpp:30-38 | the loop builds the table: the place of every letter, 255 for every other character |
| Base64.JoinOfSplit | common/Base64/Base64.cpp:147-150 | splitting three bytes into sextets and joining them gives the bytes |
| Base64.SplitOfJoin | common/Base64/Base64.cpp:85-123 | joining four sextets and splitting the bytes gives the sextets |
| Base64.SkipSpace | common/Base64/Base64.cpp:58-60 | skips exactly the whitespace |
| Base64.DecodeGroup | common/Base64/Base64.cpp:66-123 | one pass of the loop appends the bytes of one group and tells error, end or continuation; cursor and count of characters left agree, except behind a stray pad, where the cursor is exactly one ahead |
| Base64.SkipTrailing | common/Base64/Base64.cpp:126-131 | the trailing loop reads past the text exactly if the cursor is ahead and only whitespace is left |
| Base64.Base64Decode | common/Base64/Base64.cpp:54-139 | for every text: accepted exactly if its one word is valid and only whitespace follows; the result keeps what it held and gains the decoded bytes, also when there is an error; a character behind the text is read if and only if a stray pad is followed by one character and then whitespace only |
| Base64.PastIsRejected | common/Base64/Base64.cpp:93-96 | a text that is read past is rejected, whatever is behind it |
| Base64.ReadsPastExample | common/Base64/Base64.cpp:93-96 | AA=A is read past |
| Base64.ValidIff | common/Base64/Base64.cpp:64-124 | a word is accepted if and only if it has no padding and a length that is not 1 mod 4, or its first '=' in the second half of a group completes the group and ends the word |
| Base64.LettersAccepted | common/Base64/Base64.cpp:64-124 | letters alone are accepted exactly unless their number is 1 mod 4 |
| Base64.InteriorSpaceRejected | common/Base64/Base64.cpp:126-136 | whitespace between other characters is always an error |
| Base64.ForeignAccepted | common/Base64/Base64.cpp:67-71 | foreign characters are never rejected as such: a text is accepted exactly if it is with letters in their place |
| Base64.ForeignExample | common/Base64/Base64.cpp:67-71 | for example `*!*!` is accepted |
| Base64.SextetBits | common/Base64/Base64.cpp:147-150 | the sextets of a group, zero past its end |
| Base64.EncodeGroup | common/Base64/Base64.cpp:147-155 | one pass of the loop appends four characters |
| Base64.Base64Encode | common/Base64/Base64.cpp:141-159 | appends the text of the bytes to what the result held |
| Base64.PaddingAtEnd | common/Base64/Base64.cpp:154-155 | padded and unpadded text differ by the '=' signs at the end only |
| Base64.EncodedLength | common/Base64/Base64.cpp:143 | the length reserved is the length written |
| Base64.EncodedDecodes | common/Base64/Base64.cpp:54-159 | decoding undoes encoding for all bytes, padded or not |
| Base64.RoundTrip | common/Base64/Base64.cpp:54-159 | also inside any whitespace before and after |
| Base64.SpaceBehind | common/Base64/Base64.cpp:58-60 | behind a padded text exactly blank, tab, newline, carriage return, vertical tab and form feed are accepted |
| Base64.BytesStopAtPad | common/Base64/Base64.cpp:93-115 | the bytes of a word are those of what stands before its first pad, accepted or not |
| Base64.BytesOfRest | common/Base64/Base64.cpp:73-115 | letters that do not fill a group give the bytes they fill, as if zeros followed |
| Base64.EncodedFoo | common/Base64/Base64.cpp:141-159 | the text of the first bytes of "foobar", as RFC 4648, section 10, gives it |
| Base64.DecodedEncodes | common/Base64/Base64.cpp:54-159 | and encoding undoes decoding on whole groups of letters |
| ProgressiveLod.LODSizeCovers | examples/WindowsPreviewHandler/VdsRenderer.cpp:151-154 | the size at a level is the least number of samples that covers the voxels |
| ProgressiveLod.OptimalIsAvailable | examples/WindowsPreviewHandler/VdsRenderer.cpp:799-842 | the level chosen by size is never coarser than the coarsest level there is |
| ProgressiveLod.OptimalIsWideEnough | examples/WindowsPreviewHandler/VdsRenderer.cpp:820-838 | it is wide enough, and no coarser available level is |
| ProgressiveLod.OptimalIsCoarsest | examples/WindowsPreviewHandler/VdsRenderer.cpp:817-838 | whatever level is chosen, no coarser level that is there is wide enough |
| ProgressiveLod.OptimalExample | examples/WindowsPreviewHandler/VdsRenderer.cpp:793-798 | 1200 by 1200 samples in 400 pixels are shown at level 1 |
| ProgressiveLod.SelectOptimalLOD | examples/WindowsPreviewHandler/VdsRenderer.cpp:799-842 | the search returns that level |
| ProgressiveLod.FindMaxLOD | examples/WindowsPreviewHandler/VdsRenderer.cpp:1252-1264 | the search returns the coarsest available level, or 0 |
| ProgressiveLod.LodController.constructor | examples/WindowsPreviewHandler/VdsRenderer.h:147-152 | no level, refining |
| ProgressiveLod.LodController.Reset | examples/WindowsPreviewHandler/VdsRenderer.cpp:395-399 | back to no level, keeping the render time |
| ProgressiveLod.LodController.SetUserTargetLOD | examples/WindowsPreviewHandler/VdsRenderer.h:102 | sets the user level only |
| ProgressiveLod.LodController.IsRefinementPending | examples/WindowsPreviewHandler/VdsRenderer.h:112 | whether the caller is to render again |
| ProgressiveLod.LodController.SelectLOD | examples/WindowsPreviewHandler/VdsRenderer.cpp:1242-1324 | the updates of the fields in sequence are one step of the specified controller |
| ProgressiveLod.LodController.FinishRender | examples/WindowsPreviewHandler/VdsRenderer.cpp:1574-1576 | a completed render stores its time, a cancelled or failed one keeps the old |
| ProgressiveLod.AutomaticInRange | examples/WindowsPreviewHandler/VdsRenderer.cpp:1242-1264 | an automatic target is always between 0 and the coarsest level |
| ProgressiveLod.UserInRange | examples/WindowsPreviewHandler/VdsRenderer.cpp:1246-1250 | a user target is in that range exactly if a level as coarse is available |
| ProgressiveLod.AlwaysGood | examples/WindowsPreviewHandler/VdsRenderer.cpp:1271-1312 | from a fresh slice, whatever the render times: target <= level <= coarsest, and refinement is on exactly while the level is above the target |
| ProgressiveLod.StrictlyBetter | examples/WindowsPreviewHandler/VdsRenderer.cpp:1291-1309 | every render while refining shows a strictly better level; afterwards nothing changes |
| ProgressiveLod.Converges | examples/WindowsPreviewHandler/VdsRenderer.cpp:1271-1312 | the target is shown within coarsest - target + 1 renders, and a further render is asked for exactly while it is not |
| ProgressiveLod.TimeIs | examples/WindowsPreviewHandler/VdsRenderer.cpp:1574-1576 | the time the controller goes by is that of the last render completed; cancelled ones do not count |
| ProgressiveLod.SlowJumps | examples/WindowsPreviewHandler/VdsRenderer.cpp:1297-1302 | after a render of 50 milliseconds or more the next one shows the target |
| ProgressiveLod.FastVisitsAll | examples/WindowsPreviewHandler/VdsRenderer.cpp:1291-1295 | with renders below 50 milliseconds every level is shown in turn, so the bound is reached |
| ProgressiveLod.UnsetStarts | examples/WindowsPreviewHandler/VdsRenderer.cpp:1284-1302 | a slice shown already but without a level starts at the coarsest and is refined at once |
| ProgressiveLod.AfterNewTarget | examples/WindowsPreviewHandler/VdsRenderer.cpp:1291-1309 | when the target of a slice changes, refinement goes on to the new one if it was on, by one level a render at least; otherwise the level is the coarser of the two and stays |
| ProgressiveLod.NewTargetShown | examples/WindowsPreviewHandler/VdsRenderer.cpp:1291-1309 | a new target is shown in the end if and only if refinement was on or it is no better than the level shown |
| ProgressiveLod.BetterTargetIgnored | examples/WindowsPreviewHandler/VdsRenderer.cpp:1291-1309 | after any run that has converged, a better target is never shown and no further render is asked for |
| ProgressiveLod.AlwaysThereIff | examples/WindowsPreviewHandler/VdsRenderer.cpp:1242-1312 | every render of a slice, whatever the times, asks for a level that is there if and only if the target is in range and every level from the target to the coarsest is there |
| ProgressiveLod.AllLevelsThere | examples/WindowsPreviewHandler/VdsRenderer.cpp:1242-1312 | with every level there nothing is ever asked for that is not |
| ProgressiveLod.LevelAskedFor | examples/WindowsPreviewHandler/VdsRenderer.cpp:1291-1295 | each level from the coarsest to the target is asked for under some render times |
| ProgressiveLod.GapAskedFor | examples/WindowsPreviewHandler/VdsRenderer.cpp:1242-1312 | with levels 0 and 2 of three there, an automatic target for 100 by 100 samples does not always ask for a level that is there |
| ProgressiveLod.MinusOneIff | examples/WindowsPreviewHandler/VdsRenderer.cpp:1249 | level -1 is asked for from the second render on if the user set a level and there are none, and never else |
| ProgressiveLod.UserTargetTooCoarse | examples/WindowsPreviewHandler/VdsRenderer.cpp:1246-1250 | every render of a slice asks for a level no coarser than the coarsest there is if and only if the target is none; otherwise it always asks for the target |
| ProgressiveLod.MissingLevelAskedFor | examples/WindowsPreviewHandler/VdsRenderer.cpp:1246-1250 | with level 0 of two there and user level 1, the first render asks for level 1, which is not there |
| SimplexWalk.SwapDecreases | common/Noise/SimplexNoiseKernel.h:69-76 | swapping two neighbours in the wrong order removes one inversion |
| SimplexWalk.SwapTracks | common/Noise/SimplexNoiseKernel.h:71-76 | and keeps the sorted distances those the index permutation names, equal ones in order |
| SimplexWalk.SortDescending | common/Noise/SimplexNoiseKernel.h:67-79 | the sort that steps back after a swap terminates, sorts descending and is stable |
| SimplexWalk.SumPosition | common/Noise/SimplexNoiseKernel.h:46-50 | the sum of the scaled position |
| SimplexWalk.FindCell | common/Noise/SimplexNoiseKernel.h:46-58 | the integer position is the cell of the skewed point, and its sum is right |
| SimplexWalk.SetDistances | common/Noise/SimplexNoiseKernel.h:60-65 | the distances from the first corner |
| SimplexWalk.NextCorner | common/Noise/SimplexNoiseKernel.h:128 | a step moves to the next corner and adds one to the coordinate sum |
| SimplexWalk.NextOffset | common/Noise/SimplexNoiseKernel.h:123-127 | adding unskew everywhere and taking one away keeps the distances those from the corner |
| SimplexWalk.Advance | common/Noise/SimplexNoiseKernel.h:123-128 | the in-place step does that |
| SimplexWalk.Walk | common/Noise/SimplexNoiseKernel.h:122-129 | the corners visited and the distances at each, in the order of the sorted distances |
| SimplexWalk.TotalOfCorner | common/Noise/SimplexNoiseKernel.h:81-129 | the v-th corner is v further in sum |
| SimplexWalk.CornersDistinct | common/Noise/SimplexNoiseKernel.h:81-129 | dimensionality + 1 distinct corners, at the end every coordinate advanced exactly once |
| SimplexWalk.PointInSimplex | common/Noise/SimplexNoiseKernel.h:46-129 | the point is inside the simplex of the corners visited: in skewed coordinates their mean under non-negative weights that add up to one |
| SimplexWalk.OrderIsUnique | common/Noise/SimplexNoiseKernel.h:63-79 | there is just one order of the distances as the sort leaves them, ties and all |
| SimplexWalk.SkewsMatch | common/Noise/SimplexNoiseKernel.h:36-37 | the two constants undo each other |
| SimplexWalk.OffsetLeadsBack | common/Noise/SimplexNoiseKernel.h:62 | going back by the offset from a lattice point and skewing gives that lattice point, if the constants undo each other |
| SimplexWalk.ScaledIsLinear | common/Noise/SimplexNoiseKernel.h:45-49 | scaling the position scales its sum, and scaling by one changes nothing |
| RunningStat.WelfordStep | examples/LinuxVDSThumbnailer/running_stat.hpp:140-141 | the recurrence gives the new mean and the new sum of squared deviations |
| RunningStat.RunningStat.constructor | examples/LinuxVDSThumbnailer/running_stat.hpp:121 | no values |
| RunningStat.RunningStat.Clear | examples/LinuxVDSThumbnailer/running_stat.hpp:123-126 | like a new object from then on, whatever the other fields hold |
| RunningStat.RunningStat.Push | examples/LinuxVDSThumbnailer/running_stat.hpp:128-147 | after any pushes mean and squared deviations are those of all values pushed |
| RunningStat.RunningStat.NumDataValues | examples/LinuxVDSThumbnailer/running_stat.hpp:149-152 | the number of values |
| RunningStat.RunningStat.GetMean | examples/LinuxVDSThumbnailer/running_stat.hpp:154-157 | the mean of the values, 0 for none |
| RunningStat.RunningStat.GetVariance | examples/LinuxVDSThumbnailer/running_stat.hpp:159-162 | the sample variance, 0 below two values, without reading the field the first value leaves unset |
| RunningStat.RunningStat.StandardDeviation | examples/LinuxVDSThumbnailer/running_stat.hpp:164-167 | the square root of the variance |
| RunningStat.VarianceNotNegative | examples/LinuxVDSThumbnailer/running_stat.hpp:164-167 | the root is never taken of a negative number |
| RunningStat.OrderDoesNotMatter | examples/LinuxVDSThumbnailer/running_stat.hpp:118-172 | the order of the values does not matter |
| RunningStat.VarianceIs | examples/LinuxVDSThumbnailer/running_stat.hpp:118-172 | n (n - 1) times the sample variance of n values is the sum of the squared differences of all their pairs |
| RunningStat.ClippedIs | examples/LinuxVDSThumbnailer/running_stat.hpp:45-48 | values within 10^11 are kept, all others count as zero |
| RunningStat.ComputeMeanStdDev | examples/LinuxVDSThumbnailer/running_stat.hpp:34-61 | the loop computes mean and standard deviation of a zero followed by the clipped values |
| RunningStat.CounterEndsLoop | examples/LinuxVDSThumbnailer/running_stat.hpp:36-41 | some value of the 32-bit counter ends the loop if and only if the count is below 2^32 - 1 |
| RunningStat.MeanIsPulledToZero | examples/LinuxVDSThumbnailer/running_stat.hpp:36-41 | which is the mean of the clipped values if and only if they add up to zero |

## Left out

- PngFile.WritePng: requires that the size of the file fits an int; beyond that the size computations of the source overflow. The offset of a row, stride times row, is an unbounded number; the int product of the source overflows where it exceeds 2^31 - 1.
- PngFilter.EncodeLine: the offset of a row is an unbounded number in the same way.
- Png.CheapestFilter: where the int sum of the source overflows, for rows of 16 MB and more, the model wraps around (Png.EstimateFits).
- JpegEntropy.WriteScan: takes quantized units in the range of the baseline process; that the transform and quantization stay in it is a matter of floating point and not modelled.
- ZlibWriter.Writer.Add: or-ing is modelled as adding, which ZlibWriter.OrAboveIsAdd justifies in 32 bits.
- JpegBits.Sink.WriteBits: or-ing is modelled as adding, which JpegBits.OrBelowIsAdd justifies; the signed buffer is modelled modulo 2^32, also where the source shifts ones out of a signed int.
- Zlib.Compress: lengths are unbounded numbers, not ints; allocation does not fail.
- Matcher.Step: buckets hold positions and are sequences; the source keeps pointers in stretchy buffers moved in place.
- Inflate: blocks with dynamic Huffman codes are rejected by the model decoder, as the compressor writes none.
- HdrRle.WriteBody: takes pixels as the conversion makes them; the text header is not written.
- HdrRle.LinearToRgbe: reals for floats, so nothing is said of rounding; what frexp returns is a parameter, and components are not negative, as the source's cast to a byte is undefined for negative ones.
- TgaRle.WriteTga: the 18-byte header and the form without run-length coding are not modelled.
- JPEG colour conversion, subsampling, transform, quantization and headers, the BMP writer, file and callback plumbing.
- ThreadPool.RunsKeep: critical sections are atomic steps; memory model, exceptions, futures and the environment variable for the thread count are not modelled, and tasks are assumed to end.
- PoolLiveness.EveryTaskFinishes: assumes that no worker waits for the mutex forever and that no notification is put off forever, which mutex and scheduler are to give.
- Base64.Base64Decode: the result vector goes in and comes out as a value; a text is a sequence of characters, and negative values passed to isspace are not modelled.
- Base64.Base64Encode: the result goes in and comes out as a value too.
- HdrRle.WriteComponent: gets its plane of the scratch buffer as a value, not as a pointer into it.
- ProgressiveLod.LodController.SelectLOD: which levels are available is a fixed input, and render times are arbitrary inputs; cancellation and COM are not modelled, nor is the choice of the dimension group.
- SimplexWalk.Walk: reals for floats; the hash of a corner, its gradient and the weighted sum of the contributions are not modelled.
- RunningStat.RunningStat.Push: reals for doubles; the overflow of the int count is not modelled.
- RunningStat.ComputeMeanStdDev: reals for floats, the square root is a parameter, and the count is below 2^32 - 1, as the loop does not end otherwise (RunningStat.CounterEndsLoop).
- The VDS engine itself, language bindings, generators and the user interface.
