# Verified models of the gateway's codecs, trees and protocols

The gateway carries a number of self-contained codecs and state machines. This project models them
in Dafny and proves what they are for.

- **JPEG** (`bits`, `canonical`, `zigzag`, `jpeg_spec`, `tiny_jpeg`, `jpeg_standard`, `stb_jpeg`, `jpeg_roundtrip`,
  `jpeg_codec`, `default_tables`, `masked_table`): the entropy encoder of `tiny_jpeg.h` and the decoder of
  `stb_image.h` share no code. Both are proved against the canonical codes of ITU-T T.81; what is written is what T.81
  codes a data unit as, and reading it restores every coefficient in its place.
- **Inflate** (`lsb_bits`, `deflate_codes`, `deflate_spec`, `zlib_reader`, `stb_zhuffman`, `stb_zlib`): the decoder
  refines RFC 1951 in both directions, with the exact condition under which its bit reader gives up.
- **PNG** and **GIF** (`png_filter`, `gif_lzw`, `stb_gif`, `gif_standard`, `gif_phrases`, `gif_interlace`): row filters;
  LZW, compared with GIF89a; and the order in which pixels are drawn.
- **JSON** (`json_text`, `json_tree`, `cjson_print`, `cjson_parse`, `cjson_standard`, `cjson_grammar`,
  `cjson_roundtrip`, `cjson_list`, `cjson_compare`, `cjson_duplicate`): printing and parsing, both compared with the
  grammar of RFC 8259; the sibling list on the heap, comparison, and deep copies.
- **AES-128** (`octets`, `aes_tables`, `aes_field`, `aes_sbox`, `aes`, `aes_cipher`, `aes_standard`): encryption is the
  cipher that the equations of FIPS 197 determine, and decryption undoes it, from the field algebra up.
- **Device protocols** (`crc8`, `link_frame`, `ring_fifo`, `hhd_escape`, `base64`, `jt808`): checksummed frames, a frame
  ring shared by two threads, escaping, Base64, and the parameter answers of the terminal.

Functions that only the model needs are tied to what the standards say by statements that do not use them: places by
Figure 5 of T.81, code words by the table of RFC 1951, the S-box by inverses in the field, the checksum by division of
polynomials, texts by the characters of the grammar.

Code that changes state is modelled by classes and methods with arrays; each is proved to compute a function or to keep
a relation that is stated apart from it. `ghost` parameters name the mathematical object that a method works on.
`dafny verify dfyconfig.toml` checks everything.

## What the proofs found

- `stb_image.h` reads a code table with 256 words wrongly if word 255 is short, because 255 is also the mark of an
  unserved entry; `HuffDecode` states exactly when, and `Misread` shows a table and a segment.
- The inflate decoder takes the bits past the end of the input for zeros and looks for the end only before a symbol and
  at the end of a block, so some cut streams are accepted (`CutIsAccepted`). `DoZlib` states exactly which: those that
  are complete when extended by zeros and that `ZlibReader.InTime` says are read before the reader gives up. Streams
  that end inside the input always are (`InsideInTime`).
- The GIF decoder starts with a code width that is not the least one when pixels have one bit (`EmptySnug`). It goes on
  entering codes when 12 bits are used up, and fails at 8192 entries, although GIF89a lets the table stay full at 4096:
  `RasterAgreesIff` states exactly when that matters, and `FlatIsRejected` shows data that are rejected for it.
- `add_item_to_array` does not clear the `next` of an item that it appends; only items with a null `next` give a well
  linked list (`AddItemToArray`). The first child of another array takes that array's children along (`AppendForeign`).
- The string that the parser returns for a literal that RFC 8259 permits is what the literal denotes if and only if no
  surrogate in it stands alone, in which case the parser fails (`LoneIsRefused`), and no zero is denoted, at which the
  string is cut (`ZeroIsCut`). Literals that RFC 8259 does not permit are accepted if and only if they are `Lax`: `\u`
  without four digits, which counts as `\u0000` (`NotHexIsCut`), bare control characters, or bytes that are not UTF-8
  (`RawByteIsTaken`). `ParseLiteral` states all of this for every literal. What the printer writes for a string is a
  literal of RFC 8259 if and only if the string is UTF-8 (`PrintedIff`).
- Values of any nesting are printed, but the text is parsed if and only if they are nested at most 1000 deep
  (`PrintThenParse`).
- `cJSON_Compare` calls two separate equal trees different if two members of an object share a name but differ in
  meaning (`RepeatedName`); `SameIsEqual` states that it is right in all other cases. For identical pointers the code
  answers true without looking.
- `UnEscapeData` reads one byte beyond the length it is given (`UnEscapeData`).
- The steps that pack a terminal's answer skip silently what has no room; the final check still refuses every message
  that is not whole (`PackMessage`). A terminal number that is longer than twelve digits or not hexadecimal shifts all
  later fields unnoticed: answers are read back if and only if the number is good (`NumberIff`), and `ReadSerial` packs
  an answer whose serial number is read back for no other number.

## Model

| member | source | states |
|---|---|---|
| Canonical.PrefixFree | tiny_jpeg.h:559-577 | No code word that the assignment by increasing length hands out is a prefix of another |
| TinyJpeg.GetCodeLengths | tiny_jpeg.h:546-557 | The lengths written are those the counts per length stand for, ended by a 0 |
| TinyJpeg.GetCodes | tiny_jpeg.h:559-577 | The sixteen-bit codes are the canonical code words of T.81 Annex C |
| TinyJpeg.GetExtended | tiny_jpeg.h:579-592 | Length and code of every symbol value stand at that value; where a value is listed twice the last word counts |
| TinyJpeg.HuffExpand | tiny_jpeg.h:907-946 | The expanded table assigns to every listed value its canonical word, and leaves lengths and codes of unlisted values as they were; one table stands for each of the four |
| TinyJpeg.CalculateVariableLengthInt | tiny_jpeg.h:598-611 | Size is the bit length of the magnitude; the value returned is its amplitude code cut to sixteen bits, whole for magnitudes of at most sixteen bits |
| TinyJpeg.Writer.Write | tiny_jpeg.h:474-496 | What was flushed followed by what is buffered grows by exactly the data, in order, over any number of flushes |
| TinyJpeg.Writer.WriteBits | tiny_jpeg.h:613-643 | The pushed bit string grows by exactly the given bits; fewer than eight bits stay in the register, and its free low bits are zero |
| TinyJpeg.Writer.PopByte | tiny_jpeg.h:625-641 | A completed byte leaves the register for the output, followed by 0 after 0xFF |
| TinyJpeg.ToScanOrder | tiny_jpeg.h:806-817 | The coefficient of row r and column c is put at its place in the zig-zag of T.81 Figure 5 |
| TinyJpeg.EncodeMCU | tiny_jpeg.h:831-888 | A unit is written as the symbols and amplitudes of its DC difference and of its runs of zeros, and the DC value becomes the prediction |
| TinyJpeg.EncodeScan | tiny_jpeg.h:1080-1174 | The callback receives what was emitted before, then all units, zero-padded to a whole byte and stuffed, then the end marker |
| JpegStandard.UnitIsStandard | tiny_jpeg.h:831-888 | What is written for a unit is, by T.81 sections F.1.2.1 and F.1.2.2, the category and additional bits of the DC difference, then for every nonzero AC coefficient a symbol per sixteen zeros, one for the other zeros and its category, and its additional bits, then the end of block unless the last coefficient is not zero |
| JpegStandard.ScanIsStandard | tiny_jpeg.h:1080-1174 | A scan is such units, each predicted from the one three before it, the first three from 0 |
| JpegStandard.StuffedIs | tiny_jpeg.h:625-641 | In stuffed bytes a zero follows every 0xFF, and without the bytes behind 0xFF they are as they were |
| StbJpeg.Huffman.BuildHuffman | stb_image.h:2003-2045 | Succeeds if and only if the counts describe at most 256 words that leave room for each other; then all tables are those of the canonical code |
| StbJpeg.Huffman.BuildFast | stb_image.h:2033-2043 | Every nine-bit index names the short word that heads it, if there is one |
| StbJpeg.BuildFastAc | stb_image.h:2050-2073 | Every entry combines a short word with its whole amplitude, or is 0 |
| StbJpeg.FastAcMeaning | stb_image.h:2240-2246 | A nonzero combined entry gives the same run, value and length as decoding the symbol and then its amplitude |
| StbJpeg.FastPath | stb_image.h:2104-2115 | A served table entry is the symbol that the canonical code reads, with its length |
| StbJpeg.SlowPath | stb_image.h:2117-2143 | The length found by comparing with the shifted limits and the stored offset give the symbol that the canonical code reads |
| StbJpeg.Jpeg.GrowBuffer | stb_image.h:2075-2091 | Unstuffed input bytes enter the register until 25 bits are there or a marker ends the data; the register always holds the next bits of the segment above zeros |
| StbJpeg.Jpeg.HuffDecode | stb_image.h:2097-2145 | Reads the symbol of the canonical code and consumes exactly its word, if and only if it is not a short word at index 255, which reads as the flag for a long one; a word cut by the end of the data is completed with zeros or given up, and bits that no word heads fail |
| MaskedTable.HalvesMasked | stb_image.h:2033-2043 | A code of 128 words of eight and 128 of nine bits is valid, but its word 255 is masked |
| MaskedTable.Misread | stb_image.h:2097-2145 | Concrete input: the builder accepts that table, a segment starts with word 255, and the decoder does not return its value with its nine bits consumed |
| StbJpeg.Jpeg.ExtendReceive | stb_image.h:2153-2166 | Reads n bits as the signed amplitude of T.81 section F.2.2.1, with zeros for missing bits, or consumes nothing and returns 0, which happens only when they are not all there |
| StbJpeg.AddIntsValid | stb_image.h:1069-1075 | The overflow test before the addition is exact |
| StbJpeg.MulShortsValid | stb_image.h:1077-1084 | The overflow test before the multiplication is exact for truncating division |
| StbJpeg.Jpeg.DecodeBlock | stb_image.h:2210-2263 | Decodes exactly the unit that the bit string spells, dequantised and in row order, updates the prediction of this component only, and fails on bad codes and out-of-range values |
| JpegSpec.PutPlaces | stb_image.h:2241-2258 | The coefficient at the zig-zag place of row r and column c is stored, dequantised, at 8 r + c and nowhere else |
| JpegRoundTrip.Unstuff | stb_image.h:2075-2091 | Removing the stuffing up to the end marker recovers the bytes, whatever follows |
| JpegRoundTrip.SymbolRead | stb_image.h:2097-2145 | A symbol written with the table of the encoder is read back with that of the decoder, and reading stops where the rest starts |
| JpegRoundTrip.AcRead | stb_image.h:2236-2261 | Run-length decoding inverts run-length encoding from any position with any pending run of zeros |
| JpegRoundTrip.UnitRead | stb_image.h:2210-2263 | Reading an encoded unit yields its dequantised coefficients and stops where the next one starts |
| JpegRoundTrip.DecodedPlaces | stb_image.h:2241-2258 | In a decoded block row r, column c holds the coefficient at that zig-zag place |
| JpegRoundTrip.DecodeScan | stb_image.h:2979-3009 | Every unit of a scan of three interleaved components without restarts is decoded with the predictions of its component in step |
| JpegCodec.BothSides | tiny_jpeg.h:907-946 | From one table specification the encoder and the decoder derive the same words for all values |
| JpegCodec.EncodeDecode | tiny_jpeg.h:1080-1174 | Every expressible sequence of units is decoded from the written bytes to the dequantised coefficients |
| JpegCodec.OnesRestore | tiny_jpeg.h:806-817 | With a quantiser of ones a decoded block is the block that was put into scan order |
| JpegCodec.Restore | tiny_jpeg.h:806-888 | With a quantiser of ones the decoder returns the row-major blocks given to the encoder |
| DefaultTables.RoomIsLeft | tiny_jpeg.h:309-354 | The counts alone determine how many words there are and how much of the code space they take |
| DefaultTables.LumaAcUsable | tiny_jpeg.h:331-335 | The default luma AC table is a code of 162 words with no short word at index 255 |
| DefaultTables.LumaAcCovers | tiny_jpeg.h:336-349 | It has a word for the end of block, for sixteen zeros, and for every run with every size from 1 to 10 |
| DefaultTables.ChromaAcUsable | tiny_jpeg.h:351-354 | The default chroma AC table is such a code |
| DefaultTables.ChromaAcCovers | tiny_jpeg.h:355-368 | And has a word for every AC symbol |
| DefaultTables.RestoreBlocks | tiny_jpeg.h:1177-1237 | For every sequence of blocks within the stated ranges, a scan written with the default tables at the highest quality is decoded to the same blocks |
| ZigZag.Inverses | stb_image.h:2194-2207 | The dezigzag table of the decoder inverts the zig-zag table of the encoder |
| ZigZag.ScanIsPlace | tiny_jpeg.h:376-376 | Both tables are the zig-zag of T.81 Figure 5: the place of a cell is the number of cells on earlier anti-diagonals plus its offset on its own, counted downwards on odd ones and upwards on even ones |
| LsbBits.BitReverse16Is | stb_image.h:4107-4114 | The swap network reverses sixteen bits |
| LsbBits.BitReverseIs | stb_image.h:4116-4122 | Shifting the result down reverses any shorter number |
| LsbBits.StreamBit | stb_image.h:4202-4212 | Bit k of byte i stands at place 8 i + k of the stream, as RFC 1951 section 3.1.1 packs them |
| DeflateCodes.SymbolStands | stb_image.h:4224-4271 | The canonical code of RFC 1951 section 3.2.2 reads symbol i exactly when its word heads the stream |
| DeflateCodes.SymbolHasWord | stb_image.h:4224-4271 | A symbol that is read has a word, of the length consumed |
| DeflateCodes.FixedLengthsComplete | stb_image.h:4452-4463 | The fixed literal and length code uses its code space up |
| DeflateCodes.FixedDistancesComplete | stb_image.h:4464-4468 | So does the fixed distance code |
| DeflateCodes.FixedWordStands | stb_image.h:4452-4463 | With the fixed code every symbol is read exactly where the word that RFC 1951 section 3.2.6 lists for it stands |
| DeflateCodes.FixedDistanceStands | stb_image.h:4464-4468 | And every distance symbol exactly where its five-bit number stands |
| StbZHuffman.ZHuffman.Build | stb_image.h:4124-4169 | Succeeds if and only if the words of the given lengths fit; then fast table, limits and symbol order are those of the canonical code |
| StbZHuffman.FastPath | stb_image.h:4261-4269 | A hit in the fast table is the symbol that the canonical code reads, with its length |
| StbZHuffman.FastMiss | stb_image.h:4261-4270 | A miss means that no word of at most nine bits heads the stream |
| StbZHuffman.SlowPath | stb_image.h:4224-4241 | Comparing the reversed bits with the limits finds the symbol that the canonical code reads |
| StbZlib.Zbuf.FillBits | stb_image.h:4202-4212 | The register holds the next bits of the input, which continues with zeros |
| StbZlib.Zbuf.Zreceive | stb_image.h:4214-4222 | Takes exactly the next n bits, low bit first |
| StbZlib.Zbuf.HuffmanDecode | stb_image.h:4243-4271 | Returns the symbol whose word heads the stream and consumes that word; fails only if there is none or the reader has come upon the end of the input twice |
| StbZlib.Zbuf.Zexpand | stb_image.h:4273-4293 | Growing keeps the contents and makes room; it fails only if that is not permitted or 32 bits do not suffice |
| StbZlib.Zbuf.PutCopy | stb_image.h:4342-4354 | Both the run of one byte and the byte-by-byte loop append len bytes, each equal to the one that stands dist bytes before it, and keep what was there |
| DeflateSpec.CopyBackIs | stb_image.h:4342-4354 | That is what the copy of the deflate relation is: every byte written equals the one dist bytes before it |
| DeflateSpec.RangesMeet | stb_image.h:4295-4307 | The ranges of neighbouring length codes and of neighbouring distance codes meet without gap or overlap, from 3 to 258 and from 1 to 32768; from the first code with extra bits on four length codes and two distance codes share each number of them |
| DeflateSpec.ZigzagInverse | stb_image.h:4361-4361 | The order of the code length code lengths is a permutation |
| DeflateSpec.DezigzagIs | stb_image.h:4361-4361 | First the three repetitions and zero, then the lengths outwards from 8 |
| DeflateSpec.RepeatsAre | stb_image.h:4386-4399 | Symbol 16 repeats the last length 3 to 6 times, and 17 and 18 add 3 to 10 or 11 to 138 zeros; no other counts can be stored |
| StbZlib.Zbuf.ReadCodeLengths | stb_image.h:4379-4402 | The run-length coded lengths are those that RFC 1951 section 3.2.7 defines; a list is refused only if it is not one or the reader gives up within it |
| StbZlib.Zbuf.ComputeHuffmanCodes | stb_image.h:4359-4407 | The tables built are those of the dynamic header that stands at this bit; it fails only if that is malformed or the reader gives up within it |
| StbZlib.Zbuf.ParseHuffmanBlock | stb_image.h:4309-4357 | The output is that of running the tokens of the block up to its end; a refusal names the token that is at fault, that has no room, or that is read too late |
| StbZlib.Zbuf.ParseUncompressedBlock | stb_image.h:4409-4436 | A stored block appends its bytes after aligning, and is refused only if its length is damaged or its bytes are missing |
| StbZlib.Zbuf.ParseBlock | stb_image.h:4488-4506 | One block takes the specified state to the specified state, and the reader to the state that follows from the reads in it |
| StbZlib.Zbuf.ParseZlibHeader | stb_image.h:4438-4449 | Accepts exactly the headers with a valid checksum, no dictionary and method 8 that something follows |
| StbZlib.Zbuf.ParseZlib | stb_image.h:4481-4508 | Success means that the output is the RFC 1951 expansion of the input extended by zeros, read in time; failure names a block that is refused |
| StbZlib.Zbuf.StreamAccepted | stb_image.h:4481-4508 | No block of a complete stream that is read in time and for whose output there is room is refused |
| StbZlib.DoZlib | stb_image.h:4510-4518 | Decoding succeeds if and only if the input, extended by zeros, is a complete stream that the reader gets through before it gives up and for which the output has room; the output is then its expansion |
| ZlibReader.InsideInTime | stb_image.h:4243-4257 | Every stream that ends inside the input is read in time, so that RFC 1951 decides about it alone |
| ZlibReader.NextInTime | stb_image.h:4481-4508 | Whatever blocks were passed, the next block of a stream that is read in time is read in time |
| DeflateSpec.InflatesUnique | stb_image.h:4481-4508 | A stream has at most one expansion |
| DeflateSpec.BlockMoves | stb_image.h:4488-4506 | Every block starts inside the stream and consumes at least three bits, so decoding ends |
| StbZlib.CutIsAccepted | stb_image.h:4243-4257 | Concrete input: the single byte 3 is accepted with empty output although its last symbol ends two bits past the input |
| PngFilter.StbPaeth | stb_image.h:4656-4668 | The branch-free predictor equals that of PNG (second edition) section 9.4 |
| PngFilter.PaethNearest | stb_image.h:4656-4668 | The prediction is the first of left, above and above left that is at least as near to left + above - above left as the others |
| PngFilter.FirstRow | stb_image.h:4646-4654 | Over a row of zeros the remapped filters of the first row predict what the stored filters do |
| PngFilter.UnfilterRow | stb_image.h:4754-4787 | For every filter the restored row, filtered against the row above, gives the stored bytes |
| PngFilter.CreateImageRaw | stb_image.h:4737-4787 | Fails exactly when bytes are missing or a row names an unknown filter; otherwise all restored rows, filtered, give the stored bytes |
| PngFilter.FilteredUnique | stb_image.h:4754-4787 | Only one row is filtered to given bytes |
| PngFilter.StoredUnique | stb_image.h:4737-4787 | Stored bytes determine the image |
| PngFilter.StoredByte | stb_image.h:4737-4787 | By PNG section 9.2, at its place in the stored bytes stands each byte of the image less nothing, the byte to its left, the one above, the mean of both, or the nearest of these and the one above left, all 0 outside the image |
| PngFilter.FilterThenUnfilter | stb_image.h:4737-4787 | For every image and every choice of filters the image is restored, exactly when all filters exist |
| GifLzw.EnterSound | stb_image.h:6740-6768 | Obeying a legal code keeps every prefix smaller than its entry and every code defined |
| GifLzw.MeaningIsString | stb_image.h:6748-6762 | The bytes a code means, also when it is the entry just being made, are the string of its entry after the step |
| GifLzw.SnugKept | stb_image.h:6763-6766 | The code width stays the least one that the table permits |
| GifLzw.EmptySnug | stb_image.h:6702-6709 | Exactly for minimum code sizes of at least 2 the starting width is the least one |
| StbGif.DrawnInOrder | stb_image.h:6654-6689 | The values drawn are the bytes in order, as many as fit into the frame, over all interlace passes |
| StbGif.Gif.OutGifCode | stb_image.h:6654-6689 | The recursion along the prefixes ends and draws the string of the code as colour numbers |
| StbGif.Gif.EnterCode | stb_image.h:6748-6760 | The new entry is the old string and the first byte of the new one, also for the code that is just being entered |
| StbGif.Gif.TakeCode | stb_image.h:6740-6768 | A code is accepted if and only if the LZW specification obeys it, with the same table and the same pixels |
| StbGif.Gif.ProcessGifRaster | stb_image.h:6691-6776 | Over any split into data blocks, success and pixels are those of the LZW specification on the concatenated payload |
| StbGif.PayloadOfBlocks | stb_image.h:6718-6726 | For every list of blocks of 1 to 255 bytes, stored each after its length with an empty one at the end and anything behind, the payload is the concatenation of the blocks and ends after the empty one |
| GifPhrases.PhrasesDecoded | stb_image.h:6727-6768 | LZW without a table: where every code is a pixel or stands for an earlier phrase with the first pixel of the phrase after it, in as few bits as the next free number needs, the phrases are put out in order |
| GifStandard.WithinAgrees | stb_image.h:6740-6768 | As long as no run of codes between clear codes needs more than 8192 table places, the outcome is that of a decoder whose table stays full at 4096, as GIF89a Appendix F has it |
| GifStandard.OverflowRejected | stb_image.h:6749-6753 | With such a run the decoder fails, with less output than the standard gives |
| GifStandard.RasterAgreesIff | stb_image.h:6691-6776 | For minimum code sizes up to 11 the decoder and the standard agree on a raster if and only if no run of codes needs more than 8192 table places |
| GifStandard.FlatIsRejected | stb_image.h:6749-6753 | Concrete family: the byte 4, which holds a clear code, and 12500 or more zero bytes are accepted by the standard and rejected by the decoder |
| GifInterlace.OrderIs | stb_image.h:6679-6688 | Rows in order, and the four passes of GIF89a Appendix E, visit every row of the frame once |
| GifInterlace.OrderRises | stb_image.h:6679-6688 | Downwards, or pass by pass and downwards in each: multiples of 8, the other multiples of 4, the other even rows, the odd rows |
| GifInterlace.PositionIs | stb_image.h:6852-6863 | Pixel (i, j) of an image at (x, y) lies at 4 ((y + j) width + x + i) |
| GifInterlace.DrawnAt | stb_image.h:6664-6688 | Byte k is drawn at pixel k of that order, until the rectangle is full |
| GifInterlace.EveryPixelOnce | stb_image.h:6654-6689 | No pixel is drawn twice, none outside the rectangle, and with enough bytes all of it is drawn |
| GifInterlace.FrameOfBlocks | stb_image.h:6691-6726 | The bytes drawn are those that the bytes of all data blocks, as one stream, are decoded to |
| GifInterlace.LoadImage | stb_image.h:6845-6893 | An image is refused if and only if it leaves the canvas or its data are illegal; otherwise the expanded bytes are drawn at the pixels of the order promised |
| CJsonPrint.PrintBuffer.Ensure | cJSON.c:458-541 | Growing keeps the printed bytes; it fails only for a fixed buffer or beyond the integer range |
| CJsonPrint.PrintBuffer.CountEscapes | cJSON.c:944-964 | The number counted is exactly what escaping adds |
| CJsonPrint.PrintBuffer.PrintStringPtr | cJSON.c:922-1041 | Exactly the escaped literal is written, within the room asked for |
| CJsonPrint.PrintBuffer.PrintValue | cJSON.c:1391-1462 | Exactly the text of the value at this depth is written; it fails only where the whole text has no room |
| CJsonPrint.Print | cJSON.c:1207-1272 | The result is the text of the value, and printing succeeds for every text that fits the integer range |
| CJsonParse.ParseBuffer.ParseHex4 | cJSON.c:634-667 | Four digits give their number, anything else 0 |
| CJsonParse.ParseBuffer.Utf16LiteralToUtf8 | cJSON.c:671-789 | Decodes single units and surrogate pairs as specified and rejects lone or broken surrogates |
| CJsonParse.ParseBuffer.EncodeUtf8 | cJSON.c:735-774 | The bytes written back to front are the UTF-8 form of the code point |
| CJsonParse.Utf8Joins | cJSON.c:735-774 | Joining the bits of the UTF-8 bytes gives the code point back |
| CJsonParse.ParseBuffer.FindClosing | cJSON.c:809-827 | Finds the first quote that is not escaped, and counts the bytes that hide another |
| CJsonParse.DecodedFits | cJSON.c:805-836 | Every literal that decodes fits the room allocated for it, the bytes between the quotes less those that hide another, even where broken escapes make the decoder lose step with the search |
| CJsonParse.ParseBuffer.ParseString | cJSON.c:792-919 | Succeeds if and only if the literal is closed and all its escapes decode, with the decoded bytes up to the first zero |
| CJsonParse.StringRead | cJSON.c:792-919 | A printed literal is closed by its own quote and decodes to the string that was printed, control characters included |
| CJsonStandard.ParseLiteral | cJSON.c:792-919 | For every literal: what RFC 8259 permits is returned as it denotes if and only if no surrogate stands alone and no zero is denoted; with a lone surrogate it is refused, at a zero cut; what RFC 8259 does not permit is accepted if and only if it is lax |
| CJsonStandard.StrictIff | cJSON.c:671-732 | The decoder of the parser and an independent one for RFC 8259 sections 7 and 8.1 give the same bytes where both decode; of what one decodes the other refuses exactly the lone surrogates, or the lax literals |
| CJsonStandard.PrintedIff | cJSON.c:922-1041 | The text printed for a string is a literal of RFC 8259 that denotes it if and only if the string is UTF-8 |
| CJsonStandard.EncodedIff | cJSON.c:735-774 | The bytes written for a code point are well-formed UTF-8 (RFC 3629 section 4) if and only if it is no surrogate |
| CJsonStandard.ZeroIsCut | cJSON.c:634-667 | Concrete input: a literal with the escape for zero is permitted, and cut there |
| CJsonStandard.NotHexIsCut | cJSON.c:634-667 | Concrete input: a literal with a u escape without digits is not permitted, but accepted and cut there |
| CJsonStandard.LoneIsRefused | cJSON.c:690-696 | Concrete input: a literal with the escape of a single surrogate is permitted, and refused |
| CJsonStandard.RawByteIsTaken | cJSON.c:842-846 | Concrete input: a literal with the byte 0x80 is not permitted, and taken as it is |
| CJsonParse.NumberRead | cJSON.c:307-380 | A number is delimited by what follows it, whatever its digits |
| CJsonParse.ParseBuffer.ParseNumber | cJSON.c:307-380 | Integers are converted with saturation to 32 bits; the offset moves past them |
| CJsonParse.ParseBuffer.ParseValue | cJSON.c:1336-1388 | Where any text of a value stands, with any blanks and any literals that decode to its strings, the value is read and the text consumed if and only if it is nested within the limit, and parsing fails otherwise |
| CJsonParse.Parse | cJSON.c:1115-1192 | Any such text, with blanks around it, is parsed if and only if the value is nested at most 1000 deep, and then to the value |
| CJsonGrammar.ParseText | cJSON.c:1115-1192 | Every text that by RFC 8259 sections 2 to 8 denotes a value of integers of 32 bits and strings without zeros and lone surrogates is parsed to it if and only if it is nested at most 1000 deep, and refused otherwise |
| CJsonGrammar.DenotesAccepts | cJSON.c:1336-1388 | What the grammar permits for a value the parser accepts as that value |
| CJsonGrammar.NumberAccepted | cJSON.c:307-380 | Every decimal integer of 32 bits is converted to the number it denotes |
| CJsonGrammar.PrintedWhole | cJSON.c:1391-1462 | The layout: formatted, every member starts on a line of its own with a tab for each level, a tab follows each colon and a blank each comma of an array; unformatted, there are no blanks |
| CJsonGrammar.PrintedDenotes | cJSON.c:1391-1462 | What is printed for a value, formatted or not, denotes it by the grammar if and only if all its strings are UTF-8 |
| CJsonGrammar.PrintedTextDenotes | cJSON.c:1207-1272 | So the printed text of a value of UTF-8 strings, without its final zero, is a text of RFC 8259 that denotes the value |
| CJsonRoundTrip.PrintThenParse | cJSON.c:1207-1272 | Printing, formatted or not, then parsing gives the value back if and only if it is nested at most 1000 deep, as far as the text fits the printer |
| CJsonList.GetArrayItem | cJSON.c:1880-1897 | The child at an index, or none past the end |
| CJsonList.GetArraySize | cJSON.c:1857-1878 | The number of children, 0 without a parent |
| CJsonList.AddItemToArray | cJSON.c:1985-2016 | Appends to the list; with children present the result is well linked if and only if the next of the item was null before |
| CJsonList.AppendForeign | cJSON.c:1985-2016 | The first child of another array, appended to any array with children, leaves an ill linked list from which the other children of that array are reached too |
| CJsonList.DetachItemViaPointer | cJSON.c:2216-2250 | Removes that child and unlinks it; the list stays well linked |
| CJsonList.DetachItemFromArray | cJSON.c:2252-2260 | Removes the child at the index |
| CJsonList.InsertItemInArray | cJSON.c:2292-2324 | Inserts before the index or appends; well linked exactly as stated for appending |
| CJsonList.ReplaceItemViaPointer | cJSON.c:2326-2373 | Puts the replacement in the place of that child and unlinks it |
| CJsonCompare.CaseInsensitiveStrcmp | cJSON.c:133-158 | Equal exactly if of the same length and at each place the same byte or the same letter of A to Z in two cases |
| CJsonCompare.GetObjectItem | cJSON.c:1909-1939 | The first member with the name under the case rule |
| CJsonCompare.Compare | cJSON.c:3030-3153 | Decides the relation Same |
| CJsonCompare.SameIsEqual | cJSON.c:3030-3153 | Comparing is true if and only if the values are equal, arrays by order and objects as maps, and neither has members that share a name but differ in meaning |
| CJsonCompare.SelfSame | cJSON.c:3030-3153 | A value compares as equal to a separate copy of itself if and only if it has no such members |
| CJsonCompare.UniqueConsistent | cJSON.c:3104-3146 | In particular if no name occurs twice |
| CJsonCompare.RepeatedEqual | cJSON.c:3104-3146 | Concrete value: a repeated name whose members agree does no harm |
| CJsonCompare.RepeatedName | cJSON.c:3104-3146 | Concrete value: two separate equal trees with such members compare as different |
| CJsonDuplicate.DuplicateRec | cJSON.c:2747-2831 | A copy consists of new items only, is well linked at every level, is itself unlinked and matches the original, which is unchanged; it fails if and only if an item with children lies at the depth limit |
| CJsonDuplicate.Attach | cJSON.c:2804-2818 | Linking the next copy keeps all earlier copies and their order |
| CJsonDuplicate.Close | cJSON.c:2821-2824 | Setting the prev of the first child completes the list |
| CJsonDuplicate.Duplicate | cJSON.c:2742-2745 | The copy denotes the same value |
| CJsonDuplicate.CopyComparesEqual | cJSON.c:2747-2831 | A copy compares as equal to its original if and only if the original has no members that share a name but differ in meaning |
| AesTables.InvSOfS | Aes_ECB.h:49-86 | The inverse S-box undoes the S-box on all 256 bytes |
| AesSBox.SubByteIs | Aes_ECB.h:49-66 | By FIPS 197 section 5.1.1 every entry is the affine map of the byte whose product with the index is 1, and of 0 for 0 |
| AesField.GMul | Aes_ECB.cpp:213-236 | The shift-and-add loop computes the product in the field of FIPS 197 section 4.2 |
| Octets.LeftDoubles | Aes_ECB.cpp:226-232 | Shifting a byte left doubles its number, but for the bit that falls out |
| AesField.TimesSum | Aes_ECB.cpp:213-236 | Multiplication distributes over addition |
| AesField.ProductPoly | Aes_ECB.cpp:213-236 | A product of two small factors acts as their product polynomial, unreduced |
| AesField.MatricesInverse | Aes_ECB.cpp:238-304 | The product of the two column matrices is the identity |
| AesField.UnmixedOfMixed | Aes_ECB.cpp:268-304 | Unmixing a mixed column restores it |
| Aes.RconDoubles | Aes_ECB.h:38-42 | Every round constant is x times the one before |
| Aes.AesKey.KeyExpansion | Aes_ECB.cpp:46-84 | The encryption words are the FIPS 197 section 5.2 expansion of every key, and the decryption words are the same rounds in reverse order |
| Aes.InvShiftRowsOfShiftRows | Aes_ECB.cpp:181-211 | Row rotation is undone |
| Aes.InvMixColumnsOfMixColumns | Aes_ECB.cpp:238-304 | Column mixing is undone |
| AesCipher.ShiftTheRows | Aes_ECB.cpp:181-195 | In place, row i is rotated by i |
| AesCipher.MixTheColumns | Aes_ECB.cpp:238-266 | In place, the state becomes the mixed state |
| AesCipher.AddTheRoundKey | Aes_ECB.cpp:134-150 | In place, the round key is added column by column |
| AesCipher.Encrypt | Aes_ECB.cpp:328-355 | Ten rounds with an advancing key pointer compute the cipher of FIPS 197 section 5.1 |
| AesCipher.Decrypt | Aes_ECB.cpp:383-412 | Ten rounds with the reversed schedule compute the inverse cipher of section 5.3 |
| AesCipher.InvCipherOfCipher | Aes_ECB.cpp:306-412 | The inverse cipher undoes the cipher for every key and state |
| AesCipher.AesEncrypt | Aes_ECB.cpp:306-357 | Every whole block is encrypted on its own, and nothing after the last one is written |
| AesStandard.EncryptIsFips197 | Aes_ECB.cpp:306-357 | An encrypted block is the last of eleven states that satisfy, byte by byte, the equations of FIPS 197 sections 5.1 and 5.2 with an expanded key that does |
| AesCipher.EncryptThenDecrypt | Aes_ECB.cpp:306-412 | Every block of a ciphertext decrypts to its block of the plaintext |
| Crc8.HhdCrc8 | config.cpp:484-511 | The nested loops compute the checksum |
| Octets.RightHalves | config.cpp:503-507 | Shifting a byte right halves its number, but for the lowest bit |
| Crc8.CrcSum | config.cpp:484-511 | The checksum of an exclusive or is the exclusive or of the checksums |
| Crc8.CrcIsFeed | config.cpp:484-511 | The checksum is that of the bit stream, lowest bit of each byte first |
| Crc8.CrcIsRemainder | config.cpp:484-511 | The checksum is the one remainder that the stream of bits, followed by eight zeros, leaves when divided by x^8 + x^5 + x^4 + 1 |
| Crc8.BurstDetected | config.cpp:484-511 | Every nonempty error burst of at most eight bits changes the checksum, at any place and for any length |
| Crc8.OddDetected | config.cpp:484-511 | Every odd number of wrong bits changes the checksum |
| LinkFrame.Link.PackageSend | listen_socket.cpp:1421-1433 | The buffer holds the frame with all header fields, the payload and the checksum of what it covers; the serial number advances |
| LinkFrame.FrameIs | listen_socket.cpp:1421-1433 | The place of every field in that frame, numbers with the low byte first |
| LinkFrame.ParseMsgHead | listen_socket.cpp:714-771 | Exactly the frames with fitting length, command length and checksum are accepted, and exactly the incomplete ones wait |
| LinkFrame.AcceptSent | listen_socket.cpp:714-771 | Every frame that is sent is accepted as soon as it has arrived whole, whatever follows it |
| LinkFrame.RejectDamaged | listen_socket.cpp:714-771 | A frame with a burst of up to eight wrong bits or an odd number of wrong bits in its covered bytes is never accepted, and leads to a resynchronisation once its bytes have arrived |
| RingFifo.NextKeeps | config.cpp:377-459 | Every step of either thread keeps the invariant of indices, count and stored frames |
| RingFifo.FirstInFirstOut | config.cpp:393-459 | In every interleaving the frames got are a prefix of the frames put |
| RingFifo.GotSlotKept | config.cpp:393-459 | A slot returned by a get that leaves n frames survives exactly the next 31 - n puts |
| RingFifo.Ring.LockedPut | config.cpp:435-459 | The locked part is the put step |
| RingFifo.Ring.TryPut | config.cpp:441-441 | The test before the lock is the producer step that lets it go on exactly if there is room |
| RingFifo.Ring.LockedGet | config.cpp:393-414 | The locked part is the get step and returns the oldest frame |
| RingFifo.Ring.TryGet | config.cpp:400-400 | The test before the lock is the consumer step that lets it go on exactly if there is a frame |
| HhdEscape.EscapeData | hhdProtocol.cpp:470-496 | The output is the escaped bytes and the last two as they are |
| HhdEscape.ImageIs | hhdProtocol.cpp:476-490 | Exactly 0x7D, and 0x7E but at index 19, become two bytes: 0x7D and how far the byte lies above 0x7C |
| HhdEscape.UnEscapeData | hhdProtocol.cpp:505-529 | The output is the restored bytes and the last four read as they are |
| HhdEscape.EscapeThenUnEscape | hhdProtocol.cpp:470-529 | Every message of at least two bytes followed by any check byte is restored |
| HhdEscape.OnlyKeptFlag | hhdProtocol.cpp:470-496 | A flag byte is written only for a flag at index 19, and only where that index is written |
| HhdEscape.CleanIsEscaped | hhdProtocol.cpp:505-529 | A text is what the encoder writes for the bytes restored from it if and only if it is clean: known escapes and no flag but at index 19 |
| Base64.Base64Encode | base_json.cpp:169-217 | The masks and shifts, group by group, give the encoding of RFC 4648 section 4 |
| Base64.EncodedAt | base_json.cpp:169-217 | Every character of the text is that of the alphabet of RFC 4648 for six bits of its three bytes, highest first, or a pad where they are missing |
| Base64.Base64Decode | base_json.cpp:225-275 | The characters up to the first outside the alphabet are decoded |
| Base64.EncodeThenDecode | base_json.cpp:169-275 | Decoding an encoding gives the bytes back, and its length is four for every three bytes begun |
| Base64.CanonicalIff | base_json.cpp:225-275 | A text is the encoding of what it decodes to if and only if it is canonical: padded groups with unused bits 0 |
| Jt808.Connection.AppendBcd | jt808.cpp:1244-1303 | The terminal number is placed digit by digit, aligned right in six bytes; too long or non-hexadecimal numbers leave fewer bytes |
| Jt808.Connection.InitMessage | jt808.cpp:1365-1405 | The header is flag, message number, empty attributes, terminal number and a serial number that is never 0 |
| Jt808.Connection.AppendExtraData | jt808.cpp:1421-1480 | Number, length and content are appended, or the buffer is full, or the step fails |
| Jt808.Connection.PackMessage | jt808.cpp:1595-1658 | A message is built if and only if every parameter is defined and everything fits, although single steps are skipped in silence |
| Jt808.SealedXor | jt808.cpp:1153-1176 | All bytes between the flags have exclusive or 0 |
| Jt808.SealedLength | jt808.cpp:1178-1225 | The attributes state the length of the body if and only if it has less than twelve bits |
| Jt808.TermPrinted | jt808.cpp:1244-1303 | Written out in hexadecimal, the six bytes of a good terminal number are its digits after zeros |
| Jt808.AnswerIs | jt808.cpp:1153-1225 | The place of every part of a closed answer between its flags, numbers with the high byte first |
| Jt808.ReadParameters | jt808_Pack.cpp:149-170 | The walk returns the listed keys and contents |
| Jt808.AnswerRead | jt808_Pack.cpp:138-170 | For a good terminal number the serial number is read back, and the parameters if and only if their count and every length fit a byte |
| Jt808.OnesShift | jt808.cpp:1244-1303 | In one answer, for every terminal number, the serial number stands where it is looked for if and only if the number has at most twelve digits, all hexadecimal |
| Jt808.NumberIff | jt808.cpp:1365-1405 | All answers whose count and lengths fit their bytes are read back if and only if the terminal number is good |
| Jt808.ReadSerial | jt808_Pack.cpp:138-147 | That answer, packed by a connection with any terminal number: its serial number is read back if and only if the number is good |
| Jt808.PackThenRead | jt808_Pack.cpp:138-170 | Packing succeeds for any terminal number if and only if the parameters are defined and the message fits; with a good number serial number and parameters are then read back |

## Left out

- Sockets, threads as such, GPIO, serial lines, clocks, randomness, logging, and every library whose code is not here.
- Floating point: the DCT, colour conversion, HDR, JSON numbers that are not integers. Coefficients enter after
  quantisation.
- Progressive JPEG, restart intervals, markers and headers of JPEG files (the header is any byte string), subsampling,
  SIMD kernels, and the other image formats.
- Allocation failure and null arguments, except where a null result is part of what is modelled.
- GifInterlace.LoadImage: the refusal for a missing colour table, which comes before the data, is not modelled.
- CJsonStandard.ParseLiteral: what a lone surrogate denotes is left open by RFC 8259 section 8.2; it stands here for the
  three bytes of its number.
- Jt808.PackThenRead: with a number that is not good the parameters are not looked for, because the walk could leave the
  message.
- CJsonParse.Parse: says what happens to texts of values; for texts that are none, only the literals, numbers and escapes
  are specified exactly. Parser and printer work on values, not on linked items, and `return_parse_end` and error
  positions are not modelled.
- CJsonGrammar.ParseText: a byte order mark before the text, which the parser skips and RFC 8259 section 8.1 lets it
  skip, is not part of a text.
- CJsonParse.ParseBuffer.ParseNumber: numbers with a fraction, an exponent or other forms that only `strtod` takes fail
  here, because doubles are not modelled.
- CJsonCompare.Compare: works on values, which stand for separate trees, without the shortcut for identical pointers and
  without raw items.
- CJsonDuplicate.Duplicate: missing strings are told from empty ones in the labels but not in the value denoted; the
  release of a partial copy after a failure is not modelled.
- CJsonList.DetachItemViaPointer: an item whose links lead into another list is excluded, as the function's name
  promises a child of the parent; an item without a predecessor that is not the first child is refused.
- CJsonList.ReplaceItemViaPointer: as for detaching, the item is a child of the parent; the replaced item is unlinked
  but its release is not modelled.
- cJSON_Minify, cJSON_Delete, object-level insertion and detaching by name: nothing beyond the list operations.
- StbJpeg.Jpeg.DecodeBlock: nothing is said when the bits run out within the unit. A finished Huffman table is an
  immutable value, and the tables are those built beforehand. Tables with a short word at index 255 are excluded by the
  precondition, as the exact condition of `HuffDecode` shows they must be.
- StbZlib.Zbuf.ParseZlib: the local copy of the output pointer is the field itself, and tables are built anew for every
  block. Buffer sizes are bounded by 32 bits.
- PngFilter.CreateImageRaw: the expansion of low bit depths, the added alpha channel, de-interlacing and byte order
  follow after the rows and are left out; rows are given with their length in bytes. The first bytes of a row and the
  others share one loop each for all filters.
- JpegRoundTrip.DecodeScan: scans of a single component, and scans with other sampling factors, are left out.
- GifStandard.RasterAgreesIff: minimum code sizes above 11, which GIF89a does not have, are not compared.
- StbGif.Gif.OutGifCode: pixels are colour numbers with positions; palette lookup, transparency and the history marks
  are not modelled.
- StbGif.Gif.ProcessGifRaster: pixels are colour numbers; palettes, transparency and disposal are not modelled.
- AesCipher.AesEncrypt: 32-bit words are four bytes; the loads and stores between them are not modelled.
- LinkFrame.ParseMsgHead: the buffer has at least 16 bytes, because the command length is read before the type is known.
  Handling of the stream around the test is left out.
- RingFifo.FirstInFirstOut: one producer, one consumer, no reset in between; the return value of the get, which is read
  after unlocking, is not modelled.
- HhdEscape.UnEscapeData: the buffer is one byte longer than the length, as the code requires.
- Jt808.Connection.InitMessage: nothing is said about the contents when the buffer does not hold a header; no message is
  packed then.
- Jt808.Connection.PackMessage: parameters are strings, or a word for the state; a string given for the state, which
  would be converted by `atoi`, is excluded. Fixed fields and fragmented messages are left out. What the walk does with
  each parameter is not modelled.
- Camera and gate logic, montage, FTP commands, SIP headers: thin or outside this code.
