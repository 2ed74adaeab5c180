# utf_tab-sharp core in Dafny

This project models the core of utf_tab-sharp, a C# reader for CRI
Middleware archives. The model has two parts.

- **CRILAYLA codec.** CRILAYLA is the LZ-style compression used inside CPK
  archives. A compressed block has the following layout:
  - a 16-byte header: the signature, the uncompressed size and the
    compressed size;
  - a bitstream stored back to front;
  - a 0x100-byte uncompressed prefix.

  The decoder rebuilds the output from the end towards the start. Each
  token is either a literal byte or a backreference. A backreference has
  a 13-bit distance and a variable-length length code. The encoder picks
  the longest backreference within the window, writes its bits through a
  bit accumulator, pads to a byte and then to a word, and writes the
  result reversed.
- **@UTF table reader.** An @UTF table is laid out as follows:
  - a signature and a big-endian header;
  - a schema of typed columns: per-row, constant or zero storage;
  - rows of fixed width;
  - a string table of zero-terminated names.

  `analyze_utf` checks the table and visits the queried row.
  `query_utf_nofail`, `query_utf_key` and the typed accessors return one
  cell of it.

Streams are modelled as byte sequences (`seq<byte>`) read at absolute
positions. A read at a negative position, or one that asks for bytes
past the end, is an `Err(UnexpectedEof)`. Seeking past the end is
allowed, so a read of no bytes succeeds at any position from 0 on. Each fatal error check of the program becomes its
own `Err` value.

Modules, one per source file:

| module | file | models |
|---|---|---|
| `Util` | `util.dfy` | the byte-order readers and the stream getters of Util.cs; also shared helpers (`Result`, big-/little-endian values, powers of two) |
| `Bits` | `bits.dfy` | bit sequences, most significant bit first, and their packing into bytes |
| `CrilaylaFormat` | `crilayla_format.dfy` | the CRILAYLA token format as functions: the length code, token parsing and the decoder's effect on the output buffer |
| `CpkUncompress` | `cpk_uncompress.dfy` | CpkUncompress.cs: the bit reader and the in-place decoder over an `array<byte>` |
| `CpkCompress` | `cpk_compress.dfy` | CpkCompress.cs: the `CrilaylaBitstream` class, the length writer, the backreference search and `compress` |
| `CrilaylaRoundTrip` | `crilayla_roundtrip.dfy` | the proof that uncompressing what `compress` writes gives back its input |
| `UtfTab` | `utf_tab.dfy` | UtfTab.cs: strings, schema, rows, `analyze_utf` and the query functions |

Loops and in-place updates in the source become methods with loop
invariants. Each method is proved equal to a specification function, and
the properties are proved about that function:
- `ReadString` is proved against `CStringAt`;
- `ReadSchema` against `SchemaFrom`;
- `ReadRow` against `ScanRow`;
- `AnalyzeUtf` against `Analyze`;
- `Uncompress` against `UncompressSpec`;
- `FindLongestBackreference` against `Longest`;
- `Compress` against `CompressSpec`.

## Model

| member | source | states |
|---|---|---|
| Util.ReadLe | utf_tab-sharp/utf_tab-sharp/Util.cs:39-48 | the shift-and-or loop returns the little-endian value of the first n bytes; the 32-bit register never overflows for n ≤ 4 |
| Util.Read32Le | utf_tab-sharp/utf_tab-sharp/Util.cs:39-43 | read_32_le is the little-endian value of bytes 0..3, written out byte by byte |
| Util.Read16Le | utf_tab-sharp/utf_tab-sharp/Util.cs:44-48 | read_16_le is the little-endian value of bytes 0..1 |
| Util.ReadBe | utf_tab-sharp/utf_tab-sharp/Util.cs:49-63 | the big-endian loop returns the big-endian value of the first n bytes, below 2^(8n) |
| Util.Read64Be | utf_tab-sharp/utf_tab-sharp/Util.cs:49-53 | read_64_be is the big-endian value of bytes 0..7 and fits in a ulong |
| Util.Read32Be | utf_tab-sharp/utf_tab-sharp/Util.cs:54-58 | read_32_be is the big-endian value of bytes 0..3, below 2^32, and equals the little-endian value of the same bytes reversed |
| Util.Read16Be | utf_tab-sharp/utf_tab-sharp/Util.cs:59-63 | read_16_be is 0x100 * b0 + b1, below 2^16 |
| Util.BeIsReversedLe | utf_tab-sharp/utf_tab-sharp/Util.cs:39-63 | the big-endian readers and the little-endian readers agree on reversed bytes |
| Util.BeValueInjective | utf_tab-sharp/utf_tab-sharp/Util.cs:49-63 | two byte strings of one length with the same big-endian value are equal, so comparing the 64-bit value compares the bytes |
| Util.Memcmp | utf_tab-sharp/utf_tab-sharp/Util.cs:156-169 | true exactly when both buffers are missing, or both are present with the same length and the same bytes |
| Util.ReadBytes | utf_tab-sharp/utf_tab-sharp/Util.cs:125-133 | succeeds exactly when pos is not negative and either no bytes are asked for or the n bytes at pos lie inside the stream, and then returns those bytes; otherwise UnexpectedEof |
| Util.GetByte | utf_tab-sharp/utf_tab-sharp/Util.cs:65-73 | succeeds exactly at a position inside the stream, and then returns the byte there |
| Util.Get16Be | utf_tab-sharp/utf_tab-sharp/Util.cs:74-83 | succeeds exactly when two bytes are there, and then returns them big-endian |
| Util.Get16Le | utf_tab-sharp/utf_tab-sharp/Util.cs:84-93 | succeeds exactly when two bytes are there, and then returns them little-endian |
| Util.Get32Be | utf_tab-sharp/utf_tab-sharp/Util.cs:94-103 | succeeds exactly when four bytes are there, and then returns their big-endian value, below 2^32 |
| Util.Get32Le | utf_tab-sharp/utf_tab-sharp/Util.cs:104-113 | succeeds exactly when four bytes are there, and then returns their little-endian value, below 2^32 |
| Util.Get64Be | utf_tab-sharp/utf_tab-sharp/Util.cs:114-123 | succeeds exactly when eight bytes are there, and then returns their big-endian value, below 2^64 |
| Bits.UnpackPack | utf_tab-sharp/utf_tab-sharp/CpkCompress.cs:112-119 | bytes filled most significant bit first and read back most significant bit first give the same bits |
| Bits.FieldRoundTrip | utf_tab-sharp/utf_tab-sharp/CpkCompress.cs:76-110 | a field of w bits written by a PushBits call is read back as the same number when it fits in w bits |
| Bits.NatToBitsOfValue | utf_tab-sharp/utf_tab-sharp/CpkUncompress.cs:13-40 | the bits read as a number and written back at the same width are the same bits |
| CrilaylaFormat.FieldMax | utf_tab-sharp/utf_tab-sharp/CpkUncompress.cs:76-91 | the escape value of each length field is all ones at its width: 3, 7, 31, then 255 |
| CrilaylaFormat.ParseLength | utf_tab-sharp/utf_tab-sharp/CpkUncompress.cs:74-91 | the decoded length is at least the running total and consumes at least one field; the only failure is running out of bits |
| CrilaylaFormat.ParseToken | utf_tab-sharp/utf_tab-sharp/CpkUncompress.cs:71-103 | a decoded token always consumes bits and is well formed (13-bit distance, length ≥ 3); the only failure is running out of bits |
| CrilaylaFormat.ParseTokenBackref | utf_tab-sharp/utf_tab-sharp/CpkUncompress.cs:71-92 | a 1 flag is followed by a 13-bit distance and the length code starting from 3; the token fails exactly when one of them runs out |
| CrilaylaFormat.ParseTokenLiteral | utf_tab-sharp/utf_tab-sharp/CpkUncompress.cs:98-103 | a 0 flag is followed by the 8 bits of the verbatim byte; it fails exactly when fewer than 9 bits remain |
| CrilaylaFormat.CopyBack | utf_tab-sharp/utf_tab-sharp/CpkUncompress.cs:94-97 | copying a backreference never changes the buffer's size |
| CrilaylaFormat.ApplyToken | utf_tab-sharp/utf_tab-sharp/CpkUncompress.cs:71-103 | every token keeps the buffer's size and strictly increases bytes_output |
| CrilaylaFormat.DecodeFrom | utf_tab-sharp/utf_tab-sharp/CpkUncompress.cs:70-104 | the decoding loop ends with at least the requested number of bytes output and the buffer's size unchanged |
| CrilaylaFormat.LengthFieldsSum | utf_tab-sharp/utf_tab-sharp/CpkCompress.cs:132-164 | the fields WriteBackrefLength emits add up to the length minus 3 |
| CrilaylaFormat.LengthFieldsForm | utf_tab-sharp/utf_tab-sharp/CpkCompress.cs:132-164 | the fields have widths 2, 3, 5, then 8; every field but the last holds its escape value, and the last holds less |
| CrilaylaFormat.LengthFieldsStep | utf_tab-sharp/utf_tab-sharp/CpkCompress.cs:132-164 | below the escape value one field ends the code; otherwise an all-ones field is followed by the code of what remains, one level up |
| CrilaylaFormat.ParseLengthStep | utf_tab-sharp/utf_tab-sharp/CpkUncompress.cs:79-83 | one level of the decoder adds the field's value, and goes on to the next level exactly when the field is all ones |
| CrilaylaFormat.ParseLengthEof | utf_tab-sharp/utf_tab-sharp/CpkUncompress.cs:79-91 | a length field cut off by the end of the input is an error |
| CrilaylaFormat.ParseLengthFields | utf_tab-sharp/utf_tab-sharp/CpkUncompress.cs:74-91 | the decoder reads any field sequence the encoder emits back as the encoded remainder, and stops right after it |
| CrilaylaFormat.LengthCodeRoundTrip | utf_tab-sharp/utf_tab-sharp/CpkCompress.cs:132-164 | the decoder of CpkUncompress.cs:74-91 reads WriteBackrefLength's bits for any length ≥ 3 back as that length |
| CrilaylaFormat.TokenRoundTrip | utf_tab-sharp/utf_tab-sharp/CpkCompress.cs:204-219 | any token the compressor emits (a flag, then a literal byte or a distance and a length) is parsed back as the same token, consuming exactly its bits |
| CrilaylaFormat.CopyBackEffect | utf_tab-sharp/utf_tab-sharp/CpkUncompress.cs:94-97 | the copy succeeds exactly when the source and destination indexes stay inside the buffer; afterwards each destination byte equals the byte delta above it, and every other byte is unchanged |
| CrilaylaFormat.ApplyTokenFrame | utf_tab-sharp/utf_tab-sharp/CpkUncompress.cs:94-102 | a token writes only below output_end - bytes_output; the bytes in front of what has been produced are untouched |
| CrilaylaFormat.DecodeFromFrame | utf_tab-sharp/utf_tab-sharp/CpkUncompress.cs:70-104 | the whole decoding loop leaves the bytes in front of its output untouched, so the 0x100-byte prefix survives |
| CpkUncompress.CrilaylaBytesValue | utf_tab-sharp/utf_tab-sharp/CpkUncompress.cs:10 | CRILAYLA_sig is the ASCII text "CRILAYLA" read big-endian |
| CpkUncompress.StreamBitsIsStream | utf_tab-sharp/utf_tab-sharp/CpkUncompress.cs:13-40 | the bit order the reader follows: bytes from input_end down to the start, each from its most significant bit |
| CpkUncompress.GetNextBits | utf_tab-sharp/utf_tab-sharp/CpkUncompress.cs:13-40 | get_next_bits succeeds exactly when count more bits remain; it returns their value, below 2^count, and advances the cursor by count bits |
| CpkUncompress.VleLens | utf_tab-sharp/utf_tab-sharp/CpkUncompress.cs:77-78 | vle_lens holds the widths of the length code's four levels, and (1 << width) - 1 is each level's escape value |
| CpkUncompress.ReadLevel | utf_tab-sharp/utf_tab-sharp/CpkUncompress.cs:79-84 | one pass of the vle_level loop is one step of the length decoder: it stops on a non-escape value and goes on after an escape |
| CpkUncompress.ReadLength | utf_tab-sharp/utf_tab-sharp/CpkUncompress.cs:74-91 | the length-decoding loops return exactly the length decoded by ParseLength, with the cursor after its bits, or its error |
| CpkUncompress.ReadLengthTail | utf_tab-sharp/utf_tab-sharp/CpkUncompress.cs:85-91 | the do-while loop over 8-bit fields equals the length decoder from level 4 on |
| CpkUncompress.CopyBackward | utf_tab-sharp/utf_tab-sharp/CpkUncompress.cs:94-97 | the in-place copy loop leaves the array as CopyBack describes, or fails when an index leaves the buffer |
| CpkUncompress.SignatureOkMeaning | utf_tab-sharp/utf_tab-sharp/CpkUncompress.cs:44-48 | the signature check passes exactly on eight zero bytes or on "CRILAYLA", and fails when fewer than 8 bytes are present |
| CpkUncompress.BlockLayoutMeaning | utf_tab-sharp/utf_tab-sharp/CpkUncompress.cs:44-56 | a bad signature is rejected; otherwise the block is accepted exactly when the header's compressed size puts the 0x100-byte prefix at the end of input_size; the sizes are read little-endian |
| CpkUncompress.UncompressShape | utf_tab-sharp/utf_tab-sharp/CpkUncompress.cs:58-109 | a successful uncompress writes 0x100 + uncompressed_size bytes; it returns at least that count; when the count is exact, the written prefix is the stored 0x100-byte header |
| CpkUncompress.ReadBackref | utf_tab-sharp/utf_tab-sharp/CpkUncompress.cs:72-91 | the reads after a 1 flag return the backreference ParseToken decodes, with the cursor after its bits, or its error |
| CpkUncompress.ReadToken | utf_tab-sharp/utf_tab-sharp/CpkUncompress.cs:71-103 | one flag and its token are read exactly as ParseToken decodes them |
| CpkUncompress.ApplyTokenInPlace | utf_tab-sharp/utf_tab-sharp/CpkUncompress.cs:94-103 | writing a token into the array gives the array and the bytes_output that ApplyToken specifies |
| CpkUncompress.DecodeLoop | utf_tab-sharp/utf_tab-sharp/CpkUncompress.cs:70-104 | the main loop over the array ends as DecodeFrom describes, or with its error |
| CpkUncompress.Uncompress | utf_tab-sharp/utf_tab-sharp/CpkUncompress.cs:42-110 | uncompress returns what UncompressSpec specifies: the errors for a bad signature, a size mismatch or a short stream, or the written bytes and their count |
| CpkCompress.PadBits | utf_tab-sharp/utf_tab-sharp/CpkCompress.cs:122-124 | Finalize pads fewer than 8 zero bits, reaching a byte boundary |
| CpkCompress.PadBytes | utf_tab-sharp/utf_tab-sharp/CpkCompress.cs:125-127 | Finalize pads fewer than 4 zero bytes, reaching a 4-byte boundary |
| CpkCompress.CrilaylaBitstream.constructor | utf_tab-sharp/utf_tab-sharp/CpkCompress.cs:71-74 | a new bitstream has no bytes, no pending bits and an empty accumulator |
| CpkCompress.CrilaylaBitstream.FlushFullBytes | utf_tab-sharp/utf_tab-sharp/CpkCompress.cs:112-119 | moves every complete byte of pending bits into the buffer, most significant first, leaving fewer than 8 pending; the bits pushed so far are unchanged |
| CpkCompress.CrilaylaBitstream.Push | utf_tab-sharp/utf_tab-sharp/CpkCompress.cs:76-110 | the shared body of PushBits: appends the low width bits of the value to the stream; the 32-bit accumulator wraps as a uint does |
| CpkCompress.CrilaylaBitstream.PushBit | utf_tab-sharp/utf_tab-sharp/CpkCompress.cs:76-80 | appends one bit, then flushes complete bytes |
| CpkCompress.CrilaylaBitstream.PushBits2 | utf_tab-sharp/utf_tab-sharp/CpkCompress.cs:82-86 | appends the low 2 bits of the value, then flushes complete bytes |
| CpkCompress.CrilaylaBitstream.PushBits3 | utf_tab-sharp/utf_tab-sharp/CpkCompress.cs:88-92 | appends the low 3 bits of the value, then flushes complete bytes |
| CpkCompress.CrilaylaBitstream.PushBits5 | utf_tab-sharp/utf_tab-sharp/CpkCompress.cs:94-98 | appends the low 5 bits of the value, then flushes complete bytes |
| CpkCompress.CrilaylaBitstream.PushBits8 | utf_tab-sharp/utf_tab-sharp/CpkCompress.cs:100-104 | appends the low 8 bits of the value; exactly one byte is completed and the number of pending bits is unchanged |
| CpkCompress.CrilaylaBitstream.PushBits13 | utf_tab-sharp/utf_tab-sharp/CpkCompress.cs:106-110 | appends the low 13 bits of the value, then flushes complete bytes |
| CpkCompress.CrilaylaBitstream.PadToByte | utf_tab-sharp/utf_tab-sharp/CpkCompress.cs:122-124 | pushes zero bits up to a byte boundary; no bits are pending afterwards |
| CpkCompress.CrilaylaBitstream.PadToWord | utf_tab-sharp/utf_tab-sharp/CpkCompress.cs:125-127 | appends zero bytes up to a multiple of 4 bytes, and changes nothing else |
| CpkCompress.CrilaylaBitstream.Finalize | utf_tab-sharp/utf_tab-sharp/CpkCompress.cs:121-129 | the returned buffer is every bit pushed, packed into bytes and padded with zeros to a byte and then to a 4-byte boundary |
| CpkCompress.WriteBackrefLength | utf_tab-sharp/utf_tab-sharp/CpkCompress.cs:132-164 | appends exactly the length code of the length (fields of 2, 3, 5, then 8 bits, all ones while more follows); the decoder reads it back by LengthCodeRoundTrip |
| CpkCompress.WriteLengthTail | utf_tab-sharp/utf_tab-sharp/CpkCompress.cs:156-163 | the final loop appends 255 while at least 255 remains, then the remainder; this is the level-3 code of the rest |
| CpkCompress.MatchLen | utf_tab-sharp/utf_tab-sharp/CpkCompress.cs:175-182 | a match running backwards from pos never extends past the start of the data |
| CpkCompress.MatchLenMeaning | utf_tab-sharp/utf_tab-sharp/CpkCompress.cs:175-182 | the matched bytes ending at pos and at the candidate are equal; the match stops at the start of the data or at the first differing byte, so it is maximal |
| CpkCompress.BestFromMeaning | utf_tab-sharp/utf_tab-sharp/CpkCompress.cs:169-187 | the scan over the remaining distances keeps a match at least as long as the best so far; no distance it visits beats it, and it is the first distance of that length |
| CpkCompress.LongestMatches | utf_tab-sharp/utf_tab-sharp/CpkCompress.cs:166-188 | the chosen distance lies in the 13-bit window, the length is at most pos, and a non-zero length names bytes that really repeat |
| CpkCompress.LongestEndsMatch | utf_tab-sharp/utf_tab-sharp/CpkCompress.cs:166-188 | a non-zero length is the match length at the chosen distance |
| CpkCompress.LongestIsFirstLongest | utf_tab-sharp/utf_tab-sharp/CpkCompress.cs:166-188 | no distance in the window gives a longer match, and no shorter distance gives an equally long one |
| CpkCompress.WalkMatch | utf_tab-sharp/utf_tab-sharp/CpkCompress.cs:175-182 | the inner while loop computes the backward match length |
| CpkCompress.FindLongestBackreference | utf_tab-sharp/utf_tab-sharp/CpkCompress.cs:166-188 | the search loop returns the distance and length that Longest specifies: the longest match, and among those the nearest |
| CpkCompress.Tokens | utf_tab-sharp/utf_tab-sharp/CpkCompress.cs:204-219 | every token the main loop emits is well formed |
| CpkCompress.TokensStep | utf_tab-sharp/utf_tab-sharp/CpkCompress.cs:204-219 | a match of at least 3 is emitted as a backreference and skips its length; otherwise the byte is emitted as a literal |
| CpkCompress.EncodeBody | utf_tab-sharp/utf_tab-sharp/CpkCompress.cs:201-219 | the main loop pushes exactly the bits of the token sequence for the whole input, from its end to its start |
| CpkCompress.WriteReversed | utf_tab-sharp/utf_tab-sharp/CpkCompress.cs:243-248 | the finalized bitstream is appended back to front |
| CpkCompress.Compress | utf_tab-sharp/utf_tab-sharp/CpkCompress.cs:190-255 | compress returns what CompressSpec specifies: an error for input of 0x100 bytes or less, or for a range outside the stream; otherwise the container and its size |
| CpkCompress.WriteContainer | utf_tab-sharp/utf_tab-sharp/CpkCompress.cs:221-254 | writes header, reversed bitstream and the 0x100-byte prefix, and returns the byte count, as Packed specifies |
| CrilaylaRoundTrip.LiteralStep | utf_tab-sharp/utf_tab-sharp/CpkCompress.cs:214-218 | decoding a literal restores the byte the compressor read at that position |
| CrilaylaRoundTrip.BackrefStep | utf_tab-sharp/utf_tab-sharp/CpkCompress.cs:209-213 | decoding a backreference over repeated bytes restores the repeated run, the overlapping case included |
| CrilaylaRoundTrip.LongestStep | utf_tab-sharp/utf_tab-sharp/CpkCompress.cs:206-213 | the backreference the search returns restores its bytes when decoded |
| CrilaylaRoundTrip.DecodeTokens | utf_tab-sharp/utf_tab-sharp/CpkCompress.cs:204-219 | the decoder, run on the compressor's token bits, rebuilds the prefix followed by the whole input |
| CrilaylaRoundTrip.StreamBitsFrom | utf_tab-sharp/utf_tab-sharp/CpkCompress.cs:243-248 | reading the reversed bytes back from the end gives the bits of the finalized bitstream in order |
| CrilaylaRoundTrip.FinalizedStarts | utf_tab-sharp/utf_tab-sharp/CpkCompress.cs:121-129 | padding only appends: the finalized bytes begin with every bit pushed |
| CrilaylaRoundTrip.FinalizedSize | utf_tab-sharp/utf_tab-sharp/CpkCompress.cs:121-129 | the finalized buffer is a multiple of 4 bytes, with less than 32 bits of padding |
| CrilaylaRoundTrip.TokensBitsBound | utf_tab-sharp/utf_tab-sharp/CpkCompress.cs:204-219 | the tokens take at most 9 bits per input byte |
| CrilaylaRoundTrip.FieldBitsBound | utf_tab-sharp/utf_tab-sharp/CpkCompress.cs:132-164 | a length code takes at most 8 + 3 * (length - 3) bits |
| CrilaylaRoundTrip.LeBytes4RoundTrip | utf_tab-sharp/utf_tab-sharp/CpkCompress.cs:233-240 | a size written a byte at a time, low byte first, reads back little-endian as its low 32 bits; a size below 2^32 reads back as itself |
| CrilaylaRoundTrip.BeBytes8Value | utf_tab-sharp/utf_tab-sharp/CpkCompress.cs:225-232 | the signature written a byte at a time, high byte first, reads back big-endian as the low 64 bits of the value written |
| CrilaylaRoundTrip.SignatureBytes | utf_tab-sharp/utf_tab-sharp/CpkCompress.cs:225-232 | the signature the compressor writes is the text "CRILAYLA" the decoder accepts |
| CrilaylaRoundTrip.ContainerLayout | utf_tab-sharp/utf_tab-sharp/CpkCompress.cs:221-251 | the decoder's signature and size checks accept the compressor's container, and locate the prefix and the bitstream |
| CrilaylaRoundTrip.ContainerHead | utf_tab-sharp/utf_tab-sharp/CpkCompress.cs:251 | the 0x100 bytes the decoder takes as the uncompressed header are the prefix the compressor copied |
| CrilaylaRoundTrip.ContainerStream | utf_tab-sharp/utf_tab-sharp/CpkCompress.cs:221-248 | the bits the decoder reads from the container start with every bit the compressor pushed |
| CrilaylaRoundTrip.CompressSpecOk | utf_tab-sharp/utf_tab-sharp/CpkCompress.cs:190-200 | compress succeeds exactly for more than 0x100 bytes inside the stream; it then packs the first 0x100 bytes as the prefix and compresses the rest |
| CrilaylaRoundTrip.PackedShape | utf_tab-sharp/utf_tab-sharp/CpkCompress.cs:221-254 | the container starts with "CRILAYLA", ends with the prefix, is a multiple of 4 bytes, and its returned size is its length |
| CrilaylaRoundTrip.ContainerShape | utf_tab-sharp/utf_tab-sharp/CpkCompress.cs:221-251 | the container is 0x10 header bytes, the bitstream and the 0x100-byte prefix |
| CrilaylaRoundTrip.CompressShape | utf_tab-sharp/utf_tab-sharp/CpkCompress.cs:190-255 | on exactly the inputs compress accepts, the result starts with "CRILAYLA", ends with the input's first 0x100 bytes, and its length is a multiple of 4 equal to the returned count |
| CrilaylaRoundTrip.PackedRoundTrip | utf_tab-sharp/utf_tab-sharp/CpkCompress.cs:190-255 | uncompressing a packed container returns the prefix followed by the input, and the byte count |
| CrilaylaRoundTrip.CompressRoundTrip | utf_tab-sharp/utf_tab-sharp/CpkCompress.cs:190-255 | uncompress (CpkUncompress.cs:42-110) applied to what compress writes returns exactly the bytes that were compressed |
| UtfTab.CStringLenMeaning | utf_tab-sharp/utf_tab-sharp/UtfTab.cs:91-99 | the counted length covers exactly the non-zero bytes up to the first zero or the end of the table |
| UtfTab.CStringAtMeaning | utf_tab-sharp/utf_tab-sharp/UtfTab.cs:91-99 | a string read succeeds exactly at an offset inside the table; it returns the bytes there up to, not including, a zero byte or the end |
| UtfTab.ReadString | utf_tab-sharp/utf_tab-sharp/UtfTab.cs:91-99 | the counting loop returns the string CStringAt specifies, or BadStringOffset past the end |
| UtfTab.HeaderFields | utf_tab-sharp/utf_tab-sharp/UtfTab.cs:140-150 | the header is read exactly when its 28 bytes follow the signature; each field is the big-endian number at its fixed place |
| UtfTab.NotUtfTable | utf_tab-sharp/utf_tab-sharp/UtfTab.cs:119-138 | without "@UTF" the result is not valid and not found, for any query, and nothing after the signature is read |
| UtfTab.ReadSchema | utf_tab-sharp/utf_tab-sharp/UtfTab.cs:158-199 | the schema loop returns the columns SchemaFrom specifies, or its error |
| UtfTab.SkipConstantWidth | utf_tab-sharp/utf_tab-sharp/UtfTab.cs:169-196 | a constant column's value is skipped by its type's width, or is an error when the type has no width or the bytes are not there |
| UtfTab.ReadValueMeaning | utf_tab-sharp/utf_tab-sharp/UtfTab.cs:270-404 | a value is the big-endian number in its type's width (a data value is two 32-bit numbers); bytes_read is that width; a type without a width is an error |
| UtfTab.ConstantSkipMatchesRead | utf_tab-sharp/utf_tab-sharp/UtfTab.cs:169-196 | the schema loop skips exactly the bytes the row reader (UtfTab.cs:270-404) reads for the same constant |
| UtfTab.SchemaLayout | utf_tab-sharp/utf_tab-sharp/UtfTab.cs:158-199 | the schema loop returns one column per entry; the entries lie back to back, each a type byte and a name, with a constant's value inline |
| UtfTab.TableSchema | utf_tab-sharp/utf_tab-sharp/UtfTab.cs:158-199 | a table read has exactly header.columns columns; column k is the entry at offset + 32 plus the sizes of the entries before it |
| UtfTab.ValueDataRoundTrip | utf_tab-sharp/utf_tab-sharp/UtfTab.cs:30-33 | the value_data getter returns the offset and size its setter was given |
| UtfTab.ValueDataRepacks | utf_tab-sharp/utf_tab-sharp/UtfTab.cs:30-33 | setting value_data to what the getter returns leaves a 64-bit internal value unchanged |
| UtfTab.RowOffsetStride | utf_tab-sharp/utf_tab-sharp/UtfTab.cs:223-225 | row i + 1 starts row_width bytes after row i, and no row starts before the rows area |
| UtfTab.RowOffsetAsWrittenAgrees | utf_tab-sharp/utf_tab-sharp/UtfTab.cs:223-225 | the 32-bit row computation as written agrees with the intended one while i * row_width fits in an int |
| UtfTab.RowOffsetOverflow | utf_tab-sharp/utf_tab-sharp/UtfTab.cs:223-225 | for row 40000 of 60000-byte rows, the computation as written lands before the table (see Findings) |
| UtfTab.LastMatch | utf_tab-sharp/utf_tab-sharp/UtfTab.cs:238-249 | the column found is one of the schema's columns |
| UtfTab.LastMatchMeaning | utf_tab-sharp/utf_tab-sharp/UtfTab.cs:238-249 | the column found carries the name, and no later column does; none is found exactly when no column carries the name |
| UtfTab.ScanColumnMeaning | utf_tab-sharp/utf_tab-sharp/UtfTab.cs:233-404 | one column advances the row cursor by its per-row bytes; it changes the result only when the column carries the queried name, and then records its type and stored value |
| UtfTab.ReadColumn | utf_tab-sharp/utf_tab-sharp/UtfTab.cs:233-404 | one pass of the column loop returns the cursor and result ScanColumn specifies, or its error |
| UtfTab.ReadRow | utf_tab-sharp/utf_tab-sharp/UtfTab.cs:228-414 | the column loop and the row width check return what ScanRow specifies |
| UtfTab.ScanColumnsCursor | utf_tab-sharp/utf_tab-sharp/UtfTab.cs:251-268 | after the column loop the cursor has moved by the per-row bytes of every column; constant and zero columns take none |
| UtfTab.ScanColumnsResult | utf_tab-sharp/utf_tab-sharp/UtfTab.cs:238-264 | the column loop leaves the result as the last column carrying the name sets it: found, its type, and its value read at its place in the row |
| UtfTab.ScanRowMeaning | utf_tab-sharp/utf_tab-sharp/UtfTab.cs:413-414 | a row succeeds exactly when the per-row bytes add up to row_width; otherwise it fails with the width mismatch |
| UtfTab.ScanRowQuery | utf_tab-sharp/utf_tab-sharp/UtfTab.cs:216-416 | the queried row is found exactly when a column carries the name; the value is then the last such column's cell; otherwise the result is unchanged |
| UtfTab.AnalyzeUtf | utf_tab-sharp/utf_tab-sharp/UtfTab.cs:101-430 | analyze_utf with printing off returns what Analyze specifies; rows are located with the corrected 64-bit row start (see Findings and Left out) |
| UtfTab.AnalyzeCases | utf_tab-sharp/utf_tab-sharp/UtfTab.cs:119-226 | a signature that cannot be read is an error; a wrong signature gives "not a table"; otherwise the table's read error, or its defaults, or the scan of the queried row when the index is in range |
| UtfTab.AnalyzeResult | utf_tab-sharp/utf_tab-sharp/UtfTab.cs:108-214 | valid holds exactly when the signature is "@UTF"; found implies valid and a query; a valid result carries the header's rows, name, string-table and data offsets |
| UtfTab.AnalyzeOnTable | utf_tab-sharp/utf_tab-sharp/UtfTab.cs:208-226 | a valid result comes from a readable table: the queried row's scan, or the defaults |
| UtfTab.TableQuery | utf_tab-sharp/utf_tab-sharp/UtfTab.cs:216-416 | whatever the index, the result of a table's query is its defaults or the named cell of the queried row |
| UtfTab.AnalyzeQuery | utf_tab-sharp/utf_tab-sharp/UtfTab.cs:101-430 | a query is found exactly when the index is a row of the table and a column carries the name; the type and value are then that column's cell at its place in the row, and 0 for a zero column |
| UtfTab.NofailMeaning | utf_tab-sharp/utf_tab-sharp/UtfTab.cs:436-443 | query_utf_nofail passes on exactly the valid results, found for a query; otherwise it gives the read error, InvalidTable or KeyNotFound |
| UtfTab.NofailTable | utf_tab-sharp/utf_tab-sharp/UtfTab.cs:436-443 | without a query, query_utf_nofail returns the table's defaults |
| UtfTab.KeyNotFoundCases | utf_tab-sharp/utf_tab-sharp/UtfTab.cs:444-450 | a row index outside the table, or a name no column carries, gives KeyNotFound |
| UtfTab.KeyOutcome | utf_tab-sharp/utf_tab-sharp/UtfTab.cs:444-450 | a successful query_utf_key is a found cell of a readable table, as AnalyzeQuery describes |
| UtfTab.OutcomeValues | utf_tab-sharp/utf_tab-sharp/UtfTab.cs:25-34 | the getter of the found cell's type returns the number stored in the file (offset and size for data), untruncated |
| UtfTab.CellStoredNumber | utf_tab-sharp/utf_tab-sharp/UtfTab.cs:324-396 | a non-data cell stores the big-endian number in its width |
| UtfTab.CellNumberBound | utf_tab-sharp/utf_tab-sharp/UtfTab.cs:336-367 | a 4-byte or string cell fits in 32 bits and a 2-byte cell in 16, so the truncating getters lose nothing |
| UtfTab.CellStoredData | utf_tab-sharp/utf_tab-sharp/UtfTab.cs:296-322 | a data cell stores its offset and size as value_data packs them, each below 2^32 |
| UtfTab.GettersOnCell | utf_tab-sharp/utf_tab-sharp/UtfTab.cs:25-34 | the value_u64, value_u32, value_u16, value_string and value_data getters each return the cell as it is stored in the file |
| UtfTab.TypedAccessors | utf_tab-sharp/utf_tab-sharp/UtfTab.cs:452-497 | each typed accessor succeeds exactly on a found key of its own type, at most one of them succeeds, a found key of another type is TypeMismatch, and the value is the getter of that type |
| UtfTab.QueryUtfStringInMeaning | utf_tab-sharp/utf_tab-sharp/UtfTab.cs:483-491 | the string query returns the zero-terminated string at the cell's offset in the given string table |
| UtfTab.EmptyStringTable | utf_tab-sharp/utf_tab-sharp/UtfTab.cs:152-205 | an empty string table (data_offset == string_table_offset) reads as the single appended zero byte wherever it lies, failing only at a negative position |
| UtfTab.EmptyTableValid | utf_tab-sharp/utf_tab-sharp/UtfTab.cs:203-214 | a table with no columns whose string table and data offsets are equal is valid without a query, with those offsets in the result, and load_utf_string_table returns just the zero byte, however far past the end the offsets point |
| UtfTab.LoadUtfStringTableMatches | utf_tab-sharp/utf_tab-sharp/UtfTab.cs:470-481 | load_utf_string_table returns the string table analyze_utf reads, as long as string_table_offset + 8 does not wrap |

## Left out

- Printing is left out: printf_indent, the table dump, and the recursive dump of nested @UTF tables in data cells (UtfTab.cs:312-319). `analyze_utf` is modelled with print off. query_utf is analyze_utf with print off, so both are the function `Analyze`.
- UtfView.cs, CpkUnpack.cs and ErrorStuff.cs are not part of this model. ErrorStuff's fatal checks become `Err` results of the operations that make them.
- Writing the output stream (put_bytes_seek in uncompress and in the callers of compress) is left out. `Uncompress` returns the bytes it would write; `Compress` returns the container bytes and their count.
- Allocation failure (the "malloc" checks) is not modelled, since arrays are allocated by Dafny.
- Column names are compared as bytes. The source decodes them as UTF-8 into .NET strings first. Invalid UTF-8 can make two different byte strings decode equal, and the model does not capture that.
- UtfTab.TypedAccessors: floats are not decoded. A float cell keeps its raw 32 bits, as value_u32 holds them; value_float and the float reinterpretation are left out.
- The value_u8 getter is not modelled. No accessor in the core uses it, and the one-byte cell's value is still stored.
- UtfTab.AnalyzeUtf: the row counter `i` is a C# int. With a negative query index, a table of 2^31 rows or more would wrap it; the model's counter is unbounded.
- UtfTab.AnalyzeUtf: rows are located with the corrected row start `RowOffset`, where i * row_width is an unbounded product. The source computes that product in 32-bit int arithmetic (see Findings). The two agree while i * row_width < 2^31 (`RowOffsetAsWrittenAgrees`). From 2^31 on, the source seeks to a wrapped position and the model does not.
- UtfTab.ReadString: the `(int)offset` cast for string offsets of 2^31 or more is not modelled. Offsets are taken as unsigned.
- UtfTab.LoadUtfStringTableMatches: proved only when string_table_offset + 8 fits in 32 bits. Past that, analyze_utf wraps the position in uint arithmetic, while load_utf_string_table computes it in long arithmetic. Both are modelled as written, so they read different places.
- Index exceptions become errors. A backreference that reaches outside the output buffer (for example, the last one running past its start) is an `Err` in the model, where .NET throws.
- CrilaylaRoundTrip.CompressRoundTrip: proved for inputs shorter than 2^31 bytes, which is the range of a C# int length.
- The bit accumulator of `CrilaylaBitstream` is an unbounded number kept modulo 2^32, as a uint wraps. A ghost sequence of the bits pushed exists only for the proofs.
- Streams are byte sequences with absolute positions, not stream objects with a current position. The sequential reads of the source are written at their computed positions.

## Findings

| source | as written | input that shows it | evidently intended | confidence | as-written member | corrected member |
|---|---|---|---|---|---|---|
| utf_tab-sharp/utf_tab-sharp/UtfTab.cs:223-225 | the row position adds `i * table_info.row_width`, a product of two ints, so it is computed in 32-bit arithmetic and wraps before it is widened to long | query row 40000 of a table whose rows are 60000 bytes: 2400000000 wraps to -1894967296. For a table near the start of the stream the row position is negative, so setting Stream.Position throws and the get_*_seek read fails. Further into the stream, the row is read from bytes before the table | the product computed in 64 bits, so row i starts i * row_width bytes into the rows area | not executed | UtfTab.RowOffsetOverflow | UtfTab.RowOffsetStride |
