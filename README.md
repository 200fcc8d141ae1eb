# OoT compressor tools in Dafny

This project models the core of the Ocarina of Time ROM compressor and decompressor:

- **Yaz0** (`yaz0.dfy`): the codec of yaz0.cpp. It covers the match search `simpleEnc`,
  the one-step look-ahead `nintendoEnc` and the stream writer `yaz0_encode_internal`,
  which emits groups of eight tokens behind a control byte. It also covers `yaz0_encode`
  (16-byte header, stream, padding to a 16-byte multiple), `yaz0_decode`, `yaz0_get_size`
  and `toDWORD`.
- **Util** (`util.dfy`): util.h's `byteSwap` and `bigendian` for a little- or big-endian
  host, plus the helpers the tools share: the default output name, `memset` to the end,
  `vector::resize`, and the `uint32_t` to `int32_t` conversion.
- **Rom** (`rom.dfy`):
  - the 16-byte file-table entry of rom.h: parse, write, `is_compressed`, `size`;
  - the `N64ROM` object: load with the 16-bit byte swap of `loadROM`, `findTable`,
    `readTable`, `writeTable`.
- **FindTableTool** (`findtable.dfy`): the free `findTable` of findtable.cpp.
- **TableExtractor** (`tableextractor.dfy`): tableExtractor.cpp. It lists, one character
  per table entry, which files are compressed.
- **Decompressor** (`decompressor.dfy`): `decompress`.
  - Every file is decoded or copied to its virtual address.
  - The output table is rewritten.
  - A compression index of one byte per entry is stored after the last file.
- **Compressor** (`compressor.dfy`): `compress`.
  - The files the index flags are Yaz0-encoded.
  - All files from entry 3 on are laid out one after the other in a COMPSIZE image.
  - The table records their new physical addresses.

Each step of the source that changes state is a method: the loops of the codec over
arrays, the `N64ROM` class whose methods update its image and tables, and the loops of
`decompress` and `compress` over that object. Each method is proved against a
specification function. The main results are:

- the codec round trip (`Yaz0.RoundTrip`);
- the table read/write round trips (`Rom.WriteParse`, `Rom.TableWriteBack`);
- the layout `decompress` produces (`Decompressor.LayoutTable`, `Decompressor.LayoutIndex`);
- the layout `compress` produces (`Compressor.LayoutContiguous`,
  `Compressor.LayoutContents`);
- that every file of the compressed image decompresses, through the decompressor's own
  transfer step, back to the original file (`Compressor.RunRestores`).

The host's byte order is a parameter (`Endian`: `Little` or `Big`). File contents are
parameters and results: the model never opens a file.

Where the documented design and the code differ, the model follows the code:

- The decompressor skips an entry when its `endV` is 0 (decompressor.cpp:52), not when
  `startV == endV`.
- When the second table marker is missing, `findTable` does not fail. It returns the
  image size less 4 (rom.cpp:70-79).
- `cpu_count` gives 2, not at least 3, when the hardware concurrency is unknown
  (compressor.cpp:24-25).

## Model

| member | source | states |
|---|---|---|
| Util.ByteSwap16 | util.h:20-26 | the result fits 16 bits; its high byte is x's low byte and its low byte is x's high byte |
| Util.ByteSwap16Involution | util.h:20-26 | swapping the two bytes twice gives the value back |
| Util.ByteSwap32Bytes | util.h:28-34 | byte i of byteSwap(x) is byte 3 - i of x |
| Util.ByteSwap32Involution | util.h:28-34 | byteSwap twice is the identity on 32-bit words |
| Util.BigEndian16 | util.h:43-48 | identity on a big-endian host; swaps the two bytes on a little-endian host |
| Util.BigEndian32Involution | util.h:36-41 | bigendian applied twice is the identity, on either host |
| Util.BigEndian16Involution | util.h:43-48 | the same for the 16-bit overload |
| Util.LoadBigEndian | rom.h:14-18 | a word loaded natively and passed through bigendian is the bytes read most significant first, whatever the host |
| Util.StoreBigEndian | rom.h:27-31 | bigendian(x) stored natively lays x out most significant byte first, whatever the host |
| Util.SwapStoredWord | rom.cpp:46-50 | loading a 16-bit word, byteSwap and storing it back exchanges the two bytes in memory, on either host |
| Util.FindLastOf | decompressor.cpp:27 | find_last_of('.'): the index of the last '.', or none exactly when there is no '.' |
| Util.OutputNameDefault | decompressor.cpp:25-27 | the default output name is the input name up to its last '.' (all of it when there is none) followed by the suffix; compressor.cpp:107-109 uses the same rule with "-comp.z64" |
| Util.AsSigned32 | decompressor.cpp:55-56 | the int32_t a uint32_t converts to lies in the int32 range and is congruent to it modulo 2^32 |
| Util.Cleared | compressor.cpp:76 | memset from `start` to the end: same length, bytes before start kept, zeros from start on |
| Util.Resize | rom.cpp:25 | vector::resize: length n, the old bytes kept where they exist, zeros after |
| Rom.TableEntry.Size | rom.h:35 | endV - startV in 32-bit arithmetic: startV + size wraps to endV, and is the plain difference when startV <= endV |
| Rom.ParseEntry | rom.h:12-19 | the entry parsed from 16 bytes is the one those bytes describe big-endian, on either host |
| Rom.EntryBytes | rom.h:26-32 | the 16 bytes write stores are the entry's big-endian encoding, on either host |
| Rom.WriteEntry | rom.h:26-32 | write puts the entry's 16 big-endian bytes at pos and changes nothing else |
| Rom.DecodeEncode | rom.h:12-32 | decoding the encoding of an entry gives the entry back |
| Rom.EncodeDecode | rom.h:12-32 | encoding the entry 16 bytes decode to gives those bytes back |
| Rom.WriteParse | rom.h:12-32 | parsing what write stored gives the same four fields, whichever hosts write and parse |
| Rom.ParseWrite | rom.h:12-32 | writing back a just-parsed entry changes no byte |
| Rom.Search | rom.cpp:59 | std::search: the first position at or after `from` where the pattern occurs, or the end |
| Rom.FindTableFirst | rom.cpp:56-80 | findTable fails without "zelda@srd"; otherwise it returns the first 00 00 10 60 found 32 bytes after the start of the marker, less 4 (size - 4 when absent) |
| Rom.N64Rom.FindTable | rom.cpp:56-80 | the do/while search returns FindTableSpec of the image |
| Rom.TableAt | rom.cpp:84-90 | a table read at tp lies within the image |
| Rom.ReadTableSpec | rom.cpp:82-92 | the position found and the table read there lie within the image |
| Rom.ReadTableAt | rom.cpp:84-90 | entry 2's size over 16 gives the count, then the entries are parsed; the result is TableAt |
| Rom.ReadEntries | rom.cpp:87-90 | the loop parses `count` entries 16 bytes apart from tp |
| Rom.N64Rom.ReadTable | rom.cpp:82-92 | sets the table position and the input table to what ReadTableSpec gives, makes the output table a copy of it, and leaves the images alone |
| Rom.WriteTableFrame | rom.cpp:94-99 | writeTable changes no byte outside the table's 16 * n bytes |
| Rom.WriteTableRead | rom.cpp:94-99 | each entry reads back from its slot in the written table |
| Rom.ReadWriteTable | rom.cpp:94-99 | writing back entries that were read from the image changes nothing |
| Rom.TableWriteBack | rom.cpp:82-99 | writing back the table as readTable read it leaves the image unchanged |
| Rom.WriteEntries | rom.cpp:95-98 | the loop writes entry i at tp + 16 * i, which is WriteTableSpec |
| Rom.N64Rom.WriteTable | rom.cpp:94-99 | the output image becomes WriteTableSpec of the output table at the table position; the other fields are unchanged |
| Rom.SwapPairsAt | rom.cpp:46-51 | byte k of the swapped image is the other byte of its 16-bit word |
| Rom.SwapPairsTwice | rom.cpp:46-51 | swapping the words twice restores the image |
| Rom.SwapWord | rom.cpp:49 | one loop step exchanges the two bytes of a word, on either host |
| Rom.SwapWords | rom.cpp:46-51 | the in-place loop over the array leaves the swapped image |
| Rom.LoadRom | rom.cpp:30-54 | the loaded image is the file, swapped back when its first byte is 0x37 |
| Rom.N64Rom.constructor | rom.cpp:20-25 | the image is the loaded file; the output image is a copy resized to DCMPSIZE |
| Rom.Open | rom.cpp:20-28 | on success, a fresh ROM object with the loaded image, the resized copy, and the table that ReadTableSpec finds; otherwise ReadTableSpec's error |
| FindTableTool.FindTable | findtable.cpp:12-35 | the offset N64ROM::findTable finds, cast to uint32_t, or its error |
| TableExtractor.TabCountAgrees | tableExtractor.cpp:50-52 | below 2^31 the int32 count equals readTable's size / 16; above, it is negative or truncates to 0 |
| TableExtractor.GetTableEntLittle | tableExtractor.cpp:70-80 | on a little-endian host getTableEnt reads the entry the bytes describe |
| TableExtractor.GetTableEntBigHost | tableExtractor.cpp:70-80 | on a big-endian host getTableEnt reads startV bytes 00 00 00 01 as 0x01000000, not 1 |
| TableExtractor.GetTableEntBig | tableExtractor.cpp:70-80 | on a big-endian host every word getTableEnt returns is the byte-reversal of the word the entry's bytes describe |
| TableExtractor.TabCountBigHost | tableExtractor.cpp:50-52 | in any image, when entry 2 has startV 0 and endV 0x100 it describes 16 entries, but on a big-endian host getTableEnt makes tabCount 4096 |
| TableExtractor.Flag | tableExtractor.cpp:59 | '1' exactly when the entry is compressed, '0' exactly when it is not |
| TableExtractor.Flags | tableExtractor.cpp:55-60 | one flag per entry, flag i that of the entry decoded at start + 16 * i |
| TableExtractor.FillFlags | tableExtractor.cpp:55-60 | the loop fills refTab with the flags of the entries, or reports the first entry past the end of the image |
| TableExtractor.Extract | tableExtractor.cpp:35-68 | main's refTab is ExtractSpec of the loaded image (entries read with table_entry's conversion) |
| TableExtractor.ExtractFrom | tableExtractor.cpp:48-60 | the count from entry 2, then the flags, which is ExtractAt |
| TableExtractor.FlagsOfTable | tableExtractor.cpp:54-60 | for a table readTable reads, flag i is '1' exactly when entry i is compressed |
| TableExtractor.ExtractReadsTable | tableExtractor.cpp:45-60 | when the offset and size fit int32, the extractor lists one flag per entry of readTable's table, '1' exactly for the compressed ones |
| Decompressor.Transfer | decompressor.cpp:54-61 | decoding or copying an entry keeps the output's size |
| Decompressor.EntryPass | decompressor.cpp:47-65 | one turn keeps the sizes of the output, the table and the index |
| Decompressor.Initial | decompressor.cpp:42-44 | the loop starts from a DCMPSIZE output, the table as read, an all-zero index and no last_endv |
| Decompressor.DecompressLayout | decompressor.cpp:34-73 | the result is a DCMPSIZE image and a table of the same length |
| Decompressor.PassesEntries | decompressor.cpp:46-66 | after the loop every entry from 3 on with endV != 0 has startP = startV and endP = 0, the others are unchanged; its index byte is 1 exactly when it was compressed |
| Decompressor.PassesLast | decompressor.cpp:46-66 | last_endv is unset exactly when every entry is a dummy, and otherwise is the endV of the last entry that is not |
| Decompressor.LayoutLast | decompressor.cpp:63-72 | after decompress, last_endv is the endV of the last non-dummy entry and the index fits after it |
| Decompressor.LayoutTable | decompressor.cpp:64-71 | the output table: handled entries unpacked, others as read, the last entry's startP set to last_endv |
| Decompressor.LayoutIndex | decompressor.cpp:57-73 | the output holds at last_endv one byte per entry, 1 exactly for the compressed entries the loop decoded |
| Decompressor.FinishIndex | decompressor.cpp:70-73 | the index is copied to the output at last_endv |
| Decompressor.TransferRoundTrip | decompressor.cpp:54-57 | a compressed entry holding yaz0_encode(x), of size |x|, decodes to x at startV, with nothing else changed |
| Decompressor.TransferRaw | decompressor.cpp:58-61 | a raw entry's size() bytes from startP land at startV, with nothing else changed |
| Decompressor.SignedRoundTrip | decompressor.cpp:55-56 | entry.size() passed through int32_t decompSize reaches the decoder unchanged |
| Decompressor.DecodeWithin | decompressor.cpp:55-56 | a stream followed by other data decodes as the stream alone |
| Decompressor.DecodeInto | decompressor.cpp:55-56 | yaz0_decode into the output from startV puts the decoded bytes there, or gives the decoder's error |
| Decompressor.TransferEntry | decompressor.cpp:54-61 | decoding or copying one entry is Transfer |
| Decompressor.ProcessEntry | decompressor.cpp:47-65 | one turn on the ROM object and the index array updates them as EntryPass says |
| Decompressor.RunLoop | decompressor.cpp:46-66 | the loop over entries 3 onward leaves the ROM object and the index as Passes says |
| Decompressor.PlaceIndex | decompressor.cpp:70-73 | the last entry's startP and the index copy are as Finish says |
| Decompressor.DecompressRom | decompressor.cpp:34-75 | decompress on a loaded ROM, then writeTable, gives DecompressRun |
| Decompressor.Decompress | decompressor.cpp:34-76 | the saved image is DecompressSpec of the file |
| Compressor.CpuCount | compressor.cpp:21-31 | 2 when the hardware concurrency is unknown (0), n + 2 otherwise (also for n == 1) |
| Compressor.EncodeOne | compressor.cpp:58-62 | an encoded file carries at least the 16-byte header |
| Compressor.EncodeAll | compressor.cpp:50-63 | compressed_data has one slot per entry handled |
| Compressor.IndexOf | compressor.cpp:45-47 | the compression index has one byte per entry |
| Compressor.CompressLayout | compressor.cpp:33-95 | the result is a COMPSIZE image and a table of the same length |
| Compressor.Place | compressor.cpp:83-93 | placing bytes keeps the sizes and moves write_pointer forward within the output |
| Compressor.LayOne | compressor.cpp:80-94 | one turn keeps the sizes and moves write_pointer forward within the output |
| Compressor.Lays | compressor.cpp:79-95 | the copy loop keeps the sizes and moves write_pointer forward within the output |
| Compressor.EncodeEntry | compressor.cpp:14-19 | compression_thread of one entry gives EncodeOne: Yaz0.Encode of its size() bytes from startP, using the corrected allocation |
| Compressor.EncodeEntries | compressor.cpp:50-63 | the encoding loop fills compressed_data as EncodeAll says |
| Compressor.EncodeAllEntries | compressor.cpp:55-63 | slot j holds yaz0_encode of entry j's file for each flagged entry from 3 on, and nothing otherwise |
| Compressor.PlaceEntry | compressor.cpp:83-93 | the memcpy and the new addresses update the ROM object as Place says |
| Compressor.LayEntry | compressor.cpp:80-94 | one turn on the ROM object is LayOne |
| Compressor.LayTurn | compressor.cpp:79-95 | one turn extends the run of the loop by one entry, or its error is the loop's |
| Compressor.LayLoop | compressor.cpp:79-95 | the copy loop on the ROM object is Lays from the starting write_pointer |
| Compressor.LayOut | compressor.cpp:75-95 | the output is cleared from entry 3's startP on, then laid out by Lays |
| Compressor.CompressRom | compressor.cpp:33-97 | compress on a loaded ROM, then writeTable, gives CompressRun |
| Compressor.Compress | compressor.cpp:33-98 | the saved image is CompressSpec of the file (with the corrected yaz0_encode allocation) |
| Compressor.LaysInvariant | compressor.cpp:79-95 | the copy loop keeps the moved table, the contiguous layout, the output frame and the payloads in place |
| Compressor.LayoutParts | compressor.cpp:36-76 | a successful compress had its index in the input, encoded every flagged entry, and ran the copy loop from entry 3's startP |
| Compressor.LayoutEntry | compressor.cpp:79-95 | each entry from 3 on fits the input, keeps its virtual addresses, and has what it stores at its new startP |
| Compressor.LayoutTable | compressor.cpp:79-95 | entries 0..2 unchanged; virtual addresses kept; endP is the end of the encoding for flagged entries and unchanged for the others |
| Compressor.LayoutContiguous | compressor.cpp:75-95 | entries from 3 on are contiguous from entry 3's old startP, each as long as what it stores; write_pointer ends at the last one, within COMPSIZE |
| Compressor.LayoutContents | compressor.cpp:73-95 | below entry 3's startP the output is the input resized; each entry's stored bytes are at its new startP; zeros from write_pointer on |
| Compressor.LayoutFlags | compressor.cpp:85-88 | an output entry is compressed exactly when compress encoded it or it was compressed already |
| Compressor.Restores | compressor.cpp:85-93 | an entry laid out by compress decompresses, through the decompressor's transfer, to its original file |
| Compressor.LayoutRestores | compressor.cpp:79-95 | every encoded or raw entry of the layout decompresses to its original file at startV |
| Compressor.RunRestores | compressor.cpp:79-97 | in the saved image, each entry read back from the table decompresses to its original file |
| Compressor.RunImage | compressor.cpp:97 | the saved image is the layout with the table written at the table position |
| Yaz0.SimpleEnc | yaz0.cpp:33-55 | the loop's match is SimpleMatch of the input at pos |
| Yaz0.CountMatch | yaz0.cpp:44-46 | the inner loop counts MatchLen: the matching bytes from candidate i, at most smp |
| Yaz0.MatchLenSpec | yaz0.cpp:44-46 | the counted bytes match and the next one (within the cap) does not |
| Yaz0.MatchLenLongest | yaz0.cpp:44-46 | no match from the same candidate within the cap is longer |
| Yaz0.BestSpec | yaz0.cpp:43-51 | the scan keeps the longest candidate, the first of equally long ones |
| Yaz0.SimpleMatchFound | yaz0.cpp:33-55 | a reported match has 3 to 0x111 bytes, lies in the 0x1000-byte window, repeats the bytes at pos, and no earlier candidate matches as many |
| Yaz0.SimpleMatchLongest | yaz0.cpp:33-55 | no match in the window is longer; a reported length of 1 means none is longer than 2 |
| Yaz0.Lookahead | yaz0.cpp:58-87 | the chosen match is valid at pos; a kept look-ahead match forces a literal now and is valid at pos + 1 |
| Yaz0.NintendoEnc | yaz0.cpp:58-87 | the pointer arguments come out as Lookahead says; the chosen match is valid |
| Yaz0.TokenFor | yaz0.cpp:108-127 | the token is encodable and covers 1 to remaining bytes; a back-reference has distance pos - matchPos - 1 |
| Yaz0.EncodeTokens | yaz0.cpp:89-144 | the encoder's tokens only reference earlier output and are encodable |
| Yaz0.EncodeTokensExpand | yaz0.cpp:89-144 | the tokens cover exactly the input and expand back to it |
| Yaz0.PutBackref | yaz0.cpp:111-125 | writes the 2- or 3-byte back-reference at dst[at..] and nothing else |
| Yaz0.PutToken | yaz0.cpp:108-127 | writes the token's bytes, reports its input length, and sets the literal bit in the control byte |
| Yaz0.EncodeToken | yaz0.cpp:106-127 | the token branch moves the loop state as EncToken says |
| Yaz0.EncodePass | yaz0.cpp:105-139 | one pass of the loop takes the encoder from its k-th state to its (k+1)-th |
| Yaz0.EncodeInternal | yaz0.cpp:89-144 | writes the serialisation of EncodeTokens at dst[off..], changes nothing else, and returns its size |
| Yaz0.SerializeSize | yaz0.cpp:128-143 | the stream is one control byte per started group of eight plus the token bytes, no longer than the input |
| Yaz0.CodeOfIsControlByte | yaz0.cpp:110-131 | or-ing the bitmask token by token builds the group's control byte |
| Yaz0.EncodeLayout | yaz0.cpp:163-171 | header, stream into zeros, resize to the aligned size is EncodeSpec |
| Yaz0.EncodeSpec | yaz0.cpp:158-177 | the output is a multiple of 16 long and starts with the "Yaz0" header and the size |
| Yaz0.Encode | yaz0.cpp:158-177 | returns EncodeSpec, using the corrected buffer size |
| Yaz0.AllocatedSuffices | yaz0.cpp:159-171 | the corrected buffer holds header, stream and padding for every input |
| Yaz0.EncodeOverflowAsWritten | yaz0.cpp:159 | for 2688 bytes without repeated triples the stream needs 3041 bytes but src_size + 0x160 is 3040 |
| Yaz0.GetSizeEncode | yaz0.cpp:22 | yaz0_get_size of an encoded stream is the input's size |
| Yaz0.ToDWORDSwaps | yaz0.cpp:24-30 | toDWORD is byteSwap of a 32-bit word, and an involution |
| Yaz0.DecodeSpec | yaz0.cpp:179-223 | a successful decode yields at least decompSize bytes and fits the buffer |
| Yaz0.CopyWithin | yaz0.cpp:216 | the byte-by-byte copy repeats bytes it has just written when the run is longer than the distance |
| Yaz0.DecodeOne | yaz0.cpp:193-217 | one token of the loop moves the decoder as DecodeLoop says, or gives its error |
| Yaz0.Decode | yaz0.cpp:179-223 | the buffer receives DecodeSpec's bytes, the rest unchanged, or the error is DecodeSpec's |
| Yaz0.DecodeTokens | yaz0.cpp:186-222 | decoding a serialised token stream yields what the tokens expand to |
| Yaz0.RoundTrip | yaz0.cpp:158-223 | decoding what yaz0_encode produced, into a buffer at least as large, gives back the input |

## Left out

- File I/O, `perror` and `exit`: files are parameters and results. Each place where a tool
  exits with a message is a `Result` error.
- Undefined behaviour becomes an error result. The C code does not check these cases: it
  reads or writes out of bounds, wraps a length, or throws. Each error the model returns
  stands for one of them:
  - `SearchPastEnd`, `TableOutOfRange`;
  - the decompressor's `TooFewEntries`, `ClearOutOfRange`, `EntryOutOfRange`,
    `DecodeFailed`, `NothingDecompressed`, `IndexOutOfRange` and `TablePastEnd`;
  - the compressor's `EmptyTable`, `IndexOutOfRange`, `TooFewEntries`, `EntryOutOfRange`,
    `EntryTooLarge`, `ClearOutOfRange`, `OutputOverflow` and `TablePastEnd`;
  - the extractor's `NegativeOffset`, `NegativeCount` and `EntryOutOfRange`.

  `IndexMissing` and `TableNotFound` are the source's own checks.
- Yaz0.Decode: where the C code would read past the stream, copy from before the output
  or write past the buffer, the model stops with an error instead of going on.
- `fix_crc` (rom.cpp:110) is not part of this model. `DecompressRun` and `CompressRun` are
  the image `save` writes before the checksum is fixed.
- The thread pool of `compress` (compressor.cpp:49-70) and `ThreadPool.h` are not part of
  this model. `Compressor.EncodeEntries` encodes the entries one after the other. The jobs
  write disjoint slots of `compressed_data`, so only the order of the work differs. The
  wait loop, `printf` and `sleep_for` are left out.
- `yaz0_encode_fast` (yaz0.cpp:146-156) builds a table and returns an empty buffer. No
  tool calls it.
- A middle-endian host (util.h:12) is not modelled: `Endian` is `Little` or `Big`.
- tableExtractor's `errorCheck` (tableExtractor.cpp:82-112) is left out. It checks the
  arguments and the file's size. So is writing table.txt: `Extract` returns the characters.
- Rom.Normalized treats an empty file as unswapped. `loadROM` reads `result[0]` of an empty
  vector there (rom.cpp:47).
- DCMPSIZE and COMPSIZE are the source's constants (0x4000000 and 0x2000000). Proofs that
  lay out whole images work with them symbolically. No lemma is about a concrete full-size
  image.
- Compressor.CpuCount requires n + 2 < 2^31. The `int` overflow of `n + 2` for an absurd
  hardware count is left out.
- Accessors such as `in()`, `out()`, `inEntry` and `outEntry` (rom.h:40-50) are direct
  field accesses of `Rom.N64Rom`.
- UINTSIZE is defined but unused in every core file.
- By its text, tableExtractor.cpp:13 defines `byteSwap(uint32_t)` again, though util.h:28
  already defines it through rom.h:7. The file as written would likely not compile. The
  model takes the definition in the file: `TableExtractor.GetTableEnt` swaps natively
  loaded words on every host.
- TableExtractor.Extract reads the entries with `table_entry`'s conversion, which is right
  on both hosts. On a big-endian host, `getTableEnt` as written gives a different
  `tabCount` (see "## Findings"). On a little-endian host the two readings are the same
  (`TableExtractor.GetTableEntLittle`).

## Findings

| source | as written | input that shows it | evidently intended | confidence | as-written member | corrected member |
|---|---|---|---|---|---|---|
| yaz0.cpp:159 | `yaz0_encode` allocates `src_size + 0x160` bytes. The stream can need one control byte per eight literals more than the input. | 2688 bytes with no repeated triple: header and stream need 3041 bytes, the buffer has 3040, and the last control byte (yaz0.cpp:140) is written past it | a buffer large enough for header, stream and padding: `n + n/8 + 0x160` | high (proved; not executed) | Yaz0.EncodeOverflowAsWritten | Yaz0.AllocatedSuffices |
| tableExtractor.cpp:74-77 | `getTableEnt` applies byteSwap to natively loaded words on every host | on a big-endian host, startV bytes 00 00 00 01 read as 0x01000000; an entry 2 describing 16 entries gives tabCount 4096 | read the entries big-endian on every host, as `table_entry` does (rom.h:12-19) | high (proved; not executed) | TableExtractor.TabCountBigHost | TableExtractor.ExtractReadsTable |
