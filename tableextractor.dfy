/** The table extractor (tableExtractor.cpp): it finds the file table of an image and
    lists, one character per entry, which entries are stored compressed ('1') and which
    raw ('0'). */
module TableExtractor {
  import opened Util
  import opened Rom
  import FindTableTool

  datatype ExtractError =
    | Table(RomError)          // findTable fails
    | NegativeOffset           // the table offset does not fit the int32_t tabStart
    | NegativeCount            // tabCount is negative: refTab.resize throws
    | EntryOutOfRange(i: nat)  // entry i would be read past the end of the image

  /** C's int division by 16, which truncates toward zero. */
  function DivTrunc16(a: int): int
  {
    if a >= 0 then a / 16 else -((-a) / 16)
  }

  /** tabCount (tableExtractor.cpp:51-52): entry 2's endV - startV in uint32_t arithmetic,
      stored in the int32_t tabSize and divided by 16. */
  function TabCount(e: TableEntry): int
  {
    DivTrunc16(AsSigned32(e.Size()))
  }

  /** Below 2^31 the count is readTable's (rom.cpp:85); from 2^31 on tabSize is negative,
      and so is the count, except within 16 of 2^32, where it truncates to 0. */
  lemma TabCountAgrees(e: TableEntry)
    ensures e.Size() < 0x8000_0000 ==> TabCount(e) == e.Size() / 16
    ensures e.Size() >= 0x8000_0000 ==> TabCount(e) == -((0x1_0000_0000 - e.Size()) / 16) <= 0
  {
  }

  /** getTableEnt (tableExtractor.cpp:70-80) as written: each of the four words of entry i
      is loaded natively and passed through byteSwap, whatever the host. */
  function GetTableEnt(host: Endian, image: seq<byte>, tabStart: nat, i: nat): TableEntry
    requires tabStart + i * 16 + 16 <= |image|
  {
    var p := tabStart + i * 16;
    TableEntry(ByteSwap32(Load32(host, image, p)), ByteSwap32(Load32(host, image, p + 4)),
               ByteSwap32(Load32(host, image, p + 8)), ByteSwap32(Load32(host, image, p + 12)))
  }

  /** On a little-endian host byteSwap is bigendian32, and getTableEnt reads the entry the
      bytes describe. */
  lemma GetTableEntLittle(image: seq<byte>, tabStart: nat, i: nat)
    requires tabStart + i * 16 + 16 <= |image|
    ensures GetTableEnt(Little, image, tabStart, i) == DecodeEntry(image, tabStart + i * 16)
  {
    assert GetTableEnt(Little, image, tabStart, i) == ParseEntry(Little, image, tabStart + i * 16);
  }

  /** On a big-endian host it reads every word byte-reversed: an entry whose startV bytes
      are 00 00 00 01 reads as startV 0x0100_0000. */
  lemma GetTableEntBigHost()
    ensures var image: seq<byte> := [0, 0, 0, 1, 0, 0, 0, 0, 0, 0, 0, 0, 0, 0, 0, 0];
      DecodeEntry(image, 0).startV == 1 && GetTableEnt(Big, image, 0, 0).startV == 0x100_0000
  {
    var image: seq<byte> := [0, 0, 0, 1, 0, 0, 0, 0, 0, 0, 0, 0, 0, 0, 0, 0];
    BE32Bytes(0, 0, 0, 1);
    BE32Bytes(1, 0, 0, 0);
    assert Load32(Big, image, 0) == 1;
  }

  /** On a big-endian host every word getTableEnt returns is the byte-reversal of the
      word the entry's bytes describe. */
  lemma GetTableEntBig(image: seq<byte>, tabStart: nat, i: nat)
    requires tabStart + i * 16 + 16 <= |image|
    ensures var e := DecodeEntry(image, tabStart + i * 16);
      GetTableEnt(Big, image, tabStart, i)
        == TableEntry(ByteSwap32(e.startV), ByteSwap32(e.endV), ByteSwap32(e.startP), ByteSwap32(e.endP))
  {
  }

  /** ... so on a big-endian host the table is sized wrongly: when entry 2 has startV 0
      and endV 0x100 it describes 16 entries, but getTableEnt reads its endV as 0x1_0000
      and main counts 4096. */
  lemma TabCountBigHost(image: seq<byte>, tabStart: nat)
    requires tabStart + 48 <= |image|
    requires image[tabStart + 32..tabStart + 40] == [0, 0, 0, 0, 0, 0, 1, 0]
    ensures TabCount(DecodeEntry(image, tabStart + 32)) == 16
    ensures TabCount(GetTableEnt(Big, image, tabStart, 2)) == 4096
  {
    EntryTwoWords(image, tabStart + 32);
    GetTableEntBig(image, tabStart, 2);
    var e := DecodeEntry(image, tabStart + 32);
    var b := GetTableEnt(Big, image, tabStart, 2);
    SwappedWords(e, b);
    CountOf(e, 16);
    CountOf(b, 4096);
  }

  /** An entry whose first two words are 0 and 0x100 byte-reversed has them 0 and 0x1_0000. */
  lemma SwappedWords(e: TableEntry, b: TableEntry)
    requires e.startV == 0 && e.endV == 0x100
    requires b.startV == ByteSwap32(e.startV) && b.endV == ByteSwap32(e.endV)
    ensures b.startV == 0 && b.endV == 0x1_0000
  {
    ByteSwapSmall();
  }

  /** The count of an entry 2 that starts at 0 and ends at 16 * k. */
  lemma CountOf(e: TableEntry, k: nat)
    requires e.startV == 0 && e.endV == 16 * k < 0x8000_0000
    ensures TabCount(e) == k
  {
    TabCountAgrees(e);
  }

  /** The first two words of TabCountBigHost's entry. */
  lemma EntryTwoWords(image: seq<byte>, p: nat)
    requires p + 16 <= |image| && image[p..p + 8] == [0, 0, 0, 0, 0, 0, 1, 0]
    ensures DecodeEntry(image, p).startV == 0 && DecodeEntry(image, p).endV == 0x100
  {
    assert image[p] == 0 && image[p + 1] == 0 && image[p + 2] == 0 && image[p + 3] == 0;
    assert image[p + 4] == 0 && image[p + 5] == 0 && image[p + 6] == 1 && image[p + 7] == 0;
  }

  /** byteSwap of 0 and of 0x100. */
  lemma ByteSwapSmall()
    ensures ByteSwap32(0) == 0 && ByteSwap32(0x100) == 0x1_0000
  {
    assert ByteOf(0x100, 2) == 1 && ByteOf(0x100, 3) == 0 && ByteOf(0x100, 1) == 0 && ByteOf(0x100, 0) == 0;
  }

  /** The character refTab holds for an entry (tableExtractor.cpp:59). */
  function Flag(e: TableEntry): (c: char)
    ensures c == '1' <==> e.IsCompressed()
    ensures c == '0' <==> !e.IsCompressed()
  {
    if e.endP == 0 then '0' else '1'
  }

  /** The flags of the `count` entries from `start` on. */
  function Flags(data: seq<byte>, start: nat, count: nat): (r: seq<char>)
    requires start + count * 16 <= |data|
    ensures |r| == count && forall i :: 0 <= i < count ==> r[i] == Flag(DecodeEntry(data, start + i * 16))
  {
    seq(count, i requires 0 <= i < count => Flag(DecodeEntry(data, start + i * 16)))
  }

  /** What the extractor writes to table.txt once the table offset is known
      (tableExtractor.cpp:49-60): entry 2 gives the count, then one flag per entry. */
  function ExtractAt(data: seq<byte>, start: int): Result<seq<char>, ExtractError>
  {
    if start < 0 then Err(NegativeOffset)
    else if start + 48 > |data| then Err(EntryOutOfRange(2))
    else
      var count := TabCount(DecodeEntry(data, start + 32));
      if count < 0 then Err(NegativeCount)
      else if start + count * 16 > |data| then Err(EntryOutOfRange((|data| - start) / 16))
      else Ok(Flags(data, start, count))
  }

  /** What the extractor writes to table.txt (tableExtractor.cpp:45-64), with entries
      read as table_entry reads them. */
  function ExtractSpec(data: seq<byte>): Result<seq<char>, ExtractError>
  {
    match FindTableSpec(data)
    case Err(e) => Err(Table(e))
    case Ok(p) => ExtractAt(data, AsSigned32(p % 0x1_0000_0000))
  }

  /** The refTab loop (tableExtractor.cpp:55-60): one flag per entry, or the first
      entry that lies past the end of the image. */
  method FillFlags(host: Endian, image: seq<byte>, tabStart: nat, tabCount: nat) returns (r: Result<seq<char>, ExtractError>)
    requires tabStart <= |image|
    ensures tabStart + tabCount * 16 <= |image| ==> r == Ok(Flags(image, tabStart, tabCount))
    ensures tabStart + tabCount * 16 > |image| ==> r == Err(EntryOutOfRange((|image| - tabStart) / 16))
  {
    var refTab := new char[tabCount];
    var i := 0;
    var pos := tabStart;
    while i < tabCount
      invariant 0 <= i <= tabCount && pos == tabStart + i * 16
      invariant pos <= |image|
      invariant forall j :: 0 <= j < i ==> refTab[j] == Flag(DecodeEntry(image, tabStart + j * 16))
    {
      if pos + 16 > |image| {
        assert i == (|image| - tabStart) / 16;
        return Err(EntryOutOfRange(i));
      }
      var tab := ParseEntry(host, image, pos);
      refTab[i] := if tab.endP == 0 then '0' else '1';
      i := i + 1;
      pos := pos + 16;
    }
    assert refTab[..] == Flags(image, tabStart, tabCount);
    return Ok(refTab[..]);
  }

  /** main (tableExtractor.cpp:35-68): load the image, find the table, size it from entry
      2 and fill refTab with one flag per entry. Entries are read with table_entry's
      conversion, the corrected getTableEnt. */
  method Extract(host: Endian, file: seq<byte>) returns (r: Result<seq<char>, ExtractError>)
    ensures r == ExtractSpec(Normalized(file))
  {
    var image := LoadRom(host, file);
    var found := FindTableTool.FindTable(image);
    if found.Err? {
      return Err(Table(found.error));
    }
    r := ExtractFrom(host, image, AsSigned32(found.value));
  }

  /** The part of main after findTable (tableExtractor.cpp:49-60): entry 2 sizes the
      table, then refTab is filled. */
  method ExtractFrom(host: Endian, image: seq<byte>, tabStart: int) returns (r: Result<seq<char>, ExtractError>)
    ensures r == ExtractAt(image, tabStart)
  {
    if tabStart < 0 {
      return Err(NegativeOffset);
    }
    if tabStart + 48 > |image| {
      return Err(EntryOutOfRange(2));
    }
    var tab := ParseEntry(host, image, tabStart + 2 * 16);
    var tabCount := TabCount(tab);
    if tabCount < 0 {
      return Err(NegativeCount);
    }
    r := FillFlags(host, image, tabStart, tabCount);
  }

  /** The flags of a table read by readTable: flag i is '1' exactly when entry i is
      compressed. */
  lemma FlagsOfTable(data: seq<byte>, tp: nat, es: seq<TableEntry>)
    requires TableAt(data, tp) == Ok(es)
    ensures tp + |es| * 16 <= |data|
    ensures forall i :: 0 <= i < |es| ==> (Flags(data, tp, |es|)[i] == '1' <==> es[i].IsCompressed())
  {
    TableAtEntries(data, tp, es);
    var flags := Flags(data, tp, |es|);
    forall i | 0 <= i < |es|
      ensures flags[i] == '1' <==> es[i].IsCompressed()
    {
      assert flags[i] == Flag(es[i]);
    }
  }

  /** The entries of a table readTable accepts are those decoded 16 bytes apart. */
  lemma TableAtEntries(data: seq<byte>, tp: nat, es: seq<TableEntry>)
    requires TableAt(data, tp) == Ok(es)
    ensures tp + |es| * 16 <= |data| && es == TableEntries(data, tp, |es|)
  {
  }

  /** A table readTable accepts has three entries' room and entry 2's size over 16
      entries. */
  lemma TableAtCount(data: seq<byte>, tp: nat, es: seq<TableEntry>)
    requires TableAt(data, tp) == Ok(es)
    ensures tp + 48 <= |data| && |es| == DecodeEntry(data, tp + 32).Size() / 16
  {
  }

  /** Once the count is known and the entries fit, the extractor lists their flags. */
  lemma ExtractAtFlags(data: seq<byte>, start: nat, count: nat)
    requires start + 48 <= |data| && start + count * 16 <= |data|
    requires TabCount(DecodeEntry(data, start + 32)) == count
    ensures ExtractAt(data, start) == Ok(Flags(data, start, count))
  {
  }

  /** An offset below 2^31 survives the int32_t tabStart unchanged. */
  lemma ExtractFound(data: seq<byte>, tp: nat)
    requires FindTableSpec(data) == Ok(tp) && tp < 0x8000_0000
    ensures ExtractSpec(data) == ExtractAt(data, tp)
  {
    assert tp % 0x1_0000_0000 == tp;
  }

  /** Where the table offset and entry 2's size are below 2^31, the extractor lists the
      table readTable reads, flag i being '1' exactly when entry i is compressed. */
  lemma ExtractReadsTable(data: seq<byte>, tp: nat, es: seq<TableEntry>)
    requires ReadTableSpec(data) == Ok((tp, es))
    requires tp < 0x8000_0000 && tp + 48 <= |data| && DecodeEntry(data, tp + 32).Size() < 0x8000_0000
    ensures ExtractSpec(data).Ok? && |ExtractSpec(data).value| == |es|
    ensures forall i :: 0 <= i < |es| ==> (ExtractSpec(data).value[i] == '1' <==> es[i].IsCompressed())
  {
    assert FindTableSpec(data) == Ok(tp) && TableAt(data, tp) == Ok(es);
    var e2 := DecodeEntry(data, tp + 32);
    TableAtCount(data, tp, es);
    TabCountAgrees(e2);
    FlagsOfTable(data, tp, es);
    ExtractAtFlags(data, tp, |es|);
    ExtractFound(data, tp);
  }
}
