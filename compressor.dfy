/** The compressor (compressor.cpp): the entries the compression index flags are Yaz0
    encoded, and all entries from 3 on are laid out one after the other in an output of
    COMPSIZE bytes, starting where entry 3's file started; the output table records the
    new physical addresses. */
module Compressor {
  import opened Util
  import opened Rom
  import Yaz0
  import Decompressor

  /** The suffix of the default output name (compressor.cpp:109). */
  const SUFFIX: string := "-comp.z64"

  datatype CompressError =
    | TableError(RomError)     // loading the image and its table fails
    | EmptyTable               // entry_count() - 1 wraps: the index entry does not exist
    | IndexMissing             // the index entry's startP is 0 (compressor.cpp:39-44)
    | IndexOutOfRange          // the index lies past the end of the input
    | TooFewEntries            // the table has no entry 3: inEntry(3) is out of range
    | EntryOutOfRange(i: nat)  // entry i's data lies past the end of the input
    | EntryTooLarge(i: nat)    // entry i's size does not fit yaz0_encode's int parameter
    | ClearOutOfRange          // entry 3 starts past COMPSIZE: the memset length wraps
    | OutputOverflow(i: nat)   // entry i does not fit in the output
    | TablePastEnd             // the table lies past the end of the output

  /** compressor's main (compressor.cpp:106-109): the output file name. */
  function OutName(name: string, given: Option<string>): string
  {
    OutputName(name, given, SUFFIX)
  }

  /** cpu_count (compressor.cpp:21-31): the size of the thread pool for `n` hardware
      threads; n + 2, or 2 when the count is unknown (0). The case for one thread gives
      1 + 2 as well. */
  function CpuCount(n: nat): (r: nat)
    requires n + 2 < 0x8000_0000
    ensures n == 0 ==> r == 2
    ensures n > 0 ==> r == n + 2
  {
    if n == 0 then 2 else if n == 1 then 3 else n + 2
  }

  // ---------------------------------------------------------------------------
  // The specification: encoding

  /** The size() bytes of entry e's file in the input. */
  function Content(data: seq<byte>, e: TableEntry): seq<byte>
    requires e.startP + e.Size() <= |data|
  {
    data[e.startP..e.startP + e.Size()]
  }

  /** yaz0_encode of entry i's file (compressor.cpp:58-62, 17). */
  function EncodeOne(data: seq<byte>, i: nat, e: TableEntry): (r: Result<seq<byte>, CompressError>)
    ensures r.Ok? ==> |r.value| >= Yaz0.HEADER_SIZE
  {
    if e.startP + e.Size() > |data| then Err(EntryOutOfRange(i))
    else if e.Size() >= 0x8000_0000 then Err(EntryTooLarge(i))
    else Ok(Yaz0.EncodeSpec(Content(data, e)))
  }

  /** compressed_data after the encoding loop (compressor.cpp:50-63) has run over entries
      FIRST_FILE .. n - 1: the encoding of every entry whose index byte is nonzero, and
      nothing for the others. */
  function EncodeAll(data: seq<byte>, es: seq<TableEntry>, index: seq<byte>, n: nat): (r: Result<seq<seq<byte>>, CompressError>)
    requires FIRST_FILE <= n <= |es| == |index|
    ensures r.Ok? ==> |r.value| == n
    decreases n
  {
    if n == FIRST_FILE then Ok(seq(FIRST_FILE, _ => []))
    else
      match EncodeAll(data, es, index, n - 1)
      case Err(e) => Err(e)
      case Ok(enc) =>
        if index[n - 1] == 0 then Ok(enc + [[]])
        else
          match EncodeOne(data, n - 1, es[n - 1])
          case Err(e) => Err(e)
          case Ok(c) => Ok(enc + [c])
  }

  // ---------------------------------------------------------------------------
  // The specification: layout

  /** The state of the copy loop (compressor.cpp:79-95): the output image, the output
      table and write_pointer. */
  datatype Laying = Laying(out: seq<byte>, table: seq<TableEntry>, wp: nat)

  /** What entry i occupies in the output: its encoding when flagged, else its size. */
  function Len(es: seq<TableEntry>, index: seq<byte>, enc: seq<seq<byte>>, i: nat): nat
    requires i < |es| && i < |index| && i < |enc|
  {
    if index[i] != 0 then |enc[i]| else es[i].Size()
  }

  /** Entry e moved to physical address `at`, its `len` bytes ending it when `ends`. */
  function Relocate(e: TableEntry, at: nat, ends: bool, len: nat): TableEntry
    requires at + len < 0x1_0000_0000
  {
    if ends then e.(startP := at, endP := at + len) else e.(startP := at)
  }

  /** The output entry i starts at write_pointer and the bytes `c` are copied there
      (compressor.cpp:83-93); when `ends`, the entry's endP is set to their end. */
  function Place(s: Laying, i: nat, c: seq<byte>, ends: bool): (r: Result<Laying, CompressError>)
    requires i < |s.table| && s.wp <= |s.out| < 0x1_0000_0000
    ensures r.Ok? ==> |r.value.out| == |s.out| && |r.value.table| == |s.table| && s.wp <= r.value.wp <= |s.out|
  {
    if s.wp + |c| > |s.out| then Err(OutputOverflow(i))
    else
      Ok(Laying(Put(s.out, s.wp, c), s.table[i := Relocate(s.table[i], s.wp, ends, |c|)], s.wp + |c|))
  }

  /** One turn of the copy loop (compressor.cpp:80-94): a flagged entry's encoding is
      placed and ends the entry; an unflagged entry's file is placed raw and its endP
      is kept. */
  function LayOne(data: seq<byte>, s: Laying, i: nat, flagged: bool, c: seq<byte>): (r: Result<Laying, CompressError>)
    requires i < |s.table| && s.wp <= |s.out| < 0x1_0000_0000
    ensures r.Ok? ==> |r.value.out| == |s.out| && |r.value.table| == |s.table| && s.wp <= r.value.wp <= |s.out|
  {
    var e := s.table[i];
    if flagged then Place(s, i, c, true)
    else if e.startP + e.Size() > |data| then Err(EntryOutOfRange(i))
    else Place(s, i, Content(data, e), false)
  }

  /** The copy loop run over entries FIRST_FILE .. n - 1, from s0. */
  function Lays(data: seq<byte>, index: seq<byte>, enc: seq<seq<byte>>, s0: Laying, n: nat): (r: Result<Laying, CompressError>)
    requires FIRST_FILE <= n <= |s0.table| == |index| == |enc| && s0.wp <= |s0.out| < 0x1_0000_0000
    ensures r.Ok? ==> |r.value.out| == |s0.out| && |r.value.table| == |s0.table| && s0.wp <= r.value.wp <= |s0.out|
    decreases n
  {
    if n == FIRST_FILE then Ok(s0)
    else
      match Lays(data, index, enc, s0, n - 1)
      case Err(e) => Err(e)
      case Ok(s) => LayOne(data, s, n - 1, index[n - 1] != 0, enc[n - 1])
  }

  /** compression_index (compressor.cpp:36-47): one byte per entry, read from where the
      table's last entry starts in the input. */
  function IndexOf(data: seq<byte>, es: seq<TableEntry>): (r: seq<byte>)
    requires |es| > 0 && es[|es| - 1].startP + |es| <= |data|
    ensures |r| == |es|
  {
    data[es[|es| - 1].startP..es[|es| - 1].startP + |es|]
  }

  /** The state before the copy loop (compressor.cpp:73-76): the output image resized
      to COMPSIZE and cleared from entry 3's file on, the output table as read, and
      write_pointer at entry 3's file. */
  function Start(data: seq<byte>, es: seq<TableEntry>): (r: Laying)
    requires FIRST_FILE < |es| && es[FIRST_FILE].startP <= COMPSIZE
  {
    var start := es[FIRST_FILE].startP;
    Laying(Cleared(Resize(Resize(data, DCMPSIZE), COMPSIZE), start), es, start)
  }

  /** The output image and table of compress before save (compressor.cpp:34-95), for
      the image `data` with table `es`. */
  function CompressLayout(data: seq<byte>, es: seq<TableEntry>): (r: Result<Laying, CompressError>)
    ensures r.Ok? ==> |r.value.out| == COMPSIZE && |r.value.table| == |es|
  {
    if |es| == 0 then Err(EmptyTable)
    else
      var at := es[|es| - 1].startP;
      if at == 0 then Err(IndexMissing)
      else if at + |es| > |data| then Err(IndexOutOfRange)
      else if |es| <= FIRST_FILE then Err(TooFewEntries)
      else
        var index := IndexOf(data, es);
        match EncodeAll(data, es, index, |es|)
        case Err(e) => Err(e)
        case Ok(enc) =>
          if es[FIRST_FILE].startP > COMPSIZE then Err(ClearOutOfRange)
          else Lays(data, index, enc, Start(data, es), |es|)
  }

  /** The image save writes, before fix_crc (rom.cpp:101-103): the layout with its table
      written back at tp. */
  function CompressRun(data: seq<byte>, tp: nat, es: seq<TableEntry>): Result<seq<byte>, CompressError>
  {
    match CompressLayout(data, es)
    case Err(e) => Err(e)
    case Ok(s) =>
      if tp + |s.table| * 16 > |s.out| then Err(TablePastEnd)
      else Ok(WriteTableSpec(s.out, tp, s.table))
  }

  /** compress (compressor.cpp:33-98) on the bytes of a file. */
  function CompressSpec(file: seq<byte>): Result<seq<byte>, CompressError>
  {
    var data := Normalized(file);
    match ReadTableSpec(data)
    case Err(e) => Err(TableError(e))
    case Ok(t) => CompressRun(data, t.0, t.1)
  }

  // ---------------------------------------------------------------------------
  // The program

  /** An error ends the encoding loop: later entries keep it. */
  lemma {:induction false} EncodeAllErrSticks(data: seq<byte>, es: seq<TableEntry>, index: seq<byte>, n: nat, m: nat)
    requires FIRST_FILE <= n <= m <= |es| == |index|
    requires EncodeAll(data, es, index, n).Err?
    ensures EncodeAll(data, es, index, m) == EncodeAll(data, es, index, n)
    decreases m
  {
    if m > n {
      EncodeAllErrSticks(data, es, index, n, m - 1);
    }
  }

  /** One more turn of the encoding loop appends the entry's encoding, or nothing. */
  lemma EncodeAllStep(data: seq<byte>, es: seq<TableEntry>, index: seq<byte>, i: nat, done: seq<seq<byte>>, c: seq<byte>)
    requires FIRST_FILE <= i < |es| == |index|
    requires EncodeAll(data, es, index, i) == Ok(done)
    requires if index[i] == 0 then c == [] else EncodeOne(data, i, es[i]) == Ok(c)
    ensures EncodeAll(data, es, index, i + 1) == Ok(done + [c])
  {
  }

  /** compression_thread (compressor.cpp:14-19) for entry i, with the reads the pool's
      job makes checked against the input. */
  method EncodeEntry(data: seq<byte>, i: nat, e: TableEntry) returns (r: Result<seq<byte>, CompressError>)
    ensures r == EncodeOne(data, i, e)
  {
    if e.startP + e.Size() > |data| {
      return Err(EntryOutOfRange(i));
    }
    if e.Size() >= 0x8000_0000 {
      return Err(EntryTooLarge(i));
    }
    var c := Yaz0.Encode(data[e.startP..e.startP + e.Size()]);
    return Ok(c);
  }

  /** The encoding loop (compressor.cpp:50-63), one entry after the other: the thread
      pool's jobs write disjoint elements of compressed_data, so their order does not
      matter. */
  method EncodeEntries(data: seq<byte>, es: seq<TableEntry>, index: seq<byte>) returns (r: Result<seq<seq<byte>>, CompressError>)
    requires FIRST_FILE <= |es| == |index|
    ensures r == EncodeAll(data, es, index, |es|)
  {
    var compressed: seq<seq<byte>> := seq(|es|, _ => []);
    var i := FIRST_FILE;
    assert compressed[..i] == seq(FIRST_FILE, _ => []);
    while i < |es|
      invariant FIRST_FILE <= i <= |es| == |compressed|
      invariant EncodeAll(data, es, index, i) == Ok(compressed[..i])
    {
      var c: seq<byte> := [];
      if index[i] != 0 {
        var x := EncodeEntry(data, i, es[i]);
        if x.Err? {
          EncodeAllErrSticks(data, es, index, i + 1, |es|);
          return Err(x.error);
        }
        c := x.value;
      }
      EncodeAllStep(data, es, index, i, compressed[..i], c);
      assert compressed[i := c][..i + 1] == compressed[..i] + [c];
      compressed := compressed[i := c];
      i := i + 1;
    }
    assert compressed == compressed[..|es|];
    return Ok(compressed);
  }

  /** An error ends the copy loop: later entries keep it. */
  lemma {:induction false} LaysErrSticks(data: seq<byte>, index: seq<byte>, enc: seq<seq<byte>>, s0: Laying, n: nat, m: nat)
    requires FIRST_FILE <= n <= m <= |s0.table| == |index| == |enc| && s0.wp <= |s0.out| < 0x1_0000_0000
    requires Lays(data, index, enc, s0, n).Err?
    ensures Lays(data, index, enc, s0, m) == Lays(data, index, enc, s0, n)
    decreases m
  {
    if m > n {
      LaysErrSticks(data, index, enc, s0, n, m - 1);
    }
  }

  /** One more turn of the copy loop is LayOne on the state so far. */
  lemma LaysStep(data: seq<byte>, index: seq<byte>, enc: seq<seq<byte>>, s0: Laying, i: nat, s: Laying)
    requires FIRST_FILE <= i < |s0.table| == |index| == |enc| && s0.wp <= |s0.out| < 0x1_0000_0000
    requires Lays(data, index, enc, s0, i) == Ok(s)
    ensures s.wp <= |s.out| < 0x1_0000_0000 && i < |s.table|
    ensures Lays(data, index, enc, s0, i + 1) == LayOne(data, s, i, index[i] != 0, enc[i])
  {
  }

  /** memcpy of `c` to write_pointer and the output entry's new addresses
      (compressor.cpp:83-93). */
  method PlaceEntry(rom: N64Rom, i: nat, c: seq<byte>, ends: bool, wp: nat) returns (r: Result<nat, CompressError>)
    requires i < |rom.outtable| && wp <= |rom.outdata| < 0x1_0000_0000
    modifies rom
    ensures rom.data == old(rom.data) && rom.intable == old(rom.intable) && rom.tablePosition == old(rom.tablePosition)
    ensures match Place(Laying(old(rom.outdata), old(rom.outtable), wp), i, c, ends)
      case Ok(s) => r == Ok(s.wp) && rom.outdata == s.out && rom.outtable == s.table
      case Err(e) => r == Err(e)
  {
    if wp + |c| > |rom.outdata| {
      return Err(OutputOverflow(i));
    }
    var entry := rom.outtable[i];
    rom.outdata := rom.outdata[..wp] + c + rom.outdata[wp + |c|..];
    if ends {
      rom.outtable := rom.outtable[i := entry.(startP := wp, endP := wp + |c|)];
    } else {
      rom.outtable := rom.outtable[i := entry.(startP := wp)];
    }
    return Ok(wp + |c|);
  }

  /** One turn of the copy loop (compressor.cpp:80-94) on the ROM object. */
  method LayEntry(rom: N64Rom, i: nat, flagged: bool, c: seq<byte>, wp: nat) returns (r: Result<nat, CompressError>)
    requires i < |rom.outtable| && wp <= |rom.outdata| < 0x1_0000_0000
    modifies rom
    ensures rom.data == old(rom.data) && rom.intable == old(rom.intable) && rom.tablePosition == old(rom.tablePosition)
    ensures match LayOne(rom.data, Laying(old(rom.outdata), old(rom.outtable), wp), i, flagged, c)
      case Ok(s) => r == Ok(s.wp) && Laying(rom.outdata, rom.outtable, s.wp) == s
      case Err(e) => r == Err(e)
  {
    if flagged {
      r := PlaceEntry(rom, i, c, true, wp);
      return;
    }
    var entry := rom.outtable[i];
    if entry.startP + entry.Size() > |rom.data| {
      return Err(EntryOutOfRange(i));
    }
    r := PlaceEntry(rom, i, rom.data[entry.startP..entry.startP + entry.Size()], false, wp);
  }

  /** One turn of the copy loop, as the run of the loop so far extended by one entry. */
  method LayTurn(rom: N64Rom, index: seq<byte>, enc: seq<seq<byte>>, ghost s0: Laying, i: nat, wp: nat) returns (r: Result<nat, CompressError>)
    requires FIRST_FILE <= i < |s0.table| == |index| == |enc| && s0.wp <= |s0.out| < 0x1_0000_0000
    requires Lays(rom.data, index, enc, s0, i) == Ok(Laying(rom.outdata, rom.outtable, wp))
    modifies rom
    ensures rom.data == old(rom.data) && rom.intable == old(rom.intable) && rom.tablePosition == old(rom.tablePosition)
    ensures r.Ok? ==> Lays(rom.data, index, enc, s0, i + 1) == Ok(Laying(rom.outdata, rom.outtable, r.value))
    ensures r.Err? ==> Lays(rom.data, index, enc, s0, |index|) == Err(r.error)
  {
    ghost var s := Laying(rom.outdata, rom.outtable, wp);
    LaysStep(rom.data, index, enc, s0, i, s);
    r := LayEntry(rom, i, index[i] != 0, enc[i], wp);
    if r.Err? {
      LaysErrSticks(rom.data, index, enc, s0, i + 1, |index|);
    }
  }

  /** The copy loop (compressor.cpp:79-95) from write_pointer `start`. */
  method LayLoop(rom: N64Rom, index: seq<byte>, enc: seq<seq<byte>>, start: nat) returns (r: Option<CompressError>)
    requires FIRST_FILE <= |rom.outtable| == |index| == |enc| && start <= |rom.outdata| == COMPSIZE
    modifies rom
    ensures rom.data == old(rom.data) && rom.intable == old(rom.intable) && rom.tablePosition == old(rom.tablePosition)
    ensures match Lays(rom.data, index, enc, Laying(old(rom.outdata), old(rom.outtable), start), |index|)
      case Ok(s) => r == None && rom.outdata == s.out && rom.outtable == s.table
      case Err(e) => r == Some(e)
  {
    ghost var s0 := Laying(rom.outdata, rom.outtable, start);
    var writePointer: nat := start;
    var i := FIRST_FILE;
    while i < |index|
      invariant FIRST_FILE <= i <= |index|
      invariant rom.data == old(rom.data) && rom.intable == old(rom.intable) && rom.tablePosition == old(rom.tablePosition)
      invariant Lays(rom.data, index, enc, s0, i) == Ok(Laying(rom.outdata, rom.outtable, writePointer))
    {
      var step := LayTurn(rom, index, enc, s0, i, writePointer);
      if step.Err? {
        return Some(step.error);
      }
      writePointer := step.value;
      i := i + 1;
    }
    return None;
  }

  /** The copy loop with its setup (compressor.cpp:75-95): clear the output from entry
      3's file on, then lay the entries out from there. */
  method LayOut(rom: N64Rom, index: seq<byte>, enc: seq<seq<byte>>) returns (r: Option<CompressError>)
    requires FIRST_FILE < |rom.outtable| == |index| == |enc| && |rom.outdata| == COMPSIZE
    modifies rom
    ensures rom.data == old(rom.data) && rom.intable == old(rom.intable) && rom.tablePosition == old(rom.tablePosition)
    ensures var start := old(rom.outtable)[FIRST_FILE].startP;
      if start > COMPSIZE then r == Some(ClearOutOfRange)
      else
        match Lays(rom.data, index, enc, Laying(Cleared(old(rom.outdata), start), old(rom.outtable), start), |index|)
        case Ok(s) => r == None && rom.outdata == s.out && rom.outtable == s.table
        case Err(e) => r == Some(e)
  {
    var writePointer: nat := rom.outtable[FIRST_FILE].startP;
    if writePointer > |rom.outdata| {
      return Some(ClearOutOfRange);
    }
    rom.outdata := Cleared(rom.outdata, writePointer);
    r := LayLoop(rom, index, enc, writePointer);
  }

  /** compress (compressor.cpp:34-95) on a loaded ROM, then save's writeTable
      (rom.cpp:102). */
  method CompressRom(rom: N64Rom) returns (r: Result<seq<byte>, CompressError>)
    requires rom.outtable == rom.intable && rom.outdata == Resize(rom.data, DCMPSIZE)
    modifies rom
    ensures r == CompressRun(old(rom.data), old(rom.tablePosition), old(rom.intable))
  {
    var count := |rom.intable|;
    if count == 0 {
      return Err(EmptyTable);
    }
    var at := rom.intable[count - 1].startP;
    if at == 0 {
      return Err(IndexMissing);
    }
    if at + count > |rom.data| {
      return Err(IndexOutOfRange);
    }
    var index := rom.data[at..at + count];
    if count <= FIRST_FILE {
      return Err(TooFewEntries);
    }
    var enc := EncodeEntries(rom.data, rom.intable, index);
    if enc.Err? {
      return Err(enc.error);
    }
    rom.outdata := Resize(rom.outdata, COMPSIZE);
    var err := LayOut(rom, index, enc.value);
    if err.Some? {
      return Err(err.value);
    }
    if rom.tablePosition + count * 16 > |rom.outdata| {
      return Err(TablePastEnd);
    }
    rom.WriteTable();
    return Ok(rom.outdata);
  }

  /** compress (compressor.cpp:33-98): load the file, compress, and return the bytes
      save writes (fix_crc aside). */
  method Compress(host: Endian, file: seq<byte>) returns (r: Result<seq<byte>, CompressError>)
    ensures r == CompressSpec(file)
  {
    var loaded := Open(host, file);
    if loaded.Err? {
      return Err(TableError(loaded.error));
    }
    r := CompressRom(loaded.value);
  }

  // ---------------------------------------------------------------------------
  // Properties of the encoding pass

  /** What the encoding loop stores: nothing for the entries below FIRST_FILE or not
      flagged; for a flagged entry the Yaz0 encoding of its file, which lies within the
      input and whose size fits yaz0_encode's int parameter. */
  lemma {:induction false} EncodeAllEntries(data: seq<byte>, es: seq<TableEntry>, index: seq<byte>, n: nat, j: nat)
    requires FIRST_FILE <= n <= |es| == |index| && j < n
    requires EncodeAll(data, es, index, n).Ok?
    ensures var enc := EncodeAll(data, es, index, n).value;
      if FIRST_FILE <= j && index[j] != 0 then
        Fits(data, es[j], true) && enc[j] == Yaz0.EncodeSpec(Content(data, es[j]))
      else enc[j] == []
    decreases n
  {
    if n > FIRST_FILE && j < n - 1 {
      EncodeAllEntries(data, es, index, n - 1, j);
    }
  }

  /** Entry e's file lies within the input and, when it is to be encoded, its size fits
      yaz0_encode's int parameter. */
  predicate Fits(data: seq<byte>, e: TableEntry, flagged: bool)
  {
    e.startP + e.Size() <= |data| && (flagged ==> e.Size() < 0x8000_0000)
  }

  /** The bytes compress writes for entry e: its encoding when flagged, else its file. */
  function Stored(data: seq<byte>, e: TableEntry, flagged: bool): seq<byte>
    requires Fits(data, e, flagged)
  {
    if flagged then Yaz0.EncodeSpec(Content(data, e)) else Content(data, e)
  }

  // ---------------------------------------------------------------------------
  // Properties of the copy loop

  /** Entry t is entry e moved: same virtual addresses, and an endP that ends `len`
      bytes after its new start when the entry was encoded, else the old one. */
  predicate Relocated(e: TableEntry, t: TableEntry, flagged: bool, len: nat)
  {
    t.startV == e.startV && t.endV == e.endV && t.endP == (if flagged then t.startP + len else e.endP)
  }

  /** The bytes the copy loop writes for entry e: the encoding `c` when flagged, else
      the entry's file. */
  function Payload(data: seq<byte>, e: TableEntry, flagged: bool, c: seq<byte>): seq<byte>
    requires flagged || e.startP + e.Size() <= |data|
  {
    if flagged then c else Content(data, e)
  }

  /** t follows s by a turn that places p for entry i at write_pointer. */
  ghost predicate Turn(s: Laying, t: Laying, i: nat, flagged: bool, p: seq<byte>)
  {
    i < |s.table| && s.wp + |p| <= |s.out| < 0x1_0000_0000 && t.wp == s.wp + |p| &&
    t.out == Put(s.out, s.wp, p) && t.table == s.table[i := Relocate(s.table[i], s.wp, flagged, |p|)]
  }

  /** A turn that succeeds places the entry's payload at write_pointer and moves the
      pointer past it. */
  lemma LayOneShape(data: seq<byte>, s: Laying, i: nat, flagged: bool, c: seq<byte>)
    requires i < |s.table| && s.wp <= |s.out| < 0x1_0000_0000
    requires LayOne(data, s, i, flagged, c).Ok?
    ensures flagged || s.table[i].startP + s.table[i].Size() <= |data|
    ensures Turn(s, LayOne(data, s, i, flagged, c).value, i, flagged, Payload(data, s.table[i], flagged, c))
  {
  }

  /** Entries FIRST_FILE .. n - 1 of `table` are those of es moved; the others are as
      in es. */
  ghost predicate Moved(es: seq<TableEntry>, index: seq<byte>, enc: seq<seq<byte>>, table: seq<TableEntry>, n: nat)
    requires |es| == |index| == |enc| && n <= |es|
  {
    |table| == |es| &&
    (forall j :: 0 <= j < |es| && !(FIRST_FILE <= j < n) ==> table[j] == es[j]) &&
    (forall j :: FIRST_FILE <= j < n ==> Relocated(es[j], table[j], index[j] != 0, Len(es, index, enc, j)))
  }

  /** Entries FIRST_FILE .. n - 1 lie one after the other from wp0, and s.wp right
      after the last. */
  ghost predicate Chained(es: seq<TableEntry>, index: seq<byte>, enc: seq<seq<byte>>, wp0: nat, s: Laying, n: nat)
    requires |es| == |index| == |enc| && n <= |es|
  {
    |s.table| == |es| &&
    (forall j :: FIRST_FILE <= j < n ==> s.table[j].startP + Len(es, index, enc, j) <= s.wp) &&
    (n <= FIRST_FILE ==> s.wp == wp0) &&
    (n > FIRST_FILE ==> s.table[FIRST_FILE].startP == wp0 && s.wp == s.table[n - 1].startP + Len(es, index, enc, n - 1)) &&
    (forall j :: FIRST_FILE < j < n ==> s.table[j].startP == s.table[j - 1].startP + Len(es, index, enc, j - 1))
  }

  /** The output differs from out0 only from wp0 up to s.wp. */
  ghost predicate Framed(out0: seq<byte>, wp0: nat, s: Laying)
  {
    wp0 <= s.wp <= |s.out| == |out0| &&
    (forall k :: 0 <= k < wp0 ==> s.out[k] == out0[k]) &&
    (forall k :: s.wp <= k < |s.out| ==> s.out[k] == out0[k])
  }

  /** Entry e's payload is at `at` in `out`: its encoding `c` when flagged, else its file. */
  ghost predicate Holds(data: seq<byte>, out: seq<byte>, at: nat, e: TableEntry, flagged: bool, c: seq<byte>)
  {
    if flagged then Yaz0.At(out, at, c)
    else e.startP + e.Size() <= |data| && Yaz0.At(out, at, Content(data, e))
  }

  /** Every entry FIRST_FILE .. n - 1 has its payload at its new physical start. */
  ghost predicate Filled(data: seq<byte>, es: seq<TableEntry>, index: seq<byte>, enc: seq<seq<byte>>, s: Laying, n: nat)
    requires |es| == |index| == |enc| && n <= |es|
  {
    |s.table| == |es| &&
    forall j :: FIRST_FILE <= j < n ==> Holds(data, s.out, s.table[j].startP, es[j], index[j] != 0, enc[j])
  }

  lemma MovedStep(es: seq<TableEntry>, index: seq<byte>, enc: seq<seq<byte>>, s: Laying, t: Laying, i: nat, p: seq<byte>)
    requires FIRST_FILE <= i < |es| == |index| == |enc|
    requires Moved(es, index, enc, s.table, i) && Turn(s, t, i, index[i] != 0, p) && |p| == Len(es, index, enc, i)
    ensures Moved(es, index, enc, t.table, i + 1)
  {
    assert t.table[i] == Relocate(es[i], s.wp, index[i] != 0, |p|);
  }

  lemma ChainedStep(es: seq<TableEntry>, index: seq<byte>, enc: seq<seq<byte>>, wp0: nat, s: Laying, t: Laying, i: nat, p: seq<byte>)
    requires FIRST_FILE <= i < |es| == |index| == |enc|
    requires Chained(es, index, enc, wp0, s, i) && Turn(s, t, i, index[i] != 0, p) && |p| == Len(es, index, enc, i)
    ensures Chained(es, index, enc, wp0, t, i + 1)
  {
    assert t.table[i].startP == s.wp;
    assert forall j :: 0 <= j < i ==> t.table[j] == s.table[j];
  }

  lemma FramedStep(out0: seq<byte>, wp0: nat, s: Laying, t: Laying, i: nat, flagged: bool, p: seq<byte>)
    requires Framed(out0, wp0, s) && Turn(s, t, i, flagged, p)
    ensures Framed(out0, wp0, t)
  {
    PutBytes(s.out, s.wp, p);
  }

  /** Writing past the end of x leaves x in place. */
  lemma AtPut(d: seq<byte>, q: nat, x: seq<byte>, pos: nat, b: seq<byte>)
    requires Yaz0.At(d, q, x) && q + |x| <= pos && pos + |b| <= |d|
    ensures Yaz0.At(Put(d, pos, b), q, x)
  {
    assert Put(d, pos, b)[q..q + |x|] == d[q..q + |x|];
  }

  lemma FilledStep(data: seq<byte>, es: seq<TableEntry>, index: seq<byte>, enc: seq<seq<byte>>, wp0: nat, s: Laying, t: Laying, i: nat)
    requires FIRST_FILE <= i < |es| == |index| == |enc|
    requires Filled(data, es, index, enc, s, i) && Chained(es, index, enc, wp0, s, i) && Moved(es, index, enc, s.table, i)
    requires index[i] != 0 || es[i].startP + es[i].Size() <= |data|
    requires Turn(s, t, i, index[i] != 0, Payload(data, es[i], index[i] != 0, enc[i]))
    ensures Filled(data, es, index, enc, t, i + 1)
  {
    var p := Payload(data, es[i], index[i] != 0, enc[i]);
    forall j | FIRST_FILE <= j < i + 1
      ensures Holds(data, t.out, t.table[j].startP, es[j], index[j] != 0, enc[j])
    {
      if j < i {
        assert t.table[j] == s.table[j];
        assert Holds(data, s.out, s.table[j].startP, es[j], index[j] != 0, enc[j]);
        var x := if index[j] != 0 then enc[j] else Content(data, es[j]);
        AtPut(s.out, s.table[j].startP, x, s.wp, p);
      } else {
        PutBytes(s.out, s.wp, p);
      }
    }
  }

  /** What the copy loop keeps true, turn after turn: the moved table, the contiguous
      layout, the frame of the output and the payloads in place. */
  lemma {:induction false} LaysInvariant(data: seq<byte>, index: seq<byte>, enc: seq<seq<byte>>, s0: Laying, n: nat)
    requires FIRST_FILE <= n <= |s0.table| == |index| == |enc| && s0.wp <= |s0.out| < 0x1_0000_0000
    requires Lays(data, index, enc, s0, n).Ok?
    ensures var s := Lays(data, index, enc, s0, n).value;
      Moved(s0.table, index, enc, s.table, n) && Chained(s0.table, index, enc, s0.wp, s, n) &&
      Framed(s0.out, s0.wp, s) && Filled(data, s0.table, index, enc, s, n)
    decreases n
  {
    if n > FIRST_FILE {
      var i := n - 1;
      LaysInvariant(data, index, enc, s0, i);
      var s := Lays(data, index, enc, s0, i).value;
      LaysStep(data, index, enc, s0, i, s);
      LayOneShape(data, s, i, index[i] != 0, enc[i]);
      InvariantStep(data, index, enc, s0, s, Lays(data, index, enc, s0, n).value, i);
    }
  }

  /** One turn of the copy loop keeps LaysInvariant's four properties. */
  lemma InvariantStep(data: seq<byte>, index: seq<byte>, enc: seq<seq<byte>>, s0: Laying, s: Laying, t: Laying, i: nat)
    requires FIRST_FILE <= i < |s0.table| == |index| == |enc|
    requires Moved(s0.table, index, enc, s.table, i) && Chained(s0.table, index, enc, s0.wp, s, i)
    requires Framed(s0.out, s0.wp, s) && Filled(data, s0.table, index, enc, s, i)
    requires index[i] != 0 || s.table[i].startP + s.table[i].Size() <= |data|
    requires Turn(s, t, i, index[i] != 0, Payload(data, s.table[i], index[i] != 0, enc[i]))
    ensures Moved(s0.table, index, enc, t.table, i + 1) && Chained(s0.table, index, enc, s0.wp, t, i + 1)
    ensures Framed(s0.out, s0.wp, t) && Filled(data, s0.table, index, enc, t, i + 1)
  {
    assert s.table[i] == s0.table[i];
    var p := Payload(data, s0.table[i], index[i] != 0, enc[i]);
    MovedStep(s0.table, index, enc, s, t, i, p);
    ChainedStep(s0.table, index, enc, s0.wp, s, t, i, p);
    FramedStep(s0.out, s0.wp, s, t, i, index[i] != 0, p);
    FilledStep(data, s0.table, index, enc, s0.wp, s, t, i);
  }

  // ---------------------------------------------------------------------------
  // Properties of compress

  /** A layout that succeeds read a table of more than FIRST_FILE entries with its index
      in the input, encoded every flagged entry, and ran the copy loop from Start. */
  lemma LayoutParts(data: seq<byte>, es: seq<TableEntry>)
    requires CompressLayout(data, es).Ok?
    ensures FIRST_FILE < |es| && es[|es| - 1].startP != 0 && es[|es| - 1].startP + |es| <= |data|
    ensures es[FIRST_FILE].startP <= COMPSIZE && EncodeAll(data, es, IndexOf(data, es), |es|).Ok?
    ensures CompressLayout(data, es) ==
      Lays(data, IndexOf(data, es), EncodeAll(data, es, IndexOf(data, es), |es|).value, Start(data, es), |es|)
  {
  }

  /** Everything LaysInvariant and EncodeAllEntries say about a layout that succeeds,
      entry by entry. */
  lemma LayoutEntry(data: seq<byte>, es: seq<TableEntry>, j: nat)
    requires CompressLayout(data, es).Ok? && FIRST_FILE <= j < |es|
    ensures var s := CompressLayout(data, es).value; var index := IndexOf(data, es);
      Fits(data, es[j], index[j] != 0) &&
      Relocated(es[j], s.table[j], index[j] != 0, |Stored(data, es[j], index[j] != 0)|) &&
      Yaz0.At(s.out, s.table[j].startP, Stored(data, es[j], index[j] != 0))
  {
    LayoutParts(data, es);
    var index := IndexOf(data, es);
    var enc := EncodeAll(data, es, index, |es|).value;
    LaysInvariant(data, index, enc, Start(data, es), |es|);
    EncodeAllEntries(data, es, index, |es|, j);
    var s := CompressLayout(data, es).value;
    assert Holds(data, s.out, s.table[j].startP, es[j], index[j] != 0, enc[j]);
  }

  /** compress leaves entries 0 .. 2 of the table alone, keeps every entry's virtual
      addresses, checks that each entry's file lies within the input (and that a
      flagged one fits yaz0_encode), and sets the endP of a flagged entry to the end of
      its encoding, keeping that of the others. */
  lemma LayoutTable(data: seq<byte>, es: seq<TableEntry>)
    requires CompressLayout(data, es).Ok?
    ensures FIRST_FILE < |es| && es[|es| - 1].startP + |es| <= |data|
    ensures var s := CompressLayout(data, es).value; var index := IndexOf(data, es);
      |s.table| == |es| &&
      (forall j :: 0 <= j < FIRST_FILE ==> s.table[j] == es[j]) &&
      (forall j :: FIRST_FILE <= j < |es| ==> Fits(data, es[j], index[j] != 0)) &&
      (forall j :: FIRST_FILE <= j < |es| ==> s.table[j].startV == es[j].startV && s.table[j].endV == es[j].endV) &&
      (forall j :: FIRST_FILE <= j < |es| ==>
        s.table[j].endP == if index[j] != 0 then s.table[j].startP + |Stored(data, es[j], true)| else es[j].endP)
  {
    LayoutParts(data, es);
    var index := IndexOf(data, es);
    LaysInvariant(data, index, EncodeAll(data, es, index, |es|).value, Start(data, es), |es|);
    forall j | FIRST_FILE <= j < |es|
      ensures Fits(data, es[j], index[j] != 0)
      ensures Relocated(es[j], CompressLayout(data, es).value.table[j], index[j] != 0, |Stored(data, es[j], index[j] != 0)|)
    {
      LayoutEntry(data, es, j);
    }
  }

  /** compress lays the entries from 3 on out one after the other, with no gap, from
      where entry 3's file started, each taking the size of what it stores; the final
      write pointer is the end of the last one and within COMPSIZE. */
  lemma LayoutContiguous(data: seq<byte>, es: seq<TableEntry>)
    requires CompressLayout(data, es).Ok?
    ensures FIRST_FILE < |es| && es[|es| - 1].startP + |es| <= |data|
    ensures var s := CompressLayout(data, es).value; var index := IndexOf(data, es);
      |s.table| == |es| && s.wp <= COMPSIZE &&
      (forall j :: FIRST_FILE <= j < |es| ==> Fits(data, es[j], index[j] != 0)) &&
      s.table[FIRST_FILE].startP == es[FIRST_FILE].startP &&
      (forall j :: FIRST_FILE < j < |es| ==>
        s.table[j].startP == s.table[j - 1].startP + |Stored(data, es[j - 1], index[j - 1] != 0)|) &&
      s.wp == s.table[|es| - 1].startP + |Stored(data, es[|es| - 1], index[|es| - 1] != 0)|
  {
    LayoutParts(data, es);
    var index := IndexOf(data, es);
    var enc := EncodeAll(data, es, index, |es|).value;
    LaysInvariant(data, index, enc, Start(data, es), |es|);
    forall j | FIRST_FILE <= j < |es|
      ensures Fits(data, es[j], index[j] != 0) && Len(es, index, enc, j) == |Stored(data, es[j], index[j] != 0)|
    {
      EncodeAllEntries(data, es, index, |es|, j);
    }
  }

  /** The output holds, below where entry 3's file started, the input as resized; at
      each entry's new physical start what it stores; and zeros from the final write
      pointer on. */
  lemma LayoutContents(data: seq<byte>, es: seq<TableEntry>)
    requires CompressLayout(data, es).Ok?
    ensures FIRST_FILE < |es| && es[|es| - 1].startP + |es| <= |data|
    ensures var s := CompressLayout(data, es).value; var index := IndexOf(data, es);
      |s.out| == COMPSIZE && |s.table| == |es| &&
      (forall k :: 0 <= k < es[FIRST_FILE].startP && k < COMPSIZE ==> s.out[k] == if k < |data| then data[k] else 0) &&
      (forall j :: FIRST_FILE <= j < |es| ==> Fits(data, es[j], index[j] != 0)) &&
      (forall j :: FIRST_FILE <= j < |es| ==> Yaz0.At(s.out, s.table[j].startP, Stored(data, es[j], index[j] != 0))) &&
      (forall k :: s.wp <= k < |s.out| ==> s.out[k] == 0)
  {
    LayoutParts(data, es);
    var index := IndexOf(data, es);
    var s0 := Start(data, es);
    LaysInvariant(data, index, EncodeAll(data, es, index, |es|).value, s0, |es|);
    forall j | FIRST_FILE <= j < |es|
      ensures Fits(data, es[j], index[j] != 0)
      ensures Yaz0.At(CompressLayout(data, es).value.out, CompressLayout(data, es).value.table[j].startP, Stored(data, es[j], index[j] != 0))
    {
      LayoutEntry(data, es, j);
    }
    assert forall k :: 0 <= k < s0.wp ==> s0.out[k] == Resize(Resize(data, DCMPSIZE), COMPSIZE)[k];
  }

  /** In the output table an entry is compressed exactly when compress encoded it or it
      was compressed already. */
  lemma LayoutFlags(data: seq<byte>, es: seq<TableEntry>)
    requires CompressLayout(data, es).Ok?
    ensures FIRST_FILE < |es| && es[|es| - 1].startP + |es| <= |data|
    ensures var s := CompressLayout(data, es).value; var index := IndexOf(data, es);
      |s.table| == |es| &&
      forall j :: FIRST_FILE <= j < |es| ==> (s.table[j].IsCompressed() <==> index[j] != 0 || es[j].IsCompressed())
  {
    LayoutParts(data, es);
    forall j | FIRST_FILE <= j < |es|
      ensures CompressLayout(data, es).value.table[j].IsCompressed() <==> IndexOf(data, es)[j] != 0 || es[j].IsCompressed()
    {
      LayoutEntry(data, es, j);
    }
  }

  /** What the decompressor's transfer step (Decompressor.Transfer) makes of an entry
      whose stored bytes are at its physical start in img: the entry's original file at
      its virtual address, when compress encoded it or it was raw. */
  lemma Restores(data: seq<byte>, img: seq<byte>, out: seq<byte>, j: nat, e: TableEntry, t: TableEntry, flagged: bool)
    requires Fits(data, e, flagged) && (flagged || !e.IsCompressed())
    requires Relocated(e, t, flagged, |Stored(data, e, flagged)|)
    requires Yaz0.At(img, t.startP, Stored(data, e, flagged)) && e.startV + e.Size() <= |out|
    ensures Decompressor.Transfer(img, out, j, t) == Ok(Put(out, e.startV, Content(data, e)))
  {
    assert t.Size() == e.Size();
    if flagged {
      assert |Stored(data, e, flagged)| >= Yaz0.HEADER_SIZE;
      Decompressor.TransferRoundTrip(img, out, j, t, Content(data, e));
    }
  }

  /** Decompressing an entry of the layout (Decompressor.Transfer) gives back its
      original file, for every entry compress encoded and every raw one. */
  lemma LayoutRestores(data: seq<byte>, es: seq<TableEntry>, j: nat, out: seq<byte>)
    requires CompressLayout(data, es).Ok? && FIRST_FILE <= j < |es|
    requires es[|es| - 1].startP + |es| <= |data|
    requires IndexOf(data, es)[j] != 0 || !es[j].IsCompressed()
    requires es[j].startV + es[j].Size() <= |out|
    ensures es[j].startP + es[j].Size() <= |data|
    ensures var s := CompressLayout(data, es).value;
      j < |s.table| && Decompressor.Transfer(s.out, out, j, s.table[j]) == Ok(Put(out, es[j].startV, Content(data, es[j])))
  {
    LayoutEntry(data, es, j);
    var s := CompressLayout(data, es).value;
    var flagged := IndexOf(data, es)[j] != 0;
    Restores(data, s.out, out, j, es[j], s.table[j], flagged);
  }

  /** In the image compress saves, the table at tp reads back as the layout's table and,
      when the table lies before entry 3's file, each entry read from it decompresses
      (Decompressor.Transfer) to its original file, for every entry compress encoded and
      every raw one. */
  lemma RunRestores(data: seq<byte>, tp: nat, es: seq<TableEntry>, j: nat, out: seq<byte>)
    requires CompressRun(data, tp, es).Ok? && FIRST_FILE <= j < |es|
    requires es[|es| - 1].startP + |es| <= |data| && tp + |es| * 16 <= es[FIRST_FILE].startP
    requires IndexOf(data, es)[j] != 0 || !es[j].IsCompressed()
    requires es[j].startV + es[j].Size() <= |out|
    ensures es[j].startP + es[j].Size() <= |data|
    ensures var img := CompressRun(data, tp, es).value;
      Decompressor.Transfer(img, out, j, DecodeEntry(img, tp + j * 16)) == Ok(Put(out, es[j].startV, Content(data, es[j])))
  {
    LayoutEntry(data, es, j);
    StartsAfter(data, es, j);
    RunImage(data, tp, es, j);
    var s := CompressLayout(data, es).value;
    var img := CompressRun(data, tp, es).value;
    var flagged := IndexOf(data, es)[j] != 0;
    AtKept(s.out, img, s.table[j].startP, Stored(data, es[j], flagged));
    Restores(data, img, out, j, es[j], s.table[j], flagged);
  }

  /** The image compress saves is the layout with its table written at tp: entry j
      reads back from the table, and every byte past the table is the layout's. */
  lemma RunImage(data: seq<byte>, tp: nat, es: seq<TableEntry>, j: nat)
    requires CompressRun(data, tp, es).Ok? && j < |es|
    ensures CompressLayout(data, es).Ok?
    ensures var s := CompressLayout(data, es).value; var img := CompressRun(data, tp, es).value;
      |img| == |s.out| && j < |s.table| && DecodeEntry(img, tp + j * 16) == s.table[j] &&
      forall k :: tp + |es| * 16 <= k < |img| ==> img[k] == s.out[k]
  {
    var s := CompressLayout(data, es).value;
    WriteTableRead(s.out, tp, s.table, j);
    WriteTableFrame(s.out, tp, s.table);
  }

  /** Bytes that are the same in both images keep what is stored there. */
  lemma AtKept(a: seq<byte>, b: seq<byte>, q: nat, x: seq<byte>)
    requires Yaz0.At(a, q, x) && |b| == |a| && forall k :: q <= k < |b| ==> b[k] == a[k]
    ensures Yaz0.At(b, q, x)
  {
    assert b[q..q + |x|] == a[q..q + |x|];
  }

  /** No entry of the layout starts before entry 3's file did. */
  lemma {:induction false} StartsAfter(data: seq<byte>, es: seq<TableEntry>, j: nat)
    requires CompressLayout(data, es).Ok? && FIRST_FILE <= j < |es|
    ensures var s := CompressLayout(data, es).value; j < |s.table| && s.table[j].startP >= es[FIRST_FILE].startP
    decreases j
  {
    LayoutContiguous(data, es);
    if j > FIRST_FILE {
      StartsAfter(data, es, j - 1);
    }
  }
}
