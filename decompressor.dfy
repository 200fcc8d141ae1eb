/** The decompressor (decompressor.cpp): every compressed file of the image is decoded
    to its virtual address, every raw one copied there, the output table is rewritten
    to that layout, and a compression index (one byte per entry, 1 for the entries that
    were compressed) is stored after the last file for a later recompression. */
module Decompressor {
  import opened Util
  import opened Rom
  import Yaz0

  /** The suffix of the default output name (decompressor.cpp:27). */
  const SUFFIX: string := "-decomp.z64"

  datatype DecompressError =
    | TableError(RomError)                     // loading the image and its table fails
    | TooFewEntries                            // the table has no entry 3: inEntry(3) is out of range
    | ClearOutOfRange                          // entry 3 starts past DCMPSIZE: the memset length wraps
    | EntryOutOfRange(i: nat)                  // entry i's data or its slot lies outside its buffer
    | DecodeFailed(i: nat, e: Yaz0.DecodeError) // entry i's Yaz0 stream is malformed
    | NothingDecompressed                      // every entry is a dummy: last_endv is never set
    | IndexOutOfRange                          // the index would be copied past the end of the output
    | TablePastEnd                             // the table lies past the end of the output buffer

  /** decompressor's main (decompressor.cpp:24-27): the output file name. */
  function OutName(name: string, given: Option<string>): string
  {
    OutputName(name, given, SUFFIX)
  }

  /** The state of the loop of decompressor.cpp:46-66: the output image, the output
      table, the compression index and last_endv (None until an entry sets it). */
  datatype Progress = Progress(out: seq<byte>, table: seq<TableEntry>, index: seq<byte>, last: Option<u32>)

  // ---------------------------------------------------------------------------
  // The specification

  /** An entry as the decompressed image lists it (decompressor.cpp:64-65): its file
      sits at its virtual address, uncompressed. */
  function Unpacked(e: TableEntry): TableEntry
  {
    e.(startP := e.startV, endP := 0)
  }

  /** The output image once entry i (`e`) is decoded or copied to its virtual address
      (decompressor.cpp:54-61): yaz0_decode of the input from startP into the output
      from startV, or a memcpy of size() bytes. */
  function Transfer(data: seq<byte>, out: seq<byte>, i: nat, e: TableEntry): (r: Result<seq<byte>, DecompressError>)
    ensures r.Ok? ==> |r.value| == |out|
  {
    if e.startP > |data| || e.startV > |out| then Err(EntryOutOfRange(i))
    else if e.IsCompressed() then
      match Yaz0.DecodeSpec(data[e.startP..], e.Size(), |out| - e.startV)
      case Err(d) => Err(DecodeFailed(i, d))
      case Ok(dec) => Ok(Put(out, e.startV, dec))
    else if e.startP + e.Size() > |data| || e.startV + e.Size() > |out| then Err(EntryOutOfRange(i))
    else Ok(Put(out, e.startV, data[e.startP..e.startP + e.Size()]))
  }

  /** One turn of the loop (decompressor.cpp:47-65): a dummy entry (endV == 0) changes
      nothing; any other is transferred, flagged in the index when compressed, recorded as
      last_endv, and gets startP := startV and endP := 0 in the output table. */
  function EntryPass(data: seq<byte>, p: Progress, i: nat, e: TableEntry): (r: Result<Progress, DecompressError>)
    requires i < |p.table| && i < |p.index|
    ensures r.Ok? ==> |r.value.out| == |p.out| && |r.value.table| == |p.table| && |r.value.index| == |p.index|
  {
    if e.endV == 0 then Ok(p)
    else
      match Transfer(data, p.out, i, e)
      case Err(err) => Err(err)
      case Ok(out) =>
        Ok(Progress(out, p.table[i := Unpacked(e)],
                    if e.IsCompressed() then p.index[i := 1] else p.index, Some(e.endV)))
  }

  /** The loop run over entries FIRST_FILE .. n - 1 of `es`, from p0. */
  function Passes(data: seq<byte>, es: seq<TableEntry>, p0: Progress, n: nat): (r: Result<Progress, DecompressError>)
    requires FIRST_FILE <= n <= |es| == |p0.table| == |p0.index|
    ensures r.Ok? ==> |r.value.out| == |p0.out| && |r.value.table| == |es| && |r.value.index| == |es|
    decreases n
  {
    if n == FIRST_FILE then Ok(p0)
    else
      match Passes(data, es, p0, n - 1)
      case Err(err) => Err(err)
      case Ok(p) => EntryPass(data, p, n - 1, es[n - 1])
  }

  /** After the loop (decompressor.cpp:70-73): the last entry's startP becomes last_endv
      and the index is copied to the output at last_endv. */
  function Finish(p: Progress): (r: Result<Progress, DecompressError>)
    requires |p.table| == |p.index| > 0
    ensures r.Ok? ==> |r.value.out| == |p.out| && |r.value.table| == |p.table|
  {
    match p.last
    case None => Err(NothingDecompressed)
    case Some(last) =>
      if last + |p.index| > |p.out| then Err(IndexOutOfRange)
      else
        var n := |p.table| - 1;
        Ok(p.(out := Put(p.out, last, p.index), table := p.table[n := p.table[n].(startP := last)]))
  }

  /** The state the loop starts from: the output cleared from entry 3's file on, the
      output table as read, an all-zero index and last_endv unset. */
  function Initial(data: seq<byte>, es: seq<TableEntry>): (p: Progress)
    requires FIRST_FILE < |es| && es[FIRST_FILE].startP <= DCMPSIZE
    ensures |p.out| == DCMPSIZE && p.table == es && p.index == Yaz0.ZeroBytes(|es|) && p.last == None
  {
    Progress(Cleared(Resize(data, DCMPSIZE), es[FIRST_FILE].startP), es, Yaz0.ZeroBytes(|es|), None)
  }

  /** The output image and table of decompress before save (decompressor.cpp:35-73),
      for the image `data` whose table `es` lies at tp. */
  function DecompressLayout(data: seq<byte>, es: seq<TableEntry>): (r: Result<Progress, DecompressError>)
    ensures r.Ok? ==> |r.value.out| == DCMPSIZE && |r.value.table| == |es|
  {
    if |es| <= FIRST_FILE then Err(TooFewEntries)
    else
      if es[FIRST_FILE].startP > DCMPSIZE then Err(ClearOutOfRange)
      else
        match Passes(data, es, Initial(data, es), |es|)
        case Err(e) => Err(e)
        case Ok(p) => Finish(p)
  }

  /** The image save writes, before fix_crc (rom.cpp:101-103): the layout with its table
      written back at tp. */
  function DecompressRun(data: seq<byte>, tp: nat, es: seq<TableEntry>): Result<seq<byte>, DecompressError>
  {
    match DecompressLayout(data, es)
    case Err(e) => Err(e)
    case Ok(f) =>
      if tp + |f.table| * 16 > |f.out| then Err(TablePastEnd)
      else Ok(WriteTableSpec(f.out, tp, f.table))
  }

  /** decompress (decompressor.cpp:34-76) on the bytes of a file. */
  function DecompressSpec(file: seq<byte>): Result<seq<byte>, DecompressError>
  {
    var data := Normalized(file);
    match ReadTableSpec(data)
    case Err(e) => Err(TableError(e))
    case Ok(t) => DecompressRun(data, t.0, t.1)
  }

  // ---------------------------------------------------------------------------
  // What the decompressor guarantees

  /** The loop from the table as read and an all-zero index: over entries FIRST_FILE ..
      n - 1, every entry with a nonzero endV is unpacked, and its index byte is 1
      exactly when it was compressed; every other entry and index byte is untouched. */
  lemma {:induction false} PassesEntries(data: seq<byte>, es: seq<TableEntry>, p0: Progress, n: nat)
    requires FIRST_FILE <= n <= |es| == |p0.index| && p0.table == es && p0.index == Yaz0.ZeroBytes(|es|)
    requires Passes(data, es, p0, n).Ok?
    ensures forall j :: 0 <= j < |es| ==>
      Passes(data, es, p0, n).value.table[j]
        == (if FIRST_FILE <= j < n && es[j].endV != 0 then Unpacked(es[j]) else es[j])
    ensures forall j :: 0 <= j < |es| ==>
      Passes(data, es, p0, n).value.index[j]
        == (if FIRST_FILE <= j < n && es[j].endV != 0 && es[j].IsCompressed() then 1 else 0)
    decreases n
  {
    if n > FIRST_FILE {
      PassesEntries(data, es, p0, n - 1);
    }
  }

  /** last_endv after the loop over entries FIRST_FILE .. n - 1: unset exactly when all
      of them are dummies, and otherwise the endV of the last entry that is not. */
  lemma {:induction false} PassesLast(data: seq<byte>, es: seq<TableEntry>, p0: Progress, n: nat)
    requires FIRST_FILE <= n <= |es| == |p0.table| == |p0.index| && p0.last == None
    requires Passes(data, es, p0, n).Ok?
    ensures var last := Passes(data, es, p0, n).value.last;
      (last.None? <==> forall j :: FIRST_FILE <= j < n ==> es[j].endV == 0) &&
      (last.Some? ==> exists j :: FIRST_FILE <= j < n && es[j].endV != 0 && last.value == es[j].endV &&
                                  forall k :: j < k < n ==> es[k].endV == 0)
    decreases n
  {
    if n > FIRST_FILE {
      PassesLast(data, es, p0, n - 1);
      if es[n - 1].endV != 0 {
        assert Passes(data, es, p0, n).value.last == Some(es[n - 1].endV);
      }
    }
  }

  /** After the loop: last_endv is set, to the endV of the last entry that is not a
      dummy, and the index fits after it. */
  lemma LayoutLast(data: seq<byte>, es: seq<TableEntry>)
    requires DecompressLayout(data, es).Ok?
    ensures var f := DecompressLayout(data, es).value; var n := |es| - 1;
      f.last.Some? && f.last.value + |es| <= DCMPSIZE &&
      exists j :: FIRST_FILE <= j <= n && es[j].endV != 0 && f.last.value == es[j].endV &&
                  forall k :: j < k <= n ==> es[k].endV == 0
  {
    PassesLast(data, es, Initial(data, es), |es|);
  }

  /** The output table decompress writes: the entries the loop handled are unpacked, the
      others are as read, and the last entry, whichever it is, points at last_endv. */
  lemma LayoutTable(data: seq<byte>, es: seq<TableEntry>)
    requires DecompressLayout(data, es).Ok?
    ensures var f := DecompressLayout(data, es).value; var n := |es| - 1;
      f.last.Some? &&
      f.table[n] == (if es[n].endV != 0 then Unpacked(es[n]) else es[n]).(startP := f.last.value) &&
      forall j :: 0 <= j < n ==> f.table[j] == (if FIRST_FILE <= j && es[j].endV != 0 then Unpacked(es[j]) else es[j])
  {
    PassesEntries(data, es, Initial(data, es), |es|);
  }

  /** The index decompress stores at last_endv: one byte per entry, 1 exactly for the
      compressed entries the loop unpacked. */
  lemma LayoutIndex(data: seq<byte>, es: seq<TableEntry>)
    requires DecompressLayout(data, es).Ok?
    ensures var f := DecompressLayout(data, es).value;
      f.last.Some? && f.last.value + |es| <= |f.out| &&
      forall j :: 0 <= j < |es| ==>
        f.out[f.last.value + j] == (if FIRST_FILE <= j && es[j].endV != 0 && es[j].IsCompressed() then 1 else 0)
  {
    var p := Passes(data, es, Initial(data, es), |es|).value;
    PassesEntries(data, es, Initial(data, es), |es|);
    FinishIndex(p);
  }

  /** Finish copies the index to the output at last_endv. */
  lemma FinishIndex(p: Progress)
    requires |p.table| == |p.index| > 0 && Finish(p).Ok?
    ensures p.last.Some? && p.last.value + |p.index| <= |p.out|
    ensures forall j :: 0 <= j < |p.index| ==> Finish(p).value.out[p.last.value + j] == p.index[j]
  {
    var last := p.last.value;
    var out := Finish(p).value.out;
    PutBytes(p.out, last, p.index);
    forall j | 0 <= j < |p.index|
      ensures out[last + j] == p.index[j]
    {
      assert out[last..last + |p.index|][j] == p.index[j];
    }
  }

  /** A stream embedded in a longer input decodes as the stream alone: the decoder
      stops at the size from the header and reads none of what follows. */
  lemma DecodeWithin(s: seq<byte>, x: seq<byte>, cap: nat)
    requires |x| < 0x8000_0000 && |x| <= cap && Yaz0.At(s, 0, Yaz0.EncodeSpec(x))
    ensures Yaz0.DecodeSpec(s, |x|, cap) == Ok(x)
  {
    var toks := Yaz0.EncodeTokens(x);
    Yaz0.EncodeTokensExpand(x);
    var body := Yaz0.Serialize(toks);
    var r := Yaz0.EncodeSpec(x);
    var pad := Yaz0.ZeroBytes(Yaz0.AlignedSize(|body|) - Yaz0.HEADER_SIZE - |body|);
    assert r == Yaz0.Header(|x|) + body + pad;
    assert Yaz0.At(s, Yaz0.HEADER_SIZE, body) by {
      assert s[..|r|] == r;
      assert s[Yaz0.HEADER_SIZE..Yaz0.HEADER_SIZE + |body|] == r[Yaz0.HEADER_SIZE..Yaz0.HEADER_SIZE + |body|];
      assert r[Yaz0.HEADER_SIZE..Yaz0.HEADER_SIZE + |body|] == body;
    }
    Yaz0.DecodeTokens(s, Yaz0.HEADER_SIZE, [], toks, 0, |x|, cap);
  }

  /** A compressed entry whose data is yaz0_encode of x, with size |x|, decompresses
      to x at its virtual address, and changes nothing else in the output. */
  lemma TransferRoundTrip(data: seq<byte>, out: seq<byte>, i: nat, e: TableEntry, x: seq<byte>)
    requires e.IsCompressed() && |x| < 0x8000_0000 && e.Size() == |x| && e.startV + |x| <= |out|
    requires Yaz0.At(data, e.startP, Yaz0.EncodeSpec(x))
    ensures Transfer(data, out, i, e) == Ok(Put(out, e.startV, x))
  {
    var s := data[e.startP..];
    assert Yaz0.At(s, 0, Yaz0.EncodeSpec(x)) by {
      assert s[..|Yaz0.EncodeSpec(x)|] == data[e.startP..e.startP + |Yaz0.EncodeSpec(x)|];
    }
    DecodeWithin(s, x, |out| - e.startV);
  }

  /** A raw entry's size() bytes from startP land at startV, and nothing else in the
      output changes. */
  lemma TransferRaw(data: seq<byte>, out: seq<byte>, i: nat, e: TableEntry)
    requires !e.IsCompressed() && Transfer(data, out, i, e).Ok?
    ensures var r := Transfer(data, out, i, e).value;
      e.startP + e.Size() <= |data| && e.startV + e.Size() <= |out| &&
      r[e.startV..e.startV + e.Size()] == data[e.startP..e.startP + e.Size()] &&
      forall k :: 0 <= k < |out| && !(e.startV <= k < e.startV + e.Size()) ==> r[k] == out[k]
  {
    PutBytes(out, e.startV, data[e.startP..e.startP + e.Size()]);
  }

  // ---------------------------------------------------------------------------
  // The program

  /** int32_t(x) converted back to uint32_t is x: decompSize reaches yaz0_decode
      unchanged. */
  lemma SignedRoundTrip(x: u32)
    ensures Yaz0.AsUnsigned32(AsSigned32(x)) == x
  {
  }

  /** yaz0_decode of `stream` into the output image from `at` on
      (decompressor.cpp:55-56). The decoder writes through a buffer that starts as the
      output from `at` on, and whose end is the end of the output. */
  method DecodeInto(stream: seq<byte>, out: seq<byte>, at: nat, size: u32) returns (r: Result<seq<byte>, Yaz0.DecodeError>)
    requires at <= |out|
    ensures match Yaz0.DecodeSpec(stream, size, |out| - at)
      case Ok(dec) => r == Ok(Put(out, at, dec))
      case Err(d) => r == Err(d)
  {
    var dst := new byte[|out| - at](k requires 0 <= k < |out| - at => out[at + k]);
    assert dst[..] == out[at..];
    SignedRoundTrip(size);
    var err := Yaz0.Decode(stream, dst, AsSigned32(size));
    if err.Some? {
      return Err(err.value);
    }
    ghost var dec := Yaz0.DecodeSpec(stream, size, dst.Length).value;
    assert dst[..] == dec + out[at + |dec|..] by {
      assert dst[..] == dst[..|dec|] + dst[|dec|..];
    }
    assert out[..at] + dst[..] == Put(out, at, dec) by {
      assert out[..at] + (dec + out[at + |dec|..]) == out[..at] + dec + out[at + |dec|..];
    }
    return Ok(out[..at] + dst[..]);
  }

  /** Decoding or copying entry i into the output image (decompressor.cpp:54-61). */
  method TransferEntry(data: seq<byte>, out: seq<byte>, i: nat, e: TableEntry) returns (r: Result<seq<byte>, DecompressError>)
    ensures r == Transfer(data, out, i, e)
  {
    if e.startP > |data| || e.startV > |out| {
      return Err(EntryOutOfRange(i));
    }
    if e.IsCompressed() {
      var decoded := DecodeInto(data[e.startP..], out, e.startV, e.Size());
      if decoded.Err? {
        return Err(DecodeFailed(i, decoded.error));
      }
      return Ok(decoded.value);
    }
    if e.startP + e.Size() > |data| || e.startV + e.Size() > |out| {
      return Err(EntryOutOfRange(i));
    }
    return Ok(out[..e.startV] + data[e.startP..e.startP + e.Size()] + out[e.startV + e.Size()..]);
  }

  /** One turn of the loop (decompressor.cpp:47-65) on the ROM object and the index. */
  method ProcessEntry(rom: N64Rom, index: array<byte>, i: nat, last: Option<u32>) returns (r: Result<Option<u32>, DecompressError>)
    requires i < |rom.intable| && i < |rom.outtable| == index.Length
    modifies rom, index
    ensures rom.data == old(rom.data) && rom.intable == old(rom.intable) && rom.tablePosition == old(rom.tablePosition)
    ensures match EntryPass(rom.data, Progress(old(rom.outdata), old(rom.outtable), old(index[..]), last), i, rom.intable[i])
      case Ok(p) => r == Ok(p.last) && rom.outdata == p.out && rom.outtable == p.table && index[..] == p.index
      case Err(e) => r == Err(e)
  {
    var entry := rom.intable[i];
    if entry.endV == 0 {
      return Ok(last);
    }
    var moved := TransferEntry(rom.data, rom.outdata, i, entry);
    if moved.Err? {
      return Err(moved.error);
    }
    rom.outdata := moved.value;
    if entry.IsCompressed() {
      index[i] := 1;
    }
    rom.outtable := rom.outtable[i := Unpacked(entry)];
    return Ok(Some(entry.endV));
  }

  /** An error ends the loop: later passes keep it. */
  lemma {:induction false} PassesErrSticks(data: seq<byte>, es: seq<TableEntry>, p0: Progress, n: nat, m: nat)
    requires FIRST_FILE <= n <= m <= |es| == |p0.table| == |p0.index|
    requires Passes(data, es, p0, n).Err?
    ensures Passes(data, es, p0, m) == Passes(data, es, p0, n)
    decreases m
  {
    if m > n {
      PassesErrSticks(data, es, p0, n, m - 1);
    }
  }

  /** The loop of decompressor.cpp:46-66 over entries FIRST_FILE onward. */
  method RunLoop(rom: N64Rom, index: array<byte>) returns (r: Result<Option<u32>, DecompressError>)
    requires FIRST_FILE <= |rom.intable| == |rom.outtable| == index.Length
    modifies rom, index
    ensures rom.data == old(rom.data) && rom.intable == old(rom.intable) && rom.tablePosition == old(rom.tablePosition)
    ensures match Passes(rom.data, rom.intable, Progress(old(rom.outdata), old(rom.outtable), old(index[..]), None), |rom.intable|)
      case Ok(p) => r == Ok(p.last) && rom.outdata == p.out && rom.outtable == p.table && index[..] == p.index
      case Err(e) => r == Err(e)
  {
    var count := |rom.intable|;
    var last: Option<u32> := None;
    ghost var p0 := Progress(rom.outdata, rom.outtable, index[..], None);
    var i := FIRST_FILE;
    while i < count
      invariant FIRST_FILE <= i <= count && index.Length == count
      invariant rom.data == old(rom.data) && rom.intable == old(rom.intable) && rom.tablePosition == old(rom.tablePosition)
      invariant Passes(rom.data, rom.intable, p0, i) == Ok(Progress(rom.outdata, rom.outtable, index[..], last))
    {
      var step := ProcessEntry(rom, index, i, last);
      if step.Err? {
        PassesErrSticks(rom.data, rom.intable, p0, i + 1, count);
        return Err(step.error);
      }
      last := step.value;
      i := i + 1;
    }
    return Ok(last);
  }

  /** After the loop (decompressor.cpp:70-73): the index entry's startP and the index
      copied to the output at last_endv. */
  method PlaceIndex(rom: N64Rom, index: array<byte>, last: Option<u32>) returns (err: Option<DecompressError>)
    requires |rom.outtable| == index.Length > 0
    modifies rom
    ensures rom.data == old(rom.data) && rom.intable == old(rom.intable) && rom.tablePosition == old(rom.tablePosition)
    ensures match Finish(Progress(old(rom.outdata), old(rom.outtable), index[..], last))
      case Ok(f) => err == None && rom.outdata == f.out && rom.outtable == f.table
      case Err(e) => err == Some(e)
  {
    if last.None? {
      return Some(NothingDecompressed);
    }
    var lastEndV := last.value;
    var count := index.Length;
    if lastEndV + count > |rom.outdata| {
      return Some(IndexOutOfRange);
    }
    rom.outtable := rom.outtable[count - 1 := rom.outtable[count - 1].(startP := lastEndV)];
    rom.outdata := rom.outdata[..lastEndV] + index[..] + rom.outdata[lastEndV + count..];
    return None;
  }

  /** decompress (decompressor.cpp:35-73) on a loaded ROM: clear the output from entry
      3's file on, run the loop, place the index; then save's writeTable (rom.cpp:102). */
  method DecompressRom(rom: N64Rom) returns (r: Result<seq<byte>, DecompressError>)
    requires rom.outtable == rom.intable && rom.outdata == Resize(rom.data, DCMPSIZE)
    modifies rom
    ensures r == DecompressRun(old(rom.data), old(rom.tablePosition), old(rom.intable))
  {
    var count := |rom.intable|;
    if count <= FIRST_FILE {
      return Err(TooFewEntries);
    }
    var start := rom.intable[FIRST_FILE].startP;
    if start > DCMPSIZE {
      return Err(ClearOutOfRange);
    }
    rom.outdata := Cleared(rom.outdata, start);
    var index := new byte[count](_ => 0);
    assert Progress(rom.outdata, rom.outtable, index[..], None)
        == Initial(rom.data, rom.intable);
    var looped := RunLoop(rom, index);
    if looped.Err? {
      return Err(looped.error);
    }
    var err := PlaceIndex(rom, index, looped.value);
    if err.Some? {
      return Err(err.value);
    }
    if rom.tablePosition + count * 16 > |rom.outdata| {
      return Err(TablePastEnd);
    }
    rom.WriteTable();
    return Ok(rom.outdata);
  }

  /** decompress (decompressor.cpp:34-76): load the file, decompress, and return the
      bytes save writes (fix_crc aside). */
  method Decompress(host: Endian, file: seq<byte>) returns (r: Result<seq<byte>, DecompressError>)
    ensures r == DecompressSpec(file)
  {
    var loaded := Open(host, file);
    if loaded.Err? {
      return Err(TableError(loaded.error));
    }
    r := DecompressRom(loaded.value);
  }
}
