/** The ROM container of rom.h and rom.cpp: the 16-byte file-table entries, the search
    for the file table, reading and writing the table, and loading an image (with its
    16-bit word swap). */
module Rom {
  import opened Util

  /** Size of the decompressed output buffer (rom.cpp:15). */
  const DCMPSIZE: nat := 0x400_0000
  /** Size of a compressed ROM (compressor.cpp:11). */
  const COMPSIZE: nat := 0x200_0000
  /** The first table entry the decompressor and the compressor treat as an ordinary
      file (decompressor.cpp:39, compressor.cpp:55); entries 0 .. 2 stay where they are. */
  const FIRST_FILE: nat := 3

  /** "zelda@srd", the build string that precedes the file table (rom.cpp:57-58). */
  const MARKER: seq<byte> := [0x7A, 0x65, 0x6C, 0x64, 0x61, 0x40, 0x73, 0x72, 0x64]
  /** The word the table search looks for after it (rom.cpp:68); it sits 4 bytes into
      the table. */
  const MARKER2: seq<byte> := [0x00, 0x00, 0x10, 0x60]

  datatype RomError =
    | TableNotFound    // "zelda@srd" is absent; the C code exits (rom.cpp:61-64)
    | SearchPastEnd    // the marker lies within 32 bytes of the end; `it += 32` leaves the vector
    | TableOutOfRange  // a table entry would be read past the end of the image

  /** N64ROM::table_entry (rom.h:11-36): virtual and physical start and end addresses. */
  datatype TableEntry = TableEntry(startV: u32, endV: u32, startP: u32, endP: u32)
  {
    /** is_compressed (rom.h:34): a nonzero physical end. */
    predicate IsCompressed()
    {
      endP != 0
    }

    /** size (rom.h:35): endV - startV in 32-bit unsigned arithmetic, the amount that
        takes startV to endV. */
    function Size(): (r: u32)
      ensures (startV + r) % 0x1_0000_0000 == endV
      ensures startV <= endV ==> r == endV - startV
    {
      (endV - startV) % 0x1_0000_0000
    }
  }

  // ---------------------------------------------------------------------------
  // Entries in memory

  /** The 32-bit word a host loads from data[p..p + 4] through a uint32_t pointer. */
  function Load32(host: Endian, data: seq<byte>, p: nat): u32
    requires p + 4 <= |data|
  {
    LoadNative32(host, data[p], data[p + 1], data[p + 2], data[p + 3])
  }

  /** The big-endian word at data[p..p + 4]. */
  function Word(data: seq<byte>, p: nat): u32
    requires p + 4 <= |data|
  {
    BE32(data[p], data[p + 1], data[p + 2], data[p + 3])
  }

  /** The four bytes of x, most significant first. */
  function WordBytes(x: u32): seq<byte>
  {
    [ByteOf(x, 0), ByteOf(x, 1), ByteOf(x, 2), ByteOf(x, 3)]
  }

  /** The entry the 16 bytes at `pos` describe: four big-endian words, in the order
      startV, endV, startP, endP. */
  function DecodeEntry(data: seq<byte>, pos: nat): TableEntry
    requires pos + 16 <= |data|
  {
    TableEntry(Word(data, pos), Word(data, pos + 4), Word(data, pos + 8), Word(data, pos + 12))
  }

  /** The 16 bytes that describe `e`. */
  function EncodeEntry(e: TableEntry): (r: seq<byte>)
    ensures |r| == 16
  {
    WordBytes(e.startV) + WordBytes(e.endV) + WordBytes(e.startP) + WordBytes(e.endP)
  }

  /** `d` with the bytes `b` put at `pos`. */
  function Put(d: seq<byte>, pos: nat, b: seq<byte>): (r: seq<byte>)
    requires pos + |b| <= |d|
    ensures |r| == |d|
  {
    d[..pos] + b + d[pos + |b|..]
  }

  /** Put changes the bytes at pos..pos + |b|, to b, and nothing else. */
  lemma PutBytes(d: seq<byte>, pos: nat, b: seq<byte>)
    requires pos + |b| <= |d|
    ensures Put(d, pos, b)[pos..pos + |b|] == b
    ensures forall k :: 0 <= k < |d| && !(pos <= k < pos + |b|) ==> Put(d, pos, b)[k] == d[k]
  {
    assert Put(d, pos, b)[pos..pos + |b|] == b;
  }

  /** Putting back the bytes already there changes nothing. */
  lemma PutSame(d: seq<byte>, pos: nat, b: seq<byte>)
    requires pos + |b| <= |d| && d[pos..pos + |b|] == b
    ensures Put(d, pos, b) == d
  {
    assert d == d[..pos] + d[pos..pos + |b|] + d[pos + |b|..];
  }

  /** table_entry(data, pos) (rom.h:12-19): four words loaded natively and passed through
      bigendian. Whatever the host, the entry the bytes describe. */
  function ParseEntry(host: Endian, data: seq<byte>, pos: nat): (e: TableEntry)
    requires pos + 16 <= |data|
    ensures e == DecodeEntry(data, pos)
  {
    LoadBigEndian(host, data[pos], data[pos + 1], data[pos + 2], data[pos + 3]);
    LoadBigEndian(host, data[pos + 4], data[pos + 5], data[pos + 6], data[pos + 7]);
    LoadBigEndian(host, data[pos + 8], data[pos + 9], data[pos + 10], data[pos + 11]);
    LoadBigEndian(host, data[pos + 12], data[pos + 13], data[pos + 14], data[pos + 15]);
    TableEntry(BigEndian32(host, Load32(host, data, pos)), BigEndian32(host, Load32(host, data, pos + 4)),
               BigEndian32(host, Load32(host, data, pos + 8)), BigEndian32(host, Load32(host, data, pos + 12)))
  }

  /** The 16 bytes table_entry::write stores (rom.h:26-32): each field passed through
      bigendian and stored natively. Whatever the host, the big-endian layout. */
  function EntryBytes(host: Endian, e: TableEntry): (r: seq<byte>)
    ensures r == EncodeEntry(e)
  {
    StoreBigEndian(host, e.startV);
    StoreBigEndian(host, e.endV);
    StoreBigEndian(host, e.startP);
    StoreBigEndian(host, e.endP);
    StoreNative32(host, BigEndian32(host, e.startV)) + StoreNative32(host, BigEndian32(host, e.endV)) +
    StoreNative32(host, BigEndian32(host, e.startP)) + StoreNative32(host, BigEndian32(host, e.endP))
  }

  /** table_entry::write(data, pos) (rom.h:26-32) on the buffer `data`: whatever the
      host, the entry's big-endian bytes put at pos, and nothing else changed. */
  method WriteEntry(host: Endian, e: TableEntry, data: seq<byte>, pos: nat) returns (r: seq<byte>)
    requires pos + 16 <= |data|
    ensures r == Put(data, pos, EncodeEntry(e))
  {
    r := data[..pos] + EntryBytes(host, e) + data[pos + 16..];
  }

  /** Four bytes laid out by WordBytes read back as the word. */
  lemma WordOfBytes(data: seq<byte>, p: nat, x: u32)
    requires p + 4 <= |data| && data[p..p + 4] == WordBytes(x)
    ensures Word(data, p) == x
  {
    assert data[p] == data[p..p + 4][0] && data[p + 1] == data[p..p + 4][1];
    assert data[p + 2] == data[p..p + 4][2] && data[p + 3] == data[p..p + 4][3];
    Split32(x);
  }

  /** A word read from four bytes lays out as those bytes. */
  lemma BytesOfWord(data: seq<byte>, p: nat)
    requires p + 4 <= |data|
    ensures WordBytes(Word(data, p)) == data[p..p + 4]
  {
    BE32Bytes(data[p], data[p + 1], data[p + 2], data[p + 3]);
  }

  /** The bytes of an entry describe that entry. */
  lemma DecodeEncode(e: TableEntry, data: seq<byte>, pos: nat)
    requires pos + 16 <= |data| && data[pos..pos + 16] == EncodeEntry(e)
    ensures DecodeEntry(data, pos) == e
  {
    var b := data[pos..pos + 16];
    var A, B, C, D := WordBytes(e.startV), WordBytes(e.endV), WordBytes(e.startP), WordBytes(e.endP);
    assert b == A + B + C + D;
    assert b[4..8] == B by {
      forall j | 0 <= j < 4
        ensures b[4 + j] == B[j]
      {
        assert b[4 + j] == (A + B)[4 + j];
      }
    }
    assert b[8..12] == C by {
      forall j | 0 <= j < 4
        ensures b[8 + j] == C[j]
      {
        assert b[8 + j] == (A + B + C)[8 + j];
      }
    }
    assert b[..4] == A && b[12..] == D;
    WordOfBytes(b, 0, e.startV);
    WordOfBytes(b, 4, e.endV);
    WordOfBytes(b, 8, e.startP);
    WordOfBytes(b, 12, e.endP);
  }

  /** The entry 16 bytes describe is encoded as those bytes. */
  lemma EncodeDecode(data: seq<byte>, pos: nat)
    requires pos + 16 <= |data|
    ensures EncodeEntry(DecodeEntry(data, pos)) == data[pos..pos + 16]
  {
    BytesOfWord(data, pos);
    BytesOfWord(data, pos + 4);
    BytesOfWord(data, pos + 8);
    BytesOfWord(data, pos + 12);
    assert data[pos..pos + 16] == data[pos..pos + 4] + data[pos + 4..pos + 8] + data[pos + 8..pos + 12] + data[pos + 12..pos + 16];
  }

  /** Round trip: parsing the entry that write stored gives the same four fields,
      whichever hosts write and parse. */
  lemma WriteParse(w: Endian, r: Endian, e: TableEntry, data: seq<byte>, pos: nat)
    requires pos + 16 <= |data|
    ensures ParseEntry(r, Put(data, pos, EntryBytes(w, e)), pos) == e
  {
    PutBytes(data, pos, EncodeEntry(e));
    DecodeEncode(e, Put(data, pos, EncodeEntry(e)), pos);
  }

  /** Round trip the other way: writing back the entry just parsed changes no byte. */
  lemma ParseWrite(host: Endian, data: seq<byte>, pos: nat)
    requires pos + 16 <= |data|
    ensures Put(data, pos, EntryBytes(host, ParseEntry(host, data, pos))) == data
  {
    EncodeDecode(data, pos);
    PutSame(data, pos, EncodeEntry(DecodeEntry(data, pos)));
  }

  // ---------------------------------------------------------------------------
  // Searching for the table

  /** The bytes `p` occur in `s` at `i`. */
  predicate OccursAt(s: seq<byte>, i: nat, p: seq<byte>)
  {
    i + |p| <= |s| && s[i..i + |p|] == p
  }

  /** `r` is what std::search over s[from..] for `p` returns, as an index: the first
      occurrence at or after `from`, or |s| when there is none. */
  predicate IsFirst(s: seq<byte>, from: nat, p: seq<byte>, r: nat)
  {
    from <= r <= |s| && (r < |s| ==> OccursAt(s, r, p)) && forall i :: from <= i < r ==> !OccursAt(s, i, p)
  }

  /** std::search(s.begin() + from, s.end(), p.begin(), p.end()). */
  function Search(s: seq<byte>, from: nat, p: seq<byte>): (r: nat)
    requires from <= |s|
    ensures IsFirst(s, from, p, r)
    decreases |s| - from
  {
    if from == |s| || OccursAt(s, from, p) then from else Search(s, from + 1, p)
  }

  lemma IsFirstUnique(s: seq<byte>, from: nat, p: seq<byte>, r1: nat, r2: nat)
    requires IsFirst(s, from, p, r1) && IsFirst(s, from, p, r2)
    ensures r1 == r2
  {
  }

  /** N64ROM::findTable (rom.cpp:56-80) as a function. The do/while loop ends after its
      first pass whether or not the second marker is found: without it the result is
      |data| - 4. */
  function FindTableSpec(data: seq<byte>): Result<nat, RomError>
  {
    var m := Search(data, 0, MARKER);
    if m == |data| then Err(TableNotFound)
    else if m + 32 > |data| then Err(SearchPastEnd)
    else Ok(Search(data, m + 32, MARKER2) - 4)
  }

  /** What findTable returns, in terms of the first occurrences `m` of "zelda@srd" and
      `q` of the second marker 32 bytes after the start of the first (not after its end):
      an error without the first marker, and otherwise q - 4, where q is |data| when the
      second marker is absent. */
  lemma FindTableFirst(data: seq<byte>, m: nat, q: nat)
    requires IsFirst(data, 0, MARKER, m)
    ensures m == |data| ==> FindTableSpec(data) == Err(TableNotFound)
    ensures m < |data| && |data| < m + 32 ==> FindTableSpec(data) == Err(SearchPastEnd)
    ensures m + 32 <= |data| && IsFirst(data, m + 32, MARKER2, q) ==> FindTableSpec(data) == Ok(q - 4)
  {
    IsFirstUnique(data, 0, MARKER, m, Search(data, 0, MARKER));
    if m + 32 <= |data| && IsFirst(data, m + 32, MARKER2, q) {
      IsFirstUnique(data, m + 32, MARKER2, q, Search(data, m + 32, MARKER2));
    }
  }

  // ---------------------------------------------------------------------------
  // The table as a whole

  /** The `count` entries read 16 bytes apart from tp. */
  function TableEntries(data: seq<byte>, tp: nat, count: nat): (es: seq<TableEntry>)
    requires tp + count * 16 <= |data|
    ensures |es| == count
  {
    seq(count, i requires 0 <= i < count => DecodeEntry(data, tp + i * 16))
  }

  /** The table at tp (rom.cpp:86-90): entries read 16 bytes apart from tp, as many as
      entry 2's size divided by 16, or an error when they would lie past the end. */
  function TableAt(data: seq<byte>, tp: nat): (r: Result<seq<TableEntry>, RomError>)
    ensures r.Ok? ==> tp + |r.value| * 16 <= |data|
  {
    if tp + 3 * 16 > |data| then Err(TableOutOfRange)
    else
      var count := DecodeEntry(data, tp + 2 * 16).Size() / 16;
      if tp + count * 16 > |data| then Err(TableOutOfRange)
      else Ok(TableEntries(data, tp, count))
  }

  /** N64ROM::readTable (rom.cpp:82-92) as a function: the table position and the table
      found there. */
  function ReadTableSpec(data: seq<byte>): (r: Result<(nat, seq<TableEntry>), RomError>)
    ensures r.Ok? ==> r.value.0 + |r.value.1| * 16 <= |data|
  {
    match FindTableSpec(data)
    case Err(e) => Err(e)
    case Ok(tp) =>
      match TableAt(data, tp)
      case Err(e) => Err(e)
      case Ok(es) => Ok((tp, es))
  }

  /** Every block is 16 bytes long and all of them fit, one after the other, from tp on. */
  predicate SlotsFit(d: seq<byte>, tp: nat, bs: seq<seq<byte>>)
  {
    tp + |bs| * 16 <= |d| && forall i :: 0 <= i < |bs| ==> |bs[i]| == 16
  }

  /** `d` with the 16-byte blocks `bs` put one after the other from tp on, block i at
      tp + 16 * i. */
  function PutSlots(d: seq<byte>, tp: nat, bs: seq<seq<byte>>): (r: seq<byte>)
    requires SlotsFit(d, tp, bs)
    ensures |r| == |d|
    decreases |bs|
  {
    if |bs| == 0 then d
    else
      var n := |bs| - 1;
      assert SlotsFit(d, tp, bs[..n]) by {
        assert forall i :: 0 <= i < n ==> bs[..n][i] == bs[i];
      }
      Put(PutSlots(d, tp, bs[..n]), tp + n * 16, bs[n])
  }

  /** Two sequences that agree at every index of lo..hi have the same slice there. */
  lemma SameSlice(x: seq<byte>, y: seq<byte>, lo: nat, hi: nat)
    requires lo <= hi <= |x| && hi <= |y|
    requires forall k :: lo <= k < hi ==> x[k] == y[k]
    ensures x[lo..hi] == y[lo..hi]
  {
  }

  /** PutSlots changes no byte outside the slots. */
  lemma {:induction false} PutSlotsFrame(d: seq<byte>, tp: nat, bs: seq<seq<byte>>)
    requires SlotsFit(d, tp, bs)
    ensures forall k :: 0 <= k < |d| && !(tp <= k < tp + |bs| * 16) ==> PutSlots(d, tp, bs)[k] == d[k]
    decreases |bs|
  {
    if |bs| > 0 {
      var n := |bs| - 1;
      assert forall i :: 0 <= i < n ==> bs[..n][i] == bs[i];
      PutSlotsFrame(d, tp, bs[..n]);
      PutBytes(PutSlots(d, tp, bs[..n]), tp + n * 16, bs[n]);
    }
  }

  /** After PutSlots, slot i holds block i. */
  lemma {:induction false} PutSlotsSlot(d: seq<byte>, tp: nat, bs: seq<seq<byte>>, i: nat)
    requires SlotsFit(d, tp, bs) && i < |bs|
    ensures PutSlots(d, tp, bs)[tp + i * 16..tp + i * 16 + 16] == bs[i]
    decreases |bs|
  {
    var n := |bs| - 1;
    var prev := bs[..n];
    assert forall j :: 0 <= j < n ==> prev[j] == bs[j];
    var p := PutSlots(d, tp, prev);
    PutBytes(p, tp + n * 16, bs[n]);
    if i < n {
      PutSlotsSlot(d, tp, prev, i);
      SameSlice(PutSlots(d, tp, bs), p, tp + i * 16, tp + i * 16 + 16);
    }
  }

  /** Putting back the blocks already in the slots changes nothing. */
  lemma {:induction false} PutSlotsSame(d: seq<byte>, tp: nat, bs: seq<seq<byte>>)
    requires SlotsFit(d, tp, bs)
    requires forall i :: 0 <= i < |bs| ==> bs[i] == d[tp + i * 16..tp + i * 16 + 16]
    ensures PutSlots(d, tp, bs) == d
    decreases |bs|
  {
    if |bs| > 0 {
      var n := |bs| - 1;
      assert forall i :: 0 <= i < n ==> bs[..n][i] == bs[i];
      PutSlotsSame(d, tp, bs[..n]);
      PutSame(d, tp + n * 16, bs[n]);
    }
  }

  /** The encodings of the entries, one block each. */
  function EntryBlocks(es: seq<TableEntry>): (bs: seq<seq<byte>>)
    ensures |bs| == |es| && forall i :: 0 <= i < |es| ==> bs[i] == EncodeEntry(es[i])
  {
    seq(|es|, i requires 0 <= i < |es| => EncodeEntry(es[i]))
  }

  /** The output buffer after writeTable (rom.cpp:94-99): the entries written one after
      the other, entry i at tp + 16 * i. */
  function WriteTableSpec(d: seq<byte>, tp: nat, es: seq<TableEntry>): (r: seq<byte>)
    requires tp + |es| * 16 <= |d|
    ensures |r| == |d|
  {
    PutSlots(d, tp, EntryBlocks(es))
  }

  /** writeTable changes no byte outside the table. */
  lemma WriteTableFrame(d: seq<byte>, tp: nat, es: seq<TableEntry>)
    requires tp + |es| * 16 <= |d|
    ensures forall k :: 0 <= k < |d| && !(tp <= k < tp + |es| * 16) ==> WriteTableSpec(d, tp, es)[k] == d[k]
  {
    PutSlotsFrame(d, tp, EntryBlocks(es));
  }

  /** Reading the entries back from the written table gives the entries. */
  lemma WriteTableRead(d: seq<byte>, tp: nat, es: seq<TableEntry>, i: nat)
    requires tp + |es| * 16 <= |d| && i < |es|
    ensures DecodeEntry(WriteTableSpec(d, tp, es), tp + i * 16) == es[i]
  {
    PutSlotsSlot(d, tp, EntryBlocks(es), i);
    DecodeEncode(es[i], WriteTableSpec(d, tp, es), tp + i * 16);
  }

  /** Writing back the entries just read changes no byte of the image. */
  lemma ReadWriteTable(data: seq<byte>, tp: nat, es: seq<TableEntry>)
    requires tp + |es| * 16 <= |data|
    requires forall i :: 0 <= i < |es| ==> es[i] == DecodeEntry(data, tp + i * 16)
    ensures WriteTableSpec(data, tp, es) == data
  {
    var bs := EntryBlocks(es);
    forall i | 0 <= i < |es|
      ensures bs[i] == data[tp + i * 16..tp + i * 16 + 16]
    {
      EncodeDecode(data, tp + i * 16);
    }
    PutSlotsSame(data, tp, bs);
  }

  /** The table as read: writing it back unchanged leaves the image as it was. */
  lemma TableWriteBack(data: seq<byte>, tp: nat)
    requires TableAt(data, tp).Ok?
    ensures WriteTableSpec(data, tp, TableAt(data, tp).value) == data
  {
    ReadWriteTable(data, tp, TableAt(data, tp).value);
  }

  // ---------------------------------------------------------------------------
  // Loading an image

  /** The index byte k trades places with when the image's 16-bit words are swapped:
      its neighbour in the same word, or itself for a last odd byte. */
  function Partner(k: nat, n: nat): nat
  {
    if k % 2 == 1 then k - 1 else if k + 1 < n then k + 1 else k
  }

  /** The image with the two bytes of every 16-bit word exchanged. */
  function SwapPairs(s: seq<byte>): (r: seq<byte>)
    ensures |r| == |s|
    decreases |s|
  {
    if |s| < 2 then s else [s[1], s[0]] + SwapPairs(s[2..])
  }

  /** Byte k of the swapped image is the byte that shares its word. */
  lemma {:induction false} SwapPairsAt(s: seq<byte>)
    ensures forall k :: 0 <= k < |s| ==> SwapPairs(s)[k] == s[Partner(k, |s|)]
    decreases |s|
  {
    if |s| >= 2 {
      SwapPairsAt(s[2..]);
      forall k | 2 <= k < |s|
        ensures SwapPairs(s)[k] == s[Partner(k, |s|)]
      {
        assert Partner(k - 2, |s| - 2) + 2 == Partner(k, |s|) by {
          assert (k - 2) % 2 == k % 2;
        }
      }
    }
  }

  lemma PartnerTwice(k: nat, n: nat)
    requires k < n
    ensures Partner(k, n) < n && Partner(Partner(k, n), n) == k
  {
    if k % 2 == 1 {
      assert (k - 1) % 2 == 0;
    } else if k + 1 < n {
      assert (k + 1) % 2 == 1;
    }
  }

  /** Swapping twice restores the image. */
  lemma SwapPairsTwice(s: seq<byte>)
    ensures SwapPairs(SwapPairs(s)) == s
  {
    var t := SwapPairs(s);
    var u := SwapPairs(t);
    SwapPairsAt(s);
    SwapPairsAt(t);
    forall k | 0 <= k < |s|
      ensures u[k] == s[k]
    {
      PartnerTwice(k, |s|);
      assert u[k] == t[Partner(k, |s|)];
    }
  }

  /** The image loadROM returns for the file contents `file`: a first byte 0x37 marks a
      byte-swapped image, whose words are swapped back. */
  function Normalized(file: seq<byte>): seq<byte>
  {
    if |file| > 0 && file[0] == 0x37 then SwapPairs(file) else file
  }

  /** One step of the swap loop: the word at two bytes lo, hi loaded natively, passed
      through byteSwap and stored back as the bytes first, second. */
  method SwapWord(host: Endian, lo: byte, hi: byte) returns (first: byte, second: byte)
    ensures first == hi && second == lo
  {
    var stored := StoreNative16(host, ByteSwap16(LoadNative16(host, lo, hi)) as u16);
    SwapStoredWord(host, lo, hi);
    first, second := stored[0], stored[1];
  }

  /** The swap loop of loadROM (rom.cpp:46-51) on the image buffer: each 16-bit word is
      loaded natively, byte-swapped and stored back. */
  method SwapWords(host: Endian, a: array<byte>)
    modifies a
    ensures a[..] == SwapPairs(old(a[..]))
  {
    ghost var orig := a[..];
    ghost var n := a.Length;
    var i := 0;
    while i < a.Length / 2
      invariant 0 <= i <= n / 2
      invariant forall k :: 0 <= k < 2 * i ==> a[k] == orig[Partner(k, n)]
      invariant forall k :: 2 * i <= k < n ==> a[k] == orig[k]
    {
      var first, second := SwapWord(host, a[2 * i], a[2 * i + 1]);
      assert Partner(2 * i, n) == 2 * i + 1 && Partner(2 * i + 1, n) == 2 * i by {
        PartnerOfPair(i, n);
      }
      a[2 * i], a[2 * i + 1] := first, second;
      i := i + 1;
    }
    SwapPairsAt(orig);
    forall k | 2 * i <= k < n
      ensures a[k] == orig[Partner(k, n)]
    {
      assert k == n - 1 && Partner(k, n) == k;
    }
  }

  lemma PartnerOfPair(i: nat, n: nat)
    requires i < n / 2
    ensures Partner(2 * i, n) == 2 * i + 1 && Partner(2 * i + 1, n) == 2 * i
  {
    assert (2 * i) % 2 == 0 && (2 * i + 1) % 2 == 1;
  }

  /** loadROM (rom.cpp:30-54) once the file is read: an image whose first byte is 0x37 is
      stored with its 16-bit words byte-swapped and is swapped back. */
  method LoadRom(host: Endian, file: seq<byte>) returns (result: seq<byte>)
    ensures result == Normalized(file)
  {
    var a := new byte[|file|](i requires 0 <= i < |file| => file[i]);
    assert a[..] == file;
    if |file| > 0 && a[0] == 0x37 {
      SwapWords(host, a);
    }
    result := a[..];
  }

  // ---------------------------------------------------------------------------
  // N64ROM

  /** The loop of writeTable (rom.cpp:96-98): entry i written at tp + 16 * i. */
  method WriteEntries(host: Endian, d: seq<byte>, tp: nat, es: seq<TableEntry>) returns (r: seq<byte>)
    requires tp + |es| * 16 <= |d|
    ensures r == WriteTableSpec(d, tp, es)
  {
    ghost var blocks := EntryBlocks(es);
    r := d;
    var i := 0;
    while i < |es|
      invariant i <= |es| && r == PutSlots(d, tp, blocks[..i])
    {
      assert blocks[..i + 1][..i] == blocks[..i];
      r := WriteEntry(host, es[i], r, tp + i * 16);
      i := i + 1;
    }
    assert blocks[..i] == blocks;
  }

  /** The part of readTable after findTable (rom.cpp:86-90): entry 2 gives the number of
      entries, which are then parsed one by one. */
  method ReadTableAt(host: Endian, data: seq<byte>, tp: nat) returns (r: Result<seq<TableEntry>, RomError>)
    ensures r == TableAt(data, tp)
  {
    if tp + 3 * 16 > |data| {
      return Err(TableOutOfRange);
    }
    var toc := ParseEntry(host, data, tp + 2 * 16);
    var tocEntries := toc.Size() / 16;
    if tp + tocEntries * 16 > |data| {
      return Err(TableOutOfRange);
    }
    var entries := ReadEntries(host, data, tp, tocEntries);
    return Ok(entries);
  }

  /** The loop of readTable (rom.cpp:88-90): `count` entries parsed 16 bytes apart from tp. */
  method ReadEntries(host: Endian, data: seq<byte>, tp: nat, count: nat) returns (entries: seq<TableEntry>)
    requires tp + count * 16 <= |data|
    ensures entries == TableEntries(data, tp, count)
  {
    entries := [];
    var i := 0;
    while i < count
      invariant i <= count && |entries| == i
      invariant forall k :: 0 <= k < i ==> entries[k] == DecodeEntry(data, tp + k * 16)
    {
      var entry := ParseEntry(host, data, tp + i * 16);
      entries := entries + [entry];
      i := i + 1;
    }
    assert entries == TableEntries(data, tp, count);
  }

  /** N64ROM (rom.h:9-65): the image as loaded, the output image, the table position,
      the table as read and the table to be written. */
  class N64Rom {
    /** The byte order of the machine the program runs on. */
    const host: Endian
    var data: seq<byte>
    var outdata: seq<byte>
    var tablePosition: nat
    var intable: seq<TableEntry>
    var outtable: seq<TableEntry>

    /** The part of N64ROM(file_name) and load() before readTable (rom.cpp:20-25): the
        image read from the file and normalised, and the output image, a copy of it
        resized to DCMPSIZE bytes. */
    constructor (host: Endian, file: seq<byte>)
      ensures this.host == host && data == Normalized(file) && outdata == Resize(data, DCMPSIZE)
      ensures tablePosition == 0 && intable == [] && outtable == []
    {
      var d := LoadRom(host, file);
      this.host := host;
      data := d;
      outdata := Resize(d, DCMPSIZE);
      tablePosition := 0;
      intable := [];
      outtable := [];
    }

    /** N64ROM::findTable (rom.cpp:56-80), with its do/while loop. */
    method FindTable() returns (r: Result<nat, RomError>)
      ensures r == FindTableSpec(data)
    {
      var it := Search(data, 0, MARKER);
      if it == |data| {
        return Err(TableNotFound);
      }
      if it + 32 > |data| {
        return Err(SearchPastEnd);
      }
      ghost var start := it + 32;
      it := it + 32;
      var finalPosition := |data|;
      var again := true;
      while again
        invariant again ==> it == start
        invariant !again ==> finalPosition == Search(data, start, MARKER2)
        decreases again
      {
        finalPosition := Search(data, it, MARKER2);
        if finalPosition != |data| {
          break;
        }
        it := it + 16;
        again := finalPosition < |data|;
      }
      return Ok(finalPosition - 4);
    }

    /** N64ROM::readTable (rom.cpp:82-92): the table position, the entries, and the
        output table as a copy of them. */
    method ReadTable() returns (err: Option<RomError>)
      modifies this
      ensures data == old(data) && outdata == old(outdata)
      ensures match ReadTableSpec(data)
        case Ok(t) => err == None && tablePosition == t.0 && intable == t.1 && outtable == intable
        case Err(e) => err == Some(e)
    {
      var r := FindTable();
      if r.Err? {
        return Some(r.error);
      }
      tablePosition := r.value;
      var t := ReadTableAt(host, data, r.value);
      if t.Err? {
        return Some(t.error);
      }
      intable := t.value;
      outtable := intable;
      return None;
    }

    /** N64ROM::writeTable (rom.cpp:94-99): every output entry written into the output
        image at its slot. */
    method WriteTable()
      requires tablePosition + |outtable| * 16 <= |outdata|
      modifies this
      ensures data == old(data) && tablePosition == old(tablePosition)
      ensures intable == old(intable) && outtable == old(outtable)
      ensures outdata == WriteTableSpec(old(outdata), tablePosition, outtable)
    {
      outdata := WriteEntries(host, outdata, tablePosition, outtable);
    }
  }

  /** N64ROM(file_name) (rom.cpp:20-28): loads the image and reads its table. */
  method Open(host: Endian, file: seq<byte>) returns (r: Result<N64Rom, RomError>)
    ensures r.Ok? ==>
      fresh(r.value) && r.value.host == host && r.value.data == Normalized(file) &&
      r.value.outdata == Resize(r.value.data, DCMPSIZE) &&
      ReadTableSpec(r.value.data) == Ok((r.value.tablePosition, r.value.intable)) &&
      r.value.outtable == r.value.intable
    ensures r.Err? ==> ReadTableSpec(Normalized(file)) == Err(r.error)
  {
    var rom := new N64Rom(host, file);
    var err := rom.ReadTable();
    if err.Some? {
      return Err(err.value);
    }
    return Ok(rom);
  }
}
