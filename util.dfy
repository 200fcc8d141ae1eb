/** Byte-order helpers of util.h, the fixed-width integer types they work on,
    and the small Option/Result wrappers the rest of the model shares. */
module Util {

  type byte = x: int | 0 <= x < 0x100
  type u16 = x: int | 0 <= x < 0x1_0000
  type u32 = x: int | 0 <= x < 0x1_0000_0000

  datatype Option<T> = None | Some(value: T)

  datatype Result<T, E> = Ok(value: T) | Err(error: E)

  /** Byte order of the host. util.h detects it at compile time; here it is a parameter.
      (A middle-endian host is not modelled.) */
  datatype Endian = Little | Big

  /** The 32-bit value whose bytes, most significant first, are a, b, c, d. */
  function BE32(a: byte, b: byte, c: byte, d: byte): u32
  {
    a * 0x100_0000 + b * 0x1_0000 + c * 0x100 + d
  }

  /** Byte i of x counted from the most significant end (0 = top byte). */
  function ByteOf(x: u32, i: nat): byte
    requires i < 4
  {
    if i == 0 then x / 0x100_0000
    else if i == 1 then (x / 0x1_0000) % 0x100
    else if i == 2 then (x / 0x100) % 0x100
    else x % 0x100
  }

  /** Splitting a word into its bytes and joining them back are inverse. */
  lemma BE32Bytes(a: byte, b: byte, c: byte, d: byte)
    ensures ByteOf(BE32(a, b, c, d), 0) == a && ByteOf(BE32(a, b, c, d), 1) == b
    ensures ByteOf(BE32(a, b, c, d), 2) == c && ByteOf(BE32(a, b, c, d), 3) == d
  {
    var x := BE32(a, b, c, d);
    assert x / 0x100 == a * 0x1_0000 + b * 0x100 + c;
    assert x / 0x1_0000 == a * 0x100 + b;
  }

  lemma Split32(x: u32)
    ensures x == BE32(ByteOf(x, 0), ByteOf(x, 1), ByteOf(x, 2), ByteOf(x, 3))
  {
  }

  /** Two words with the same four bytes are equal. */
  lemma BytesDetermineWord(x: u32, y: u32)
    requires forall i :: 0 <= i < 4 ==> ByteOf(x, i) == ByteOf(y, i)
    ensures x == y
  {
    Split32(x);
    Split32(y);
    assert ByteOf(x, 0) == ByteOf(y, 0) && ByteOf(x, 1) == ByteOf(y, 1);
    assert ByteOf(x, 2) == ByteOf(y, 2) && ByteOf(x, 3) == ByteOf(y, 3);
  }

  /** byteSwap(uint16_t): exchanges the two bytes. The C++ return type is uint32_t,
      but the value always fits in 16 bits. */
  function ByteSwap16(x: u16): (r: u32)
    ensures r < 0x1_0000
    ensures r / 0x100 == x % 0x100 && r % 0x100 == x / 0x100
  {
    (x % 0x100) * 0x100 + x / 0x100
  }

  /** byteSwap(uint32_t): the word whose bytes are those of x in reverse order. */
  function ByteSwap32(x: u32): u32
  {
    BE32(ByteOf(x, 3), ByteOf(x, 2), ByteOf(x, 1), ByteOf(x, 0))
  }

  /** byteSwap(uint32_t) reverses the four bytes. */
  lemma ByteSwap32Bytes(x: u32)
    ensures forall i :: 0 <= i < 4 ==> ByteOf(ByteSwap32(x), i) == ByteOf(x, 3 - i)
  {
    BE32Bytes(ByteOf(x, 3), ByteOf(x, 2), ByteOf(x, 1), ByteOf(x, 0));
  }

  lemma ByteSwap16Involution(x: u16)
    ensures ByteSwap16(ByteSwap16(x) as u16) == x
  {
  }

  lemma ByteSwap32Involution(x: u32)
    ensures ByteSwap32(ByteSwap32(x)) == x
  {
    ByteSwap32Bytes(x);
    ByteSwap32Bytes(ByteSwap32(x));
    BytesDetermineWord(ByteSwap32(ByteSwap32(x)), x);
  }

  /** bigendian(uint32_t): the byte swap on a little-endian host, the identity otherwise. */
  function BigEndian32(host: Endian, x: u32): u32
  {
    if host == Little then ByteSwap32(x) else x
  }

  /** bigendian(uint16_t). */
  function BigEndian16(host: Endian, x: u16): (r: u16)
    ensures host == Big ==> r == x
    ensures host == Little ==> r / 0x100 == x % 0x100 && r % 0x100 == x / 0x100
  {
    if host == Little then ByteSwap16(x) as u16 else x
  }

  lemma BigEndian32Involution(host: Endian, x: u32)
    ensures BigEndian32(host, BigEndian32(host, x)) == x
  {
    if host == Little {
      ByteSwap32Involution(x);
    }
  }

  lemma BigEndian16Involution(host: Endian, x: u16)
    ensures BigEndian16(host, BigEndian16(host, x)) == x
  {
  }

  /** The value a host reads when it loads a 32-bit word whose bytes in memory are a, b, c, d. */
  function LoadNative32(host: Endian, a: byte, b: byte, c: byte, d: byte): u32
  {
    if host == Big then BE32(a, b, c, d) else BE32(d, c, b, a)
  }

  /** The four bytes, in memory order, that a host stores for the 32-bit word x. */
  function StoreNative32(host: Endian, x: u32): seq<byte>
  {
    if host == Big then [ByteOf(x, 0), ByteOf(x, 1), ByteOf(x, 2), ByteOf(x, 3)]
    else [ByteOf(x, 3), ByteOf(x, 2), ByteOf(x, 1), ByteOf(x, 0)]
  }

  /** Loading a native word and passing it through bigendian reads the bytes
      big-endian, whatever the host. */
  lemma LoadBigEndian(host: Endian, a: byte, b: byte, c: byte, d: byte)
    ensures BigEndian32(host, LoadNative32(host, a, b, c, d)) == BE32(a, b, c, d)
  {
    BE32Bytes(d, c, b, a);
    BE32Bytes(a, b, c, d);
    if host == Little {
      ByteSwap32Bytes(BE32(d, c, b, a));
      BytesDetermineWord(ByteSwap32(BE32(d, c, b, a)), BE32(a, b, c, d));
    }
  }

  /** Storing bigendian(x) natively lays x out big-endian, whatever the host. */
  lemma StoreBigEndian(host: Endian, x: u32)
    ensures StoreNative32(host, BigEndian32(host, x)) == [ByteOf(x, 0), ByteOf(x, 1), ByteOf(x, 2), ByteOf(x, 3)]
  {
    ByteSwap32Bytes(x);
  }

  /** The 16-bit value a host loads from the two bytes a, b in memory. */
  function LoadNative16(host: Endian, a: byte, b: byte): u16
  {
    if host == Big then a * 0x100 + b else b * 0x100 + a
  }

  /** The two bytes, in memory order, that a host stores for the 16-bit value x. */
  function StoreNative16(host: Endian, x: u16): seq<byte>
  {
    if host == Big then [x / 0x100, x % 0x100] else [x % 0x100, x / 0x100]
  }

  /** Loading a 16-bit word, swapping its bytes and storing it back exchanges the two
      bytes in memory, whatever the host. */
  lemma SwapStoredWord(host: Endian, a: byte, b: byte)
    ensures StoreNative16(host, ByteSwap16(LoadNative16(host, a, b)) as u16) == [b, a]
  {
  }

  /** std::string::find_last_of for one character: the index of the last c in s,
      or None for npos. */
  function FindLastOf(s: string, c: char): (r: Option<nat>)
    ensures r.Some? ==> r.value < |s| && s[r.value] == c && forall k :: r.value < k < |s| ==> s[k] != c
    ensures r.None? ==> forall k :: 0 <= k < |s| ==> s[k] != c
    decreases |s|
  {
    if s == [] then None
    else if s[|s| - 1] == c then Some(|s| - 1)
    else FindLastOf(s[..|s| - 1], c)
  }

  /** name.substr(0, name.find_last_of('.')): everything before the last '.', or the
      whole name when it has none (substr with npos keeps the whole string). */
  function BeforeLastDot(name: string): string
  {
    match FindLastOf(name, '.')
    case None => name
    case Some(k) => name[..k]
  }

  /** The int32_t a uint32_t value converts to: the value itself below 2^31, and the
      value less 2^32 from there on. */
  function AsSigned32(x: u32): (r: int)
    ensures -0x8000_0000 <= r < 0x8000_0000 && r % 0x1_0000_0000 == x
  {
    if x < 0x8000_0000 then x else x - 0x1_0000_0000
  }

  /** The output file name of the command-line tools: the name given on the command
      line, or else the input name up to its last '.' followed by `suffix`. */
  function OutputName(name: string, given: Option<string>, suffix: string): string
  {
    match given
    case Some(n) => n
    case None => BeforeLastDot(name) + suffix
  }

  /** The default output name swaps the extension for the suffix: it is a prefix p of
      the input name followed by the suffix, where p stops at the last '.' of the name,
      or is the whole name when the name has no '.'. */
  lemma OutputNameDefault(name: string, suffix: string)
    ensures var r := OutputName(name, None, suffix); var p := |r| - |suffix|;
      0 <= p <= |name| && r == name[..p] + suffix &&
      (p == |name| ==> forall j :: 0 <= j < |name| ==> name[j] != '.') &&
      (p < |name| ==> name[p] == '.' && forall j :: p < j < |name| ==> name[j] != '.')
  {
    match FindLastOf(name, '.')
    case None =>
      assert name[..|name|] == name;
    case Some(k) =>
  }

  /** memset(s.data() + start, 0, s.size() - start): the bytes before `start` kept, and
      zeros from there to the end. */
  function Cleared(s: seq<byte>, start: nat): (r: seq<byte>)
    requires start <= |s|
    ensures |r| == |s| && r[..start] == s[..start]
    ensures forall k :: start <= k < |r| ==> r[k] == 0
  {
    s[..start] + seq(|s| - start, _ => 0)
  }

  /** std::vector::resize: truncates, or extends with zero bytes. */
  function Resize(s: seq<byte>, n: nat): (r: seq<byte>)
    ensures |r| == n
    ensures forall i :: 0 <= i < n ==> r[i] == (if i < |s| then s[i] else 0)
  {
    if n <= |s| then s[..n] else s + seq(n - |s|, _ => 0)
  }
}
