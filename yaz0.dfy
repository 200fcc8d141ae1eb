/** The Yaz0 codec of yaz0.cpp.

    A Yaz0 stream is a 16-byte header ("Yaz0", the decoded size big-endian, eight zero
    bytes) followed by code groups: one control byte whose bits, most significant first,
    say for each of the next (at most eight) tokens whether it is a literal byte (bit set)
    or a back-reference (bit clear). A back-reference copies `len` bytes starting
    `dist + 1` bytes behind the end of the output, one byte at a time, so the copy may
    overlap the bytes it is producing.

    The model states the format on an abstract token sequence (`Token`, `Serialize`,
    `Expand`), specifies the encoder's match heuristics as functions (`SimpleMatch`,
    `Lookahead`, `EncodeTokens`) and the decoder as `DecodeLoop`, and proves the
    imperative methods against them and the round trip between them. */
module Yaz0 {
  import opened Util

  const HEADER_SIZE: nat := 0x10
  /** How far back a back-reference may reach. */
  const WINDOW: nat := 0x1000
  /** Longest run one back-reference encodes: 0xFF + 0x12. */
  const MAX_LEN: nat := 0x111
  /** "Yaz0" */
  const MAGIC: seq<byte> := [0x59, 0x61, 0x7A, 0x30]

  datatype Token = Literal(b: byte) | Backref(dist: nat, len: nat)

  /** A candidate match found by the search: its length and where it starts. */
  datatype Match = Match(len: nat, pos: nat)

  /** What can go wrong when decoding; yaz0_decode performs no checks, so each of these is
      a read or write outside its buffers in the C code. */
  datatype DecodeError = SourceOverrun | BackrefBeforeStart | OutputOverrun

  function ZeroBytes(n: nat): (r: seq<byte>)
    ensures |r| == n && forall i :: 0 <= i < n ==> r[i] == 0
  {
    seq(n, _ => 0)
  }

  // ---------------------------------------------------------------------------
  // Control bytes

  function Pow2(n: nat): (r: nat)
    ensures r >= 1
  {
    if n == 0 then 1 else 2 * Pow2(n - 1)
  }

  lemma Pow2Values()
    ensures Pow2(0) == 1 && Pow2(1) == 2 && Pow2(2) == 4 && Pow2(3) == 8 && Pow2(4) == 16
    ensures Pow2(5) == 0x20 && Pow2(6) == 0x40 && Pow2(7) == 0x80 && Pow2(8) == 0x100
  {
  }

  /** The flag of the i-th token of a group: 1 for a literal, 0 for a back-reference
      or past the end of the group. */
  function Bit(g: seq<Token>, i: nat): nat
  {
    if i < |g| && g[i].Literal? then 1 else 0
  }

  /** The control byte of a group of at most eight tokens: bit 7 for the first token,
      bit 6 for the second, and so on; unused low bits are zero. */
  function ControlByte(g: seq<Token>): byte
    requires |g| <= 8
  {
    0x80 * Bit(g, 0) + 0x40 * Bit(g, 1) + 0x20 * Bit(g, 2) + 0x10 * Bit(g, 3) +
    0x08 * Bit(g, 4) + 0x04 * Bit(g, 5) + 0x02 * Bit(g, 6) + Bit(g, 7)
  }

  /** How the decoder reads a control byte: bit 7 tells the first token's kind, and
      shifting left by one (within a byte) leaves the control byte of the rest. */
  lemma ControlByteStep(h: seq<Token>)
    requires 1 <= |h| <= 8
    ensures ControlByte(h) >= 0x80 <==> h[0].Literal?
    ensures (ControlByte(h) * 2) % 0x100 == ControlByte(h[1..])
  {
    var t := h[1..];
    assert Bit(t, 0) == Bit(h, 1) && Bit(t, 1) == Bit(h, 2) && Bit(t, 2) == Bit(h, 3) && Bit(t, 3) == Bit(h, 4);
    assert Bit(t, 4) == Bit(h, 5) && Bit(t, 5) == Bit(h, 6) && Bit(t, 6) == Bit(h, 7) && Bit(t, 7) == 0;
  }

  /** How the encoder builds a control byte: each literal ORs in the bit
      0x80 >> (its index in the group), which is still clear. */
  lemma ControlByteAdd(g: seq<Token>, t: Token)
    requires |g| < 8
    ensures ControlByte(g + [t]) == ControlByte(g) + (if t.Literal? then Pow2(7 - |g|) else 0)
  {
    var h := g + [t];
    forall i: nat | i < 8
      ensures Bit(h, i) == if i < |g| then Bit(g, i) else if i == |g| && t.Literal? then 1 else 0
    {
      if i < |g| {
        assert h[i] == g[i];
      }
    }
    Pow2Values();
  }

  // ---------------------------------------------------------------------------
  // Tokens, their bytes and their meaning

  /** Number of output bytes a token stands for. */
  function Len(t: Token): nat
  {
    if t.Literal? then 1 else t.len
  }

  /** A token the stream format can carry: a back-reference reaches at most 0x1000
      bytes back and copies 3 to 0x111 bytes. */
  predicate Encodable(t: Token)
  {
    t.Backref? ==> t.dist <= 0xFFF && 3 <= t.len <= MAX_LEN
  }

  predicate AllEncodable(toks: seq<Token>)
  {
    forall i :: 0 <= i < |toks| ==> Encodable(toks[i])
  }

  /** The bytes of one token (yaz0.cpp:109, 113-125): a literal is the byte itself; a
      back-reference is `(len-2)<<4 | dist>>8, dist & 0xFF` when len <= 0x11, and
      `dist>>8, dist & 0xFF, len-0x12` (high nibble zero) otherwise. */
  function TokenBytes(t: Token): (r: seq<byte>)
    requires Encodable(t)
    ensures 1 <= |r| <= Len(t)
    ensures t.Backref? ==> |r| == (if t.len >= 0x12 then 3 else 2)
  {
    match t
    case Literal(b) => [b]
    case Backref(d, n) =>
      if n >= 0x12 then [d / 0x100, d % 0x100, n - 0x12]
      else [(n - 2) * 0x10 + d / 0x100, d % 0x100]
  }

  /** The bytes of a token sequence, one token after the other. */
  function AllTokenBytes(toks: seq<Token>): seq<byte>
    requires AllEncodable(toks)
    decreases |toks|, 1
  {
    if toks == [] then [] else TokenBytesCons(toks)
  }

  function TokenBytesCons(toks: seq<Token>): seq<byte>
    requires AllEncodable(toks) && toks != []
    decreases |toks|, 0
  {
    TokenBytes(toks[0]) + AllTokenBytes(toks[1..])
  }

  lemma {:induction false} AllTokenBytesAppend(a: seq<Token>, b: seq<Token>)
    requires AllEncodable(a) && AllEncodable(b)
    ensures AllEncodable(a + b)
    ensures AllTokenBytes(a + b) == AllTokenBytes(a) + AllTokenBytes(b)
  {
    if a == [] {
      assert a + b == b;
    } else {
      assert (a + b)[1..] == a[1..] + b;
      AllTokenBytesAppend(a[1..], b);
    }
  }

  /** One code group: its control byte, then its tokens. */
  function Group(g: seq<Token>): seq<byte>
    requires |g| <= 8 && AllEncodable(g)
  {
    [ControlByte(g)] + AllTokenBytes(g)
  }

  /** The compressed stream after the header (yaz0.cpp:96-141): groups of eight tokens,
      then a last group of fewer than eight. The last group is written even when it is
      empty, so a stream always ends with a control byte that announces fewer than eight
      tokens. */
  function Serialize(toks: seq<Token>): seq<byte>
    requires AllEncodable(toks)
    decreases |toks|, 2
  {
    if |toks| < 8 then Group(toks) else SerializeMore(toks)
  }

  function SerializeMore(toks: seq<Token>): seq<byte>
    requires AllEncodable(toks) && |toks| >= 8
    decreases |toks|, 1
  {
    SerializeCons(toks)
  }

  function SerializeCons(toks: seq<Token>): seq<byte>
    requires AllEncodable(toks) && |toks| >= 8
    decreases |toks|, 0
  {
    Group(toks[..8]) + Serialize(toks[8..])
  }

  lemma SerializeUnfold(toks: seq<Token>)
    requires AllEncodable(toks) && |toks| >= 8
    ensures Serialize(toks) == Group(toks[..8]) + Serialize(toks[8..])
  {
    assert SerializeMore(toks) == SerializeCons(toks);
  }

  /** The complete groups of a token sequence whose length is a multiple of eight. */
  function FullGroups(toks: seq<Token>): seq<byte>
    requires AllEncodable(toks) && |toks| % 8 == 0
    decreases |toks|, 2
  {
    if toks == [] then [] else FullGroupsMore(toks)
  }

  function FullGroupsMore(toks: seq<Token>): seq<byte>
    requires AllEncodable(toks) && |toks| % 8 == 0 && toks != []
    decreases |toks|, 1
  {
    FullGroupsCons(toks)
  }

  function FullGroupsCons(toks: seq<Token>): seq<byte>
    requires AllEncodable(toks) && |toks| % 8 == 0 && toks != []
    decreases |toks|, 0
  {
    Group(toks[..8]) + FullGroups(toks[8..])
  }

  lemma FullGroupsUnfold(toks: seq<Token>)
    requires AllEncodable(toks) && |toks| % 8 == 0 && toks != []
    ensures FullGroups(toks) == Group(toks[..8]) + FullGroups(toks[8..])
  {
    assert FullGroupsMore(toks) == FullGroupsCons(toks);
  }

  lemma {:induction false} FullGroupsAppend(full: seq<Token>, g: seq<Token>)
    requires AllEncodable(full) && |full| % 8 == 0 && AllEncodable(g) && |g| == 8
    ensures AllEncodable(full + g) && |full + g| % 8 == 0
    ensures FullGroups(full + g) == FullGroups(full) + Group(g)
  {
    var fg := full + g;
    assert AllEncodable(fg) by {
      forall i | 0 <= i < |fg| ensures Encodable(fg[i]) {
        if i < |full| { assert fg[i] == full[i]; } else { assert fg[i] == g[i - |full|]; }
      }
    }
    if full == [] {
      assert fg == g;
      assert g[..8] == g && g[8..] == [];
      FullGroupsUnfold(g);
    } else {
      var rest := full[8..];
      assert fg[..8] == full[..8];
      assert fg[8..] == rest + g;
      FullGroupsAppend(rest, g);
      FullGroupsUnfold(fg);
      FullGroupsUnfold(full);
      calc {
        FullGroups(fg);
        Group(fg[..8]) + FullGroups(fg[8..]);
        Group(full[..8]) + FullGroups(rest + g);
        Group(full[..8]) + (FullGroups(rest) + Group(g));
        (Group(full[..8]) + FullGroups(rest)) + Group(g);
      }
    }
  }

  lemma {:induction false} SerializeSplit(full: seq<Token>, g: seq<Token>)
    requires AllEncodable(full) && |full| % 8 == 0 && AllEncodable(g) && |g| < 8
    ensures AllEncodable(full + g)
    ensures Serialize(full + g) == FullGroups(full) + Group(g)
  {
    if full == [] {
      assert full + g == g;
    } else {
      assert (full + g)[..8] == full[..8];
      assert (full + g)[8..] == full[8..] + g;
      SerializeSplit(full[8..], g);
      SerializeUnfold(full + g);
      FullGroupsUnfold(full);
    }
  }

  /** Total number of output bytes a token sequence stands for. */
  function TotalLen(toks: seq<Token>): nat
  {
    if toks == [] then 0 else Len(toks[0]) + TotalLen(toks[1..])
  }

  /** The stream is no longer than the data it stands for, plus one control byte per
      started group (yaz0.cpp:159 allocates only src_size + 0x160 for it). */
  lemma {:induction false} SerializeSize(toks: seq<Token>)
    requires AllEncodable(toks)
    ensures |toks| <= |AllTokenBytes(toks)| <= TotalLen(toks) && |toks| <= TotalLen(toks)
    ensures |Serialize(toks)| == 1 + |toks| / 8 + |AllTokenBytes(toks)|
    decreases |toks|
  {
    if toks != [] {
      SerializeSize(toks[1..]);
    }
    if |toks| >= 8 {
      AllTokenBytesAppend(toks[..8], toks[8..]);
      assert toks == toks[..8] + toks[8..];
      SerializeSize(toks[8..]);
      SerializeUnfold(toks);
    }
  }

  /** A sequence of tokens that can be applied to `n` bytes of output: every token is
      encodable and every back-reference reaches into bytes already produced. */
  predicate ValidFrom(n: nat, toks: seq<Token>)
    decreases |toks|
  {
    toks == [] ||
    (Encodable(toks[0]) && (toks[0].Backref? ==> toks[0].dist < n) && ValidFrom(n + Len(toks[0]), toks[1..]))
  }

  lemma {:induction false} ValidEncodable(n: nat, toks: seq<Token>)
    requires ValidFrom(n, toks)
    ensures AllEncodable(toks)
    decreases |toks|
  {
    if toks != [] {
      ValidEncodable(n + Len(toks[0]), toks[1..]);
      assert forall i :: 1 <= i < |toks| ==> toks[i] == toks[1..][i - 1];
    }
  }

  lemma {:induction false} ValidAppend(n: nat, a: seq<Token>, b: seq<Token>)
    ensures TotalLen(a + b) == TotalLen(a) + TotalLen(b)
    ensures ValidFrom(n, a + b) <==> ValidFrom(n, a) && ValidFrom(n + TotalLen(a), b)
    decreases |a|
  {
    if a == [] {
      assert a + b == b;
    } else {
      assert (a + b)[0] == a[0];
      assert (a + b)[1..] == a[1..] + b;
      ValidAppend(n + Len(a[0]), a[1..], b);
    }
  }

  /** Copies `n` bytes, one at a time, from `dist + 1` bytes behind the end of `out`
      (yaz0.cpp:205, 216); when n > dist + 1 the copy reads bytes it has just written. */
  function CopyBack(out: seq<byte>, dist: nat, n: nat): (r: seq<byte>)
    requires dist < |out|
    ensures |r| == |out| + n
    decreases n
  {
    if n == 0 then out else CopyBack(out + [out[|out| - dist - 1]], dist, n - 1)
  }

  /** The output after one token is applied to `out`. */
  function Apply(out: seq<byte>, t: Token): (r: seq<byte>)
    requires t.Backref? ==> t.dist < |out|
    ensures |r| == |out| + Len(t)
  {
    match t
    case Literal(b) => out + [b]
    case Backref(d, n) => CopyBack(out, d, n)
  }

  /** What a sequence of tokens decodes to after the bytes `out`. */
  function Expand(out: seq<byte>, toks: seq<Token>): (r: seq<byte>)
    requires ValidFrom(|out|, toks)
    ensures |r| == |out| + TotalLen(toks)
    decreases |toks|
  {
    if toks == [] then out
    else
      var next := Apply(out, toks[0]);
      Expand(next, toks[1..])
  }

  lemma {:induction false} ExpandAppend(out: seq<byte>, a: seq<Token>, b: seq<Token>)
    requires ValidFrom(|out|, a + b)
    ensures ValidFrom(|out|, a) && ValidFrom(|out| + TotalLen(a), b)
    ensures Expand(out, a + b) == Expand(Expand(out, a), b)
    decreases |a|
  {
    ValidAppend(|out|, a, b);
    if a == [] {
      assert a + b == b;
    } else {
      assert (a + b)[0] == a[0];
      assert (a + b)[1..] == a[1..] + b;
      ExpandAppend(Apply(out, a[0]), a[1..], b);
    }
  }

  // ---------------------------------------------------------------------------
  // The encoder's choices (simpleEnc and nintendoEnc) as functions

  /** The first position the search for a match at `pos` looks at (yaz0.cpp:34, 39). */
  function WindowStart(pos: nat): nat
  {
    if pos < WINDOW then 0 else pos - WINDOW
  }

  /** The longest match the search at `pos` may report (yaz0.cpp:35, 41). */
  function Cap(src: seq<byte>, pos: nat): nat
    requires pos <= |src|
  {
    if |src| - pos > MAX_LEN then MAX_LEN else |src| - pos
  }

  /** The `n` bytes at `i` equal the `n` bytes at `pos`. */
  predicate Matches(src: seq<byte>, i: nat, pos: nat, n: nat)
    decreases n
  {
    n == 0 || (i < |src| && pos < |src| && src[i] == src[pos] && Matches(src, i + 1, pos + 1, n - 1))
  }

  /** The inner loop of simpleEnc (yaz0.cpp:44-46): how many bytes, at most `cap`, agree
      from `i` and from `pos`. */
  function MatchLen(src: seq<byte>, i: nat, pos: nat, cap: nat): (n: nat)
    requires i < pos && pos + cap <= |src|
    ensures n <= cap
    decreases cap
  {
    if cap == 0 || src[i] != src[pos] then 0 else 1 + MatchLen(src, i + 1, pos + 1, cap - 1)
  }

  /** The bytes MatchLen counts do match, and the byte after them (if the cap allows
      one) does not. */
  lemma {:induction false} MatchLenSpec(src: seq<byte>, i: nat, pos: nat, cap: nat)
    requires i < pos && pos + cap <= |src|
    ensures var n := MatchLen(src, i, pos, cap);
      Matches(src, i, pos, n) && (n < cap ==> src[i + n] != src[pos + n])
    decreases cap
  {
    if cap > 0 && src[i] == src[pos] {
      MatchLenSpec(src, i + 1, pos + 1, cap - 1);
    }
  }

  /** MatchLen is the longest match: every match of at most `cap` bytes is no longer. */
  lemma {:induction false} MatchLenLongest(src: seq<byte>, i: nat, pos: nat, cap: nat, n: nat)
    requires i < pos && pos + cap <= |src|
    requires n <= cap && Matches(src, i, pos, n)
    ensures n <= MatchLen(src, i, pos, cap)
    decreases n
  {
    if n > 0 {
      MatchLenLongest(src, i + 1, pos + 1, cap - 1, n - 1);
    }
  }

  /** One more equal byte extends a match. */
  lemma {:induction false} MatchesExtend(src: seq<byte>, i: nat, pos: nat, n: nat)
    requires Matches(src, i, pos, n)
    requires i + n < |src| && pos + n < |src| && src[i + n] == src[pos + n]
    ensures Matches(src, i, pos, n + 1)
    decreases n
  {
    if n > 0 {
      MatchesExtend(src, i + 1, pos + 1, n - 1);
    }
  }

  /** A match that reaches the cap, or is followed by a mismatch, is what MatchLen counts. */
  lemma {:induction false} MatchLenExact(src: seq<byte>, i: nat, pos: nat, cap: nat, n: nat)
    requires i < pos && pos + cap <= |src|
    requires n <= cap && Matches(src, i, pos, n) && (n < cap ==> src[i + n] != src[pos + n])
    ensures MatchLen(src, i, pos, cap) == n
    decreases n
  {
    if n > 0 {
      MatchLenExact(src, i + 1, pos + 1, cap - 1, n - 1);
    }
  }

  /** Matching bytes are equal bytes, position by position. */
  lemma {:induction false} MatchesAt(src: seq<byte>, i: nat, pos: nat, n: nat, k: nat)
    requires Matches(src, i, pos, n) && k < n
    ensures i + k < |src| && pos + k < |src| && src[i + k] == src[pos + k]
    decreases n
  {
    if k > 0 {
      MatchesAt(src, i + 1, pos + 1, n - 1, k - 1);
    }
  }

  /** The outer loop of simpleEnc (yaz0.cpp:43-51) from candidate `i` on, with the best
      match so far `best` bytes long at `at`. Only a strictly longer match replaces the
      best, so among equally long matches the earliest wins. */
  function Best(src: seq<byte>, pos: nat, cap: nat, i: nat, best: nat, at: nat): (r: Match)
    requires i <= pos && pos + cap <= |src|
    ensures r.len >= best
    ensures r.len == best ==> r.pos == at
    ensures r.len > best ==> i <= r.pos < pos && r.len <= cap
    decreases pos - i, 2
  {
    if i == pos then Match(best, at) else BestNext(src, pos, cap, i, best, at)
  }

  function BestNext(src: seq<byte>, pos: nat, cap: nat, i: nat, best: nat, at: nat): (r: Match)
    requires i < pos && pos + cap <= |src|
    ensures r.len >= best
    ensures r.len == best ==> r.pos == at
    ensures r.len > best ==> i <= r.pos < pos && r.len <= cap
    decreases pos - i, 1
  {
    BestStep(src, pos, cap, i, best, at)
  }

  /** One candidate of the scan: candidate `i` replaces the best so far when it matches
      more bytes. */
  function BestStep(src: seq<byte>, pos: nat, cap: nat, i: nat, best: nat, at: nat): (r: Match)
    requires i < pos && pos + cap <= |src|
    ensures r.len >= best
    ensures r.len == best ==> r.pos == at
    ensures r.len > best ==> i <= r.pos < pos && r.len <= cap
    decreases pos - i, 0
  {
    var j := MatchLen(src, i, pos, cap);
    if j > best then Best(src, pos, cap, i + 1, j, i) else Best(src, pos, cap, i + 1, best, at)
  }

  /** The scan finds the longest of the candidates from `i` on, and the first of them
      when several are equally long. */
  lemma {:induction false} BestSpec(src: seq<byte>, pos: nat, cap: nat, i: nat, best: nat, at: nat)
    requires i <= pos && pos + cap <= |src|
    ensures var r := Best(src, pos, cap, i, best, at);
      (r.len > best ==> r.len == MatchLen(src, r.pos, pos, cap)) &&
      (forall j :: i <= j < pos ==> MatchLen(src, j, pos, cap) <= r.len) &&
      (r.len > best ==> forall j :: i <= j < r.pos ==> MatchLen(src, j, pos, cap) < r.len)
    decreases pos - i
  {
    if i < pos {
      var j := MatchLen(src, i, pos, cap);
      assert Best(src, pos, cap, i, best, at) == BestStep(src, pos, cap, i, best, at);
      if j > best {
        BestSpec(src, pos, cap, i + 1, j, i);
      } else {
        BestSpec(src, pos, cap, i + 1, best, at);
      }
    }
  }

  /** What simpleEnc returns for position `pos`: the length (a match of two bytes is
      reported as one, since it would not save space) and the match position. */
  function SimpleMatch(src: seq<byte>, pos: nat): (r: Match)
    requires pos <= |src|
    ensures r.len >= 1
    ensures r.len >= 3 ==> WindowStart(pos) <= r.pos < pos && r.len <= Cap(src, pos)
  {
    var m := Best(src, pos, Cap(src, pos), WindowStart(pos), 1, 0);
    if m.len == 2 then Match(1, m.pos) else m
  }

  /** What simpleEnc promises about a reported match, independently of how it searches:
      it has three bytes or more, lies within the window, repeats the bytes at `pos`, and
      no earlier candidate in the window matches as many bytes. */
  lemma SimpleMatchFound(src: seq<byte>, pos: nat)
    requires pos <= |src| && SimpleMatch(src, pos).len != 1
    ensures var r := SimpleMatch(src, pos);
      3 <= r.len <= MAX_LEN && WindowStart(pos) <= r.pos < pos && Matches(src, r.pos, pos, r.len) &&
      forall i :: WindowStart(pos) <= i < r.pos ==> !Matches(src, i, pos, r.len)
  {
    var r := SimpleMatch(src, pos);
    var cap := Cap(src, pos);
    BestSpec(src, pos, cap, WindowStart(pos), 1, 0);
    MatchLenSpec(src, r.pos, pos, cap);
    forall i | WindowStart(pos) <= i < r.pos
      ensures !Matches(src, i, pos, r.len)
    {
      if Matches(src, i, pos, r.len) {
        MatchLenLongest(src, i, pos, cap, r.len);
      }
    }
  }

  /** ... and it is the longest: no match in the window (of at most 0x111 bytes) is
      longer; a reported length of one means no match is longer than two bytes. */
  lemma SimpleMatchLongest(src: seq<byte>, pos: nat, i: nat, n: nat)
    requires pos <= |src| && WindowStart(pos) <= i < pos
    requires n <= Cap(src, pos) && Matches(src, i, pos, n)
    ensures var r := SimpleMatch(src, pos);
      n <= (if r.len == 1 then 2 else r.len)
  {
    BestSpec(src, pos, Cap(src, pos), WindowStart(pos), 1, 0);
    MatchLenLongest(src, i, pos, Cap(src, pos), n);
  }

  /** The state nintendoEnc keeps between calls: a match found by looking one byte ahead,
      to be used at the next position (`prevFlag` set, with `numBytes1` and `matchPos`). */
  predicate PendingOk(src: seq<byte>, pos: nat, pending: Option<Match>)
    requires pos <= |src|
  {
    pending.Some? ==> pending.value == SimpleMatch(src, pos) && pending.value.len >= 5
  }

  /** nintendoEnc (yaz0.cpp:58-87): the match to use at `pos` and the match to keep for
      the next position. A pending look-ahead match is used as it is. Otherwise, when the
      match at `pos` has three bytes or more but the match at `pos + 1` is at least two
      bytes longer, a literal is emitted and the longer match is kept for the next call. */
  function Lookahead(src: seq<byte>, pos: nat, pending: Option<Match>): (r: (Match, Option<Match>))
    requires pos < |src| && PendingOk(src, pos, pending)
    ensures PendingOk(src, pos + 1, r.1)
    ensures r.1.Some? ==> r.0.len == 1
    ensures r.0.len >= 1 && (r.0.len >= 3 ==> WindowStart(pos) <= r.0.pos < pos && r.0.len <= Cap(src, pos))
  {
    if pending.Some? then (pending.value, None)
    else
      var m := SimpleMatch(src, pos);
      if m.len >= 3 then
        var m1 := SimpleMatch(src, pos + 1);
        if m1.len >= m.len + 2 then (Match(1, m.pos), Some(m1)) else (m, None)
      else (m, None)
  }

  /** The token a chosen match stands for at `pos` (yaz0.cpp:108-127): a literal when it
      is shorter than three bytes, otherwise a back-reference with distance
      `pos - matchPos - 1`. */
  function TokenFor(src: seq<byte>, pos: nat, m: Match): (t: Token)
    requires pos < |src| && m.len >= 1
    requires m.len >= 3 ==> WindowStart(pos) <= m.pos < pos && m.len <= Cap(src, pos)
    ensures Encodable(t) && 1 <= Len(t) <= |src| - pos
    ensures t.Backref? ==> t.dist < pos && t.len == m.len && t.dist == pos - m.pos - 1
  {
    if m.len < 3 then Literal(src[pos]) else Backref(pos - m.pos - 1, m.len)
  }

  /** The tokens the encoder emits from `pos` on, with `pending` the look-ahead state. */
  function TokensFrom(src: seq<byte>, pos: nat, pending: Option<Match>): seq<Token>
    requires pos <= |src| && PendingOk(src, pos, pending)
    decreases |src| - pos, 2
  {
    if pos == |src| then [] else TokensNext(src, pos, pending)
  }

  function TokensNext(src: seq<byte>, pos: nat, pending: Option<Match>): seq<Token>
    requires pos < |src| && PendingOk(src, pos, pending)
    decreases |src| - pos, 1
  {
    TokensAt(src, pos, pending)
  }

  /** The same, before the end of the input: the token for the match chosen at `pos`,
      then the tokens from the position after it. */
  function TokensAt(src: seq<byte>, pos: nat, pending: Option<Match>): seq<Token>
    requires pos < |src| && PendingOk(src, pos, pending)
    decreases |src| - pos, 0
  {
    var choice := Lookahead(src, pos, pending);
    var t := TokenFor(src, pos, choice.0);
    [t] + TokensFrom(src, pos + Len(t), choice.1)
  }

  /** The tokens yaz0_encode_internal emits for the whole input. */
  function EncodeTokens(src: seq<byte>): (r: seq<Token>)
    ensures ValidFrom(0, r) && AllEncodable(r)
  {
    TokensFromExpand(src, 0, None);
    ValidEncodable(0, TokensFrom(src, 0, None));
    TokensFrom(src, 0, None)
  }

  /** Copying `n` bytes from a position where the input repeats itself reproduces the
      input. */
  lemma {:induction false} CopyBackRepeats(src: seq<byte>, p: nat, d: nat, n: nat)
    requires d < p && p + n <= |src|
    requires Matches(src, p - d - 1, p, n)
    ensures CopyBack(src[..p], d, n) == src[..p + n]
    decreases n
  {
    if n > 0 {
      assert src[..p] + [src[..p][p - d - 1]] == src[..p + 1];
      CopyBackRepeats(src, p + 1, d, n - 1);
    }
  }

  /** One step of TokensFrom: the token for the chosen match, then the tokens from the
      position after it. */
  lemma TokensFromStep(src: seq<byte>, pos: nat, pending: Option<Match>)
    requires pos < |src| && PendingOk(src, pos, pending)
    ensures var r := Lookahead(src, pos, pending);
      var t := TokenFor(src, pos, r.0);
      PendingOk(src, pos + Len(t), r.1) &&
      TokensFrom(src, pos, pending) == [t] + TokensFrom(src, pos + Len(t), r.1)
  {
    assert TokensNext(src, pos, pending) == TokensAt(src, pos, pending);
  }

  /** The token chosen at `pos` reproduces the next bytes of the input. */
  lemma TokenForApply(src: seq<byte>, pos: nat, pending: Option<Match>)
    requires pos < |src| && PendingOk(src, pos, pending)
    ensures var t := TokenFor(src, pos, Lookahead(src, pos, pending).0);
      Apply(src[..pos], t) == src[..pos + Len(t)]
  {
    var m := Lookahead(src, pos, pending).0;
    var t := TokenFor(src, pos, m);
    if t.Literal? {
      assert src[..pos] + [src[pos]] == src[..pos + 1];
    } else {
      SimpleMatchFound(src, pos);
      CopyBackRepeats(src, pos, t.dist, t.len);
    }
  }

  /** Expanding a token sequence is applying its first token, then the rest: when the
      first token reproduces the input up to `p` and the rest reproduce all of it, so do
      all of them. */
  lemma ExpandCons(src: seq<byte>, pos: nat, p: nat, t: Token, rest: seq<Token>)
    requires pos <= p <= |src| && p == pos + Len(t)
    requires Encodable(t) && (t.Backref? ==> t.dist < pos) && Apply(src[..pos], t) == src[..p]
    requires ValidFrom(p, rest) && Expand(src[..p], rest) == src
    ensures ValidFrom(pos, [t] + rest) && Expand(src[..pos], [t] + rest) == src
  {
    assert ([t] + rest)[0] == t && ([t] + rest)[1..] == rest;
  }

  /** The encoder is lossless: the tokens it emits from `pos` on are valid after the
      first `pos` bytes and expand them back to the whole input. */
  lemma {:induction false} TokensFromExpand(src: seq<byte>, pos: nat, pending: Option<Match>)
    requires pos <= |src| && PendingOk(src, pos, pending)
    ensures ValidFrom(pos, TokensFrom(src, pos, pending))
    ensures Expand(src[..pos], TokensFrom(src, pos, pending)) == src
    decreases |src| - pos
  {
    if pos == |src| {
      assert src[..pos] == src;
    } else {
      var r := Lookahead(src, pos, pending);
      var t := TokenFor(src, pos, r.0);
      var p := pos + Len(t);
      var rest := TokensFrom(src, p, r.1);
      assert PendingOk(src, p, r.1) && TokensFrom(src, pos, pending) == [t] + rest by {
        TokensFromStep(src, pos, pending);
      }
      assert ValidFrom(pos, [t] + rest) && Expand(src[..pos], [t] + rest) == src by {
        TokenForApply(src, pos, pending);
        TokensFromExpand(src, p, r.1);
        ExpandCons(src, pos, p, t, rest);
      }
    }
  }

  lemma EncodeTokensExpand(src: seq<byte>)
    ensures ValidFrom(0, EncodeTokens(src)) && AllEncodable(EncodeTokens(src))
    ensures TotalLen(EncodeTokens(src)) == |src|
    ensures Expand([], EncodeTokens(src)) == src
  {
    TokensFromExpand(src, 0, None);
    assert src[..0] == [];
    ValidEncodable(0, EncodeTokens(src));
  }

  /** Where the encoder stands before it emits a token: the input position and the
      look-ahead state. */
  datatype EncState = EncState(pos: nat, pending: Option<Match>)

  /** The states the encoder passes through from `pos` on, one per token it emits. */
  function StatesFrom(src: seq<byte>, pos: nat, pending: Option<Match>): seq<EncState>
    requires pos <= |src| && PendingOk(src, pos, pending)
    decreases |src| - pos, 2
  {
    if pos == |src| then [] else StatesNext(src, pos, pending)
  }

  function StatesNext(src: seq<byte>, pos: nat, pending: Option<Match>): seq<EncState>
    requires pos < |src| && PendingOk(src, pos, pending)
    decreases |src| - pos, 1
  {
    StatesAt(src, pos, pending)
  }

  function StatesAt(src: seq<byte>, pos: nat, pending: Option<Match>): seq<EncState>
    requires pos < |src| && PendingOk(src, pos, pending)
    decreases |src| - pos, 0
  {
    var choice := Lookahead(src, pos, pending);
    var t := TokenFor(src, pos, choice.0);
    [EncState(pos, pending)] + StatesFrom(src, pos + Len(t), choice.1)
  }

  /** What holds of the k-th token and state: the token is the one chosen in that state,
      and the next state (or the end of the input) lies right after it. */
  predicate StateFacts(src: seq<byte>, states: seq<EncState>, toks: seq<Token>, k: nat)
    requires k < |states| == |toks|
  {
    var s := states[k];
    s.pos < |src| && PendingOk(src, s.pos, s.pending) &&
    var r := Lookahead(src, s.pos, s.pending);
    toks[k] == TokenFor(src, s.pos, r.0) &&
    (k + 1 < |states| ==> states[k + 1] == EncState(s.pos + Len(toks[k]), r.1)) &&
    (k + 1 == |states| ==> s.pos + Len(toks[k]) == |src|)
  }

  /** The states and the tokens from `pos` on correspond one to one. */
  lemma {:induction false} StatesFromSpec(src: seq<byte>, pos: nat, pending: Option<Match>, k: nat)
    requires pos <= |src| && PendingOk(src, pos, pending)
    ensures var st := StatesFrom(src, pos, pending);
      |st| == |TokensFrom(src, pos, pending)| && (|st| == 0 <==> pos == |src|) &&
      (|st| > 0 ==> st[0] == EncState(pos, pending)) &&
      (k < |st| ==> StateFacts(src, st, TokensFrom(src, pos, pending), k))
    decreases |src| - pos
  {
    if pos < |src| {
      var r := Lookahead(src, pos, pending);
      var t := TokenFor(src, pos, r.0);
      var p := pos + Len(t);
      TokensFromStep(src, pos, pending);
      var st' := StatesFrom(src, p, r.1);
      var toks' := TokensFrom(src, p, r.1);
      assert StatesNext(src, pos, pending) == StatesAt(src, pos, pending);
      assert StatesFrom(src, pos, pending) == [EncState(pos, pending)] + st';
      StatesFromSpec(src, p, r.1, if k == 0 then 0 else k - 1);
    }
  }

  // ---------------------------------------------------------------------------
  // The decoder (yaz0_decode) as a function

  /** yaz0_decode (yaz0.cpp:179-223) from a given state: the stream `src` (header
      included) is read at `sp`, the output so far is `out`, `code` holds the control
      bits not yet used, `bits` of them. Decoding stops once `size` bytes are out; a
      back-reference may overshoot `size`. The C code performs no checks; each error here
      is a read past the stream, a copy from before the output, or a write past the `cap`
      bytes the output buffer holds. */
  function DecodeLoop(src: seq<byte>, sp: nat, out: seq<byte>, code: byte, bits: nat, size: nat, cap: nat)
    : Result<seq<byte>, DecodeError>
    requires bits <= 8
    decreases (if |out| < size then size - |out| else 0), (if bits == 0 then 1 else 0), 1
  {
    if |out| >= size then Ok(out)
    else if bits == 0 then
      if sp >= |src| then Err(SourceOverrun) else DecodeLoop(src, sp + 1, out, src[sp], 8, size, cap)
    else DecodeToken(src, sp, out, code, bits, size, cap)
  }

  /** One token of yaz0_decode (yaz0.cpp:195-221): bit 7 of the control byte set copies a
      byte from the stream; clear, it reads `dist` from the low nibble of the first byte
      and the second byte, the length from the high nibble (plus 2) or, when that nibble
      is zero, from a third byte (plus 0x12), and copies. Then the control byte shifts. */
  function DecodeToken(src: seq<byte>, sp: nat, out: seq<byte>, code: byte, bits: nat, size: nat, cap: nat)
    : Result<seq<byte>, DecodeError>
    requires 1 <= bits <= 8 && |out| < size
    decreases size - |out|, 0, 0
  {
    if code >= 0x80 then
      if sp >= |src| then Err(SourceOverrun)
      else if |out| >= cap then Err(OutputOverrun)
      else DecodeLoop(src, sp + 1, out + [src[sp]], (code * 2) % 0x100, bits - 1, size, cap)
    else if sp + 1 >= |src| then Err(SourceOverrun)
    else
      var dist := (src[sp] as nat % 0x10) * 0x100 + src[sp + 1] as nat;
      var nib := src[sp] as nat / 0x10;
      if nib == 0 && sp + 2 >= |src| then Err(SourceOverrun)
      else
        var n := if nib == 0 then src[sp + 2] as nat + 0x12 else nib + 2;
        var sp' := if nib == 0 then sp + 3 else sp + 2;
        if dist >= |out| then Err(BackrefBeforeStart)
        else if |out| + n > cap then Err(OutputOverrun)
        else DecodeLoop(src, sp', CopyBack(out, dist, n), (code * 2) % 0x100, bits - 1, size, cap)
  }

  /** Copying back keeps the bytes already there. */
  lemma {:induction false} CopyBackPrefix(out: seq<byte>, dist: nat, n: nat)
    requires dist < |out|
    ensures CopyBack(out, dist, n)[..|out|] == out
    decreases n
  {
    if n > 0 {
      var next := out + [out[|out| - dist - 1]];
      CopyBackPrefix(next, dist, n - 1);
      assert CopyBack(out, dist, n)[..|out|] == CopyBack(next, dist, n - 1)[..|next|][..|out|];
    }
  }

  /** The decoder only appends: a successful result extends the output so far, reaches
      `size` bytes, and stays within the buffer when it had to write anything. */
  lemma {:induction false} DecodeLoopGrows(src: seq<byte>, sp: nat, out: seq<byte>, code: byte, bits: nat, size: nat, cap: nat)
    requires bits <= 8
    ensures var r := DecodeLoop(src, sp, out, code, bits, size, cap);
      r.Ok? ==> |r.value| >= size && |r.value| >= |out| && r.value[..|out|] == out &&
                (|out| < size ==> |r.value| <= cap)
    decreases (if |out| < size then size - |out| else 0), (if bits == 0 then 1 else 0), 1
  {
    if |out| < size {
      if bits == 0 {
        if sp < |src| {
          DecodeLoopGrows(src, sp + 1, out, src[sp], 8, size, cap);
        }
      } else {
        DecodeTokenGrows(src, sp, out, code, bits, size, cap);
      }
    }
  }

  lemma {:induction false} DecodeTokenGrows(src: seq<byte>, sp: nat, out: seq<byte>, code: byte, bits: nat, size: nat, cap: nat)
    requires 1 <= bits <= 8 && |out| < size
    ensures var r := DecodeToken(src, sp, out, code, bits, size, cap);
      r.Ok? ==> |r.value| >= size && |r.value| >= |out| && r.value[..|out|] == out && |r.value| <= cap
    decreases size - |out|, 0, 0
  {
    var r := DecodeToken(src, sp, out, code, bits, size, cap);
    if r.Ok? {
      if code >= 0x80 {
        var next := out + [src[sp]];
        DecodeLoopGrows(src, sp + 1, next, (code * 2) % 0x100, bits - 1, size, cap);
        assert r.value[..|out|] == r.value[..|next|][..|out|];
      } else {
        var dist := (src[sp] as nat % 0x10) * 0x100 + src[sp + 1] as nat;
        var nib := src[sp] as nat / 0x10;
        var n := if nib == 0 then src[sp + 2] as nat + 0x12 else nib + 2;
        var sp' := if nib == 0 then sp + 3 else sp + 2;
        var next := CopyBack(out, dist, n);
        CopyBackPrefix(out, dist, n);
        DecodeLoopGrows(src, sp', next, (code * 2) % 0x100, bits - 1, size, cap);
        assert r.value[..|out|] == r.value[..|next|][..|out|];
      }
    }
  }

  /** Decoding a whole stream of `size` bytes into a buffer of `cap` bytes. */
  function DecodeSpec(src: seq<byte>, size: nat, cap: nat): (r: Result<seq<byte>, DecodeError>)
    ensures r.Ok? ==> size <= |r.value| <= cap
  {
    DecodeLoopGrows(src, HEADER_SIZE, [], 0, 0, size, cap);
    DecodeLoop(src, HEADER_SIZE, [], 0, 0, size, cap)
  }

  /** The bytes `x` occur in `s` at `sp`. */
  predicate At(s: seq<byte>, sp: nat, x: seq<byte>)
  {
    sp + |x| <= |s| && s[sp..sp + |x|] == x
  }

  lemma AtSplit(s: seq<byte>, sp: nat, a: seq<byte>, b: seq<byte>)
    requires At(s, sp, a + b)
    ensures At(s, sp, a) && At(s, sp + |a|, b)
  {
    assert s[sp..sp + |a|] == (a + b)[..|a|];
    assert s[sp + |a|..sp + |a| + |b|] == (a + b)[|a|..];
  }

  /** The decoder reads back the distance and length the encoder packed into a
      back-reference (yaz0.cpp:113-125 against 204-212). */
  lemma BackrefBytes(d: nat, n: nat)
    requires Encodable(Backref(d, n))
    ensures var b := TokenBytes(Backref(d, n));
      (b[0] as nat % 0x10) * 0x100 + b[1] as nat == d &&
      (b[0] as nat / 0x10 == 0 <==> n >= 0x12) &&
      (n >= 0x12 ==> b[2] as nat + 0x12 == n) &&
      (n < 0x12 ==> b[0] as nat / 0x10 + 2 == n)
  {
    var hi := d / 0x100;
    assert hi < 0x10;
    if n < 0x12 {
      var b0 := (n - 2) * 0x10 + hi;
      assert b0 / 0x10 == n - 2 && b0 % 0x10 == hi;
    }
  }

  lemma TotalLenPositive(toks: seq<Token>)
    requires AllEncodable(toks) && toks != []
    ensures TotalLen(toks) >= 1
  {
    assert Encodable(toks[0]);
  }

  /** One step of the decoder on a literal: bit 7 set, the byte is copied. */
  lemma DecodeLiteralStep(s: seq<byte>, sp: nat, out: seq<byte>, b: byte, code: byte, bits: nat, size: nat, cap: nat)
    requires 1 <= bits <= 8 && |out| < size && |out| < cap && code >= 0x80
    requires sp < |s| && s[sp] == b
    ensures DecodeLoop(s, sp, out, code, bits, size, cap)
         == DecodeLoop(s, sp + 1, out + [b], (code * 2) % 0x100, bits - 1, size, cap)
  {
  }

  /** One step of the decoder on a back-reference: bit 7 clear, the distance and length
      are read from two or three bytes and the bytes are copied. */
  lemma DecodeBackrefStep(s: seq<byte>, sp: nat, out: seq<byte>, d: nat, n: nat, code: byte, bits: nat, size: nat, cap: nat)
    requires 1 <= bits <= 8 && |out| < size && code < 0x80
    requires Encodable(Backref(d, n)) && d < |out| && |out| + n <= cap
    requires At(s, sp, TokenBytes(Backref(d, n)))
    ensures DecodeLoop(s, sp, out, code, bits, size, cap)
         == DecodeLoop(s, sp + |TokenBytes(Backref(d, n))|, CopyBack(out, d, n), (code * 2) % 0x100, bits - 1, size, cap)
  {
    var tb := TokenBytes(Backref(d, n));
    assert s[sp] == tb[0] by { assert s[sp..sp + |tb|][0] == s[sp]; }
    assert s[sp + 1] == tb[1] by { assert s[sp..sp + |tb|][1] == s[sp + 1]; }
    BackrefBytes(d, n);
    var nib := s[sp] as nat / 0x10;
    assert (s[sp] as nat % 0x10) * 0x100 + s[sp + 1] as nat == d;
    if n >= 0x12 {
      assert s[sp + 2] == tb[2] by { assert s[sp..sp + |tb|][2] == s[sp + 2]; }
      assert nib == 0 && s[sp + 2] as nat + 0x12 == n && |tb| == 3;
    } else {
      assert nib != 0 && nib + 2 == n && |tb| == 2;
    }
  }

  /** One step of the decoder: with the token's flag in bit 7 of the control byte and
      its bytes next in the stream, the decoder applies the token. */
  lemma DecodeStep(s: seq<byte>, sp: nat, out: seq<byte>, t: Token, code: byte, bits: nat, size: nat, cap: nat)
    requires 1 <= bits <= 8 && |out| < size
    requires Encodable(t) && (t.Backref? ==> t.dist < |out|) && |out| + Len(t) <= cap
    requires code >= 0x80 <==> t.Literal?
    requires At(s, sp, TokenBytes(t))
    ensures DecodeLoop(s, sp, out, code, bits, size, cap)
         == DecodeLoop(s, sp + |TokenBytes(t)|, Apply(out, t), (code * 2) % 0x100, bits - 1, size, cap)
  {
    match t
    case Literal(b) =>
      assert s[sp..sp + 1][0] == s[sp];
      DecodeLiteralStep(s, sp, out, b, code, bits, size, cap);
    case Backref(d, n) =>
      DecodeBackrefStep(s, sp, out, d, n, code, bits, size, cap);
  }

  /** The decoder loads a new control byte when the old one is used up. */
  lemma DecodeRefill(s: seq<byte>, sp: nat, out: seq<byte>, code: byte, size: nat, cap: nat)
    requires |out| < size && sp < |s|
    ensures DecodeLoop(s, sp, out, code, 0, size, cap) == DecodeLoop(s, sp + 1, out, s[sp], 8, size, cap)
  {
  }

  /** The first token of a group, as the decoder sees it: after it, the decoder is in the
      state the rest of the group starts from. */
  lemma DecodeGroupHead(s: seq<byte>, sp: nat, out: seq<byte>, h: seq<Token>, bits: nat, size: nat, cap: nat)
    requires 1 <= |h| <= bits <= 8
    requires ValidFrom(|out|, h) && AllEncodable(h)
    requires At(s, sp, AllTokenBytes(h))
    requires |out| + TotalLen(h) <= size <= cap
    ensures AllEncodable(h[1..]) && h[0].Backref? ==> h[0].dist < |out|
    ensures var sp' := sp + |TokenBytes(h[0])|;
      var next := Apply(out, h[0]);
      AllEncodable(h[1..]) && ValidFrom(|next|, h[1..]) && At(s, sp', AllTokenBytes(h[1..])) &&
      |next| + TotalLen(h[1..]) <= size &&
      sp + |AllTokenBytes(h)| == sp' + |AllTokenBytes(h[1..])| && Expand(out, h) == Expand(next, h[1..]) &&
      DecodeLoop(s, sp, out, ControlByte(h), bits, size, cap) == DecodeLoop(s, sp', next, ControlByte(h[1..]), bits - 1, size, cap)
  {
    var t := h[0];
    var rest := h[1..];
    var tb := TokenBytes(t);
    assert AllEncodable(rest) by {
      assert forall i :: 0 <= i < |rest| ==> rest[i] == h[i + 1];
    }
    assert AllTokenBytes(h) == tb + AllTokenBytes(rest);
    AtSplit(s, sp, tb, AllTokenBytes(rest));
    TotalLenPositive(h);
    ControlByteStep(h);
    DecodeStep(s, sp, out, t, ControlByte(h), bits, size, cap);
  }

  /** Decoding the tokens of one group: with the group's control byte loaded and its
      token bytes next in the stream, the decoder applies the tokens one by one and ends
      at `sp2` in the stream, with the output `out2` and `bits2` control bits left. */
  lemma {:induction false} DecodeGroup(s: seq<byte>, sp: nat, out: seq<byte>, h: seq<Token>, bits: nat, size: nat, cap: nat,
                                       sp2: nat, out2: seq<byte>, bits2: nat)
    requires |h| <= bits <= 8
    requires ValidFrom(|out|, h) && AllEncodable(h)
    requires At(s, sp, AllTokenBytes(h))
    requires |out| + TotalLen(h) <= size <= cap
    requires sp2 == sp + |AllTokenBytes(h)| && out2 == Expand(out, h) && bits2 + |h| == bits
    ensures DecodeLoop(s, sp, out, ControlByte(h), bits, size, cap) == DecodeLoop(s, sp2, out2, 0, bits2, size, cap)
    decreases |h|
  {
    if h == [] {
      assert ControlByte(h) == 0 && AllTokenBytes(h) == [] && Expand(out, h) == out;
    } else {
      DecodeGroupHead(s, sp, out, h, bits, size, cap);
      var sp', next := sp + |TokenBytes(h[0])|, Apply(out, h[0]);
      DecodeGroup(s, sp', next, h[1..], bits - 1, size, cap, sp2, out2, bits2);
      assert DecodeLoop(s, sp, out, ControlByte(h), bits, size, cap)
          == DecodeLoop(s, sp', next, ControlByte(h[1..]), bits - 1, size, cap);
      assert DecodeLoop(s, sp, out, ControlByte(h), bits, size, cap) == DecodeLoop(s, sp2, out2, 0, bits2, size, cap);
    }
  }

  /** A token sequence splits into its first group and the rest. */
  lemma SplitFirstTokens(out: seq<byte>, toks: seq<Token>)
    requires ValidFrom(|out|, toks) && AllEncodable(toks)
    ensures var g := if |toks| < 8 then toks else toks[..8];
      var rest := if |toks| < 8 then [] else toks[8..];
      AllEncodable(g) && AllEncodable(rest) && ValidFrom(|out|, g) &&
      ValidFrom(|Expand(out, g)|, rest) && TotalLen(toks) == TotalLen(g) + TotalLen(rest) &&
      Expand(out, toks) == Expand(Expand(out, g), rest)
  {
    var g := if |toks| < 8 then toks else toks[..8];
    var rest := if |toks| < 8 then [] else toks[8..];
    assert toks == g + rest;
    assert AllEncodable(g) && AllEncodable(rest) by {
      assert forall i :: 0 <= i < |g| ==> g[i] == toks[i];
      assert forall i :: 0 <= i < |rest| ==> rest[i] == toks[i + |g|];
    }
    ExpandAppend(out, g, rest);
    ValidAppend(|out|, g, rest);
  }

  lemma SerializeFirst(toks: seq<Token>)
    requires AllEncodable(toks)
    ensures var g := if |toks| < 8 then toks else toks[..8];
      var rest := if |toks| < 8 then [] else toks[8..];
      AllEncodable(g) && AllEncodable(rest) &&
      Serialize(toks) == [ControlByte(g)] + (AllTokenBytes(g) + if |toks| < 8 then [] else Serialize(rest))
  {
    if |toks| < 8 {
      assert Serialize(toks) == [ControlByte(toks)] + AllTokenBytes(toks);
    } else {
      var g, rest := toks[..8], toks[8..];
      assert AllEncodable(g) && AllEncodable(rest) by {
        assert forall i :: 0 <= i < |g| ==> g[i] == toks[i];
        assert forall i :: 0 <= i < |rest| ==> rest[i] == toks[i + |g|];
      }
      SerializeUnfold(toks);
    }
  }

  /** A stream starts with the control byte of its first group, then that group's token
      bytes, then the stream of the remaining tokens. */
  lemma SplitFirstGroup(s: seq<byte>, sp: nat, toks: seq<Token>)
    requires AllEncodable(toks) && At(s, sp, Serialize(toks))
    ensures var g := if |toks| < 8 then toks else toks[..8];
      var rest := if |toks| < 8 then [] else toks[8..];
      AllEncodable(g) && AllEncodable(rest) &&
      sp < |s| && s[sp] == ControlByte(g) && At(s, sp + 1, AllTokenBytes(g)) &&
      (|toks| >= 8 ==> At(s, sp + 1 + |AllTokenBytes(g)|, Serialize(rest)))
  {
    var g := if |toks| < 8 then toks else toks[..8];
    var rest := if |toks| < 8 then [] else toks[8..];
    var tail := if |toks| < 8 then [] else Serialize(rest);
    SerializeFirst(toks);
    AtSplit(s, sp, [ControlByte(g)], AllTokenBytes(g) + tail);
    AtSplit(s, sp + 1, AllTokenBytes(g), tail);
    assert s[sp..sp + 1][0] == s[sp];
  }

  /** The decoder on the first group of a stream: it loads the control byte and applies
      the group's tokens. */
  lemma DecodeFirstGroup(s: seq<byte>, sp: nat, out: seq<byte>, toks: seq<Token>, code: byte, size: nat, cap: nat)
    requires toks != [] && ValidFrom(|out|, toks) && AllEncodable(toks)
    requires At(s, sp, Serialize(toks))
    requires |out| + TotalLen(toks) == size <= cap
    ensures var g := if |toks| < 8 then toks else toks[..8];
      ValidFrom(|out|, g) &&
      DecodeLoop(s, sp, out, code, 0, size, cap)
        == DecodeLoop(s, sp + 1 + |AllTokenBytes(g)|, Expand(out, g), 0, 8 - |g|, size, cap)
  {
    TotalLenPositive(toks);
    SplitFirstTokens(out, toks);
    SplitFirstGroup(s, sp, toks);
    var g := if |toks| < 8 then toks else toks[..8];
    DecodeRefill(s, sp, out, code, size, cap);
    DecodeGroup(s, sp + 1, out, g, 8, size, cap, sp + 1 + |AllTokenBytes(g)|, Expand(out, g), 8 - |g|);
  }

  /** Decoding a serialized token stream yields what the tokens expand to. */
  lemma {:induction false} DecodeTokens(s: seq<byte>, sp: nat, out: seq<byte>, toks: seq<Token>, code: byte, size: nat, cap: nat)
    requires ValidFrom(|out|, toks) && AllEncodable(toks)
    requires At(s, sp, Serialize(toks))
    requires |out| + TotalLen(toks) == size <= cap
    ensures DecodeLoop(s, sp, out, code, 0, size, cap) == Ok(Expand(out, toks))
    decreases |toks|
  {
    if toks != [] {
      SplitFirstTokens(out, toks);
      SplitFirstGroup(s, sp, toks);
      DecodeFirstGroup(s, sp, out, toks, code, size, cap);
      if |toks| >= 8 {
        var g := toks[..8];
        DecodeTokens(s, sp + 1 + |AllTokenBytes(g)|, Expand(out, g), toks[8..], 0, size, cap);
      }
    }
  }

  // ---------------------------------------------------------------------------
  // Whole streams: header, size, round trip

  /** The 16-byte header yaz0_encode writes (yaz0.cpp:163-166): the magic, the decoded
      size big-endian, and eight zero bytes left from the zero-filled buffer. */
  function Header(n: u32): (r: seq<byte>)
    ensures |r| == HEADER_SIZE && r[..4] == MAGIC
  {
    MAGIC + [ByteOf(n, 0), ByteOf(n, 1), ByteOf(n, 2), ByteOf(n, 3)] + ZeroBytes(8)
  }

  /** `(size + 31) & -16` (yaz0.cpp:170): the stream size after the header, plus the
      16 header bytes, rounded up to a multiple of 16. */
  function AlignedSize(dstSize: nat): (r: nat)
    ensures r % 16 == 0 && HEADER_SIZE + dstSize <= r < HEADER_SIZE + dstSize + 16
  {
    ((dstSize + 31) / 16) * 16
  }

  /** What yaz0_encode returns for `src`: header, stream, zero padding to the aligned
      size. */
  function EncodeSpec(src: seq<byte>): (r: seq<byte>)
    requires |src| < 0x8000_0000
    ensures |r| % 16 == 0 && |r| >= HEADER_SIZE && r[..HEADER_SIZE] == Header(|src|)
  {
    var body := Serialize(EncodeTokens(src));
    var r := Header(|src|) + body + ZeroBytes(AlignedSize(|body|) - HEADER_SIZE - |body|);
    assert r[..HEADER_SIZE] == Header(|src|);
    r
  }

  /** yaz0_get_size (yaz0.cpp:22): the 32-bit big-endian size at offset 4, returned as a
      signed int. */
  function GetSize(src: seq<byte>): int
    requires |src| >= 8
  {
    var v := BE32(src[4], src[5], src[6], src[7]);
    if v >= 0x8000_0000 then v - 0x1_0000_0000 else v
  }

  /** The size an encoded stream announces is the size of the input. */
  lemma GetSizeEncode(src: seq<byte>)
    requires |src| < 0x8000_0000
    ensures |EncodeSpec(src)| >= 8 && GetSize(EncodeSpec(src)) == |src|
  {
    var r := EncodeSpec(src);
    var h := Header(|src|);
    assert r[4] == h[4] && r[5] == h[5] && r[6] == h[6] && r[7] == h[7];
    Split32(|src|);
  }

  /** The main property of the codec: decoding what yaz0_encode produced, into a buffer
      of at least the input's size, gives back the input. */
  lemma RoundTrip(src: seq<byte>, cap: nat)
    requires |src| < 0x8000_0000 && |src| <= cap
    ensures DecodeSpec(EncodeSpec(src), |src|, cap) == Ok(src)
  {
    var toks := EncodeTokens(src);
    EncodeTokensExpand(src);
    var body := Serialize(toks);
    var r := EncodeSpec(src);
    var pad := ZeroBytes(AlignedSize(|body|) - HEADER_SIZE - |body|);
    assert r == Header(|src|) + body + pad;
    assert r[HEADER_SIZE..HEADER_SIZE + |body|] == body;
    DecodeTokens(r, HEADER_SIZE, [], toks, 0, |src|, cap);
  }

  /** toDWORD (yaz0.cpp:24-30): the bytes of `d` in reverse order, assembled from its
      four bytes w1 (lowest) to w4 (highest). */
  function ToDWORD(d: u32): u32
  {
    var w1 := d % 0x100;
    var w2 := (d / 0x100) % 0x100;
    var w3 := (d / 0x1_0000) % 0x100;
    var w4 := d / 0x100_0000;
    w1 * 0x100_0000 + w2 * 0x1_0000 + w3 * 0x100 + w4
  }

  /** toDWORD is the 32-bit byte swap of util.h, so applying it twice is the identity. */
  lemma ToDWORDSwaps(d: u32)
    ensures ToDWORD(d) == ByteSwap32(d)
    ensures ToDWORD(ToDWORD(d)) == d
  {
    BE32Bytes(ByteOf(d, 3), ByteOf(d, 2), ByteOf(d, 1), ByteOf(d, 0));
    ByteSwap32Involution(d);
  }

  // ---------------------------------------------------------------------------
  // The encoder's search, as the C code runs it

  /** simpleEnc (yaz0.cpp:33-55). */
  method SimpleEnc(src: seq<byte>, pos: nat) returns (numBytes: nat, matchPos: nat)
    requires pos <= |src|
    ensures Match(numBytes, matchPos) == SimpleMatch(src, pos)
  {
    var startPos: int := pos - WINDOW;
    var smp: nat := |src| - pos;
    numBytes := 1;
    matchPos := 0;
    if startPos < 0 {
      startPos := 0;
    }
    if smp > MAX_LEN {
      smp := MAX_LEN;
    }
    var i: nat := startPos;
    ghost var best := Best(src, pos, smp, startPos, 1, 0);
    while i < pos
      invariant startPos <= i <= pos
      invariant Best(src, pos, smp, i, numBytes, matchPos) == best
    {
      var j := CountMatch(src, i, pos, smp);
      assert Best(src, pos, smp, i, numBytes, matchPos) == BestStep(src, pos, smp, i, numBytes, matchPos);
      if j > numBytes {
        numBytes := j;
        matchPos := i;
      }
      assert Best(src, pos, smp, i + 1, numBytes, matchPos) == best;
      i := i + 1;
    }
    if numBytes == 2 {
      numBytes := 1;
    }
  }

  /** The inner loop of simpleEnc (yaz0.cpp:44-46): the number of bytes from candidate
      `i` on that equal those from `pos` on, at most `smp`. */
  method CountMatch(src: seq<byte>, i: nat, pos: nat, smp: nat) returns (j: nat)
    requires i < pos && pos + smp <= |src|
    ensures j == MatchLen(src, i, pos, smp)
  {
    j := 0;
    while j < smp
      invariant j <= smp
      invariant Matches(src, i, pos, j)
    {
      if src[i + j] != src[j + pos] {
        break;
      }
      MatchesExtend(src, i, pos, j);
      j := j + 1;
    }
    MatchLenExact(src, i, pos, smp, j);
  }

  /** The look-ahead state nintendoEnc keeps in `prevFlag`, `numBytes1` and `matchPos`. */
  function Pending(prevFlag: bool, numBytes1: nat, matchPos: nat): Option<Match>
  {
    if prevFlag then Some(Match(numBytes1, matchPos)) else None
  }

  /** nintendoEnc (yaz0.cpp:58-87); the three pointer arguments become in and out
      parameters. `prevFlag` is an int that is only ever 0 or 1 in the C code. */
  method NintendoEnc(src: seq<byte>, pos: nat, prevFlag: bool, numBytes1: nat, matchPos: nat)
    returns (numBytes: nat, pMatchPos: nat, prevFlag': bool, numBytes1': nat, matchPos': nat)
    requires pos < |src| && PendingOk(src, pos, Pending(prevFlag, numBytes1, matchPos))
    ensures var r := Lookahead(src, pos, Pending(prevFlag, numBytes1, matchPos));
      Match(numBytes, pMatchPos) == r.0 && Pending(prevFlag', numBytes1', matchPos') == r.1
    ensures numBytes >= 1 && (numBytes >= 3 ==> WindowStart(pos) <= pMatchPos < pos && numBytes <= Cap(src, pos))
    ensures PendingOk(src, pos + Len(TokenFor(src, pos, Match(numBytes, pMatchPos))), Pending(prevFlag', numBytes1', matchPos'))
  {
    numBytes1' := numBytes1;
    matchPos' := matchPos;
    if prevFlag {
      pMatchPos := matchPos;
      prevFlag' := false;
      return numBytes1, pMatchPos, prevFlag', numBytes1', matchPos';
    }
    prevFlag' := false;
    numBytes, matchPos' := SimpleEnc(src, pos);
    pMatchPos := matchPos';
    if numBytes >= 3 {
      numBytes1', matchPos' := SimpleEnc(src, pos + 1);
      if numBytes1' >= numBytes + 2 {
        numBytes := 1;
        prevFlag' := true;
      }
    }
  }

  /** A sequence of tokens is encodable exactly when both of its parts are. */
  lemma AllEncodableSplit(a: seq<Token>, b: seq<Token>)
    ensures AllEncodable(a + b) <==> AllEncodable(a) && AllEncodable(b)
  {
    if AllEncodable(a + b) {
      assert forall i :: 0 <= i < |a| ==> a[i] == (a + b)[i];
      assert forall i :: 0 <= i < |b| ==> b[i] == (a + b)[|a| + i];
    }
  }

  /** Taking the k-th token off the tokens still to write. */
  lemma TokensDrop(toks: seq<Token>, k: nat)
    requires AllEncodable(toks) && k < |toks|
    ensures Encodable(toks[k]) && AllEncodable(toks[k..]) && AllEncodable(toks[k + 1..])
    ensures AllTokenBytes(toks[k..]) == TokenBytes(toks[k]) + AllTokenBytes(toks[k + 1..])
    ensures toks[..k + 1] == toks[..k] + [toks[k]]
  {
    assert toks[k..][1..] == toks[k + 1..];
  }

  /** ... and it joins the current group: its bytes follow the group's. */
  lemma GroupStep(group: seq<Token>, t: Token)
    requires AllEncodable(group) && Encodable(t)
    ensures AllEncodable(group + [t])
    ensures AllTokenBytes(group + [t]) == AllTokenBytes(group) + TokenBytes(t)
  {
    AllEncodableSplit(group, [t]);
    AllTokenBytesAppend(group, [t]);
    assert [t][1..] == [] && AllTokenBytes([]) == [];
    assert AllTokenBytes([t]) == TokenBytes(t);
  }

  /** `d` with the bytes `p` written over it from offset `off` on, one byte after the
      other (the last byte of `p` is written last). */
  function Overwrite(d: seq<byte>, off: nat, p: seq<byte>): (r: seq<byte>)
    requires off + |p| <= |d|
    ensures |r| == |d|
    decreases |p|, 1
  {
    if |p| == 0 then d else OverwriteLast(d, off, p)
  }

  function OverwriteLast(d: seq<byte>, off: nat, p: seq<byte>): (r: seq<byte>)
    requires off + |p| <= |d| && |p| > 0
    ensures |r| == |d|
    decreases |p|, 0
  {
    Overwrite(d, off, p[..|p| - 1])[off + |p| - 1 := p[|p| - 1]]
  }

  /** Byte by byte: inside the written range the bytes of `p`, elsewhere those of `d`. */
  lemma {:induction false} OverwriteAt(d: seq<byte>, off: nat, p: seq<byte>)
    requires off + |p| <= |d|
    ensures forall i :: 0 <= i < |d| ==> Overwrite(d, off, p)[i] == if off <= i < off + |p| then p[i - off] else d[i]
    decreases |p|
  {
    if p != [] {
      var q := p[..|p| - 1];
      OverwriteAt(d, off, q);
      assert Overwrite(d, off, p) == Overwrite(d, off, q)[off + |p| - 1 := p[|p| - 1]];
    }
  }

  /** Writing `p` and then `q` right after it is writing `p + q`. */
  lemma OverwriteAppend(d: seq<byte>, off: nat, p: seq<byte>, q: seq<byte>)
    requires off + |p| + |q| <= |d|
    ensures Overwrite(Overwrite(d, off, p), off + |p|, q) == Overwrite(d, off, p + q)
  {
    var d1 := Overwrite(d, off, p);
    OverwriteAt(d, off, p);
    OverwriteAt(d1, off + |p|, q);
    OverwriteAt(d, off, p + q);
    var a := Overwrite(d1, off + |p|, q);
    var b := Overwrite(d, off, p + q);
    forall i | 0 <= i < |d|
      ensures a[i] == b[i]
    {
      if off <= i < off + |p| {
        assert (p + q)[i - off] == p[i - off];
      } else if off + |p| <= i < off + |p| + |q| {
        assert (p + q)[i - off] == q[i - off - |p|];
      }
    }
  }

  /** Storing one byte is writing a sequence of one byte. */
  lemma UpdateIsOverwrite(d: seq<byte>, k: nat, b: byte)
    requires k < |d|
    ensures d[k := b] == Overwrite(d, k, [b])
  {
    assert [b][..0] == [];
    assert Overwrite(d, k, []) == d;
  }

  /** Rewriting the byte right after `f` replaces it and nothing else. */
  lemma OverwriteFix(d: seq<byte>, off: nat, f: seq<byte>, x: byte, a: seq<byte>, c: byte)
    requires off + |f| + 1 + |a| <= |d|
    ensures Overwrite(d, off, f + [x] + a)[off + |f| := c] == Overwrite(d, off, f + [c] + a)
  {
    OverwriteAt(d, off, f + [x] + a);
    OverwriteAt(d, off, f + [c] + a);
    var r := Overwrite(d, off, f + [x] + a)[off + |f| := c];
    var r' := Overwrite(d, off, f + [c] + a);
    forall i | 0 <= i < |d|
      ensures r[i] == r'[i]
    {
      if off <= i < off + |f| {
        assert r[i] == f[i - off] == r'[i];
      } else if off + |f| < i < off + |f| + 1 + |a| {
        assert r[i] == a[i - off - |f| - 1] == r'[i];
      }
    }
  }

  /** Writing a byte that is already there changes nothing. */
  lemma OverwriteSame(d: seq<byte>, off: nat, p: seq<byte>)
    requires off + |p| < |d|
    ensures Overwrite(d, off, p) == Overwrite(d, off, p + [d[off + |p|]])
  {
    var p' := p + [d[off + |p|]];
    assert p'[..|p'| - 1] == p;
    assert Overwrite(d, off, p') == Overwrite(d, off, p)[off + |p| := d[off + |p|]];
    OverwriteAt(d, off, p);
  }

  /** The back-reference branch of yaz0_encode_internal (yaz0.cpp:111-125): writes the
      two or three bytes of a back-reference at `dst[at..]` and returns how many. A length
      above 0x111 would be cut to 0x111; the search never reports one. */
  method PutBackref(dst: array<byte>, at: nat, dist: nat, numBytes: nat) returns (written: nat)
    requires Encodable(Backref(dist, numBytes)) && at + |TokenBytes(Backref(dist, numBytes))| <= dst.Length
    modifies dst
    ensures written == |TokenBytes(Backref(dist, numBytes))|
    ensures dst[..] == Overwrite(old(dst[..]), at, TokenBytes(Backref(dist, numBytes)))
  {
    ghost var d0 := dst[..];
    OverwriteAt(d0, at, TokenBytes(Backref(dist, numBytes)));
    var n := numBytes;
    if n >= 0x12 {
      dst[at] := dist / 0x100;
      dst[at + 1] := dist % 0x100;
      if n > MAX_LEN {
        n := MAX_LEN;
      }
      dst[at + 2] := n - 0x12;
      written := 3;
    } else {
      dst[at] := (n - 2) * 0x10 + dist / 0x100;
      dst[at + 1] := dist % 0x100;
      written := 2;
    }
  }

  /** The token branch of yaz0_encode_internal (yaz0.cpp:108-127) for the match
      (numBytes, matchPos) chosen at `srcPos`: a literal copies one input byte and sets
      its bit `bitmask` in the control byte, a longer match becomes a back-reference.
      Returns how many bytes it wrote at `dst[at..]`, how many input bytes it covers and
      the new control byte. */
  method PutToken(src: seq<byte>, srcPos: nat, numBytes: nat, matchPos: nat, dst: array<byte>, at: nat,
                  code: nat, bitmask: nat)
    returns (written: nat, consumed: nat, code': nat)
    requires srcPos < |src| && numBytes >= 1
    requires numBytes >= 3 ==> WindowStart(srcPos) <= matchPos < srcPos && numBytes <= Cap(src, srcPos)
    requires at + |TokenBytes(TokenFor(src, srcPos, Match(numBytes, matchPos)))| <= dst.Length
    modifies dst
    ensures var t := TokenFor(src, srcPos, Match(numBytes, matchPos));
      written == |TokenBytes(t)| && consumed == Len(t) &&
      code' == (if t.Literal? then code + bitmask else code) &&
      dst[..] == Overwrite(old(dst[..]), at, TokenBytes(t))
  {
    if numBytes < 3 {
      UpdateIsOverwrite(dst[..], at, src[srcPos]);
      dst[at] := src[srcPos];
      written, consumed := 1, 1;
      // `currCodeByte |= bitmask`: that bit is still clear, so the OR adds it
      code' := code + bitmask;
    } else {
      written := PutBackref(dst, at, srcPos - matchPos - 1, numBytes);
      consumed := numBytes;
      code' := code;
    }
  }

  /** The variables of yaz0_encode_internal's loop (yaz0.cpp:91-100): the input position
      and the look-ahead state, the output position, where the current control byte goes,
      the bit for the next token, the control byte so far, and the output buffer. */
  datatype EncRun = EncRun(srcPos: nat, pending: Option<Match>, pos: nat, codePos: nat,
                           bitmask: nat, code: nat, buf: seq<byte>)

  /** Whether the token branch of the loop can run on the variables `r`: input is left,
      the look-ahead state is in step, and the token fits in the buffer. */
  predicate CanToken(src: seq<byte>, off: nat, r: EncRun)
  {
    r.srcPos < |src| && PendingOk(src, r.srcPos, r.pending) &&
    off + r.pos + |TokenBytes(TokenFor(src, r.srcPos, Lookahead(src, r.srcPos, r.pending).0))| <= |r.buf|
  }

  /** The token branch of the loop (yaz0.cpp:106-127): the match nintendoEnc chooses
      becomes a token, whose bytes are written at the output position; a literal also
      sets the current bit of the control byte. */
  function EncToken(src: seq<byte>, off: nat, r: EncRun): (r': EncRun)
    requires CanToken(src, off, r)
    ensures r'.codePos == r.codePos && r'.bitmask == r.bitmask && r.code <= r'.code <= r.code + r.bitmask
    ensures |r'.buf| == |r.buf|
  {
    var choice := Lookahead(src, r.srcPos, r.pending);
    var t := TokenFor(src, r.srcPos, choice.0);
    var b := TokenBytes(t);
    EncRun(r.srcPos + Len(t), choice.1, r.pos + |b|, r.codePos, r.bitmask,
           if t.Literal? then r.code + r.bitmask else r.code, Overwrite(r.buf, off + r.pos, b))
  }

  /** The end of a pass (yaz0.cpp:129-138): the next bit of the control byte; after the
      eighth, the control byte is stored in its slot and a new group opens after it. */
  function EncShift(off: nat, r: EncRun): (r': EncRun)
    requires off + r.codePos < |r.buf| && r.code < 0x100
  {
    if r.bitmask / 2 == 0 then EncRun(r.srcPos, r.pending, r.pos + 1, r.pos, 0x80, 0, r.buf[off + r.codePos := r.code])
    else r.(bitmask := r.bitmask / 2)
  }

  /** One pass of the loop (yaz0.cpp:105-139), writing at offset `off` of the buffer. A
      state the loop never reaches (input used up, look-ahead out of step, buffer too
      short) is left as it is. */
  function EncStep(src: seq<byte>, off: nat, r: EncRun): EncRun
  {
    if CanToken(src, off, r) && off + r.codePos < |r.buf| && r.code + r.bitmask < 0x100
    then EncShift(off, EncToken(src, off, r))
    else r
  }

  /** The loop's variables after `k` passes, starting from the buffer `before`. The three
      functions are one definition split in steps, so that a proof unfolds only as many
      passes as it asks for. */
  function EncRunAfter(src: seq<byte>, before: seq<byte>, off: nat, k: nat): EncRun
    decreases k, 2
  {
    if k == 0 then EncRun(0, None, 1, 0, 0x80, 0, before) else EncRunNext(src, before, off, k)
  }

  function EncRunNext(src: seq<byte>, before: seq<byte>, off: nat, k: nat): EncRun
    requires k > 0
    decreases k, 1
  {
    EncRunStep(src, before, off, k)
  }

  function EncRunStep(src: seq<byte>, before: seq<byte>, off: nat, k: nat): EncRun
    requires k > 0
    decreases k, 0
  {
    EncStep(src, off, EncRunAfter(src, before, off, k - 1))
  }

  /** What the loop's variables mean after `k` tokens: `full` are the tokens of the
      groups already closed, `group` those of the open one; the closed groups are in the
      buffer, then the slot of the open group's control byte (still holding the old
      byte), then the open group's token bytes; the input position and look-ahead state
      are those the k-th token is chosen in; the control byte has the group's bits. */
  predicate Placed(src: seq<byte>, before: seq<byte>, off: nat, k: nat, full: seq<Token>, group: seq<Token>, r: EncRun)
  {
    var toks := EncodeTokens(src);
    var states := StatesFrom(src, 0, None);
    off + |Serialize(toks)| <= |before| &&
    k <= |toks| && |states| == |toks| && full + group == toks[..k] &&
    AllEncodable(full) && AllEncodable(group) && |full| % 8 == 0 && |group| <= 8 &&
    (k < |toks| ==> r.srcPos == states[k].pos && r.pending == states[k].pending) &&
    (k == |toks| ==> r.srcPos == |src|) &&
    r.code == CodeOf(group) &&
    r.codePos == |FullGroups(full)| && r.pos == r.codePos + 1 + |AllTokenBytes(group)| &&
    r.pos + |AllTokenBytes(toks[k..])| + (|group| + |toks| - k) / 8 == |Serialize(toks)| &&
    r.buf == Overwrite(before, off, FullGroups(full) + [before[off + r.codePos]] + AllTokenBytes(group))
  }

  /** The variables at the top of the loop: the open group has room, and `bitmask` is
      the bit of its next token. */
  predicate Shape(src: seq<byte>, before: seq<byte>, off: nat, k: nat, full: seq<Token>, group: seq<Token>, r: EncRun)
  {
    Placed(src, before, off, k, full, group, r) && |group| < 8 && r.bitmask == Pow2(7 - |group|)
  }

  /** The variables right after the token branch: `bitmask` is still the bit of the
      token just added to the group. */
  predicate Added(src: seq<byte>, before: seq<byte>, off: nat, k: nat, full: seq<Token>, group: seq<Token>, r: EncRun)
  {
    Placed(src, before, off, k, full, group, r) && 1 <= |group| <= 8 && r.bitmask == Pow2(8 - |group|)
  }

  /** The control byte as yaz0_encode_internal accumulates it: the i-th token of the
      open group, when a literal, adds the bit Pow2(7 - i). */
  function CodeOf(g: seq<Token>): (r: nat)
    requires |g| <= 8
    ensures r + Pow2(8 - |g|) <= 0x100
    decreases |g|
  {
    if g == [] then 0
    else
      assert Pow2(9 - |g|) == 2 * Pow2(8 - |g|);
      CodeOf(g[..|g| - 1]) + (if g[|g| - 1].Literal? then Pow2(8 - |g|) else 0)
  }

  /** Accumulating the bits token by token gives the control byte of the group. */
  lemma {:induction false} CodeOfIsControlByte(g: seq<Token>)
    requires |g| <= 8
    ensures CodeOf(g) == ControlByte(g)
    decreases |g|
  {
    if g != [] {
      var g' := g[..|g| - 1];
      CodeOfIsControlByte(g');
      ControlByteAdd(g', g[|g| - 1]);
      assert g' + [g[|g| - 1]] == g;
    }
  }

  lemma Pow2Half(n: nat)
    ensures n > 0 ==> Pow2(n) / 2 == Pow2(n - 1)
    ensures Pow2(n) / 2 == 0 <==> n == 0
  {
    if n > 0 {
      assert Pow2(n - 1) >= 1;
    }
  }

  /** At the top of the loop with a token left, the token branch can run, the token it
      writes is the k-th, and the control byte has room for its bit. */
  lemma ShapeGuard(src: seq<byte>, before: seq<byte>, off: nat, k: nat, full: seq<Token>, group: seq<Token>, r: EncRun)
    requires Shape(src, before, off, k, full, group, r) && k < |EncodeTokens(src)|
    ensures CanToken(src, off, r) && off + r.codePos < |r.buf| && r.code + r.bitmask < 0x100
    ensures EncodeTokens(src)[k] == TokenFor(src, r.srcPos, Lookahead(src, r.srcPos, r.pending).0)
  {
    var toks := EncodeTokens(src);
    StatesFromSpec(src, 0, None, k);
    TokensDrop(toks, k);
    assert Pow2(8 - |group|) == 2 * Pow2(7 - |group|);
  }

  /** Writing the token bytes `b` of `t` after the open group's bytes extends the group. */
  lemma AppendToGroup(before: seq<byte>, off: nat, full: seq<Token>, x: byte, group: seq<Token>, t: Token,
                      buf: seq<byte>, at: nat)
    requires AllEncodable(full) && |full| % 8 == 0 && AllEncodable(group) && Encodable(t)
    requires at == off + |FullGroups(full)| + 1 + |AllTokenBytes(group)| && at + |TokenBytes(t)| <= |before|
    requires buf == Overwrite(before, off, FullGroups(full) + [x] + AllTokenBytes(group))
    ensures AllEncodable(group + [t])
    ensures |AllTokenBytes(group + [t])| == |AllTokenBytes(group)| + |TokenBytes(t)|
    ensures Overwrite(buf, at, TokenBytes(t)) == Overwrite(before, off, FullGroups(full) + [x] + AllTokenBytes(group + [t]))
  {
    GroupStep(group, t);
    var w := FullGroups(full) + [x] + AllTokenBytes(group);
    OverwriteAppend(before, off, w, TokenBytes(t));
    assert w + TokenBytes(t) == FullGroups(full) + [x] + AllTokenBytes(group + [t]);
  }

  /** The token branch adds the k-th token to the open group. */
  lemma ShapeToken(src: seq<byte>, before: seq<byte>, off: nat, k: nat, full: seq<Token>, group: seq<Token>, r: EncRun)
    requires Shape(src, before, off, k, full, group, r) && k < |EncodeTokens(src)|
    ensures CanToken(src, off, r) && off + r.codePos < |r.buf| && r.code + r.bitmask < 0x100
    ensures Added(src, before, off, k + 1, full, group + [EncodeTokens(src)[k]], EncToken(src, off, r))
  {
    ShapeGuard(src, before, off, k, full, group, r);
    ShapeTokenPlaced(src, before, off, k, full, group, r);
    AddedIntro(src, before, off, k + 1, full, group + [EncodeTokens(src)[k]], EncToken(src, off, r));
  }

  /** The token branch leaves the variables placed for the k-th token added. */
  lemma ShapeTokenPlaced(src: seq<byte>, before: seq<byte>, off: nat, k: nat, full: seq<Token>, group: seq<Token>, r: EncRun)
    requires Shape(src, before, off, k, full, group, r) && k < |EncodeTokens(src)|
    ensures CanToken(src, off, r)
    ensures Placed(src, before, off, k + 1, full, group + [EncodeTokens(src)[k]], EncToken(src, off, r))
  {
    ShapeGuard(src, before, off, k, full, group, r);
    var toks, states, r1 := EncodeTokens(src), StatesFrom(src, 0, None), EncToken(src, off, r);
    var g := group + [toks[k]];
    assert (k + 1 < |toks| ==> r1.srcPos == states[k + 1].pos && r1.pending == states[k + 1].pending) &&
           (k + 1 == |toks| ==> r1.srcPos == |src|) by {
      ShapeTokenState(src, before, off, k, full, group, r);
    }
    assert AllEncodable(g) && full + g == toks[..k + 1] && r1.code == CodeOf(g) &&
           r1.codePos == r.codePos && r1.bitmask == r.bitmask &&
           r1.pos == r1.codePos + 1 + |AllTokenBytes(g)| &&
           r1.pos + |AllTokenBytes(toks[k + 1..])| + (|g| + |toks| - (k + 1)) / 8 == |Serialize(toks)| by {
      ShapeTokenCounts(src, before, off, k, full, group, r);
    }
    assert r1.buf == Overwrite(before, off, FullGroups(full) + [before[off + r1.codePos]] + AllTokenBytes(g)) by {
      ShapeTokenBuf(src, before, off, k, full, group, r);
    }
    PlacedIntro(src, before, off, k + 1, full, g, r1);
  }

  /** The token branch writes the k-th token's bytes after those of the open group. */
  lemma ShapeTokenBuf(src: seq<byte>, before: seq<byte>, off: nat, k: nat, full: seq<Token>, group: seq<Token>, r: EncRun)
    requires Shape(src, before, off, k, full, group, r) && k < |EncodeTokens(src)|
    ensures CanToken(src, off, r) && AllEncodable(group + [EncodeTokens(src)[k]])
    ensures off + |FullGroups(full)| + 1 + |AllTokenBytes(group + [EncodeTokens(src)[k]])| <= |before|
    ensures EncToken(src, off, r).buf
         == Overwrite(before, off, FullGroups(full) + [before[off + r.codePos]] + AllTokenBytes(group + [EncodeTokens(src)[k]]))
  {
    var toks := EncodeTokens(src);
    ShapeGuard(src, before, off, k, full, group, r);
    TokensDrop(toks, k);
    assert |AllTokenBytes(toks[k..])| == |TokenBytes(toks[k])| + |AllTokenBytes(toks[k + 1..])|;
    assert off + r.pos + |TokenBytes(toks[k])| <= |before|;
    ShapeTokenBytes(before, off, full, group, r, toks[k]);
    EncTokenBuf(src, off, r);
  }

  /** What the token branch does to the other variables: the input position moves past
      the chosen token, the output position past its bytes, and a literal sets the
      current bit of the control byte. */
  lemma EncTokenFields(src: seq<byte>, off: nat, r: EncRun)
    requires CanToken(src, off, r)
    ensures var choice := Lookahead(src, r.srcPos, r.pending);
      var t, r1 := TokenFor(src, r.srcPos, choice.0), EncToken(src, off, r);
      r1.srcPos == r.srcPos + Len(t) && r1.pending == choice.1 && r1.pos == r.pos + |TokenBytes(t)| &&
      r1.codePos == r.codePos && r1.bitmask == r.bitmask && r1.code == if t.Literal? then r.code + r.bitmask else r.code
  {
  }

  /** Where the token branch writes: the chosen token's bytes at the output position. */
  lemma EncTokenBuf(src: seq<byte>, off: nat, r: EncRun)
    requires CanToken(src, off, r)
    ensures EncToken(src, off, r).buf
         == Overwrite(r.buf, off + r.pos, TokenBytes(TokenFor(src, r.srcPos, Lookahead(src, r.srcPos, r.pending).0)))
  {
  }

  /** Placed with the open group's bit as the current one. */
  lemma AddedIntro(src: seq<byte>, before: seq<byte>, off: nat, k: nat, full: seq<Token>, group: seq<Token>, r: EncRun)
    requires Placed(src, before, off, k, full, group, r)
    requires 1 <= |group| <= 8 && r.bitmask == Pow2(8 - |group|)
    ensures Added(src, before, off, k, full, group, r)
  {
  }

  /** The conjuncts of Placed, one by one. */
  lemma PlacedIntro(src: seq<byte>, before: seq<byte>, off: nat, k: nat, full: seq<Token>, group: seq<Token>, r: EncRun)
    requires off + |Serialize(EncodeTokens(src))| <= |before|
    requires k <= |EncodeTokens(src)| && |StatesFrom(src, 0, None)| == |EncodeTokens(src)|
    requires full + group == EncodeTokens(src)[..k]
    requires AllEncodable(full) && AllEncodable(group) && |full| % 8 == 0 && |group| <= 8
    requires k < |EncodeTokens(src)| ==> r.srcPos == StatesFrom(src, 0, None)[k].pos && r.pending == StatesFrom(src, 0, None)[k].pending
    requires k == |EncodeTokens(src)| ==> r.srcPos == |src|
    requires r.code == CodeOf(group)
    requires r.codePos == |FullGroups(full)| && r.pos == r.codePos + 1 + |AllTokenBytes(group)|
    requires r.pos + |AllTokenBytes(EncodeTokens(src)[k..])| + (|group| + |EncodeTokens(src)| - k) / 8 == |Serialize(EncodeTokens(src))|
    requires r.buf == Overwrite(before, off, FullGroups(full) + [before[off + r.codePos]] + AllTokenBytes(group))
    ensures Placed(src, before, off, k, full, group, r)
  {
  }

  /** The token branch moves the input position and the look-ahead state to those of
      the next token. */
  lemma ShapeTokenState(src: seq<byte>, before: seq<byte>, off: nat, k: nat, full: seq<Token>, group: seq<Token>, r: EncRun)
    requires Shape(src, before, off, k, full, group, r) && k < |EncodeTokens(src)|
    ensures CanToken(src, off, r) && off + r.codePos < |r.buf| && r.code + r.bitmask < 0x100
    ensures var toks, states, r1 := EncodeTokens(src), StatesFrom(src, 0, None), EncToken(src, off, r);
      (k + 1 < |toks| ==> r1.srcPos == states[k + 1].pos && r1.pending == states[k + 1].pending) &&
      (k + 1 == |toks| ==> r1.srcPos == |src|)
  {
    ShapeGuard(src, before, off, k, full, group, r);
    StatesFromSpec(src, 0, None, k);
    EncTokenFields(src, off, r);
  }

  /** The token branch adds the k-th token to the open group: its bit to the control
      byte and its bytes to the output position. */
  lemma ShapeTokenCounts(src: seq<byte>, before: seq<byte>, off: nat, k: nat, full: seq<Token>, group: seq<Token>, r: EncRun)
    requires Shape(src, before, off, k, full, group, r) && k < |EncodeTokens(src)|
    ensures CanToken(src, off, r)
    ensures var toks, r1 := EncodeTokens(src), EncToken(src, off, r);
      var g := group + [toks[k]];
      AllEncodable(g) && full + g == toks[..k + 1] &&
      r1.code == CodeOf(g) && r1.codePos == r.codePos && r1.bitmask == r.bitmask &&
      r1.pos == r1.codePos + 1 + |AllTokenBytes(g)| &&
      r1.pos + |AllTokenBytes(toks[k + 1..])| + (|g| + |toks| - (k + 1)) / 8 == |Serialize(toks)| &&
      off + r.pos + |TokenBytes(toks[k])| <= |before|
  {
    var toks := EncodeTokens(src);
    ShapeGuard(src, before, off, k, full, group, r);
    TokensDrop(toks, k);
    var t := toks[k];
    EncTokenFields(src, off, r);
    GroupStep(group, t);
    assert (group + [t])[..|group|] == group;
    assert full + (group + [t]) == toks[..k + 1];
  }

  /** The token branch writes the token's bytes right after the open group's. */
  lemma ShapeTokenBytes(before: seq<byte>, off: nat, full: seq<Token>, group: seq<Token>, r: EncRun, t: Token)
    requires AllEncodable(full) && |full| % 8 == 0 && AllEncodable(group) && Encodable(t)
    requires r.codePos == |FullGroups(full)| && r.pos == r.codePos + 1 + |AllTokenBytes(group)|
    requires off + r.pos + |TokenBytes(t)| <= |before|
    requires r.buf == Overwrite(before, off, FullGroups(full) + [before[off + r.codePos]] + AllTokenBytes(group))
    ensures AllEncodable(group + [t])
    ensures off + |FullGroups(full)| + 1 + |AllTokenBytes(group + [t])| <= |before|
    ensures Overwrite(r.buf, off + r.pos, TokenBytes(t))
         == Overwrite(before, off, FullGroups(full) + [before[off + r.codePos]] + AllTokenBytes(group + [t]))
  {
    AppendToGroup(before, off, full, before[off + r.codePos], group, t, r.buf, off + r.pos);
  }





  /** Storing the control byte of a full group in its slot closes the group; the slot of
      the next control byte follows it. */
  lemma CloseGroup(before: seq<byte>, off: nat, full: seq<Token>, x: byte, group: seq<Token>)
    requires AllEncodable(full) && |full| % 8 == 0 && AllEncodable(group) && |group| == 8
    requires off + |FullGroups(full)| + 1 + |AllTokenBytes(group)| < |before|
    ensures AllEncodable(full + group) && |full + group| % 8 == 0
    ensures |FullGroups(full + group)| == |FullGroups(full)| + 1 + |AllTokenBytes(group)|
    ensures Overwrite(before, off, FullGroups(full) + [x] + AllTokenBytes(group))[off + |FullGroups(full)| := ControlByte(group)]
         == Overwrite(before, off, FullGroups(full + group) + [before[off + |FullGroups(full + group)|]] + AllTokenBytes([]))
  {
    FullGroupsAppend(full, group);
    var fg := FullGroups(full + group);
    OverwriteFix(before, off, FullGroups(full), x, AllTokenBytes(group), ControlByte(group));
    assert FullGroups(full) + [ControlByte(group)] + AllTokenBytes(group) == fg;
    OverwriteSame(before, off, fg);
    assert fg + [before[off + |fg|]] + AllTokenBytes([]) == fg + [before[off + |fg|]];
  }

  /** The end of a pass moves to the next bit, or closes a full group and opens the
      next one. */
  lemma ShapeShift(src: seq<byte>, before: seq<byte>, off: nat, k: nat, full: seq<Token>, group: seq<Token>, r: EncRun)
    returns (full': seq<Token>, group': seq<Token>)
    requires Added(src, before, off, k, full, group, r)
    ensures off + r.codePos < |r.buf| && r.code < 0x100
    ensures Shape(src, before, off, k, full', group', EncShift(off, r))
  {
    if |group| == 8 {
      ShapeFlush(src, before, off, k, full, group, r);
      full', group' := full + group, [];
    } else {
      Pow2Half(8 - |group|);
      full', group' := full, group;
    }
  }

  /** The eighth token closes the group: its control byte is written over the
      placeholder and a new placeholder is reserved. */
  lemma ShapeFlush(src: seq<byte>, before: seq<byte>, off: nat, k: nat, full: seq<Token>, group: seq<Token>, r: EncRun)
    requires Added(src, before, off, k, full, group, r) && |group| == 8
    ensures off + r.codePos < |r.buf| && r.code < 0x100
    ensures Shape(src, before, off, k, full + group, [], EncShift(off, r))
  {
    Pow2Half(8 - |group|);
    Pow2Values();
    var toks, r1 := EncodeTokens(src), EncShift(off, r);
    assert r1 == EncRun(r.srcPos, r.pending, r.pos + 1, r.pos, 0x80, 0, r.buf[off + r.codePos := r.code]);
    CodeOfIsControlByte(group);
    CloseGroup(before, off, full, before[off + r.codePos], group);
    assert (|group| + |toks| - k) / 8 == (|toks| - k) / 8 + 1;
    assert full + group + [] == toks[..k];
    PlacedIntro(src, before, off, k, full + group, [], r1);
    ShapeIntro(src, before, off, k, full + group, [], r1);
  }

  /** Placed with room in the open group and its next bit as the current one. */
  lemma ShapeIntro(src: seq<byte>, before: seq<byte>, off: nat, k: nat, full: seq<Token>, group: seq<Token>, r: EncRun)
    requires Placed(src, before, off, k, full, group, r)
    requires |group| < 8 && r.bitmask == Pow2(7 - |group|)
    ensures Shape(src, before, off, k, full, group, r)
  {
  }

  /** Before the first pass: nothing is written but the placeholder of the first
      control byte. */
  lemma EncRunStart(src: seq<byte>, before: seq<byte>, off: nat)
    requires off + |Serialize(EncodeTokens(src))| <= |before|
    ensures Shape(src, before, off, 0, [], [], EncRunAfter(src, before, off, 0))
  {
    var toks := EncodeTokens(src);
    StatesFromSpec(src, 0, None, 0);
    SerializeSize(toks);
    Pow2Values();
    OverwriteSame(before, off, []);
    assert [] + [before[off]] + [] == [before[off]];
  }

  /** The meaning of the loop's variables after `k` passes. */
  lemma {:induction false} EncRunShape(src: seq<byte>, before: seq<byte>, off: nat, k: nat)
    returns (full: seq<Token>, group: seq<Token>)
    requires off + |Serialize(EncodeTokens(src))| <= |before| && k <= |EncodeTokens(src)|
    ensures Shape(src, before, off, k, full, group, EncRunAfter(src, before, off, k))
    decreases k
  {
    if k == 0 {
      EncRunStart(src, before, off);
      full, group := [], [];
    } else {
      var f, g := EncRunShape(src, before, off, k - 1);
      var r := EncRunAfter(src, before, off, k - 1);
      ShapeToken(src, before, off, k - 1, f, g, r);
      full, group := ShapeShift(src, before, off, k, f, g + [EncodeTokens(src)[k - 1]], EncToken(src, off, r));
      assert EncRunAfter(src, before, off, k) == EncRunStep(src, before, off, k);
    }
  }

  /** While input is left after `k` passes of yaz0_encode_internal's loop, the next
      pass stays inside the buffer, keeps the control byte a byte, and is the token
      branch followed by the move to the next bit. */
  lemma EncRunNextFacts(src: seq<byte>, before: seq<byte>, off: nat, k: nat)
    requires off + |Serialize(EncodeTokens(src))| <= |before| && k <= |EncodeTokens(src)|
    requires EncRunAfter(src, before, off, k).srcPos < |src|
    ensures var r := EncRunAfter(src, before, off, k);
      k < |EncodeTokens(src)| && CanToken(src, off, r) &&
      off + r.codePos < |r.buf| && r.code + r.bitmask < 0x100 &&
      EncRunAfter(src, before, off, k + 1) == EncShift(off, EncToken(src, off, r))
  {
    var r := EncRunAfter(src, before, off, k);
    var full, group := EncRunShape(src, before, off, k);
    StatesFromSpec(src, 0, None, k);
    ShapeToken(src, before, off, k, full, group, r);
    assert EncRunAfter(src, before, off, k + 1) == EncRunStep(src, before, off, k + 1);
  }

  /** Once the input is used up, every token is written, and writing the open control
      byte completes the stream. */
  lemma EncRunDoneFacts(src: seq<byte>, before: seq<byte>, off: nat, k: nat)
    requires off + |Serialize(EncodeTokens(src))| <= |before| && k <= |EncodeTokens(src)|
    requires EncRunAfter(src, before, off, k).srcPos >= |src|
    ensures var r := EncRunAfter(src, before, off, k);
      r.bitmask != 0 && off + r.codePos < |r.buf| && r.code < 0x100 &&
      r.pos == |Serialize(EncodeTokens(src))| &&
      r.buf[off + r.codePos := r.code] == Overwrite(before, off, Serialize(EncodeTokens(src)))
  {
    var toks := EncodeTokens(src);
    var r := EncRunAfter(src, before, off, k);
    var full, group := EncRunShape(src, before, off, k);
    StatesFromSpec(src, 0, None, k);
    assert k == |toks|;
    assert toks[..k] == toks;
    assert toks[k..] == [];
    LastGroup(before, off, toks, full, before[off + r.codePos], group);
  }

  /** Writing the control byte of the open last group over its placeholder completes
      the stream. */
  lemma LastGroup(before: seq<byte>, off: nat, toks: seq<Token>, full: seq<Token>, x: byte, group: seq<Token>)
    requires AllEncodable(toks) && off + |Serialize(toks)| <= |before|
    requires AllEncodable(full) && |full| % 8 == 0 && AllEncodable(group) && |group| < 8 && full + group == toks
    ensures |Serialize(toks)| == |FullGroups(full)| + 1 + |AllTokenBytes(group)|
    ensures Overwrite(before, off, FullGroups(full) + [x] + AllTokenBytes(group))[off + |FullGroups(full)| := CodeOf(group)]
         == Overwrite(before, off, Serialize(toks))
  {
    SerializeSplit(full, group);
    CodeOfIsControlByte(group);
    OverwriteFix(before, off, FullGroups(full), x, AllTokenBytes(group), CodeOf(group));
    assert FullGroups(full) + [CodeOf(group)] + AllTokenBytes(group) == Serialize(toks);
  }

  /** The token branch of yaz0_encode_internal's loop (yaz0.cpp:106-127): chooses the
      next match with nintendoEnc and writes its token. The loop's variables come in and
      go out; what it does to them and to the buffer is EncToken. */
  method EncodeToken(src: seq<byte>, dst: array<byte>, off: nat,
                     srcPos: nat, prevFlag: bool, numBytes1: nat, matchPos2: nat,
                     pos: nat, ghost codePos: nat, bitmask: nat, code: nat)
    returns (srcPos': nat, prevFlag': bool, numBytes1': nat, matchPos2': nat, pos': nat, code': nat)
    requires CanToken(src, off, EncRun(srcPos, Pending(prevFlag, numBytes1, matchPos2), pos, codePos, bitmask, code, dst[..]))
    modifies dst
    ensures code' <= code + bitmask
    ensures EncToken(src, off, EncRun(srcPos, Pending(prevFlag, numBytes1, matchPos2), pos, codePos, bitmask, code, old(dst[..])))
      == EncRun(srcPos', Pending(prevFlag', numBytes1', matchPos2'), pos', codePos, bitmask, code', dst[..])
  {
    var numBytes, matchPos;
    numBytes, matchPos, prevFlag', numBytes1', matchPos2' := NintendoEnc(src, srcPos, prevFlag, numBytes1, matchPos2);
    var written, consumed;
    written, consumed, code' := PutToken(src, srcPos, numBytes, matchPos, dst, off + pos, code, bitmask);
    pos' := pos + written;
    srcPos' := srcPos + consumed;
  }

  /** One pass of yaz0_encode_internal's loop (yaz0.cpp:105-139), the `k`-th: the token
      branch, then the next bit of the control byte, storing the control byte and opening
      a new group after the eighth token. */
  method EncodePass(src: seq<byte>, dst: array<byte>, off: nat, ghost before: seq<byte>, ghost k: nat,
                    srcPos: nat, prevFlag: bool, numBytes1: nat, matchPos2: nat,
                    pos: nat, currCodeBytePos: nat, bitmask: nat, currCodeByte: byte)
    returns (srcPos': nat, prevFlag': bool, numBytes1': nat, matchPos2': nat,
             pos': nat, currCodeBytePos': nat, bitmask': nat, currCodeByte': byte)
    requires off + |Serialize(EncodeTokens(src))| <= |before| && k <= |EncodeTokens(src)| && srcPos < |src|
    requires EncRunAfter(src, before, off, k)
      == EncRun(srcPos, Pending(prevFlag, numBytes1, matchPos2), pos, currCodeBytePos, bitmask, currCodeByte, dst[..])
    modifies dst
    ensures k < |EncodeTokens(src)|
    ensures EncRunAfter(src, before, off, k + 1)
      == EncRun(srcPos', Pending(prevFlag', numBytes1', matchPos2'), pos', currCodeBytePos', bitmask', currCodeByte', dst[..])
  {
    EncRunNextFacts(src, before, off, k);
    var code;
    srcPos', prevFlag', numBytes1', matchPos2', pos', code :=
      EncodeToken(src, dst, off, srcPos, prevFlag, numBytes1, matchPos2, pos, currCodeBytePos, bitmask, currCodeByte);
    currCodeByte' := code;
    currCodeBytePos' := currCodeBytePos;
    bitmask' := bitmask / 2;
    if bitmask' == 0 {
      dst[off + currCodeBytePos] := currCodeByte';
      currCodeBytePos' := pos';
      pos' := pos' + 1;
      currCodeByte' := 0;
      bitmask' := 0x80;
    }
  }

  /** yaz0_encode_internal (yaz0.cpp:89-144): writes the stream for `src` at `dst[off..]`
      and returns its size. The tokens it writes are EncodeTokens(src); the bytes are
      their serialisation. The C code leaves `numBytes1` and `matchPos2` uninitialised;
      they are read only once `prevFlag` is set, so any start value will do. */
  method EncodeInternal(src: seq<byte>, dst: array<byte>, off: nat) returns (pos: nat)
    requires off + |Serialize(EncodeTokens(src))| <= dst.Length
    modifies dst
    ensures pos == |Serialize(EncodeTokens(src))|
    ensures dst[..] == Overwrite(old(dst[..]), off, Serialize(EncodeTokens(src)))
  {
    ghost var before := dst[..];
    ghost var k: nat := 0;
    var srcPos: nat := 0;
    var numBytes1: nat := 0;
    var matchPos2: nat := 0;
    var prevFlag := false;
    var bitmask: nat := 0x80;
    var currCodeByte: byte := 0;
    var currCodeBytePos: nat := 0;
    pos := currCodeBytePos + 1;
    while srcPos < |src|
      invariant k <= |EncodeTokens(src)|
      invariant EncRunAfter(src, before, off, k)
        == EncRun(srcPos, Pending(prevFlag, numBytes1, matchPos2), pos, currCodeBytePos, bitmask, currCodeByte, dst[..])
      decreases |EncodeTokens(src)| - k
    {
      srcPos, prevFlag, numBytes1, matchPos2, pos, currCodeBytePos, bitmask, currCodeByte :=
        EncodePass(src, dst, off, before, k, srcPos, prevFlag, numBytes1, matchPos2, pos, currCodeBytePos, bitmask, currCodeByte);
      k := k + 1;
    }
    EncRunDoneFacts(src, before, off, k);
    if bitmask != 0 {
      dst[off + currCodeBytePos] := currCodeByte;
    }
  }

  // ---------------------------------------------------------------------------
  // yaz0_encode: the buffer it allocates

  /** The buffer yaz0_encode allocates for the header and the stream, as written
      (yaz0.cpp:159): src_size + 0x160 bytes. */
  function AllocatedAsWritten(n: nat): nat
  {
    n + 0x160
  }

  /** The buffer the model allocates instead: one more byte for every eight input bytes,
      the most that control bytes can add to incompressible data. */
  function Allocated(n: nat): nat
  {
    n + n / 8 + 0x160
  }

  /** The corrected buffer holds the header, the stream and the alignment padding for
      every input: the stream is at most one control byte per eight tokens, plus the last
      one, longer than the input. */
  lemma AllocatedSuffices(src: seq<byte>)
    ensures var body := Serialize(EncodeTokens(src));
      HEADER_SIZE + |body| <= |src| + |src| / 8 + 17 && AlignedSize(|body|) <= Allocated(|src|)
  {
    EncodeTokensExpand(src);
    SerializeSize(EncodeTokens(src));
  }

  /** The three bytes at `i` and at `j` are equal. */
  predicate SameTriple(src: seq<byte>, i: nat, j: nat)
  {
    i + 2 < |src| && j + 2 < |src| && src[i] == src[j] && src[i + 1] == src[j + 1] && src[i + 2] == src[j + 2]
  }

  /** No three consecutive bytes occur twice in `src`. */
  predicate NoRepeat3(src: seq<byte>)
  {
    forall i, j :: 0 <= i < j < |src| ==> !SameTriple(src, i, j)
  }

  /** Byte k of an input without repeated triples: the pairs (0x80 + m / 0x80, m % 0x80)
      for m = 0, 1, 2, ... */
  function UniqueByte(k: nat): byte
    requires k < 0x8000
  {
    if k % 2 == 0 then 0x80 + (k / 2) / 0x80 else (k / 2) % 0x80
  }

  function Unique(n: nat): (r: seq<byte>)
    requires n <= 0x8000
    ensures |r| == n && forall k :: 0 <= k < n ==> r[k] == UniqueByte(k)
  {
    seq(n, k requires 0 <= k < n => UniqueByte(k))
  }

  lemma PairDetermines(a: nat, b: nat)
    ensures a / 0x80 == b / 0x80 && a % 0x80 == b % 0x80 ==> a == b
  {
  }

  /** The bytes of a triple of Unique(n): one starting at the even index 2m holds the
      pair m, one starting at the odd index 2m + 1 starts below 0x80 and then holds the
      pair m + 1. */
  lemma UniqueTriple(n: nat, i: nat)
    requires i + 2 < n <= 0x8000
    ensures var s := Unique(n); var a := i / 2;
      (i % 2 == 0 ==> s[i] == 0x80 + a / 0x80 && s[i + 1] == a % 0x80) &&
      (i % 2 == 1 ==> s[i] < 0x80 && s[i + 1] == 0x80 + (a + 1) / 0x80 && s[i + 2] == (a + 1) % 0x80)
  {
    var s := Unique(n);
    var a := i / 2;
    if i % 2 == 0 {
      assert (i + 1) / 2 == a && (i + 1) % 2 == 1;
      assert s[i] == UniqueByte(i) && s[i + 1] == UniqueByte(i + 1);
    } else {
      assert (i + 1) / 2 == a + 1 && (i + 1) % 2 == 0;
      assert (i + 2) / 2 == a + 1 && (i + 2) % 2 == 1;
      assert s[i] == UniqueByte(i) && s[i + 1] == UniqueByte(i + 1) && s[i + 2] == UniqueByte(i + 2);
    }
  }

  /** Triples at different indices differ: an even and an odd one in their first byte,
      two of the same parity in the pair they hold. */
  lemma UniqueNoRepeat(n: nat)
    requires n <= 0x8000
    ensures NoRepeat3(Unique(n))
  {
    var s := Unique(n);
    forall i, j | 0 <= i < j < |s|
      ensures !SameTriple(s, i, j)
    {
      if j + 2 < n {
        UniqueTriple(n, i);
        UniqueTriple(n, j);
        PairDetermines(i / 2, j / 2);
        PairDetermines(i / 2 + 1, j / 2 + 1);
      }
    }
  }

  lemma MatchesThree(src: seq<byte>, i: nat, pos: nat, n: nat)
    ensures Matches(src, i, pos, n) && n >= 3 ==> SameTriple(src, i, pos)
  {
    if Matches(src, i, pos, n) && n >= 3 {
      MatchesAt(src, i, pos, n, 0);
      MatchesAt(src, i, pos, n, 1);
      MatchesAt(src, i, pos, n, 2);
    }
  }

  /** Without repeated triples the search finds no match. */
  lemma NoRepeatNoMatch(src: seq<byte>, pos: nat)
    requires NoRepeat3(src) && pos <= |src|
    ensures SimpleMatch(src, pos).len == 1
  {
    var r := SimpleMatch(src, pos);
    if r.len != 1 {
      SimpleMatchFound(src, pos);
      MatchesThree(src, r.pos, pos, r.len);
      assert false;
    }
  }

  /** ... so the encoder emits one literal per input byte. */
  lemma {:induction false} NoRepeatTokens(src: seq<byte>, pos: nat)
    requires NoRepeat3(src) && pos <= |src|
    ensures PendingOk(src, pos, None) && |TokensFrom(src, pos, None)| == |src| - pos
    decreases |src| - pos
  {
    if pos < |src| {
      NoRepeatNoMatch(src, pos);
      TokensFromStep(src, pos, None);
      NoRepeatTokens(src, pos + 1);
    }
  }

  /** The allocation as written is one byte short for 2688 bytes without repeated
      triples: 336 groups of eight literals and the trailing control byte make a stream
      of 3025 bytes, which with the header needs 3041 bytes; the buffer has 3040. The
      final control byte is stored past its end. */
  lemma EncodeOverflowAsWritten()
    ensures var src := Unique(2688);
      HEADER_SIZE + |Serialize(EncodeTokens(src))| == 3041 && AllocatedAsWritten(|src|) == 3040
  {
    var src := Unique(2688);
    UniqueNoRepeat(2688);
    NoRepeatTokens(src, 0);
    EncodeTokensExpand(src);
    SerializeSize(EncodeTokens(src));
  }

  /** The buffer after yaz0_encode has written the header and the stream into zeroes,
      resized to the aligned size, is the encoder's output. */
  lemma EncodeLayout(src: seq<byte>, before: seq<byte>, after: seq<byte>)
    requires |src| < 0x8000_0000
    requires |before| >= HEADER_SIZE && before[..HEADER_SIZE] == Header(|src|)
    requires forall i :: HEADER_SIZE <= i < |before| ==> before[i] == 0
    requires HEADER_SIZE + |Serialize(EncodeTokens(src))| <= |before|
    requires after == Overwrite(before, HEADER_SIZE, Serialize(EncodeTokens(src)))
    ensures Resize(after, AlignedSize(|Serialize(EncodeTokens(src))|)) == EncodeSpec(src)
  {
    var body := Serialize(EncodeTokens(src));
    OverwriteAt(before, HEADER_SIZE, body);
    var r := Resize(after, AlignedSize(|body|));
    var e := EncodeSpec(src);
    var pad := ZeroBytes(AlignedSize(|body|) - HEADER_SIZE - |body|);
    assert e == Header(|src|) + body + pad;
    forall i | 0 <= i < |e|
      ensures r[i] == e[i]
    {
      if i < HEADER_SIZE {
        assert before[..HEADER_SIZE][i] == before[i];
      } else if i < HEADER_SIZE + |body| {
        assert e[i] == body[i - HEADER_SIZE];
      } else {
        assert e[i] == pad[i - HEADER_SIZE - |body|];
      }
    }
  }

  /** yaz0_encode (yaz0.cpp:158-177): a zeroed buffer, the magic and the big-endian size,
      the stream from offset 16, then the buffer cut to the aligned size. The buffer is
      Allocated(|src|) bytes long, not src_size + 0x160 (see EncodeOverflowAsWritten). */
  method Encode(src: seq<byte>) returns (r: seq<byte>)
    requires |src| < 0x8000_0000
    ensures r == EncodeSpec(src)
  {
    var dst := new byte[Allocated(|src|)](_ => 0);
    dst[0], dst[1], dst[2], dst[3] := MAGIC[0], MAGIC[1], MAGIC[2], MAGIC[3];
    var n: u32 := |src|;
    dst[4], dst[5], dst[6], dst[7] := ByteOf(n, 0), ByteOf(n, 1), ByteOf(n, 2), ByteOf(n, 3);
    ghost var before := dst[..];
    assert before[..HEADER_SIZE] == Header(|src|);
    AllocatedSuffices(src);
    var dstSize := EncodeInternal(src, dst, HEADER_SIZE);
    EncodeLayout(src, before, dst[..]);
    r := Resize(dst[..], AlignedSize(dstSize));
  }

  // ---------------------------------------------------------------------------
  // yaz0_decode on buffers

  /** `decompSize` is an int32_t compared with the uint32_t `dstPlace` (yaz0.cpp:186), so
      a negative size counts as a large unsigned one. */
  function AsUnsigned32(x: int): nat
    requires -0x8000_0000 <= x < 0x8000_0000
  {
    if x < 0 then x + 0x1_0000_0000 else x
  }

  /** The decoder's step on a token, unfolded one level. */
  lemma DecodeTokenUnfold(src: seq<byte>, sp: nat, out: seq<byte>, code: byte, bits: nat, size: nat, cap: nat)
    requires 1 <= bits <= 8 && |out| < size
    ensures DecodeLoop(src, sp, out, code, bits, size, cap) == DecodeToken(src, sp, out, code, bits, size, cap)
  {
  }

  /** The copy loop of yaz0_decode (yaz0.cpp:216): copies `n` bytes, one at a time, from
      `dist + 1` bytes behind position `at` of `dst` to `at`, so a copy longer than the
      distance repeats the bytes it has just written. */
  method CopyWithin(dst: array<byte>, at: nat, dist: nat, n: nat)
    requires dist < at && at + n <= dst.Length
    modifies dst
    ensures dst[..at + n] == CopyBack(old(dst[..at]), dist, n)
    ensures dst[at + n..] == old(dst[at + n..])
  {
    ghost var out0 := dst[..at];
    var dstPlace := at;
    var copyPlace := at - (dist + 1);
    var i: nat := 0;
    while i < n
      invariant i <= n && dstPlace == at + i && copyPlace + dist + 1 == dstPlace
      invariant CopyBack(dst[..dstPlace], dist, n - i) == CopyBack(out0, dist, n)
      invariant forall j :: dstPlace <= j < dst.Length ==> dst[j] == old(dst[j])
    {
      ghost var prev := dst[..dstPlace];
      CopyBackStep(prev, dist, n - i);
      dst[dstPlace] := dst[copyPlace];
      assert dst[..dstPlace + 1] == prev + [prev[copyPlace]];
      dstPlace := dstPlace + 1;
      copyPlace := copyPlace + 1;
      i := i + 1;
    }
    assert dst[..at + n] == dst[..dstPlace];
    assert dst[at + n..] == old(dst[at + n..]);
  }

  /** One byte of a copy: the byte `dist + 1` behind the end is appended. */
  lemma CopyBackStep(out: seq<byte>, dist: nat, n: nat)
    requires dist < |out| && n > 0
    ensures CopyBack(out, dist, n) == CopyBack(out + [out[|out| - dist - 1]], dist, n - 1)
  {
  }

  /** The decoder's step on a back-reference, with its distance, length and the stream
      position after it read from the two or three bytes at `sp`. */
  lemma DecodeCopyStep(src: seq<byte>, sp: nat, out: seq<byte>, code: byte, bits: nat, size: nat, cap: nat,
                       dist: nat, n: nat, sp': nat)
    requires 1 <= bits <= 8 && |out| < size && code < 0x80 && sp + 1 < |src|
    requires dist == (src[sp] as nat % 0x10) * 0x100 + src[sp + 1] as nat
    requires src[sp] as nat / 0x10 == 0 ==> sp + 2 < |src| && n == src[sp + 2] as nat + 0x12 && sp' == sp + 3
    requires src[sp] as nat / 0x10 != 0 ==> n == src[sp] as nat / 0x10 + 2 && sp' == sp + 2
    requires dist < |out| && |out| + n <= cap
    ensures DecodeLoop(src, sp, out, code, bits, size, cap)
         == DecodeLoop(src, sp', CopyBack(out, dist, n), (code * 2) % 0x100, bits - 1, size, cap)
  {
    assert DecodeLoop(src, sp, out, code, bits, size, cap) == DecodeToken(src, sp, out, code, bits, size, cap);
  }

  /** One token of yaz0_decode's loop (yaz0.cpp:193-217), with the control byte `code`
      loaded: copies a literal from the stream or a run from earlier in `dst` to `dst[at..]`
      and returns the new stream and output positions, or the error where the C code
      would leave its buffers. */
  method DecodeOne(src: seq<byte>, dst: array<byte>, sp: nat, at: nat, code: byte, bits: nat, size: nat)
    returns (err: Option<DecodeError>, sp': nat, at': nat)
    requires 1 <= bits <= 8 && at < size && at <= dst.Length
    modifies dst
    ensures err.Some? ==> DecodeLoop(src, sp, old(dst[..at]), code, bits, size, dst.Length) == Err(err.value)
    ensures err.None? ==> at < at' <= dst.Length && dst[at'..] == old(dst[at'..])
    ensures err.None? ==>
      DecodeLoop(src, sp, old(dst[..at]), code, bits, size, dst.Length)
        == DecodeLoop(src, sp', dst[..at'], (code * 2) % 0x100, bits - 1, size, dst.Length)
  {
    ghost var out0 := dst[..at];
    DecodeTokenUnfold(src, sp, out0, code, bits, size, dst.Length);
    sp', at' := sp, at;
    if code >= 0x80 {
      if sp >= |src| {
        return Some(SourceOverrun), sp', at';
      }
      if at >= dst.Length {
        return Some(OutputOverrun), sp', at';
      }
      DecodeLiteralStep(src, sp, out0, src[sp], code, bits, size, dst.Length);
      dst[at] := src[sp];
      assert dst[..at + 1] == out0 + [src[sp]];
      sp', at' := sp + 1, at + 1;
    } else {
      if sp + 1 >= |src| {
        return Some(SourceOverrun), sp', at';
      }
      var byte1 := src[sp];
      var byte2 := src[sp + 1];
      var dist: nat := (byte1 as nat % 0x10) * 0x100 + byte2 as nat;
      var numBytes: nat := byte1 as nat / 0x10;
      sp' := sp + 2;
      if numBytes == 0 {
        if sp' >= |src| {
          return Some(SourceOverrun), sp', at';
        }
        numBytes := src[sp'] as nat + 0x12;
        sp' := sp' + 1;
      } else {
        numBytes := numBytes + 2;
      }
      if dist >= at {
        return Some(BackrefBeforeStart), sp', at';
      }
      if at + numBytes > dst.Length {
        return Some(OutputOverrun), sp', at';
      }
      DecodeCopyStep(src, sp, out0, code, bits, size, dst.Length, dist, numBytes, sp');
      CopyWithin(dst, at, dist, numBytes);
      at' := at + numBytes;
    }
    return None, sp', at';
  }

  /** yaz0_decode (yaz0.cpp:179-223): decodes the stream `src` (header included) into
      `dst` until `decompSize` bytes are out. Where the C code would read past the
      stream, copy from before the output or write past `dst`, the method stops and
      returns the error instead. */
  method Decode(src: seq<byte>, dst: array<byte>, decompSize: int) returns (err: Option<DecodeError>)
    requires -0x8000_0000 <= decompSize < 0x8000_0000
    modifies dst
    ensures match DecodeSpec(src, AsUnsigned32(decompSize), dst.Length)
      case Ok(out) => err == None && dst[..|out|] == out && dst[|out|..] == old(dst[|out|..])
      case Err(e) => err == Some(e)
  {
    var size := AsUnsigned32(decompSize);
    ghost var spec := DecodeSpec(src, size, dst.Length);
    ghost var orig := dst[..];
    var srcPlace: nat := HEADER_SIZE;
    var dstPlace: nat := 0;
    var codeByte: byte := 0;
    var bitCount: nat := 0;
    while dstPlace < size
      invariant bitCount <= 8 && dstPlace <= dst.Length
      invariant DecodeLoop(src, srcPlace, dst[..dstPlace], codeByte, bitCount, size, dst.Length) == spec
      invariant dst[dstPlace..] == orig[dstPlace..]
      decreases size - dstPlace
    {
      if bitCount == 0 {
        if srcPlace >= |src| {
          return Some(SourceOverrun);
        }
        DecodeRefill(src, srcPlace, dst[..dstPlace], codeByte, size, dst.Length);
        codeByte := src[srcPlace];
        srcPlace := srcPlace + 1;
        bitCount := 8;
      }
      ghost var before := dst[..];
      var e, sp, at := DecodeOne(src, dst, srcPlace, dstPlace, codeByte, bitCount, size);
      if e.Some? {
        return e;
      }
      assert dst[at..] == before[at..] == orig[at..] by {
        assert before[at..] == before[dstPlace..][at - dstPlace..];
        assert orig[at..] == orig[dstPlace..][at - dstPlace..];
      }
      srcPlace, dstPlace := sp, at;
      codeByte := (codeByte * 2) % 0x100;
      bitCount := bitCount - 1;
    }
    return None;
  }
}
