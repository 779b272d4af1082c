/** The LZ4 frame format as lz4frame.c decodes it, one byte at a time: what a stream of bytes stands for does not
    depend on how it is cut. Block decoding and the hash are any functions. */
module Lz4FrameFormat {
  import opened Basics
  import opened Bytes

  const KB := 1024
  const WINDOW := 64 * KB
  const BH_SIZE := 4
  const BF_SIZE := 4
  const MIN_FH_SIZE := 7
  const MAX_FH_SIZE := 19
  const LZ4F_MAGICNUMBER := 0x184D2204
  const LZ4F_MAGIC_SKIPPABLE_START := 0x184D2A50
  const BLOCK_UNCOMPRESSED_FLAG := 0x8000_0000
  const U64_MODULUS := 0x1_0000_0000_0000_0000

  /** How blocks are decoded, from the block, the last 64 KB before it and the largest size; the hash; and the
      dictionary given to every call, which may be empty. */
  datatype Codec = Codec(decode: (seq<Byte>, seq<Byte>, nat) -> Option<seq<Byte>>, xxh32: seq<Byte> -> nat,
                         dictionary: seq<Byte>)

  /** LZ4F_frameInfo_t, with the size of its largest block. */
  datatype FrameInfo = FrameInfo(linked: bool, blockChecksum: bool, contentChecksum: bool, contentSize: nat,
    maxBlockSize: nat)

  /** The last 64 KB. */
  function Last64(s: seq<Byte>): (r: seq<Byte>)
    ensures |r| <= WINDOW && |r| <= |s|
  {
    if |s| <= WINDOW then s else s[|s| - WINDOW..]
  }

  lemma Last64Is(s: seq<Byte>)
    ensures |s| <= 65536 ==> Last64(s) == s
    ensures |s| > 65536 ==> |Last64(s)| == 65536 && s == s[..|s| - 65536] + Last64(s)
  {
  }

  /** A decoded block never exceeds the capacity it was given. */
  function Decode(c: Codec, block: seq<Byte>, history: seq<Byte>, capacity: nat): (r: Option<seq<Byte>>)
    ensures r.Some? ==> |r.value| <= capacity
  {
    var r := c.decode(block, Last64(history), capacity);
    if r.Some? && |r.value| <= capacity then r else None
  }

  predicate IsBlockSize(n: nat) {
    n == 64 * KB || n == 256 * KB || n == KB * KB || n == 4 * KB * KB
  }

  function BlockSize(id: nat): (n: nat)
    ensures IsBlockSize(n)
  {
    if id == 4 then 64 * KB else if id == 5 then 256 * KB else if id == 6 then KB * KB else 4 * KB * KB
  }

  // ---------------------------------------------------------------------------
  // The frame header
  // ---------------------------------------------------------------------------

  datatype Header =
    | Skippable
    | Incomplete(size: nat)
    | Frame(size: nat, info: FrameInfo, sized: bool)
    | BadHeader

  function Bit(b: Byte, weight: nat): bool
    requires weight > 0
  {
    (b as nat / weight) % 2 == 1
  }

  function HeaderSize(flags: Byte): (n: nat)
    ensures MIN_FH_SIZE <= n <= MAX_FH_SIZE
  {
    MIN_FH_SIZE + (if Bit(flags, 8) then 8 else 0) + (if Bit(flags, 1) then 4 else 0)
  }

  /** LZ4F_decodeHeader on the bytes at hand. */
  function DecodeHeader(c: Codec, s: seq<Byte>): (h: Header)
    requires MIN_FH_SIZE <= |s|
    ensures h.Incomplete? ==> |s| < h.size <= MAX_FH_SIZE
    ensures h.Frame? ==> MIN_FH_SIZE <= h.size <= MAX_FH_SIZE && h.size <= |s| && IsBlockSize(h.info.maxBlockSize)
    ensures h.Frame? ==> h.info.contentSize < U64_MODULUS
  {
    var magic := ReadLE(s, 0, 4);
    if magic / 16 == LZ4F_MAGIC_SKIPPABLE_START / 16 then Skippable
    else if magic != LZ4F_MAGICNUMBER then BadHeader
    else
      var flags := s[4];
      if Bit(flags, 2) || (flags as nat / 64) % 4 != 1 then BadHeader
      else
        var size := HeaderSize(flags);
        if |s| < size then Incomplete(size)
        else
          var bd := s[5] as nat;
          if bd / 128 % 2 != 0 || bd / 16 % 8 < 4 || bd % 16 != 0 then BadHeader
          else if (c.xxh32(s[4..size - 1]) / 256) % 256 != s[size - 1] as nat then BadHeader
          else
            Frame(size,
                  FrameInfo(!Bit(flags, 32), Bit(flags, 16), Bit(flags, 4), if Bit(flags, 8) then ReadLE(s, 6, 8)
                    else 0,
                            BlockSize(bd / 16 % 8)),
                  Bit(flags, 8))
  }

  /** The bytes of a header that can be read: the magic number, version 1 and a reserved bit, the rest of its fields,
      and the second byte of the hash of what stands between the magic number and that byte. */
  ghost predicate Readable(c: Codec, s: seq<Byte>, size: nat) {
    && 7 <= size <= |s| && s[..4] == [0x04, 0x22, 0x4D, 0x18] && s[4] / 64 == 1 && s[4] / 2 % 2 == 0
    && 4 <= s[5] / 16 <= 7 && s[5] % 16 == 0 && s[size - 1] == c.xxh32(s[4..size - 1]) / 256 % 256
  }

  /** The size of a header with these flags: eight bytes more for a content size, four for a dictionary. */
  function SizeFor(flags: Byte): nat { 7 + (if flags / 8 % 2 == 1 then 8 else 0) + (if flags % 2 == 1 then 4 else 0) }

  /** Which headers are read, put off, skipped and refused, byte by byte. */
  lemma HeaderIs(c: Codec, s: seq<Byte>)
    requires 7 <= |s|
    ensures var h, size := DecodeHeader(c, s), SizeFor(s[4]);
      && (h.Skippable? <==> s[0] / 16 == 5 && s[1..4] == [0x2A, 0x4D, 0x18])
      && (h.Incomplete? <==>
            s[..4] == [0x04, 0x22, 0x4D, 0x18] && s[4] / 64 == 1 && s[4] / 2 % 2 == 0 && |s| < size)
      && (h.Incomplete? ==> h.size == size)
      && (h.Frame? <==> Readable(c, s, size))
      && (h.Frame? ==> h.size == size)
  {
    MagicIs(s);
    assert (s[4] as nat / 64) % 4 == s[4] as nat / 64;
    assert s[5] as nat / 128 % 2 == 0 ==> s[5] as nat / 16 % 8 == s[5] as nat / 16;
  }

  /** What the flags and the size of a header say. */
  lemma HeaderInfoIs(c: Codec, s: seq<Byte>)
    requires 7 <= |s| && DecodeHeader(c, s).Frame?
    ensures var h := DecodeHeader(c, s); var i := h.info;
      && (i.linked <==> s[4] / 32 % 2 == 0) && (i.blockChecksum <==> s[4] / 16 % 2 == 1)
      && (i.contentChecksum <==> s[4] / 4 % 2 == 1) && (h.sized <==> s[4] / 8 % 2 == 1)
      && (s[5] == 0x40 ==> i.maxBlockSize == 65536) && (s[5] == 0x50 ==> i.maxBlockSize == 262144)
      && (s[5] == 0x60 ==> i.maxBlockSize == 1048576) && (s[5] == 0x70 ==> i.maxBlockSize == 4194304)
      && i.contentSize == if h.sized then ReadLE(s, 6, 8) else 0
  {
    hide ReadLE;
    assert s[5] as nat / 128 % 2 == 0 ==> s[5] as nat / 16 % 8 == s[5] as nat / 16;
  }

  /** A header whose checksum byte is changed is refused. */
  lemma ChecksumByteChanged(c: Codec, s: seq<Byte>, b: Byte)
    requires 7 <= |s| && DecodeHeader(c, s).Frame? && b != s[DecodeHeader(c, s).size - 1]
    ensures DecodeHeader(c, s[DecodeHeader(c, s).size - 1 := b]).BadHeader?
  {
    hide DecodeHeader;
    var size := SizeFor(s[4]);
    HeaderIs(c, s);
    var s' := s[size - 1 := b];
    assert s'[4..size - 1] == s[4..size - 1] && s'[..4] == s[..4] && s'[0] == s[0];
    assert s'[..4][0] == 4;
    HeaderIs(c, s');
  }

  lemma MagicIs(s: seq<Byte>)
    requires 7 <= |s|
    ensures ReadLE(s, 0, 4) == LZ4F_MAGICNUMBER <==> s[..4] == [0x04, 0x22, 0x4D, 0x18]
    ensures ReadLE(s, 0, 4) / 16 == LZ4F_MAGIC_SKIPPABLE_START / 16 <==> s[0] / 16 == 5 && s[1..4] == [0x2A, 0x4D, 0x18]
  {
    hide ReadLE;
    ReadLE4(s, 0);
    Digits(s[0] as nat, s[1], s[2], s[3], 0x04, 0x22, 0x4D, 0x18, 256);
    Digits(s[0] as nat / 16, s[1], s[2], s[3], 5, 0x2A, 0x4D, 0x18, 16);
    var high := s[1] as nat + 256 * s[2] as nat + 65536 * s[3] as nat;
    HighNibble(s[0] as nat, high);
    assert s[1..4] == [s[1], s[2], s[3]] && s[..4] == [s[0], s[1], s[2], s[3]];
  }

  /** A number has only one sequence of digits, whatever the range of the lowest. */
  lemma Digits(a: nat, b: Byte, c: Byte, d: Byte, a': nat, b': Byte, c': Byte, d': Byte, n: nat)
    requires a < n && a' < n && (n == 16 || n == 256)
    ensures a + n * (b as nat + 256 * c as nat + 65536 * d as nat)
         == a' + n * (b' as nat + 256 * c' as nat + 65536 * d' as nat)
        <==> a == a' && b == b' && c == c' && d == d'
  {
  }

  lemma HighNibble(a: nat, high: nat)
    ensures (a + 256 * high) / 16 == a / 16 + 16 * high
  {
  }

  // ---------------------------------------------------------------------------
  // The machine
  // ---------------------------------------------------------------------------

  /** What has been decoded: the frames before, the content of this one, and what is left of the announced size. */
  datatype Context = Context(info: FrameInfo, before: seq<Byte>, content: seq<Byte>, remaining: nat)

  /** What a run of bytes is collected for. */
  datatype Purpose =
    FrameHeader | SkipHeader | BlockHeader | RawChecksum(block: seq<Byte>) | CompressedBlock | ContentChecksum

  datatype State =
    | Collect(c: Context, purpose: Purpose, target: nat, got: seq<Byte>)
    | Raw(c: Context, left: nat, block: seq<Byte>)
    | Skip(c: Context, left: nat)
    | Failed

  function NoInfo(): FrameInfo { FrameInfo(true, false, false, 0, 0) }

  /** A context that has been made or reset: `stale` is what an earlier frame has left of its announced size. */
  function StartWith(stale: nat): State { Collect(Context(NoInfo(), [], [], stale), FrameHeader, MIN_FH_SIZE, []) }

  /** The frame is over: the next one starts, and has no history. What is left of the size is not reset. */
  function NewFrame(c: Context): State {
    Collect(c.(before := c.before + c.content, content := []), FrameHeader, MIN_FH_SIZE, [])
  }

  function NextBlock(c: Context): State { Collect(c, BlockHeader, BH_SIZE, []) }

  /** The history of a block: the dictionary, and in linked mode the content before it. */
  function History(k: Codec, c: Context): seq<Byte> {
    if c.info.linked then k.dictionary + c.content else k.dictionary
  }

  /** Content is added; the announced size, if there is one, goes down in 64 bits. */
  function Add(c: Context, bytes: seq<Byte>): Context {
    c.(content := c.content + bytes,
       remaining := if c.info.contentSize == 0 then c.remaining
         else (c.remaining + U64_MODULUS - |bytes| % U64_MODULUS) % U64_MODULUS)
  }

  function AfterRaw(c: Context, block: seq<Byte>): State {
    if c.info.blockChecksum then Collect(c, RawChecksum(block), BF_SIZE, []) else NextBlock(c)
  }

  function RawOf(c: Context, left: nat, block: seq<Byte>): State {
    if left == 0 then AfterRaw(c, block) else Raw(c, left, block)
  }

  function SkipOf(c: Context, left: nat): State {
    if left == 0 then NewFrame(c) else Skip(c, left)
  }

  function EndOfBlocks(c: Context): State {
    if c.remaining != 0 then Failed
    else if c.info.contentChecksum then Collect(c, ContentChecksum, 4, [])
    else NewFrame(c)
  }

  function OpenBlock(c: Context, header: nat): State {
    var size := header % BLOCK_UNCOMPRESSED_FLAG;
    if header == 0 then EndOfBlocks(c)
    else if size > c.info.maxBlockSize then Failed
    else if header >= BLOCK_UNCOMPRESSED_FLAG then RawOf(c, size, [])
    else Collect(c, CompressedBlock, size + if c.info.blockChecksum then BF_SIZE else 0, [])
  }

  function DataOf(c: Context, got: seq<Byte>): seq<Byte> {
    if c.info.blockChecksum && |got| >= BF_SIZE then got[..|got| - BF_SIZE] else got
  }

  function DecodeBlock(k: Codec, c: Context, got: seq<Byte>): State {
    var data := DataOf(c, got);
    if c.info.blockChecksum && |got| >= BF_SIZE && ReadLE(got, |got| - BF_SIZE, BF_SIZE) != k.xxh32(data) then Failed
    else
      match Decode(k, data, History(k, c), c.info.maxBlockSize)
      case None => Failed
      case Some(bytes) => NextBlock(Add(c, bytes))
  }

  function OpenFrame(k: Codec, c: Context, got: seq<Byte>): State {
    if |got| < MIN_FH_SIZE then Failed
    else
      match DecodeHeader(k, got)
      case Skippable => Collect(c, SkipHeader, 8, got)
      case Incomplete(size) => Collect(c, FrameHeader, size, got)
      case Frame(_, info, sized) => NextBlock(Context(info, c.before, c.content, if sized then info.contentSize
        else c.remaining))
      case BadHeader => Failed
  }

  /** All bytes of a run have been collected. */
  function Collected(k: Codec, c: Context, purpose: Purpose, got: seq<Byte>): State {
    match purpose
    case FrameHeader => OpenFrame(k, c, got)
    case SkipHeader => if |got| == 8 then SkipOf(c, ReadLE(got, 4, 4)) else Failed
    case BlockHeader => if |got| == BH_SIZE then OpenBlock(c, ReadLE(got, 0, BH_SIZE)) else Failed
    case RawChecksum(block) => if |got| == BF_SIZE && ReadLE(got, 0, BF_SIZE) == k.xxh32(block) then NextBlock(c)
      else Failed
    case CompressedBlock => DecodeBlock(k, c, got)
    case ContentChecksum => if |got| == 4 && ReadLE(got, 0, 4) == k.xxh32(c.content) then NewFrame(c) else Failed
  }

  /** The size in the four bytes in front of a block: all but the highest bit. */
  function SizeIn(got: seq<Byte>): nat
    requires |got| == 4
  {
    got[0] as nat + 256 * got[1] as nat + 65536 * got[2] as nat + 16777216 * (got[3] as nat % 128)
  }

  /** Nothing but zeros in front of a block end the frame; the highest bit marks a raw block; the rest is the size,
      which must not exceed the frame's. */
  lemma BlockHeaderIs(k: Codec, c: Context, got: seq<Byte>)
    requires |got| == 4
    ensures Collected(k, c, BlockHeader, got) ==
      if got == [0, 0, 0, 0] then EndOfBlocks(c)
      else if SizeIn(got) > c.info.maxBlockSize then Failed
      else if 128 <= got[3] then RawOf(c, SizeIn(got), [])
      else Collect(c, CompressedBlock, SizeIn(got) + if c.info.blockChecksum then 4 else 0, [])
  {
    hide ReadLE, EndOfBlocks, RawOf;
    ReadLE4(got, 0);
    SplitFlag(ReadLE(got, 0, 4), SizeIn(got), 128 <= got[3]);
    assert got == [got[0], got[1], got[2], got[3]];
  }

  lemma SplitFlag(n: nat, size: nat, raw: bool)
    requires size < 0x8000_0000 && n == size + if raw then 0x8000_0000 else 0
    ensures n % BLOCK_UNCOMPRESSED_FLAG == size && (raw <==> n >= BLOCK_UNCOMPRESSED_FLAG)
  {
  }

  function Step(k: Codec, s: State, b: Byte): State {
    match s
    case Collect(c, purpose, target, got) =>
      if |got| + 1 < target then Collect(c, purpose, target, got + [b]) else Collected(k, c, purpose, got + [b])
    case Raw(c, left, block) => RawOf(Add(c, [b]), if left == 0 then 0 else left - 1, block + [b])
    case Skip(c, left) => SkipOf(c, if left == 0 then 0 else left - 1)
    case Failed => Failed
  }

  function Run(k: Codec, s: State, bytes: seq<Byte>): State
    decreases |bytes|
  {
    if bytes == [] then s else Run(k, Step(k, s, bytes[0]), bytes[1..])
  }

  /** Everything decoded so far. */
  function Output(s: State): seq<Byte>
    requires !s.Failed?
  {
    s.c.before + s.c.content
  }

  // ---------------------------------------------------------------------------
  // Runs of several bytes
  // ---------------------------------------------------------------------------

  lemma {:induction false} RunAppend(k: Codec, s: State, a: seq<Byte>, b: seq<Byte>)
    ensures Run(k, s, a + b) == Run(k, Run(k, s, a), b)
    decreases |a|
  {
    hide Step;
    if a == [] {
      assert a + b == b;
    } else {
      assert (a + b)[0] == a[0] && (a + b)[1..] == a[1..] + b;
      RunAppend(k, Step(k, s, a[0]), a[1..], b);
    }
  }

  lemma {:induction false} RunFailed(k: Codec, bytes: seq<Byte>)
    ensures Run(k, Failed, bytes) == Failed
    decreases |bytes|
  {
    if bytes != [] {
      RunFailed(k, bytes[1..]);
    }
  }

  /** Bytes that are collected, all at once. */
  lemma {:induction false} RunCollect(k: Codec, c: Context, purpose: Purpose, target: nat, got: seq<Byte>,
      bytes: seq<Byte>)
    requires |got| < target && |got| + |bytes| <= target
    ensures Run(k, Collect(c, purpose, target, got), bytes) ==
            if |got| + |bytes| < target then Collect(c, purpose, target, got + bytes)
              else Collected(k, c, purpose, got + bytes)
    decreases |bytes|
  {
    hide Collected;
    if bytes == [] {
      assert got + bytes == got;
    } else if |bytes| == 1 {
      assert bytes[1..] == [] && bytes == [bytes[0]];
    } else {
      RunCollect(k, c, purpose, target, got + [bytes[0]], bytes[1..]);
      assert got + [bytes[0]] + bytes[1..] == got + bytes;
    }
  }

  lemma AddTwice(c: Context, a: seq<Byte>, b: seq<Byte>)
    requires c.remaining < U64_MODULUS
    ensures Add(Add(c, a), b) == Add(c, a + b) && Add(c, []) == c
  {
    assert c.content + a + b == c.content + (a + b) && c.content + [] == c.content;
    if c.info.contentSize != 0 {
      AddMod(c.remaining, |a|, |b|);
    }
  }

  lemma AddMod(r: nat, a: nat, b: nat)
    requires r < U64_MODULUS
    ensures var m := U64_MODULUS;
            ((r + m - a % m) % m + m - b % m) % m == (r + m - (a + b) % m) % m && (r + m - 0 % m) % m == r
  {
    var m := U64_MODULUS;
    var x, y := a % m, b % m;
    assert a + b == (x + y) + m * (a / m + b / m);
    ModPlus(x + y, a / m + b / m);
    SmallMod(x + y);
    SmallMod(r + m - x);
    SmallMod((r + m - x) % m + m - y);
    SmallMod(r + m - (x + y) % m);
    SmallMod(r + m);
  }

  lemma SmallMod(z: int)
    requires 0 <= z < 2 * U64_MODULUS
    ensures z % U64_MODULUS == if z < U64_MODULUS then z else z - U64_MODULUS
  {
  }

  lemma ModPlus(x: int, q: int)
    ensures (x + U64_MODULUS * q) % U64_MODULUS == x % U64_MODULUS
  {
  }

  /** Bytes of an uncompressed block, all at once. */
  lemma {:induction false} RunRaw(k: Codec, c: Context, left: nat, block: seq<Byte>, bytes: seq<Byte>)
    requires |bytes| <= left && c.remaining < U64_MODULUS
    ensures Run(k, RawOf(c, left, block), bytes) == RawOf(Add(c, bytes), left - |bytes|, block + bytes)
    decreases |bytes|
  {
    AddTwice(c, [], []);
    if bytes == [] {
      assert block + bytes == block;
    } else {
      AddTwice(c, [bytes[0]], bytes[1..]);
      assert [bytes[0]] + bytes[1..] == bytes && block + [bytes[0]] + bytes[1..] == block + bytes;
      RunRaw(k, Add(c, [bytes[0]]), left - 1, block + [bytes[0]], bytes[1..]);
    }
  }

  lemma {:induction false} RunSkip(k: Codec, c: Context, left: nat, bytes: seq<Byte>)
    requires |bytes| <= left
    ensures Run(k, SkipOf(c, left), bytes) == SkipOf(c, left - |bytes|)
    decreases |bytes|
  {
    if bytes != [] {
      RunSkip(k, c, left - 1, bytes[1..]);
    }
  }

  // ---------------------------------------------------------------------------
  // Frame headers from any number of bytes
  // ---------------------------------------------------------------------------

  /** What a frame header says is in its first bytes. */
  lemma HeaderPrefix(k: Codec, s: seq<Byte>, n: nat)
    requires MIN_FH_SIZE <= n <= |s|
    ensures var h := DecodeHeader(k, s);
            var h' := DecodeHeader(k, s[..n]);
            && (h.Skippable? <==> h'.Skippable?)
            && (h.Frame? && h.size <= n ==> h' == h)
            && (h.Frame? && n < h.size ==> h' == Incomplete(h.size))
            && (h.BadHeader? && MAX_FH_SIZE <= n ==> h'.BadHeader?)
            && (h'.BadHeader? ==> h.BadHeader?)
            && (h'.Incomplete? ==> h'.size == HeaderSize(s[4]))
  {
    var p := s[..n];
    ReadPrefix(s, n, 0, 4);
    if HeaderSize(s[4]) <= n {
      var size := HeaderSize(s[4]);
      assert p[4..size - 1] == s[4..size - 1];
      if Bit(s[4], 8) {
        ReadPrefix(s, n, 6, 8);
      }
    }
  }

  lemma ReadPrefix(s: seq<Byte>, n: nat, i: nat, k: nat)
    requires i + k <= n <= |s|
    ensures ReadLE(s[..n], i, k) == ReadLE(s, i, k)
  {
    assert At(s, 0, s[..n]);
    ReadInside(s, 0, s[..n], i, k);
  }

  ghost predicate IsSkippable(magic: seq<Byte>) {
    |magic| == 4 && ReadLE(magic, 0, 4) / 16 == LZ4F_MAGIC_SKIPPABLE_START / 16
  }

  lemma SkippableMagic(k: Codec, s: seq<Byte>)
    requires MIN_FH_SIZE <= |s|
    ensures DecodeHeader(k, s).Skippable? <==> IsSkippable(s[..4])
  {
    ReadPrefix(s, 4, 0, 4);
  }

  /** The header of a frame that is all there. */
  lemma RunHeader(k: Codec, c: Context, s: seq<Byte>)
    requires MAX_FH_SIZE <= |s|
    ensures !DecodeHeader(k, s).Incomplete?
    ensures DecodeHeader(k, s).Skippable? ==>
      Run(k, Collect(c, FrameHeader, MIN_FH_SIZE, []), s[..4]) == Collect(c, FrameHeader, MIN_FH_SIZE, s[..4])
    ensures DecodeHeader(k, s).Frame? ==>
      var head := s[..DecodeHeader(k, s).size];
      && Run(k, Collect(c, FrameHeader, MIN_FH_SIZE, []), head) == OpenFrame(k, c, head)
      && DecodeHeader(k, head) == DecodeHeader(k, s)
    ensures DecodeHeader(k, s).BadHeader? ==> Run(k, Collect(c, FrameHeader, MIN_FH_SIZE, []), s) == Failed
  {
    hide DecodeHeader;
    var start := Collect(c, FrameHeader, MIN_FH_SIZE, []);
    match DecodeHeader(k, s)
    case Skippable =>
      RunCollect(k, c, FrameHeader, MIN_FH_SIZE, [], s[..4]);
      assert [] + s[..4] == s[..4];
    case Incomplete(_) =>
    case Frame(size, _, _) =>
      HeaderPrefix(k, s, size);
      HeaderPrefix(k, s, MIN_FH_SIZE);
      assert s[..size][..MIN_FH_SIZE] == s[..MIN_FH_SIZE];
      RunHeaderBytes(k, c, s[..size]);
    case BadHeader => RunBadHeader(k, c, s);
  }

  /** Exactly the bytes of a header. */
  lemma RunHeaderBytes(k: Codec, c: Context, s: seq<Byte>)
    requires MIN_FH_SIZE <= |s|
    requires |s| == MIN_FH_SIZE || DecodeHeader(k, s[..MIN_FH_SIZE]) == Incomplete(|s|)
    ensures Run(k, Collect(c, FrameHeader, MIN_FH_SIZE, []), s) == OpenFrame(k, c, s)
  {
    hide DecodeHeader;
    var first := s[..MIN_FH_SIZE];
    RunCollect(k, c, FrameHeader, MIN_FH_SIZE, [], first);
    assert [] + first == first && first + s[MIN_FH_SIZE..] == s;
    RunAppend(k, Collect(c, FrameHeader, MIN_FH_SIZE, []), first, s[MIN_FH_SIZE..]);
    if |s| > MIN_FH_SIZE {
      RunCollect(k, c, FrameHeader, |s|, first, s[MIN_FH_SIZE..]);
    } else {
      assert first == s;
    }
  }

  lemma RunBadHeader(k: Codec, c: Context, s: seq<Byte>)
    requires MAX_FH_SIZE <= |s| && DecodeHeader(k, s).BadHeader?
    ensures Run(k, Collect(c, FrameHeader, MIN_FH_SIZE, []), s) == Failed
  {
    hide DecodeHeader;
    var start := Collect(c, FrameHeader, MIN_FH_SIZE, []);
    HeaderPrefix(k, s, MIN_FH_SIZE);
    var h := DecodeHeader(k, s[..MIN_FH_SIZE]);
    assert DecodeHeader(k, s) == BadHeader;
    var n := if h.Incomplete? then h.size else MIN_FH_SIZE;
    HeaderPrefix(k, s, n);
    NotFrameYet(k, s);
    assert s[..n][..MIN_FH_SIZE] == s[..MIN_FH_SIZE];
    RunHeaderBytes(k, c, s[..n]);
    assert s[..n] + s[n..] == s;
    RunAppend(k, start, s[..n], s[n..]);
    RunFailed(k, s[n..]);
  }

  /** A header that is bad as a whole is bad as soon as its own bytes are there. */
  lemma NotFrameYet(k: Codec, s: seq<Byte>)
    requires MAX_FH_SIZE <= |s| && DecodeHeader(k, s).BadHeader?
    ensures var h := DecodeHeader(k, s[..MIN_FH_SIZE]);
            var n := if h.Incomplete? then h.size else MIN_FH_SIZE;
            DecodeHeader(k, s[..n]).BadHeader?
  {
    ReadPrefix(s, MIN_FH_SIZE, 0, 4);
    var size := HeaderSize(s[4]);
    ReadPrefix(s, size, 0, 4);
    assert s[..size][4..size - 1] == s[4..size - 1];
  }
}
