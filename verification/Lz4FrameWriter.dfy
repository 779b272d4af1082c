/** The compressing side of lz4frame.c: LZ4F_compressBegin, LZ4F_compressUpdate, LZ4F_flush, LZ4F_compressEnd and
    LZ4F_compressFrame. The block compressor is any one that the block decoder undoes. */
module Lz4FrameWriter {
  import opened Basics
  import opened Bytes
  import opened Lz4FrameFormat
  import opened Lz4FrameDecoder
  import opened Lz4Frames

  const U32_MODULUS := 0x1_0000_0000

  /** A block compressor gets the history, the block and a capacity, and returns nothing when it gives up. What its
      tables hold depends on the calls before, so it may answer the `n`th call of a context as it likes. */
  datatype Compressor = Compressor(codec: Codec, encode: (nat, seq<Byte>, seq<Byte>, nat) -> seq<Byte>)

  /** What a compressor sees before a block: with linked blocks the content before it. */
  function HistoryOf(k: Codec, linked: bool, before: seq<Byte>): seq<Byte> {
    if linked then k.dictionary + before else k.dictionary
  }

  const MAX_BLOCK_SIZE := 4 * KB * KB

  /** A call of the compressor stays in its capacity, and what it returns is decoded to the block. */
  ghost predicate SoundCall(z: Compressor, n: nat, history: seq<Byte>, block: seq<Byte>, capacity: nat) {
    var c := z.encode(n, history, block, capacity);
    && |c| <= capacity
    && (c != [] ==> forall room :: |block| <= room ==> z.codec.decode(c, Last64(history), room) == Some(block))
  }

  /** All calls are sound, for linked blocks or for others; the hash has 32 bits. */
  ghost predicate Sound(z: Compressor, linked: bool) {
    && (forall n: nat, before: seq<Byte>, block: seq<Byte>, capacity: nat ::
      |block| <= MAX_BLOCK_SIZE && capacity < |block| ==>
          SoundCall(z, n, HistoryOf(z.codec, linked, before), block, capacity))
    && (forall s :: z.codec.xxh32(s) < U32_MODULUS)
  }

  /** LZ4F_preferences_t. */
  datatype Preferences = Preferences(blockSizeID: nat, linked: bool, contentChecksum: bool, contentSize: nat,
    dictID: nat,
                                     blockChecksum: bool, autoFlush: bool)

  predicate ValidPreferences(p: Preferences) {
    (p.blockSizeID == 0 || 4 <= p.blockSizeID <= 7) && p.contentSize < U64_MODULUS && p.dictID < U32_MODULUS
  }

  /** LZ4F_getBlockSize. */
  function GetBlockSize(id: nat): (n: nat)
    ensures IsBlockSize(n) && WINDOW <= n
  {
    if id == 0 then BlockSize(4) else BlockSize(id)
  }

  function InfoFor(p: Preferences): FrameInfo {
    FrameInfo(p.linked, p.blockChecksum, p.contentChecksum, p.contentSize, GetBlockSize(p.blockSizeID))
  }

  function Flag(b: bool, weight: nat): nat { if b then weight else 0 }

  // ---------------------------------------------------------------------------
  // Bounds
  // ---------------------------------------------------------------------------

  /** LZ4F_compressBound_internal; the number of full blocks is cut to 32 bits. */
  function CompressBound(srcSize: nat, p: Preferences, alreadyBuffered: nat): nat {
    var blockSize := GetBlockSize(p.blockSizeID);
    var maxSrcSize := srcSize + Min(alreadyBuffered, blockSize - 1);
    var nbFullBlocks := maxSrcSize / blockSize % U32_MODULUS;
    var lastBlockSize := if p.autoFlush || srcSize == 0 then maxSrcSize % blockSize else 0;
    var nbBlocks := nbFullBlocks + Flag(lastBlockSize > 0, 1);
    (BH_SIZE + Flag(p.blockChecksum, BF_SIZE)) * nbBlocks + blockSize * nbFullBlocks + lastBlockSize
    + BH_SIZE + Flag(p.contentChecksum, BF_SIZE)
  }

  /** LZ4F_compressFrameBound. */
  function CompressFrameBound(srcSize: nat, p: Preferences): nat {
    MAX_FH_SIZE + CompressBound(srcSize, p.(autoFlush := true), 0)
  }

  /** The number of full blocks is not cut. */
  predicate Countable(size: nat, p: Preferences) {
    size / GetBlockSize(p.blockSizeID) < U32_MODULUS
  }

  /** What blocks of so many bytes take when none can be compressed: `header` bytes around each. */
  function WorstBlocks(header: nat, blockSize: nat, size: nat): nat
    requires blockSize > 0
    decreases size
  {
    if size == 0 then 0
    else if size < blockSize then header + size
    else header + blockSize + WorstBlocks(header, blockSize, size - blockSize)
  }

  lemma Divided(size: nat, blockSize: nat)
    requires blockSize > 0
    ensures size == Times(blockSize, size / blockSize) + size % blockSize
  {
  }

  lemma DivideOnce(size: nat, blockSize: nat)
    requires 0 < blockSize <= size
    ensures size / blockSize == (size - blockSize) / blockSize + 1 && size % blockSize == (size - blockSize) % blockSize
  {
    var q, r := (size - blockSize) / blockSize, (size - blockSize) % blockSize;
    assert size == blockSize * (q + 1) + r;
    Quotient(size, blockSize, q + 1, r);
  }

  lemma Quotient(n: nat, b: nat, q: nat, r: nat)
    requires r < b && n == b * q + r
    ensures n / b == q && n % b == r
  {
    var q', r' := n / b, n % b;
    assert n == b * q' + r';
    if q' < q {
      Longer(b, q', q - q');
    } else if q < q' {
      Longer(b, q, q' - q);
    }
  }

  lemma {:induction false} WorstBlocksAre(header: nat, blockSize: nat, size: nat)
    requires blockSize > 0
    ensures WorstBlocks(header, blockSize, size)
      == Times(header, size / blockSize + Flag(size % blockSize > 0, 1)) + size
    decreases size
  {
    if size < blockSize {
      Quotient(size, blockSize, 0, size);
    } else {
      WorstBlocksAre(header, blockSize, size - blockSize);
      DivideOnce(size, blockSize);
      Distribute(header, (size - blockSize) / blockSize + Flag(size % blockSize > 0, 1));
    }
  }

  lemma Distribute(a: nat, b: nat)
    ensures a * (b + 1) == a * b + a
  {
  }

  function Times(a: nat, b: nat): nat { a * b }

  /** Bytes around a block. */
  function Around(p: Preferences): nat { BH_SIZE + Flag(p.blockChecksum, BF_SIZE) }

  /** The longest header, blocks that cannot be compressed, and the end of the frame. */
  function WorstFrame(p: Preferences, size: nat): nat {
    MAX_FH_SIZE + WorstBlocks(Around(p), GetBlockSize(p.blockSizeID), size) + BH_SIZE + Flag(p.contentChecksum, BF_SIZE)
  }

  /** The bound of a frame is the size of the worst frame if and only if its number of full blocks fits 32 bits, and is
      otherwise too small. */
  lemma FrameBoundCovers(p: Preferences, size: nat)
    ensures CompressFrameBound(size, p) == WorstFrame(p, size) <==> Countable(size, p)
    ensures CompressFrameBound(size, p) <= WorstFrame(p, size)
    ensures var blockSize := GetBlockSize(p.blockSizeID);
            WorstFrame(p, size)
            == 23 + (if p.contentChecksum then 4 else 0) + size
              + Times(if p.blockChecksum then 8 else 4, size / blockSize + if size % blockSize > 0 then 1 else 0)
  {
    hide GetBlockSize, WorstFrame, CompressFrameBound, Countable, Times, WorstBlocks;
    var blockSize := GetBlockSize(p.blockSizeID);
    WorstBlocksAre(Around(p), blockSize, size);
    FrameBoundIs(p, size);
    Divided(size, blockSize);
    WorstFrameIs(p, size);
    CountableIs(p, size);
    Cut(Around(p), blockSize, size / blockSize, Flag(size % blockSize > 0, 1));
  }

  lemma WorstFrameIs(p: Preferences, size: nat)
    ensures WorstFrame(p, size)
         == MAX_FH_SIZE + WorstBlocks(Around(p), GetBlockSize(p.blockSizeID), size) + BH_SIZE
           + Flag(p.contentChecksum, BF_SIZE)
  {
  }

  lemma CountableIs(p: Preferences, size: nat)
    ensures Countable(size, p) <==> size / GetBlockSize(p.blockSizeID) < U32_MODULUS
  {
  }

  lemma FrameBoundIs(p: Preferences, size: nat)
    ensures var blockSize := GetBlockSize(p.blockSizeID);
            var nbFullBlocks := size / blockSize % U32_MODULUS;
            CompressFrameBound(size, p)
            == MAX_FH_SIZE + Times(Around(p), nbFullBlocks + Flag(size % blockSize > 0, 1))
              + Times(blockSize, nbFullBlocks)
               + size % blockSize + BH_SIZE + Flag(p.contentChecksum, BF_SIZE)
  {
    hide GetBlockSize;
  }

  lemma Cut(header: nat, blockSize: nat, full: nat, more: nat)
    requires 0 < blockSize
    ensures var cut := full % U32_MODULUS;
            && (Times(header, cut + more) + Times(blockSize, cut) == Times(header, full + more) + Times(blockSize, full)
                <==> full < U32_MODULUS)
            && Times(header, cut + more) + Times(blockSize, cut) <= Times(header, full + more) + Times(blockSize, full)
  {
    var cut := full % U32_MODULUS;
    if full >= U32_MODULUS {
      assert cut < full;
      Longer(blockSize, cut, full - cut);
      Longer(header, cut + more, full - cut);
    }
  }

  lemma {:induction false} Longer(a: nat, b: nat, d: nat)
    requires 1 <= d
    ensures a * b + a <= a * (b + d)
    decreases d
  {
    if d > 1 {
      Longer(a, b, d - 1);
      Distribute(a, b + d - 1);
    } else {
      Distribute(a, b);
    }
  }

  /** Everything in one block: its size does not matter. */
  lemma OneBlockBound(p: Preferences, size: nat)
    requires size <= GetBlockSize(p.blockSizeID)
    ensures CompressFrameBound(size, p)
         == MAX_FH_SIZE + (if size > 0 then Around(p) else 0) + size + BH_SIZE + Flag(p.contentChecksum, BF_SIZE)
  {
    hide GetBlockSize, CompressFrameBound;
    var blockSize := GetBlockSize(p.blockSizeID);
    FrameBoundIs(p, size);
    if size < blockSize {
      Quotient(size, blockSize, 0, size);
    } else {
      Quotient(size, blockSize, 1, 0);
    }
  }

  /** A smaller block size that still takes everything in one block leaves the bound as it is. */
  lemma OptimalBound(p: Preferences, id: nat, size: nat)
    requires GetBlockSize(id) <= GetBlockSize(p.blockSizeID)
    requires id == p.blockSizeID || size <= GetBlockSize(id)
    ensures CompressFrameBound(size, p.(blockSizeID := id)) == CompressFrameBound(size, p)
  {
    hide GetBlockSize, CompressFrameBound;
    if id != p.blockSizeID {
      OneBlockBound(p, size);
      OneBlockBound(p.(blockSizeID := id), size);
    } else {
      assert p.(blockSizeID := id) == p;
    }
  }

  /** The bound looks only at the block size and the checksums. */
  lemma SameBound(p: Preferences, q: Preferences, size: nat)
    requires GetBlockSize(p.blockSizeID) == GetBlockSize(q.blockSizeID)
    requires p.blockChecksum == q.blockChecksum && p.contentChecksum == q.contentChecksum && q.autoFlush
    ensures CompressFrameBound(size, p) == MAX_FH_SIZE + CompressBound(size, q, 0)
    ensures EndNeed(q, 0) == EndSize(p) && (Countable(size, p) <==> Countable(size, q))
  {
    hide GetBlockSize;
  }

  /** A smaller block size that still takes everything in one block leaves few blocks. */
  lemma StillCountable(p: Preferences, id: nat, size: nat)
    requires Countable(size, p) && (id == p.blockSizeID || size <= GetBlockSize(id))
    ensures Countable(size, p.(blockSizeID := id))
  {
    var b := GetBlockSize(id);
    if size <= b {
      assert size / b <= 1 by {
        if size == b {
          assert size / b == 1;
        }
      }
    }
  }

  /** Room for an update is room for all the blocks it makes. */
  lemma UpdateBoundCovers(p: Preferences, srcSize: nat, buffered: nat)
    requires Countable(srcSize + buffered, p) && buffered < GetBlockSize(p.blockSizeID)
    ensures var blockSize := GetBlockSize(p.blockSizeID);
            var size := srcSize + buffered;
            WorstBlocks(Around(p), blockSize, if p.autoFlush then size else size - size % blockSize)
            + BH_SIZE + Flag(p.contentChecksum, BF_SIZE) <= CompressBound(srcSize, p, buffered)
  {
    hide GetBlockSize, WorstBlocks;
    var blockSize := GetBlockSize(p.blockSizeID);
    var size := srcSize + buffered;
    var full := size / blockSize;
    Divided(size, blockSize);
    WorstBlocksAre(Around(p), blockSize, size);
    if !p.autoFlush {
      WorstBlocksAre(Around(p), blockSize, size - size % blockSize);
      Quotient(size - size % blockSize, blockSize, full, 0);
    }
    UpdateBoundIs(p, srcSize, buffered);
    hide Times, CompressBound;
    MoreBlocks(Around(p), full, Flag(size % blockSize > 0, 1));
  }

  lemma UpdateBoundIs(p: Preferences, srcSize: nat, buffered: nat)
    requires Countable(srcSize + buffered, p) && buffered < GetBlockSize(p.blockSizeID)
    ensures var blockSize := GetBlockSize(p.blockSizeID);
            var size := srcSize + buffered;
            var last := if p.autoFlush || srcSize == 0 then size % blockSize else 0;
            CompressBound(srcSize, p, buffered)
            == Times(Around(p), size / blockSize + Flag(last > 0, 1)) + Times(blockSize, size / blockSize) + last
               + BH_SIZE + Flag(p.contentChecksum, BF_SIZE)
  {
    hide GetBlockSize;
  }

  lemma MoreBlocks(header: nat, full: nat, more: nat)
    ensures Times(header, full) <= Times(header, full + more)
  {
  }

  function EndSize(p: Preferences): nat { BH_SIZE + Flag(p.contentChecksum, BF_SIZE) }

  /** Room for the blocks that an update makes of what is not compressed yet. */
  function Need(p: Preferences, rest: nat): nat {
    var blockSize := GetBlockSize(p.blockSizeID);
    WorstBlocks(Around(p), blockSize, if p.autoFlush then rest else rest - rest % blockSize)
  }

  lemma NeedBlock(p: Preferences, rest: nat, n: nat)
    requires n <= rest && (n == GetBlockSize(p.blockSizeID)
      || (p.autoFlush && 0 < n == rest < GetBlockSize(p.blockSizeID)))
    ensures Need(p, rest) == Around(p) + n + Need(p, rest - n)
  {
    hide GetBlockSize;
    if n == GetBlockSize(p.blockSizeID) {
      DivideOnce(rest, n);
    }
  }

  lemma NeedCovered(p: Preferences, srcSize: nat, buffered: nat)
    requires Countable(srcSize + buffered, p) && buffered < GetBlockSize(p.blockSizeID)
    ensures Need(p, buffered + srcSize) + EndSize(p) <= CompressBound(srcSize, p, buffered)
  {
    hide GetBlockSize, CompressBound;
    UpdateBoundCovers(p, srcSize, buffered);
  }

  // ---------------------------------------------------------------------------
  // The frame header
  // ---------------------------------------------------------------------------

  function Flags(p: Preferences): (r: Byte)
    ensures (Bit(r, 8) <==> p.contentSize > 0) && (Bit(r, 1) <==> p.dictID > 0)
  {
    64 + Flag(!p.linked, 32) + Flag(p.blockChecksum, 16) + Flag(p.contentSize > 0, 8) + Flag(p.contentChecksum, 4)
    + Flag(p.dictID > 0, 1)
  }

  /** The bytes of the header that its checksum covers. */
  function Descriptor(p: Preferences): (r: seq<Byte>)
    requires ValidPreferences(p)
    ensures |r| == HeaderSize(Flags(p)) - 5
  {
    [Flags(p), (if p.blockSizeID == 0 then 4 else p.blockSizeID) * 16]
    + (if p.contentSize > 0 then LE(p.contentSize, 8) else []) + (if p.dictID > 0 then LE(p.dictID, 4) else [])
  }

  /** LZ4F_compressBegin writes the magic number, the descriptor and its checksum. */
  function HeaderFor(k: Codec, p: Preferences): (r: seq<Byte>)
    requires ValidPreferences(p)
    ensures MIN_FH_SIZE <= |r| <= MAX_FH_SIZE
  {
    LE(LZ4F_MAGICNUMBER, 4) + Descriptor(p) + [k.xxh32(Descriptor(p)) / 256 % 256]
  }

  /** Every header, byte by byte. */
  lemma HeaderBytes(k: Codec, p: Preferences)
    requires ValidPreferences(p)
    ensures var r := HeaderFor(k, p);
      && r[..4] == [0x04, 0x22, 0x4D, 0x18]
      && r[4] as nat == 0x40 + (if p.linked then 0 else 0x20) + (if p.blockChecksum then 0x10 else 0)
         + (if p.contentSize > 0 then 8 else 0) + (if p.contentChecksum then 4 else 0) + (if p.dictID > 0 then 1 else 0)
      && r[5] as nat == (if p.blockSizeID == 0 then 4 else p.blockSizeID) * 16
      && r[|r| - 1] as nat == k.xxh32(r[4..|r| - 1]) / 256 % 256
      && |r| == 7 + (if p.contentSize > 0 then 8 else 0) + (if p.dictID > 0 then 4 else 0)
      && (p.contentSize > 0 ==> r[6..14] == LE(p.contentSize, 8))
      && (p.dictID > 0 ==> r[|r| - 5..|r| - 1] == LE(p.dictID, 4))
  {
    hide Flags;
    LE4(0x184D2204);
    var r, body := HeaderFor(k, p), Descriptor(p);
    hide LE;
    assert r[..4] == LE(LZ4F_MAGICNUMBER, 4);
    assert r[4..|r| - 1] == body && r[4] == body[0] && r[5] == body[1];
    FlagsAre(p);
    assert p.contentSize > 0 ==> body[2..10] == LE(p.contentSize, 8) && r[6..14] == body[2..10];
    assert p.dictID > 0 ==> body[|body| - 4..] == LE(p.dictID, 4) && r[|r| - 5..|r| - 1] == body[|body| - 4..];
  }

  lemma FlagsAre(p: Preferences)
    ensures Flags(p) as nat == 0x40 + (if p.linked then 0 else 0x20) + (if p.blockChecksum then 0x10 else 0)
      + (if p.contentSize > 0 then 8 else 0) + (if p.contentChecksum then 4 else 0) + (if p.dictID > 0 then 1 else 0)
  {
  }

  /** The header of a frame in one block without any preferences, as Unreal writes it. */
  lemma DefaultHeader(k: Codec, p: Preferences)
    requires (p.blockSizeID == 0 || p.blockSizeID == 4) && !p.contentChecksum && p.contentSize == 0 && p.dictID == 0
      && !p.blockChecksum
    ensures HeaderFor(k, p) == [0x04, 0x22, 0x4D, 0x18, if p.linked then 0x40 else 0x60, 0x40,
      k.xxh32([if p.linked then 0x40 else 0x60, 0x40]) / 256 % 256]
  {
    LE4(0x184D2204);
    assert Descriptor(p) == [if p.linked then 0x40 else 0x60, 0x40];
  }

  /** The default block size is written as 64 KB. */
  lemma DefaultSize(k: Codec, p: Preferences)
    requires ValidPreferences(p) && p.blockSizeID == 0
    ensures HeaderFor(k, p.(blockSizeID := 4)) == HeaderFor(k, p) && GetBlockSize(4) == GetBlockSize(0)
  {
  }

  lemma DefaultBlockSize(p: Preferences)
    ensures GetBlockSize(if p.blockSizeID == 0 then 4 else p.blockSizeID) == GetBlockSize(p.blockSizeID)
  {
  }

  /** The decoder reads from a header what was written in it. */
  lemma HeaderReads(k: Codec, p: Preferences)
    requires ValidPreferences(p)
    ensures DecodeHeader(k, HeaderFor(k, p)) == Header.Frame(|HeaderFor(k, p)|, InfoFor(p), p.contentSize > 0)
  {
    hide LE, ReadLE, Bit, Flags;
    var s, body := HeaderFor(k, p), Descriptor(p);
    FlagBits(p);
    AtAppend(s, 0, LE(LZ4F_MAGICNUMBER, 4), body + [k.xxh32(body) / 256 % 256]);
    assert s == LE(LZ4F_MAGICNUMBER, 4) + (body + [k.xxh32(body) / 256 % 256]);
    Pow256Of4();
    ReadsBack(s, 0, LZ4F_MAGICNUMBER, 4);
    assert s[4] == body[0] && s[5] == body[1] && s[4..|s| - 1] == body;
    if p.contentSize > 0 {
      SizeInHeader(s, p);
      Pow256Of8();
      ReadsBack(s, 6, p.contentSize, 8);
    }
  }

  lemma SizeInHeader(s: seq<Byte>, p: Preferences)
    requires ValidPreferences(p) && p.contentSize > 0 && At(s, 4, Descriptor(p))
    ensures At(s, 6, LE(p.contentSize, 8))
  {
    hide LE, At;
    var first := [Flags(p), (if p.blockSizeID == 0 then 4 else p.blockSizeID) * 16];
    var id: seq<Byte> := if p.dictID > 0 then LE(p.dictID, 4) else [];
    AtAppend(s, 4, first + LE(p.contentSize, 8), id);
    AtAppend(s, 4, first, LE(p.contentSize, 8));
  }

  lemma FlagBits(p: Preferences)
    ensures var f := Flags(p);
            && Bit(f, 32) == !p.linked && Bit(f, 16) == p.blockChecksum && Bit(f, 8) == (p.contentSize > 0)
            && Bit(f, 4) == p.contentChecksum && Bit(f, 1) == (p.dictID > 0) && !Bit(f, 2) && f / 64 % 4 == 1
  {
  }

  lemma Pow256Of8()
    ensures Pow256(8) == U64_MODULUS
  {
    Pow256Of4();
    assert Pow256(5) == 256 * Pow256(4) && Pow256(6) == 256 * Pow256(5);
    assert Pow256(7) == 256 * Pow256(6) && Pow256(8) == 256 * Pow256(7);
  }

  /** LZ4F_optimalBSID: the smallest size, up to the requested one, that takes everything in one block. */
  method OptimalBSID(requested: nat, srcSize: nat) returns (r: nat)
    requires requested == 0 || 4 <= requested <= 7
    ensures r == requested || (4 <= r < requested && srcSize <= BlockSize(r))
    ensures forall id :: 4 <= id < r ==> BlockSize(id) < srcSize
  {
    var proposed := 4;
    var maxBlockSize := 64 * KB;
    while requested > proposed
      invariant 4 <= proposed <= 7 && (proposed <= requested || proposed == 4) && maxBlockSize == BlockSize(proposed)
      invariant forall id :: 4 <= id < proposed ==> BlockSize(id) < srcSize
    {
      if srcSize <= maxBlockSize {
        return proposed;
      }
      proposed := proposed + 1;
      maxBlockSize := maxBlockSize * 4;
    }
    return requested;
  }

  // ---------------------------------------------------------------------------
  // Blocks
  // ---------------------------------------------------------------------------

  lemma {:induction false} OneMoreBlock(k: Codec, info: FrameInfo, before: seq<Byte>, blocks: seq<Block>, b: Block,
      bytes: seq<Byte>)
    requires (forall x :: x in blocks ==> BlockShaped(info, x)) && BlockShaped(info, b)
    requires Content(k, info, before, blocks).Some?
    requires BlockContent(k, info, before + Content(k, info, before, blocks).value, b) == Some(bytes)
    ensures Content(k, info, before, blocks + [b]) == Some(Content(k, info, before, blocks).value + bytes)
    ensures BlocksBytes(blocks + [b]) == BlocksBytes(blocks) + BlockBytes(b)
    decreases |blocks|
  {
    hide BlockContent, BlockBytes, BlockShaped;
    var all := blocks + [b];
    if blocks == [] {
      assert all == [b] && all[1..] == [] && before + [] == before;
      assert BlocksBytes([]) == [] && BlockBytes(b) + [] == BlockBytes(b) && [] + BlockBytes(b) == BlockBytes(b);
      assert Content(k, info, before + bytes, []) == Some([]);
      assert bytes + [] == bytes && [] + bytes == bytes;
    } else {
      assert all[0] == blocks[0] && all[1..] == blocks[1..] + [b];
      var first := BlockContent(k, info, before, blocks[0]).value;
      var rest := Content(k, info, before + first, blocks[1..]).value;
      assert before + (first + rest) == before + first + rest;
      OneMoreBlock(k, info, before + first, blocks[1..], b, bytes);
      assert first + rest + bytes == first + (rest + bytes);
      assert BlockBytes(blocks[0]) + (BlocksBytes(blocks[1..]) + BlockBytes(b)) == BlocksBytes(blocks) + BlockBytes(b);
    }
  }

  /** The block that the `n`th call of the compressor makes: what it returns, or the source itself where it returns
      nothing in one byte less. */
  ghost function BlockFor(z: Compressor, n: nat, p: Preferences, before: seq<Byte>, src: seq<Byte>): (b: Block)
    requires src != []
    ensures b.raw <==> z.encode(n, HistoryOf(z.codec, p.linked, before), src, |src| - 1) == []
    ensures b.data == if b.raw then src else z.encode(n, HistoryOf(z.codec, p.linked, before), src, |src| - 1)
    ensures b.sum == if p.blockChecksum then LE(z.codec.xxh32(b.data), 4) else []
  {
    var c := z.encode(n, HistoryOf(z.codec, p.linked, before), src, |src| - 1);
    var data := if c == [] then src else c;
    Block(c == [], data, if p.blockChecksum then LE(z.codec.xxh32(data), BF_SIZE) else [])
  }

  /** Pieces of input, put together. */
  ghost function Flat(parts: seq<seq<Byte>>): seq<Byte> {
    if parts == [] then [] else Flat(parts[..|parts| - 1]) + parts[|parts| - 1]
  }

  ghost predicate NonEmpty(parts: seq<seq<Byte>>) { forall i :: 0 <= i < |parts| ==> parts[i] != [] }

  /** The blocks of an input that came in these pieces, from call `n` on. */
  ghost function BlocksFor(z: Compressor, n: nat, p: Preferences, parts: seq<seq<Byte>>): (blocks: seq<Block>)
    requires NonEmpty(parts)
    ensures |blocks| == |parts|
  {
    if parts == [] then []
    else
      var m := |parts| - 1;
      BlocksFor(z, n, p, parts[..m]) + [BlockFor(z, n + m, p, Flat(parts[..m]), parts[m])]
  }

  lemma MorePieces(z: Compressor, n: nat, p: Preferences, parts: seq<seq<Byte>>, part: seq<Byte>)
    requires part != [] && NonEmpty(parts)
    ensures Flat(parts + [part]) == Flat(parts) + part && NonEmpty(parts + [part])
    ensures BlocksFor(z, n, p, parts + [part])
      == BlocksFor(z, n, p, parts) + [BlockFor(z, n + |parts|, p, Flat(parts), part)]
  {
    hide BlockFor;
    assert (parts + [part])[..|parts|] == parts;
  }

  /** All pieces fill a block, but for the last, which may be shorter. */
  ghost predicate FullPieces(parts: seq<seq<Byte>>, from: nat, blockSize: nat) {
    forall i :: from <= i < |parts| ==> |parts[i]| == blockSize || (i == |parts| - 1 && 0 < |parts[i]| < blockSize)
  }

  /** LZ4F_makeBlock: a compressed block, or a raw one if the compressor does not make it shorter. */
  method MakeBlock(z: Compressor, n: nat, p: Preferences, before: seq<Byte>, src: seq<Byte>, d: DstBuffer)
    returns (ghost b: Block)
    requires Sound(z, p.linked) && 0 < |src| <= GetBlockSize(p.blockSizeID)
    requires d.Valid() && |d.written| + Around(p) + |src| <= d.capacity
    modifies d
    ensures d.Valid() && d.written == old(d.written) + BlockBytes(b) && |BlockBytes(b)| <= Around(p) + |src|
    ensures BlockShaped(InfoFor(p), b)
    ensures BlockContent(z.codec, InfoFor(p), before, b) == Some(src)
    ensures b == BlockFor(z, n, p, before, src)
  {
    hide LE, Last64, ReadLE;
    var c := z.encode(n, HistoryOf(z.codec, p.linked, before), src, |src| - 1);
    assert SoundCall(z, n, HistoryOf(z.codec, p.linked, before), src, |src| - 1);
    var cSize := |c|;
    var data := c;
    if cSize == 0 {
      cSize := |src|;
      data := src;
      d.Write(LE(cSize + BLOCK_UNCOMPRESSED_FLAG, BH_SIZE));
    } else {
      d.Write(LE(cSize, BH_SIZE));
    }
    d.Write(data);
    ghost var sum := [];
    if p.blockChecksum {
      var crc32 := z.codec.xxh32(data);
      d.Write(LE(crc32, BF_SIZE));
      sum := LE(crc32, BF_SIZE);
      ReadsHash(crc32);
    }
    b := Block(|c| == 0, data, sum);
    var header := LE(cSize + if |c| == 0 then BLOCK_UNCOMPRESSED_FLAG else 0, BH_SIZE);
    assert d.written == old(d.written) + (header + (data + sum));
  }

  lemma ReadsHash(hash: nat)
    requires hash < U32_MODULUS
    ensures ReadLE(LE(hash, BF_SIZE), 0, BF_SIZE) == hash
  {
    Pow256Of4();
    assert At(LE(hash, BF_SIZE), 0, LE(hash, BF_SIZE));
    ReadsBack(LE(hash, BF_SIZE), 0, hash, BF_SIZE);
  }

  // ---------------------------------------------------------------------------
  // The compression context
  // ---------------------------------------------------------------------------

  class Cctx {
    const z: Compressor
    var prefs: Preferences
    var cStage: nat
    var maxBlockSize: nat
    var tmpIn: seq<Byte>
    var totalInSize: nat
    var xxh: seq<Byte>
    var history: seq<Byte>          // what the LZ4 stream has compressed
    var calls: nat                  // how often the block compressor has been called

    ghost var input: seq<Byte>      // all the input of the frame
    ghost var blocks: seq<Block>
    ghost var emitted: seq<Byte>    // all that has been written of the frame
    ghost var first: nat            // the number of calls before the frame
    ghost var parts: seq<seq<Byte>> // the input of every block

    /** What has been written is a header and blocks whose content is the history. */
    ghost predicate Emitting()
      reads this`prefs, this`maxBlockSize, this`history, this`blocks, this`emitted, this`calls, this`first, this`parts
    {
      && calls == first + |parts| && history == Flat(parts) && NonEmpty(parts)
      && blocks == BlocksFor(z, first, prefs, parts)
      && Sound(z, prefs.linked) && ValidPreferences(prefs) && maxBlockSize == GetBlockSize(prefs.blockSizeID)
      && (forall b :: b in blocks ==> BlockShaped(InfoFor(prefs), b))
      && Content(z.codec, InfoFor(prefs), [], blocks) == Some(history)
      && emitted == HeaderFor(z.codec, prefs) + BlocksBytes(blocks)
    }

    /** A frame is open: its input has been compressed, but for what is buffered. */
    ghost predicate Open()
      reads this
    {
      && Emitting() && cStage == 1 && |tmpIn| < maxBlockSize && input == history + tmpIn
      && (prefs.contentChecksum ==> xxh == input)
      && (prefs.contentSize > 0 ==> totalInSize == |input| % U64_MODULUS)
    }

    ghost predicate Valid()
      reads this
    {
      cStage == 1 ==> Open()
    }

    constructor (z: Compressor)
      ensures this.z == z && cStage == 0 && Valid()
    {
      this.z := z;
      prefs := Preferences(0, true, false, 0, 0, false, false);
      cStage, maxBlockSize, totalInSize, calls := 0, 0, 0, 0;
      tmpIn, xxh, history, input, blocks, emitted, first, parts := [], [], [], [], [], [], 0, [];
    }

    /** LZ4F_compressBegin. */
    method Begin(p: Preferences, d: DstBuffer) returns (ok: bool)
      requires Sound(z, p.linked) && ValidPreferences(p) && d.Valid()
      modifies this, d
      ensures ok <==> 19 <= d.capacity - old(|d.written|)
      ensures !ok ==> d.written == old(d.written)
      ensures ok ==> d.Valid() && Open() && input == [] && tmpIn == []
      ensures ok ==> prefs == p.(blockSizeID := if p.blockSizeID == 0 then 4 else p.blockSizeID)
      ensures ok ==> d.written == old(d.written) + emitted && emitted == HeaderFor(z.codec, p)
      ensures ok ==> cStage == 1 && |d.written| <= old(|d.written|) + 19
      ensures ok ==> parts == [] && first == calls == old(calls) && emitted[..4] == [0x04, 0x22, 0x4D, 0x18]
    {
      hide HeaderFor, InfoFor, Sound, GetBlockSize, Open;
      if d.capacity - |d.written| < MAX_FH_SIZE {
        return false;
      }
      Initialize(p);
      var header := HeaderFor(z.codec, prefs);
      d.Write(header);
      emitted := header;
      HeaderBytes(z.codec, prefs);
      cStage := 1;
      AtStart();
      ok := true;
    }

    method Initialize(p: Preferences)
      requires ValidPreferences(p)
      modifies this
      ensures prefs == p.(blockSizeID := if p.blockSizeID == 0 then 4 else p.blockSizeID)
      ensures maxBlockSize == GetBlockSize(prefs.blockSizeID) && HeaderFor(z.codec, prefs) == HeaderFor(z.codec, p)
      ensures tmpIn == [] && xxh == [] && history == [] && input == [] && blocks == [] && parts == []
      ensures first == calls == old(calls)
      ensures prefs.contentSize > 0 ==> totalInSize == 0
    {
      hide HeaderFor, GetBlockSize;
      prefs := p;
      if prefs.blockSizeID == 0 {
        DefaultSize(z.codec, p);
        prefs := prefs.(blockSizeID := 4);
      }
      maxBlockSize := GetBlockSize(prefs.blockSizeID);
      tmpIn, xxh, history := [], [], [];
      input, blocks, first, parts := [], [], calls, [];
      if prefs.contentSize > 0 {
        totalInSize := 0;
      }
    }

    lemma AtStart()
      requires Sound(z, prefs.linked) && ValidPreferences(prefs) && maxBlockSize == GetBlockSize(prefs.blockSizeID)
        && cStage == 1
      requires tmpIn == [] && xxh == [] && history == [] && input == [] && blocks == []
        && emitted == HeaderFor(z.codec, prefs) && parts == [] && first == calls
      requires prefs.contentSize > 0 ==> totalInSize == 0
      ensures Open()
    {
      hide HeaderFor, InfoFor, Sound;
      assert emitted + [] == emitted && history + tmpIn == [];
    }

    /** A block of the frame. */
    method AddBlock(src: seq<Byte>, d: DstBuffer)
      requires Emitting() && d.Valid() && 0 < |src| <= maxBlockSize && |d.written| + Around(prefs) + |src| <= d.capacity
      modifies d, this`history, this`calls, this`blocks, this`emitted, this`parts
      ensures Emitting() && d.Valid() && history == old(history) + src
      ensures old(d.written) <= d.written && emitted == old(emitted) + d.written[|old(d.written)|..]
      ensures |d.written| <= old(|d.written|) + Around(prefs) + |src|
      ensures parts == old(parts) + [src]
    {
      hide Content, BlocksBytes, BlockContent, BlockShaped, BlockBytes, Sound, HeaderFor, InfoFor, BlocksFor, BlockFor,
        Flat;
      MorePieces(z, first, prefs, parts, src);
      var b := MakeBlock(z, calls, prefs, history, src, d);
      calls := calls + 1;
      assert [] + history == history;
      OneMoreBlock(z.codec, InfoFor(prefs), [], blocks, b, src);
      assert HeaderFor(z.codec, prefs) + (BlocksBytes(blocks) + BlockBytes(b)) == emitted + BlockBytes(b);
      assert d.written[|old(d.written)|..] == BlockBytes(b);
      history, blocks, emitted, parts := history + src, blocks + [b], emitted + BlockBytes(b), parts + [src];
    }

    /** While `rest` of `total` is still to be compressed, there is room for it. */
    ghost predicate Progress(d: DstBuffer, limit: nat, w: seq<Byte>, e: seq<Byte>, total: seq<Byte>, rest: seq<Byte>)
      reads this`prefs, this`maxBlockSize, this`history, this`blocks, this`emitted, this`calls, this`first, this`parts,
        d
    {
      && Emitting() && d.Valid() && w <= d.written && emitted == e + d.written[|w|..] && history + rest == total
      && |d.written| + Need(prefs, |rest|) + EndSize(prefs) <= limit <= d.capacity
    }

    method AddNext(block: seq<Byte>, d: DstBuffer, ghost limit: nat, ghost w: seq<Byte>, ghost e: seq<Byte>,
                   ghost total: seq<Byte>, ghost rest: seq<Byte>)
      requires Progress(d, limit, w, e, total, block + rest)
      requires |block| == maxBlockSize || (prefs.autoFlush && rest == [] && 0 < |block| < maxBlockSize)
      modifies d, this`history, this`calls, this`blocks, this`emitted, this`parts
      ensures Progress(d, limit, w, e, total, rest) && parts == old(parts) + [block]
    {
      hide Emitting, Need, Around, EndSize, GetBlockSize;
      BlockSizeOf();
      NeedBlock(prefs, |block + rest|, |block|);
      ghost var was := d.written;
      AddBlock(block, d);
      assert history + rest == total by { assert old(history) + block + rest == old(history) + (block + rest); }
      assert e + was[|w|..] + d.written[|was|..] == e + d.written[|w|..];
    }

    lemma BlockSizeOf()
      requires Emitting()
      ensures maxBlockSize == GetBlockSize(prefs.blockSizeID) && 0 < maxBlockSize && ValidPreferences(prefs)
    {
    }

    /** LZ4F_compressUpdate: everything is compressed or buffered. */
    method Update(src: seq<Byte>, d: DstBuffer) returns (ok: bool)
      requires Valid() && d.Valid() && Countable(|src| + |tmpIn|, prefs)
      modifies this, d
      ensures ok <==>
        old(cStage) == 1 && CompressBound(|src|, old(prefs), old(|tmpIn|)) <= d.capacity - old(|d.written|)
      ensures Valid() && d.Valid() && prefs == old(prefs)
        && (!ok ==> d.written == old(d.written) && input == old(input))
      ensures ok ==>
        && Open() && input == old(input) + src && old(d.written) <= d.written
          && emitted == old(emitted) + d.written[|old(d.written)|..]
        && |d.written| + EndSize(prefs) <= old(|d.written|) + CompressBound(|src|, prefs, old(|tmpIn|))
      ensures ok && prefs.autoFlush && old(tmpIn) == [] ==> tmpIn == []
      ensures first == old(first) && old(parts) <= parts && FullPieces(parts, |old(parts)|, maxBlockSize)
    {
      hide Open, EndSize, CompressBound, Countable;
      if cStage != 1 {
        return false;
      }
      if d.capacity - |d.written| < CompressBound(|src|, prefs, |tmpIn|) {
        return false;
      }
      UpdateOpen(src, d);
      ok := true;
    }

    method UpdateOpen(src: seq<Byte>, d: DstBuffer)
      requires Open() && d.Valid() && Countable(|src| + |tmpIn|, prefs)
      requires CompressBound(|src|, prefs, |tmpIn|) <= d.capacity - |d.written|
      modifies this`tmpIn, this`history, this`calls, this`blocks, this`emitted, this`parts, this`xxh, this`totalInSize,
        this`input, d
      ensures Open() && d.Valid() && input == old(input) + src
      ensures |d.written| + EndSize(prefs) <= old(|d.written|) + CompressBound(|src|, prefs, old(|tmpIn|))
      ensures old(d.written) <= d.written && emitted == old(emitted) + d.written[|old(d.written)|..]
      ensures prefs.autoFlush && old(tmpIn) == [] ==> tmpIn == []
      ensures old(parts) <= parts && FullPieces(parts, |old(parts)|, maxBlockSize)
    {
      hide Progress, Open, EndSize, CompressBound, Countable;
      ghost var limit := |d.written| + CompressBound(|src|, prefs, |tmpIn|);
      ghost var w, e, total := d.written, emitted, input + src;
      ghost var counted := totalInSize;
      StartProgress(src, d, limit);
      CompressParts(src, d, limit, w, e, total);
      if prefs.contentChecksum {
        xxh := xxh + src;
      }
      totalInSize := (totalInSize + |src|) % U64_MODULUS;
      input := input + src;
      EndProgress(d, limit, w, e);
    }

    /** The hash and the size follow the input. */
    ghost predicate Counted()
      reads this`prefs, this`cStage, this`input, this`xxh, this`totalInSize
    {
      && cStage == 1 && (prefs.contentChecksum ==> xxh == input)
      && (prefs.contentSize > 0 ==> totalInSize == |input| % U64_MODULUS)
    }

    lemma StartProgress(src: seq<Byte>, d: DstBuffer, limit: nat)
      requires Open() && d.Valid() && Countable(|src| + |tmpIn|, prefs)
      requires limit == |d.written| + CompressBound(|src|, prefs, |tmpIn|) <= d.capacity
      ensures Progress(d, limit, d.written, emitted, input + src, tmpIn + src) && |tmpIn| < maxBlockSize && Counted()
    {
      hide Emitting, Need, EndSize, CompressBound, Countable, GetBlockSize;
      BlockSizeOf();
      NeedCovered(prefs, |src|, |tmpIn|);
      assert emitted + d.written[|d.written|..] == emitted;
      assert history + (tmpIn + src) == input + src;
    }

    lemma EndProgress(d: DstBuffer, limit: nat, w: seq<Byte>, e: seq<Byte>)
      requires Progress(d, limit, w, e, input, tmpIn) && |tmpIn| < maxBlockSize && Counted()
      ensures Open() && d.Valid() && |d.written| + EndSize(prefs) <= limit
      ensures w <= d.written && emitted == e + d.written[|w|..]
    {
      hide Emitting, Need, EndSize;
    }

    /** Full blocks are compressed; the rest too with autoFlush, and is buffered without. */
    method CompressParts(src: seq<Byte>, d: DstBuffer, ghost limit: nat, ghost w: seq<Byte>, ghost e: seq<Byte>,
        ghost total: seq<Byte>)
      requires Progress(d, limit, w, e, total, tmpIn + src) && |tmpIn| < maxBlockSize
      modifies this`tmpIn, this`history, this`calls, this`blocks, this`emitted, this`parts, d
      ensures Progress(d, limit, w, e, total, tmpIn) && |tmpIn| < maxBlockSize
      ensures prefs.autoFlush && old(tmpIn) == [] ==> tmpIn == []
      ensures old(parts) <= parts && FullPieces(parts, |old(parts)|, maxBlockSize)
    {
      hide Progress;
      var sp := 0;
      if |tmpIn| > 0 {
        var sizeToCopy := maxBlockSize - |tmpIn|;
        if sizeToCopy > |src| {
          tmpIn := tmpIn + src;
          sp := |src|;
          assert tmpIn + src[sp..] == tmpIn;
        } else {
          assert tmpIn + src == tmpIn + src[..sizeToCopy] + src[sizeToCopy..];
          AddNext(tmpIn + src[..sizeToCopy], d, limit, w, e, total, src[sizeToCopy..]);
          sp := sizeToCopy;
          tmpIn := [];
          assert tmpIn + src[sp..] == src[sp..];
        }
      }
      while |src| - sp >= maxBlockSize
        invariant sp <= |src| && |tmpIn| < maxBlockSize && (tmpIn == [] || sp == |src|)
        invariant old(tmpIn) == [] ==> tmpIn == []
        invariant Progress(d, limit, w, e, total, tmpIn + src[sp..])
        invariant old(parts) <= parts && forall i :: |old(parts)| <= i < |parts| ==> |parts[i]| == maxBlockSize
      {
        assert src[sp..] == src[sp..sp + maxBlockSize] + src[sp + maxBlockSize..] && tmpIn + src[sp..] == src[sp..];
        AddNext(src[sp..sp + maxBlockSize], d, limit, w, e, total, src[sp + maxBlockSize..]);
        sp := sp + maxBlockSize;
        assert tmpIn + src[sp..] == src[sp..];
      }
      if prefs.autoFlush && sp < |src| {
        assert tmpIn + src[sp..] == src[sp..] + [];
        AddNext(src[sp..], d, limit, w, e, total, []);
        sp := |src|;
        assert tmpIn + src[sp..] == [];
      }
      if sp < |src| {
        assert tmpIn + src[sp..] == src[sp..];
        tmpIn := src[sp..];
      } else {
        assert tmpIn + src[sp..] == tmpIn;
      }
    }

    /** LZ4F_flush: what is buffered becomes a block. */
    method Flush(d: DstBuffer) returns (ok: bool)
      requires Valid() && d.Valid()
      modifies this`tmpIn, this`history, this`calls, this`blocks, this`emitted, this`parts, d
      ensures parts == if ok && old(tmpIn) != [] then old(parts) + [old(tmpIn)] else old(parts)
      ensures Valid() && d.Valid() && (!ok ==> d.written == old(d.written))
      ensures ok <==>
        old(tmpIn) == [] || (cStage == 1 && old(|tmpIn|) + BH_SIZE + BF_SIZE <= d.capacity - old(|d.written|))
      ensures ok ==>
        && tmpIn == [] && old(d.written) <= d.written
          && |d.written| <= old(|d.written|) + old(|tmpIn|) + BH_SIZE + BF_SIZE
        && emitted == old(emitted) + d.written[|old(d.written)|..] && (old(tmpIn) == [] ==> d.written == old(d.written))
    {
      hide Emitting, GetBlockSize;
      if |tmpIn| == 0 {
        return true;
      }
      if cStage != 1 {
        return false;
      }
      if d.capacity - |d.written| < |tmpIn| + BH_SIZE + BF_SIZE {
        return false;
      }
      AddBlock(tmpIn, d);
      tmpIn := [];
      assert history + tmpIn == history;
      ok := true;
    }

    /** LZ4F_compressEnd: what is buffered becomes a block, and an open frame is complete: it is good, and means all
        the input. */
    method End(d: DstBuffer) returns (ok: bool, ghost f: FrameParts)
      requires Valid() && d.Valid()
      modifies this, d
      ensures d.Valid() && old(d.written) <= d.written
      ensures ok ==> cStage == 0 && emitted == old(emitted) + d.written[|old(d.written)|..]
      ensures ok && old(cStage) == 1 ==>
        && WellShaped(z.codec, f) && FrameBytes(f) == emitted && Meaning(z.codec, f, 0) == Some(old(input))
        && SizeIsRight(old(prefs), old(|input|)) && |d.written| <= old(|d.written|) + EndNeed(old(prefs), old(|tmpIn|))
      ensures (old(cStage) == 1 && SizeIsRight(old(prefs), old(|input|))
               && EndNeed(old(prefs), old(|tmpIn|)) <= d.capacity - old(|d.written|)) ==> ok
      ensures prefs == old(prefs) && first == old(first) && (old(tmpIn) == [] ==> parts == old(parts))
      ensures ok && old(cStage) == 1 ==> Emitted(f)
    {
      hide Open, WellShaped, Meaning, FrameBytes, LE, EndSize, SizeIsRight, Emitted;
      f := FrameParts([], [], []);
      ghost var w := d.written;
      var flushed := Flush(d);
      if !flushed {
        return false, f;
      }
      ok, f := Finish(d, w, old(emitted));
    }

    /** What follows the last block. */
    method Finish(d: DstBuffer, ghost w: seq<Byte>, ghost e: seq<Byte>) returns (ok: bool, ghost f: FrameParts)
      requires Valid() && tmpIn == [] && d.Valid() && w <= d.written && emitted == e + d.written[|w|..]
      modifies this`cStage, this`emitted, d
      ensures d.Valid() && w <= d.written && |d.written| <= old(|d.written|) + EndSize(prefs)
      ensures ok ==> cStage == 0 && emitted == e + d.written[|w|..]
      ensures ok && old(cStage) == 1 ==>
        WellShaped(z.codec, f) && FrameBytes(f) == emitted && Meaning(z.codec, f, 0) == Some(input)
          && SizeIsRight(prefs, |input|)
      ensures (old(cStage) == 1 && SizeIsRight(prefs, |input|) && EndSize(prefs) <= d.capacity - old(|d.written|)) ==>
        ok
      ensures ok && old(cStage) == 1 ==> Emitted(f)
    {
      hide Valid, WellShaped, Meaning, FrameBytes, LE, EndSize, SizeIsRight, Emitted;
      f := FrameParts([], [], []);
      ghost var before := d.written;
      ghost var sum;
      ok, sum := WriteEnd(d);
      if ok {
        ok, f := Close(sum);
        TailGrows(w, before, LE(0, BH_SIZE) + sum);
        assert e + before[|w|..] + (LE(0, BH_SIZE) + sum) == e + (before[|w|..] + (LE(0, BH_SIZE) + sum));
      }
    }

    /** The context can be used again; the announced size must have been right. */
    method Close(ghost sum: seq<Byte>) returns (ok: bool, ghost f: FrameParts)
      requires Valid() && tmpIn == []
      requires sum == if prefs.contentChecksum then LE(z.codec.xxh32(xxh), BF_SIZE) else []
      modifies this`cStage, this`emitted
      ensures ok ==> cStage == 0 && emitted == old(emitted) + (LE(0, BH_SIZE) + sum)
      ensures old(cStage) == 1 ==> (ok <==> SizeIsRight(prefs, |input|))
      ensures ok && old(cStage) == 1 ==>
        WellShaped(z.codec, f) && FrameBytes(f) == emitted && Meaning(z.codec, f, 0) == Some(input)
      ensures ok && old(cStage) == 1 ==> Emitted(f)
    {
      hide Emitting, Emitted, WellShaped, Meaning, FrameBytes, LE, HeaderFor, BlocksFor;
      f := FrameParts([], [], []);
      assert history + [] == history;
      cStage := 0;
      if prefs.contentSize > 0 && prefs.contentSize != totalInSize {
        return false, f;
      }
      if old(cStage) == 1 {
        BlockSizeOf();
        f := FrameParts(HeaderFor(z.codec, prefs), blocks, sum);
        IsFrame(f, sum);
        IsEmitted(f);
      }
      emitted := emitted + (LE(0, BH_SIZE) + sum);
      ok := true;
    }

    /** The parts of the frame: its header, and a block for every piece of its input. */
    ghost predicate Emitted(f: FrameParts)
      reads this`prefs, this`first, this`parts
    {
      ValidPreferences(prefs) && f.header == HeaderFor(z.codec, prefs) && NonEmpty(parts)
      && f.blocks == BlocksFor(z, first, prefs, parts)
    }

    lemma IsEmitted(f: FrameParts)
      requires Emitting() && f.header == HeaderFor(z.codec, prefs) && f.blocks == blocks
      ensures Emitted(f)
    {
    }

    /** The end mark and the checksum of the content. */
    method WriteEnd(d: DstBuffer) returns (ok: bool, ghost sum: seq<Byte>)
      requires d.Valid()
      modifies d
      ensures d.Valid() && old(d.written) <= d.written
      ensures EndSize(prefs) <= d.capacity - old(|d.written|) ==> ok
      ensures |d.written| <= old(|d.written|) + EndSize(prefs)
      ensures ok ==> d.written == old(d.written) + (LE(0, BH_SIZE) + sum)
      ensures ok ==> sum == if prefs.contentChecksum then LE(z.codec.xxh32(xxh), BF_SIZE) else []
    {
      hide LE;
      var room := d.capacity - |d.written|;
      sum := [];
      if room < BH_SIZE {
        return false, sum;
      }
      d.Write(LE(0, BH_SIZE));
      if prefs.contentChecksum {
        if room < BH_SIZE + BF_SIZE {
          return false, sum;
        }
        var hash := z.codec.xxh32(xxh);
        d.Write(LE(hash, BF_SIZE));
        sum := LE(hash, BF_SIZE);
      }
      assert d.written == old(d.written) + (LE(0, BH_SIZE) + sum);
      ok := true;
    }

    lemma IsFrame(f: FrameParts, sum: seq<Byte>)
      requires Emitting() && f == FrameParts(HeaderFor(z.codec, prefs), blocks, sum)
      requires sum == if prefs.contentChecksum then LE(z.codec.xxh32(history), BF_SIZE) else []
      requires SizeIsRight(prefs, |history|)
      ensures WellShaped(z.codec, f) && FrameBytes(f) == emitted + (LE(0, BH_SIZE) + sum)
        && Meaning(z.codec, f, 0) == Some(history)
    {
      hide HeaderFor, DecodeHeader, Content, LE, ReadLE, BlockShaped, BlocksBytes;
      HeaderReads(z.codec, prefs);
      if prefs.contentChecksum {
        ReadsHash(z.codec.xxh32(history));
      }
    }

    /** LZ4F_compressFrame: with the room that the bound asks for it never fails, never writes more, and the frame means
        the source. */
    method CompressFrame(src: seq<Byte>, preferences: Preferences, d: DstBuffer) returns (ok: bool, ghost f: FrameParts)
      requires Sound(z, IsLinked(preferences, |src|)) && ValidPreferences(preferences) && d.Valid() && d.written == []
      requires |src| < U64_MODULUS && Countable(|src|, preferences)
      modifies this, d
      ensures ok <==> CompressFrameBound(|src|, preferences) <= d.capacity
      ensures ok ==> |d.written| <= CompressFrameBound(|src|, preferences)
      ensures ok ==>
        d.Valid() && d.written == FrameBytes(f) && WellShaped(z.codec, f) && Meaning(z.codec, f, 0) == Some(src)
      ensures ok ==> ForFrame(preferences, |src|, prefs) && ValidPreferences(prefs)
      ensures ok ==> f.header == HeaderFor(z.codec, prefs) <= d.written
      ensures ok ==> NonEmpty(parts) && f.blocks == BlocksFor(z, old(calls), prefs, parts)
      ensures ok ==> Flat(parts) == src && FullPieces(parts, 0, GetBlockSize(prefs.blockSizeID))
      ensures ok ==> d.written[..4] == [0x04, 0x22, 0x4D, 0x18]
      ensures var flags := if |src| <= 65536 then 0x60 else 0x40;
        ok && preferences == Preferences(0, true, false, 0, 0, false, false) ==>
          d.written[..7] == [0x04, 0x22, 0x4D, 0x18, flags, 0x40, z.codec.xxh32([flags, 0x40]) / 256 % 256]
    {
      hide GetBlockSize, CompressFrameBound, CompressBound, Open, WellShaped, Meaning, FrameBytes, HeaderFor, EndSize,
        Countable, BlocksFor, Flat, ForFrame;
      f := FrameParts([], [], []);
      var prefs := FramePreferences(preferences, |src|);
      SameBound(prefs, prefs, |src|);
      if d.capacity < CompressFrameBound(|src|, prefs) {
        return false, f;
      }
      ok := Begin(prefs, d);
      DefaultBlockSize(prefs);
      SameBound(prefs, this.prefs, |src|);
      assert input + src == src;
      ok := Update(src, d);
      assert d.written == emitted;
      OpenIsValid();
      OpenIsFlat();
      ok, f := End(d);
      assert d.written == emitted;
      HeaderComesFirst(f);
      HeaderBytes(z.codec, this.prefs);
      if preferences == Preferences(0, true, false, 0, 0, false, false) {
        DefaultFrame(preferences, |src|, this.prefs);
        DefaultHeader(z.codec, this.prefs);
      }
    }

    lemma OpenIsFlat()
      requires Open() && tmpIn == []
      ensures input == Flat(parts) && maxBlockSize == GetBlockSize(prefs.blockSizeID) && first + |parts| == calls
    {
      assert history + tmpIn == history;
    }

    static lemma HeaderComesFirst(f: FrameParts)
      ensures f.header <= FrameBytes(f)
    {
    }

    lemma OpenIsValid()
      requires Open()
      ensures Valid() && cStage == 1
    {
    }

    /** The preferences of a frame whose source is all there. */
    method FramePreferences(preferences: Preferences, srcSize: nat) returns (p: Preferences)
      requires ValidPreferences(preferences) && srcSize < U64_MODULUS && Countable(srcSize, preferences)
      ensures ValidPreferences(p) && p.autoFlush && SizeIsRight(p, srcSize) && Countable(srcSize, p)
      ensures p.linked == IsLinked(preferences, srcSize)
      ensures ForFrame(preferences, srcSize, p.(blockSizeID := if p.blockSizeID == 0 then 4 else p.blockSizeID))
      ensures CompressFrameBound(srcSize, p) == CompressFrameBound(srcSize, preferences)
    {
      hide CompressFrameBound, Countable;
      var blockSizeID := OptimalBSID(preferences.blockSizeID, srcSize);
      var linked := preferences.linked && srcSize > GetBlockSize(blockSizeID);
      p := preferences.(contentSize := if preferences.contentSize > 0 then srcSize else 0, blockSizeID := blockSizeID,
                        autoFlush := true, linked := linked);
      OptimalBound(preferences, blockSizeID, srcSize);
      SameBound(preferences.(blockSizeID := blockSizeID), p, srcSize);
      SameBound(p, p, srcSize);
      StillCountable(preferences, blockSizeID, srcSize);
    }
  }

  lemma TailGrows(w: seq<Byte>, before: seq<Byte>, more: seq<Byte>)
    requires w <= before
    ensures w <= before + more && (before + more)[|w|..] == before[|w|..] + more
  {
  }

  /** The blocks of a frame that is compressed in one step are linked if that is asked for and there are several. */
  predicate IsLinked(p: Preferences, size: nat) {
    p.linked && size > GetBlockSize(p.blockSizeID)
  }

  /** What a frame that is compressed in one step takes over from the preferences, and the smallest block size that is
      large enough, if that is smaller. */
  predicate ForFrame(preferences: Preferences, size: nat, p: Preferences) {
    && p.autoFlush && p.linked == IsLinked(preferences, size)
    && p.contentChecksum == preferences.contentChecksum && p.blockChecksum == preferences.blockChecksum
    && p.dictID == preferences.dictID && p.contentSize == (if preferences.contentSize > 0 then size else 0)
    && 4 <= p.blockSizeID <= 7 && (preferences.blockSizeID == 0 ==> p.blockSizeID == 4)
    && (preferences.blockSizeID != 0 && p.blockSizeID != preferences.blockSizeID ==>
          p.blockSizeID < preferences.blockSizeID && size <= BlockSize(p.blockSizeID))
    && (forall id :: 4 <= id < p.blockSizeID ==> BlockSize(id) < size)
  }

  lemma DefaultFrame(preferences: Preferences, size: nat, p: Preferences)
    requires ForFrame(preferences, size, p) && preferences == Preferences(0, true, false, 0, 0, false, false)
    ensures p == Preferences(4, size > 65536, false, 0, 0, false, true)
  {
  }

  /** The announced size, if there is one. */
  predicate SizeIsRight(p: Preferences, size: nat) {
    p.contentSize == 0 || p.contentSize == size % U64_MODULUS
  }

  /** Room to end a frame. */
  function EndNeed(p: Preferences, buffered: nat): nat {
    (if buffered == 0 then 0 else buffered + BH_SIZE + BF_SIZE) + EndSize(p)
  }
}
