/** Whole LZ4 frames: a header, blocks, an end mark and a checksum. What the byte-at-a-time machine makes of their bytes
    is what their parts say. */
module Lz4Frames {
  import opened Basics
  import opened Bytes
  import opened Lz4FrameFormat

  /** A block, with its checksum if the frame has block checksums. */
  datatype Block = Block(raw: bool, data: seq<Byte>, sum: seq<Byte>)

  datatype FrameParts = FrameParts(header: seq<Byte>, blocks: seq<Block>, sum: seq<Byte>)

  function InfoOf(k: Codec, header: seq<Byte>): FrameInfo
    requires IsHeader(k, header)
  {
    DecodeHeader(k, header).info
  }

  predicate IsHeader(k: Codec, header: seq<Byte>) {
    MIN_FH_SIZE <= |header| && var h := DecodeHeader(k, header); h.Frame? && h.size == |header|
  }

  /** The fields have the sizes that the frame format gives them. */
  ghost predicate WellShaped(k: Codec, f: FrameParts) {
    && IsHeader(k, f.header)
    && (forall b :: b in f.blocks ==> BlockShaped(InfoOf(k, f.header), b))
    && |f.sum| == if InfoOf(k, f.header).contentChecksum then BF_SIZE else 0
  }

  predicate BlockShaped(info: FrameInfo, b: Block) {
    |b.data| < BLOCK_UNCOMPRESSED_FLAG && (!b.raw ==> b.data != []) && |b.sum| == if info.blockChecksum then BF_SIZE
      else 0
  }

  function BlockBytes(b: Block): seq<Byte>
  {
    LE(|b.data| + if b.raw then BLOCK_UNCOMPRESSED_FLAG else 0, BH_SIZE) + (b.data + b.sum)
  }

  function BlocksBytes(blocks: seq<Block>): seq<Byte>
  {
    if blocks == [] then [] else BlockBytes(blocks[0]) + BlocksBytes(blocks[1..])
  }

  function FrameBytes(f: FrameParts): seq<Byte>
  {
    f.header + (BlocksBytes(f.blocks) + (LE(0, BH_SIZE) + f.sum))
  }

  /** What a block adds to the content, if it is good. */
  function BlockContent(k: Codec, info: FrameInfo, before: seq<Byte>, b: Block): Option<seq<Byte>>
    requires BlockShaped(info, b)
  {
    if |b.data| > info.maxBlockSize then None
    else if info.blockChecksum && ReadLE(b.sum, 0, BF_SIZE) != k.xxh32(b.data) then None
    else if b.raw then Some(b.data)
    else Decode(k, b.data, if info.linked then k.dictionary + before else k.dictionary, info.maxBlockSize)
  }

  function Content(k: Codec, info: FrameInfo, before: seq<Byte>, blocks: seq<Block>): Option<seq<Byte>>
    requires forall b :: b in blocks ==> BlockShaped(info, b)
    decreases |blocks|
  {
    if blocks == [] then Some([])
    else
      match BlockContent(k, info, before, blocks[0])
      case None => None
      case Some(bytes) =>
        match Content(k, info, before + bytes, blocks[1..])
        case None => None
        case Some(more) => Some(bytes + more)
  }

  /** The announced size is the size. If it is not announced, or is 0, nothing is counted, but what an earlier frame
      left must be 0 all the same. */
  predicate SizeAgrees(info: FrameInfo, sized: bool, stale: nat, size: nat) {
    if info.contentSize != 0 then size % U64_MODULUS == info.contentSize else sized || stale == 0
  }

  predicate ChecksumAgrees(k: Codec, info: FrameInfo, sum: seq<Byte>, content: seq<Byte>)
    requires info.contentChecksum ==> |sum| == BF_SIZE
  {
    info.contentChecksum ==> ReadLE(sum, 0, BF_SIZE) == k.xxh32(content)
  }

  /** What a frame decodes to after a context that was left with `stale`. */
  ghost function Meaning(k: Codec, f: FrameParts, stale: nat): Option<seq<Byte>>
    requires WellShaped(k, f)
  {
    var h := DecodeHeader(k, f.header);
    match Content(k, h.info, [], f.blocks)
    case None => None
    case Some(content) =>
      if SizeAgrees(h.info, h.sized, stale, |content|) && ChecksumAgrees(k, h.info, f.sum, content) then Some(content)
        else None
  }

  // ---------------------------------------------------------------------------
  // The machine on the parts
  // ---------------------------------------------------------------------------

  lemma RunOpen(k: Codec, c: Context, header: seq<Byte>)
    requires IsHeader(k, header)
    ensures var h := DecodeHeader(k, header);
            Run(k, Collect(c, FrameHeader, MIN_FH_SIZE, []), header)
            == NextBlock(Context(h.info, c.before, c.content, if h.sized then h.info.contentSize else c.remaining))
  {
    hide DecodeHeader;
    HeaderPrefix(k, header, MIN_FH_SIZE);
    assert |header| == MIN_FH_SIZE ==> header[..MIN_FH_SIZE] == header;
    RunHeaderBytes(k, c, header);
  }

  lemma RunBlockHeader(k: Codec, c: Context, n: nat)
    requires n < Pow256(BH_SIZE)
    ensures Run(k, NextBlock(c), LE(n, BH_SIZE)) == OpenBlock(c, n)
  {
    var bytes := LE(n, BH_SIZE);
    RunCollect(k, c, BlockHeader, BH_SIZE, [], bytes);
    assert [] + bytes == bytes && At(bytes, 0, bytes);
    ReadsBack(bytes, 0, n, BH_SIZE);
  }

  lemma RunRawBlock(k: Codec, c: Context, b: Block)
    requires BlockShaped(c.info, b) && b.raw && c.remaining < U64_MODULUS
    ensures Run(k, RawOf(c, |b.data|, []), b.data + b.sum) ==
            if c.info.blockChecksum && ReadLE(b.sum, 0, BF_SIZE) != k.xxh32(b.data) then Failed
              else NextBlock(Add(c, b.data))
  {
    hide ReadLE;
    RunRaw(k, c, |b.data|, [], b.data);
    assert [] + b.data == b.data;
    RunAppend(k, RawOf(c, |b.data|, []), b.data, b.sum);
    if c.info.blockChecksum {
      RunCollect(k, Add(c, b.data), RawChecksum(b.data), BF_SIZE, [], b.sum);
      assert [] + b.sum == b.sum;
    }
  }

  lemma RunCompressedBlock(k: Codec, c: Context, b: Block)
    requires BlockShaped(c.info, b) && !b.raw && |b.data| <= c.info.maxBlockSize
    ensures Run(k, OpenBlock(c, |b.data|), b.data + b.sum) ==
            match BlockContent(k, c.info, c.content, b) case None => Failed case Some(bytes) => NextBlock(Add(c, bytes))
  {
    hide ReadLE, Decode, DecodeBlock, Run, BlockContent;
    var got := b.data + b.sum;
    RunCollect(k, c, CompressedBlock, |got|, [], got);
    assert [] + got == got;
    DecodedBlock(k, c, b);
  }

  lemma DecodedBlock(k: Codec, c: Context, b: Block)
    requires BlockShaped(c.info, b) && !b.raw && |b.data| <= c.info.maxBlockSize
    ensures DecodeBlock(k, c, b.data + b.sum) ==
            match BlockContent(k, c.info, c.content, b) case None => Failed case Some(bytes) => NextBlock(Add(c, bytes))
  {
    hide ReadLE, Decode;
    var got := b.data + b.sum;
    if c.info.blockChecksum {
      assert At(got, |b.data|, b.sum);
      ReadInside(got, |b.data|, b.sum, 0, BF_SIZE);
      assert got[..|got| - BF_SIZE] == b.data;
    } else {
      assert got == b.data;
    }
  }

  lemma RunBlock(k: Codec, c: Context, b: Block)
    requires BlockShaped(c.info, b) && c.remaining < U64_MODULUS
    ensures Run(k, NextBlock(c), BlockBytes(b)) ==
            match BlockContent(k, c.info, c.content, b) case None => Failed case Some(bytes) => NextBlock(Add(c, bytes))
  {
    hide ReadLE, Decode, LE, Run, Add, RawOf;
    var n := |b.data| + if b.raw then BLOCK_UNCOMPRESSED_FLAG else 0;
    assert Pow256(BH_SIZE) == 2 * BLOCK_UNCOMPRESSED_FLAG by { Pow256Of4(); }
    RunBlockHeader(k, c, n);
    RunAppend(k, NextBlock(c), LE(n, BH_SIZE), b.data + b.sum);
    if |b.data| > c.info.maxBlockSize {
      RunFailed(k, b.data + b.sum);
    } else if b.raw {
      RunRawBlock(k, c, b);
    } else {
      RunCompressedBlock(k, c, b);
    }
  }

  lemma Pow256Of4()
    ensures Pow256(4) == 0x1_0000_0000
  {
    assert Pow256(0) == 1 && Pow256(1) == 256 && Pow256(2) == 0x1_0000 && Pow256(3) == 0x100_0000;
  }

  lemma {:induction false} RunBlocks(k: Codec, c: Context, blocks: seq<Block>)
    requires c.remaining < U64_MODULUS && forall b :: b in blocks ==> BlockShaped(c.info, b)
    ensures Run(k, NextBlock(c), BlocksBytes(blocks)) ==
            match Content(k, c.info, c.content, blocks) case None => Failed case Some(bytes) => NextBlock(Add(c, bytes))
    decreases |blocks|
  {
    hide BlockContent, BlockBytes;
    if blocks == [] {
      AddTwice(c, [], []);
    } else {
      assert BlockShaped(c.info, blocks[0]);
      RunBlock(k, c, blocks[0]);
      RunAppend(k, NextBlock(c), BlockBytes(blocks[0]), BlocksBytes(blocks[1..]));
      match BlockContent(k, c.info, c.content, blocks[0])
      case None => RunFailed(k, BlocksBytes(blocks[1..]));
      case Some(bytes) =>
        RunBlocks(k, Add(c, bytes), blocks[1..]);
        match Content(k, c.info, c.content + bytes, blocks[1..])
        case None =>
        case Some(more) => AddTwice(c, bytes, more);
    }
  }

  lemma RunEnd(k: Codec, c: Context, sum: seq<Byte>)
    requires |sum| == if c.info.contentChecksum then BF_SIZE else 0
    ensures Run(k, NextBlock(c), LE(0, BH_SIZE) + sum) ==
            if c.remaining == 0 && ChecksumAgrees(k, c.info, sum, c.content) then NewFrame(c) else Failed
  {
    hide ReadLE, LE;
    RunBlockHeader(k, c, 0);
    RunAppend(k, NextBlock(c), LE(0, BH_SIZE), sum);
    if c.remaining != 0 {
      RunFailed(k, sum);
    } else if c.info.contentChecksum {
      RunCollect(k, c, ContentChecksum, 4, [], sum);
      assert [] + sum == sum;
    }
  }

  /** A frame in a stream is decoded to what it means, or fails, and leaves the context ready for the next one. */
  lemma FrameDecodes(k: Codec, f: FrameParts, before: seq<Byte>, info: FrameInfo, stale: nat)
    requires WellShaped(k, f) && stale < U64_MODULUS
    ensures Run(k, Collect(Context(info, before, [], stale), FrameHeader, MIN_FH_SIZE, []), FrameBytes(f)) ==
            match Meaning(k, f, stale)
            case None => Failed
            case Some(content) => Collect(Context(InfoOf(k, f.header), before + content, [], 0), FrameHeader,
              MIN_FH_SIZE, [])
  {
    hide DecodeHeader, Run, Content, LE, ReadLE, BlocksBytes, BlockShaped;
    var h := DecodeHeader(k, f.header);
    var start := Collect(Context(info, before, [], stale), FrameHeader, MIN_FH_SIZE, []);
    var c := Context(h.info, before, [], if h.sized then h.info.contentSize else stale);
    var tail := LE(0, BH_SIZE) + f.sum;
    UnsizedIsZero(k, f.header);
    RunOpen(k, Context(info, before, [], stale), f.header);
    RunAppend(k, start, f.header, BlocksBytes(f.blocks) + tail);
    RunAppend(k, NextBlock(c), BlocksBytes(f.blocks), tail);
    RunBlocks(k, c, f.blocks);
    match Content(k, h.info, [], f.blocks)
    case None => RunFailed(k, tail);
    case Some(content) =>
      RunEnd(k, Add(c, content), f.sum);
      assert [] + content == content;
      RemainingIsZero(c, content);
  }

  lemma UnsizedIsZero(k: Codec, header: seq<Byte>)
    requires IsHeader(k, header)
    ensures var h := DecodeHeader(k, header); (!h.sized ==> h.info.contentSize == 0) && h.info.contentSize < U64_MODULUS
  {
  }

  lemma RemainingIsZero(c: Context, content: seq<Byte>)
    requires c.remaining < U64_MODULUS
    ensures Add(c, content).remaining == 0 <==>
            if c.info.contentSize == 0 then c.remaining == 0 else |content| % U64_MODULUS == c.remaining
  {
  }

  /** The size that a frame announced and did not deliver is still there after a reset: it makes the next frame fail
      if, and only if, that one announces no size; a frame that announces its size is not affected. */
  lemma StaleSize(k: Codec, f: FrameParts, stale: nat)
    requires WellShaped(k, f) && Meaning(k, f, 0).Some? && 0 < stale < U64_MODULUS
    ensures Run(k, StartWith(stale), FrameBytes(f)) == Failed <==> !DecodeHeader(k, f.header).sized
    ensures !Run(k, StartWith(0), FrameBytes(f)).Failed?
  {
    hide DecodeHeader, Run, Content, FrameBytes, ReadLE, BlockShaped;
    FrameDecodes(k, f, [], NoInfo(), stale);
    FrameDecodes(k, f, [], NoInfo(), 0);
    UnsizedIsZero(k, f.header);
  }

  /** A context that is reset after the header of a frame with a size has that size left. */
  lemma StaleAfterHeader(k: Codec, header: seq<Byte>, stale: nat)
    requires IsHeader(k, header) && DecodeHeader(k, header).sized
    ensures Run(k, StartWith(stale), header).Collect?
    ensures Run(k, StartWith(stale), header).c.remaining == InfoOf(k, header).contentSize
  {
    RunOpen(k, Context(NoInfo(), [], [], stale), header);
  }

  // ---------------------------------------------------------------------------
  // Skippable frames
  // ---------------------------------------------------------------------------

  /** A skippable frame, with any of its sixteen magic numbers and any payload of the size that it announces, is passed
      over: the decoder waits for the next frame with all that it knew. */
  lemma SkippableDecodes(k: Codec, c: Context, head: seq<Byte>, payload: seq<Byte>)
    requires |head| == 8 && head[0] / 16 == 5 && head[1..4] == [0x2A, 0x4D, 0x18] && c.content == []
    requires |payload|
          == head[4] as nat + 256 * head[5] as nat + 65536 * head[6] as nat + 16777216 * head[7] as nat
    ensures var start := Collect(c, FrameHeader, MIN_FH_SIZE, []); Run(k, start, head + payload) == start
  {
    hide DecodeHeader, Run, ReadLE;
    var start, first := Collect(c, FrameHeader, MIN_FH_SIZE, []), head[..7];
    assert head == first + head[7..] && [] + first == first && c.before + [] == c.before;
    RunAppend(k, start, head, payload);
    RunAppend(k, start, first, head[7..]);
    RunCollect(k, c, FrameHeader, MIN_FH_SIZE, [], first);
    HeaderIs(k, first);
    assert first[1..4] == head[1..4];
    RunCollect(k, c, SkipHeader, 8, first, head[7..]);
    ReadLE4(head, 4);
    RunSkip(k, c, |payload|, payload);
  }

  // ---------------------------------------------------------------------------
  // Streams of frames
  // ---------------------------------------------------------------------------

  function StreamBytes(frames: seq<FrameParts>): seq<Byte>
  {
    if frames == [] then [] else FrameBytes(frames[0]) + StreamBytes(frames[1..])
  }

  /** What good frames decode to, one after the other. */
  ghost function StreamMeaning(k: Codec, frames: seq<FrameParts>): Option<seq<Byte>>
    requires forall f :: f in frames ==> WellShaped(k, f)
  {
    if frames == [] then Some([])
    else
      match Meaning(k, frames[0], 0)
      case None => None
      case Some(content) =>
        match StreamMeaning(k, frames[1..])
        case None => None
        case Some(more) => Some(content + more)
  }

  lemma {:induction false} StreamDecodes(k: Codec, frames: seq<FrameParts>, before: seq<Byte>, info: FrameInfo)
    requires forall f :: f in frames ==> WellShaped(k, f)
    ensures var s := Run(k, Collect(Context(info, before, [], 0), FrameHeader, MIN_FH_SIZE, []), StreamBytes(frames));
            match StreamMeaning(k, frames)
            case None => s == Failed
            case Some(content) => s.Collect? && Output(s) == before + content
    decreases |frames|
  {
    hide DecodeHeader, Run, Content, FrameBytes, Meaning, InfoOf;
    var start := Collect(Context(info, before, [], 0), FrameHeader, MIN_FH_SIZE, []);
    if frames == [] {
      assert Run(k, start, []) == start by { RunNothing(k, start); }
      assert before + [] == before;
    } else {
      var f := frames[0];
      FrameDecodes(k, f, before, info, 0);
      RunAppend(k, start, FrameBytes(f), StreamBytes(frames[1..]));
      match Meaning(k, f, 0)
      case None => RunFailed(k, StreamBytes(frames[1..]));
      case Some(content) =>
        StreamDecodes(k, frames[1..], before + content, InfoOf(k, f.header));
        match StreamMeaning(k, frames[1..])
        case None =>
        case Some(more) => assert before + content + more == before + (content + more);
    }
  }

  lemma RunNothing(k: Codec, s: State)
    ensures Run(k, s, []) == s
  {
  }
}
