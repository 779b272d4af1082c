/** The LZ4 block codec inside LZ4 frames: independent blocks without a dictionary. What LZ4_decompress_safe and the
    block compressors promise is all that a frame needs of them. */
module Lz4FrameBlocks {
  import opened Basics
  import opened Lz4Format
  import opened Lz4Encoder
  import opened Lz4HcMatch
  import Decoder = Lz4Decoder
  import Hc = Lz4HcOptimal
  import Format = Lz4FrameFormat
  import opened Lz4FrameWriter
  import Frames = Lz4Frames
  import Buffers = Lz4FrameDecoder
  import Streaming = Lz4FrameStreaming

  /** What a block compressor promises: nothing, or a block that stands for the input and fits. */
  ghost predicate BlockEncoded(block: seq<Byte>, capacity: nat, out: seq<Byte>) {
    |out| <= capacity && (out != [] ==> Compressed(block, out, |block|))
  }

  /** What LZ4_compress_fast makes of equal bytes where there is room for it. */
  ghost predicate Shrunk(block: seq<Byte>, capacity: nat, out: seq<Byte>) {
    13 <= |block| <= 0x7E00_0000 && AllEqual(block) && 10 + (|block| + 230) / 255 <= capacity ==>
      |out| == 10 + (|block| + 230) / 255
  }

  /** What the block decoder promises: the content, and that it does not refuse a strict block that fits. */
  ghost predicate BlockDecoded(data: seq<Byte>, room: nat, r: Option<seq<Byte>>) {
    && (r.Some? ==> |r.value| <= room && Decode(data, 0, []) == r)
    && (forall total: nat :: total <= room && Strict(data, 0, 0, total) ==> r.Some? && |r.value| == total)
  }

  /** Any decoder and any compressor that keep these promises fit together. */
  lemma EncodedDecodes(block: seq<Byte>, capacity: nat, out: seq<Byte>, room: nat, r: Option<seq<Byte>>)
    requires BlockEncoded(block, capacity, out) && out != [] && BlockDecoded(out, room, r) && |block| <= room
    ensures r == Some(block)
  {
    hide Decode, Strict;
    assert block[..|block|] == block;
  }

  /** LZ4F_compressBlock without a dictionary, from a context that may have been used before. */
  method CompressBlock(ctx: Stream, src: array<Byte>, dst: array<Byte>, level: int) returns (out: seq<Byte>)
    requires src != dst && ctx.Ready()
    modifies dst, ctx, ctx.hashTable
    ensures ctx.Ready() && BlockEncoded(old(src[..]), dst.Length, out) && Shrunk(old(src[..]), dst.Length, out)
  {
    hide Decode, Strict, IsBlock;
    var acceleration := if level < 0 then -level + 1 else 1;
    ghost var s := src[..];
    var r := CompressFastReset(ctx, src, dst, acceleration);
    out := dst[..r];
    assert src[..] == s;
  }

  /** LZ4F_compressBlockHC without a dictionary, at an optimal level. */
  method CompressBlockHc(ctx: HcContext, src: array<Byte>, dst: array<Byte>, level: nat, favorDecSpeed: bool)
    returns (out: seq<Byte>)
    requires src != dst && Hc.LZ4HC_CLEVEL_OPT_MIN <= level && ctx.Ready()
    modifies dst, ctx, ctx.hashTable, ctx.chainTable
    ensures ctx.Ready() && BlockEncoded(old(src[..]), dst.Length, out)
  {
    hide Decode, Strict;
    ghost var s := src[..];
    var r;
    ghost var qs;
    r, qs := Hc.CompressHcFastReset(ctx, src, dst, level, favorDecSpeed);
    out := dst[..r];
    assert src[..] == s;
  }

  /** LZ4_decompress_safe_usingDict without a dictionary. */
  method DecompressBlock(src: array<Byte>, dst: array<Byte>) returns (r: Option<seq<Byte>>)
    requires src != dst && src.Length < 0x8000_0000
    modifies dst
    ensures BlockDecoded(old(src[..]), dst.Length, r)
  {
    hide Decode, Strict;
    ghost var s := src[..];
    var n := Decoder.DecompressSafe(src, dst);
    assert src[..] == s;
    return if n < 0 then None else Some(dst[..n]);
  }

  /** The codec of a frame answers every call as those methods do, whatever the tables of its contexts hold. */
  ghost predicate IsLz4(z: Compressor) {
    && z.codec.dictionary == []
    && (forall n: nat, block: seq<Byte>, capacity: nat :: |block| <= MAX_BLOCK_SIZE ==>
          BlockEncoded(block, capacity, z.encode(n, [], block, capacity)))
    && (forall data: seq<Byte>, room: nat :: |data| < 0x8000_0000 ==>
      BlockDecoded(data, room, z.codec.decode(data, [], room)))
    && (forall s :: z.codec.xxh32(s) < Lz4FrameWriter.U32_MODULUS)
  }

  /** The same with LZ4_compress_fast as the block compressor. */
  ghost predicate IsFastLz4(z: Compressor) {
    && IsLz4(z)
    && forall n: nat, block: seq<Byte>, capacity: nat :: Shrunk(block, capacity, z.encode(n, [], block, capacity))
  }

  /** LZ4F_compressFrame without preferences on equal bytes in one block: 15 bytes around the block, and hardly more. */
  method CompressEqualBytes(c: Cctx, src: seq<Byte>, d: Buffers.DstBuffer) returns (ok: bool)
    requires IsFastLz4(c.z) && 13 <= |src| <= 65536 && AllEqual(src) && d.Valid() && d.written == []
    modifies c, d
    ensures ok <==> CompressFrameBound(|src|, DefaultPreferences()) <= d.capacity
    ensures ok ==> |d.written| == 25 + (|src| + 230) / 255
  {
    hide IsFastLz4, IsLz4, Sound, AllEqual, BlocksFor, Flat, FullPieces, NonEmpty, HeaderFor, Frames.Meaning,
      Frames.WellShaped, Frames.FrameBytes, CompressFrameBound, ForFrame;
    IsFast(c.z);
    Lz4IsSound(c.z);
    OneDefaultBlock(|src|);
    ghost var f, first := Frames.FrameParts([], [], []), c.calls;
    ok, f := c.CompressFrame(src, DefaultPreferences(), d);
    if ok {
      NoSum(c.z, c.prefs, f, |src|);
      DefaultFrame(DefaultPreferences(), |src|, c.prefs);
      EqualFrame(c.z, first, c.prefs, c.parts, f, src);
    }
  }

  lemma NoDictionary(z: Compressor)
    requires IsLz4(z)
    ensures z.codec.dictionary == []
  {
  }

  lemma IsFast(z: Compressor)
    requires IsFastLz4(z)
    ensures IsLz4(z)
  {
  }

  lemma OneDefaultBlock(size: nat)
    requires size <= 65536
    ensures !IsLinked(DefaultPreferences(), size) && Countable(size, DefaultPreferences())
  {
  }

  lemma NoSum(k: Compressor, p: Preferences, f: Frames.FrameParts, size: nat)
    requires ValidPreferences(p) && f.header == HeaderFor(k.codec, p) && Frames.WellShaped(k.codec, f)
    requires ForFrame(DefaultPreferences(), size, p)
    ensures f.sum == []
  {
    hide HeaderFor, Format.DecodeHeader;
    HeaderReads(k.codec, p);
  }

  function DefaultPreferences(): Preferences { Preferences(0, true, false, 0, 0, false, false) }

  /** That is all that frames of independent blocks need. */
  lemma Lz4IsSound(z: Compressor)
    requires IsLz4(z)
    ensures Sound(z, false)
  {
    hide Decode, Strict;
    forall n: nat, before: seq<Byte>, block: seq<Byte>, capacity: nat | |block| <= MAX_BLOCK_SIZE && capacity < |block|
      ensures SoundCall(z, n, HistoryOf(z.codec, false, before), block, capacity)
    {
      var c := z.encode(n, [], block, capacity);
      assert BlockEncoded(block, capacity, c);
      assert Format.Last64([]) == [];
      if c != [] {
        forall room: nat | |block| <= room
          ensures z.codec.decode(c, [], room) == Some(block)
        {
          EncodedDecodes(block, capacity, c, room, z.codec.decode(c, [], room));
        }
      }
    }
  }

  /** LZ4F_compressFrame then LZ4F_decompress with the LZ4 block codec: a source in one block, or blocks that are not
      linked, comes back however the frame is cut. */
  method FrameRoundTrip(z: Compressor, src: seq<Byte>, p: Preferences, capacity: nat, cuts: seq<Streaming.Cut>)
    returns (compressed: bool, ok: bool, output: seq<Byte>, rest: seq<Byte>, waits: bool)
    requires IsLz4(z) && !IsLinked(p, |src|)
    requires ValidPreferences(p) && |src| < Format.U64_MODULUS && Countable(|src|, p)
    ensures compressed <==> CompressFrameBound(|src|, p) <= capacity
    ensures compressed ==> ok && output <= src && (rest == [] && !waits ==> output == src)
  {
    Lz4IsSound(z);
    hide *;
    compressed, ok, output, rest, waits := Streaming.RoundTrip(z, src, p, capacity, cuts);
  }

  lemma EqualFrame(z: Compressor, first: nat, p: Preferences, parts: seq<seq<Byte>>, f: Frames.FrameParts,
      src: seq<Byte>)
    requires IsFastLz4(z) && 13 <= |src| <= 65536 && AllEqual(src) && ForFrame(DefaultPreferences(), |src|, p)
    requires NonEmpty(parts) && Flat(parts) == src && FullPieces(parts, 0, 65536)
    requires ValidPreferences(p) && f.header == HeaderFor(z.codec, p) && f.blocks == BlocksFor(z, first, p, parts)
    requires f.sum == []
    ensures |Frames.FrameBytes(f)| == 25 + (|src| + 230) / 255
  {
    hide AllEqual, IsLz4, HeaderFor;
    DefaultFrame(DefaultPreferences(), |src|, p);
    DefaultHeader(z.codec, p);
    OnePiece(parts, src);
    assert parts[..0] == [] && Flat(parts[..0]) == [];
    NoDictionary(z);
    var b := BlockFor(z, first, p, [], src);
    assert f.blocks == [] + [b] && f.blocks[1..] == [];
    assert Shrunk(src, |src| - 1, z.encode(first, [], src, |src| - 1));
    assert |src| <= 65536 && |b.data| == 10 + (|src| + 230) / 255 && b.sum == [];
    assert |Frames.BlockBytes(b)| == 4 + |b.data|;
    assert Frames.BlocksBytes(f.blocks) == Frames.BlockBytes(b) + Frames.BlocksBytes([]);
  }

  lemma LastTwo(parts: seq<seq<Byte>>)
    requires 2 <= |parts|
    ensures |Flat(parts)| >= |parts[|parts| - 2]| + |parts[|parts| - 1]|
  {
    var m := |parts| - 1;
    assert Flat(parts) == Flat(parts[..m]) + parts[m];
    assert Flat(parts[..m]) == Flat(parts[..m][..m - 1]) + parts[..m][m - 1];
  }

  /** Up to one block, there is one piece. */
  lemma OnePiece(parts: seq<seq<Byte>>, src: seq<Byte>)
    requires NonEmpty(parts) && Flat(parts) == src && FullPieces(parts, 0, 65536) && 0 < |src| <= 65536
    ensures parts == [src]
  {
    if 2 <= |parts| {
      LastTwo(parts);
    }
    assert parts != [] && |parts| == 1;
    assert parts[..0] == [] && Flat(parts) == Flat(parts[..0]) + parts[0] == [] + parts[0];
    assert parts[0] == src;
  }
}
