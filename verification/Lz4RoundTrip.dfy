/** The compressor against the decoder: what goes in comes out. */
module Lz4RoundTrip {
  import opened Basics
  import opened Lz4Format
  import opened Lz4Encoder
  import opened Lz4HcMatch
  import Decoder = Lz4Decoder
  import Hc = Lz4HcOptimal

  /** LZ4_decompress_safe on the first `r` bytes of `dst`: the content, or a refusal when `back` is too small. */
  method Decompress(dst: array<Byte>, r: nat, back: array<Byte>, ghost s: seq<Byte>, ghost consumed: nat)
    returns (n: int)
    requires dst != back && r <= dst.Length < 0x8000_0000 && Compressed(s, dst[..r], consumed)
    modifies back
    ensures consumed <= back.Length ==> n == consumed && back[..n] == s[..consumed]
    ensures consumed > back.Length ==> n < 0
  {
    hide Decode, Strict;
    var block := new Byte[r](i requires 0 <= i < r reads dst => dst[i]);
    ghost var b := dst[..r];
    assert block[..] == b;
    n := Decoder.DecompressSafe(block, back);
    assert block[..] == b;
    assert n >= 0 ==> |back[..n]| == |s[..consumed]|;
    assert consumed <= back.Length ==> Strict(b, 0, 0, consumed);
  }

  /** LZ4_compress_fast then LZ4_decompress_safe, for any hash, capacity and acceleration. */
  method RoundTrip(hash: seq<Byte> -> nat, src: array<Byte>, dst: array<Byte>, back: array<Byte>, acceleration: int)
    returns (r: nat, n: int)
    requires src != dst && dst != back && src != back && dst.Length < 0x8000_0000
    modifies dst, back
    ensures r > 0 && src.Length <= back.Length ==> n == src.Length && back[..n] == src[..]
    ensures r > 0 && src.Length > back.Length ==> n < 0
    ensures src.Length <= LZ4_MAX_INPUT_SIZE && CompressBound(src.Length) <= dst.Length ==> r > 0
  {
    hide Decode, Strict;
    ghost var s := src[..];
    n := -1;
    r := CompressFast(hash, src, dst, acceleration);
    if r > 0 {
      n := Decompress(dst, r, back, s, src.Length);
      assert s[..src.Length] == s;
    }
  }

  /** LZ4_compress_destSize then LZ4_decompress_safe: the part of the input that was consumed comes back. */
  method RoundTripDestSize(hash: seq<Byte> -> nat, src: array<Byte>, dst: array<Byte>, back: array<Byte>)
    returns (r: nat, consumed: nat, n: int)
    requires src != dst && dst != back && src != back && 1 <= dst.Length < 0x8000_0000
    requires src.Length <= LZ4_MAX_INPUT_SIZE && src.Length <= back.Length
    modifies dst, back
    ensures 0 < r <= dst.Length && consumed <= src.Length && n == consumed && back[..n] == src[..consumed]
  {
    hide Decode, Strict;
    ghost var s := src[..];
    r, consumed := CompressDestSize(hash, src, dst);
    n := Decompress(dst, r, back, s, consumed);
  }

  /** Two inputs through one context that is not cleared in between. */
  method RoundTripTwice(ctx: Stream, src: array<Byte>, src2: array<Byte>, dst: array<Byte>, back: array<Byte>)
    returns (r: nat, n: int)
    requires ctx.Ready() && src != dst && src2 != dst && dst != back && src2 != back && dst.Length < 0x8000_0000
    requires src2.Length <= back.Length
    modifies dst, back, ctx, ctx.hashTable
    ensures ctx.Ready() && (r > 0 ==> n == src2.Length && back[..n] == src2[..])
  {
    hide Decode, Strict;
    ghost var s := src2[..];
    n := -1;
    r := CompressFastReset(ctx, src, dst, 1);
    r := CompressFastReset(ctx, src2, dst, 1);
    if r > 0 {
      n := Decompress(dst, r, back, s, src2.Length);
      assert s[..src2.Length] == s;
    }
  }

  /** LZ4_compress_HC at an optimal level, then LZ4_decompress_safe. */
  method RoundTripHc(hash: seq<Byte> -> nat, src: array<Byte>, dst: array<Byte>, back: array<Byte>, level: nat)
    returns (r: nat, n: int)
    requires src != dst && dst != back && src != back && dst.Length < 0x8000_0000 && Hc.LZ4HC_CLEVEL_OPT_MIN <= level
    requires src.Length <= back.Length
    modifies dst, back
    ensures r > 0 ==> n == src.Length && back[..n] == src[..]
    ensures src.Length <= LZ4_MAX_INPUT_SIZE && CompressBound(src.Length) <= dst.Length ==> r > 0
  {
    hide Decode, Strict;
    ghost var s := src[..];
    var ctx := new HcContext(hash);
    n := -1;
    ghost var qs;
    r, qs := Hc.CompressHcFastReset(ctx, src, dst, level, false);
    if r > 0 {
      n := Decompress(dst, r, back, s, src.Length);
      assert s[..src.Length] == s;
    }
  }

  /** LZ4_compress_HC_destSize at an optimal level, then LZ4_decompress_safe. */
  method RoundTripHcDestSize(hash: seq<Byte> -> nat, src: array<Byte>, dst: array<Byte>, back: array<Byte>, level: nat)
    returns (r: nat, consumed: nat, n: int)
    requires src != dst && dst != back && src != back && 1 <= dst.Length < 0x8000_0000
      && Hc.LZ4HC_CLEVEL_OPT_MIN <= level
    requires src.Length <= LZ4_MAX_INPUT_SIZE && src.Length <= back.Length
    modifies dst, back
    ensures 0 < r <= dst.Length && consumed <= src.Length && n == consumed && back[..n] == src[..consumed]
  {
    hide Decode, Strict;
    ghost var s := src[..];
    r, consumed := Hc.CompressHcDestSize(hash, src, dst, level);
    n := Decompress(dst, r, back, s, consumed);
  }
}
