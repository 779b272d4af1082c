/** Streaming decompression as a whole: how the input is cut and how much room each call gets make no difference. */
module Lz4FrameStreaming {
  import opened Basics
  import opened Bytes
  import opened Lz4FrameFormat
  import opened Lz4FrameDecoder
  import opened Lz4Frames
  import opened Lz4FrameWriter

  /** Two contexts that have taken the same bytes, in whatever pieces and into whatever buffers, have put out the same,
      but for what still waits to be flushed. */
  lemma SplitIndependent(a: Dctx, b: Dctx)
    requires a.Consistent() && b.Consistent() && a.k == b.k && a.stale == b.stale && a.taken == b.taken
    ensures a.delivered + a.Pending() == b.delivered + b.Pending()
    ensures !a.dStage.FlushOut? ==> b.delivered <= a.delivered
    ensures !a.dStage.FlushOut? && !b.dStage.FlushOut? ==> a.delivered == b.delivered
  {
    hide Run, Output;
    a.DeliveredIsOutput();
    b.DeliveredIsOutput();
  }

  /** A whole frame has been taken: it was good, and its content has been delivered. */
  lemma FrameDelivered(x: Dctx, f: FrameParts)
    requires x.Consistent() && x.stale < U64_MODULUS && WellShaped(x.k, f) && x.taken == FrameBytes(f)
    ensures Meaning(x.k, f, x.stale) == Some(x.delivered)
  {
    hide Run, FrameBytes, Meaning, WellShaped, InfoOf;
    FrameDecodes(x.k, f, [], NoInfo(), x.stale);
    x.DeliveredIsOutput();
    x.OutputOfAlpha();
    match Meaning(x.k, f, x.stale)
    case None =>
    case Some(content) => assert [] + content + [] == content;
  }

  /** The same for a stream of frames. */
  lemma StreamDelivered(x: Dctx, frames: seq<FrameParts>)
    requires x.Consistent() && x.stale == 0 && x.taken == StreamBytes(frames) && !x.dStage.FlushOut?
    requires forall f :: f in frames ==> WellShaped(x.k, f)
    ensures StreamMeaning(x.k, frames) == Some(x.delivered)
  {
    hide Run, StreamBytes, WellShaped, StreamMeaning;
    StreamDecodes(x.k, frames, [], NoInfo());
    x.DeliveredIsOutput();
    match StreamMeaning(x.k, frames)
    case None =>
    case Some(content) => assert [] + content == content;
  }

  /** What has been put out is never taken back. */
  lemma StepGrows(k: Codec, s: State, b: Byte)
    ensures Step(k, s, b).Failed? || (!s.Failed? && Output(s) <= Output(Step(k, s, b)))
  {
    hide DecodeHeader, ReadLE, Decode;
    if !s.Failed? {
      assert s.c.before + s.c.content + [] == s.c.before + s.c.content;
    }
  }

  lemma {:induction false} RunGrows(k: Codec, s: State, bytes: seq<Byte>)
    ensures Run(k, s, bytes).Failed? || (!s.Failed? && Output(s) <= Output(Run(k, s, bytes)))
    decreases |bytes|
  {
    hide Step, Output;
    if bytes != [] {
      StepGrows(k, s, bytes[0]);
      RunGrows(k, Step(k, s, bytes[0]), bytes[1..]);
      if !Run(k, s, bytes).Failed? {
        PrefixOfPrefix(Output(s), Output(Step(k, s, bytes[0])), Output(Run(k, s, bytes)));
      }
    }
  }

  lemma PrefixOfPrefix(a: seq<Byte>, b: seq<Byte>, c: seq<Byte>)
    requires a <= b <= c
    ensures a <= c
  {
  }

  /** One call: how many bytes of input it gets, and how much room. */
  datatype Cut = Cut(input: nat, room: nat)

  /** A caller that presents again what a call has not consumed. */
  method DecodeInPieces(x: Dctx, stream: seq<Byte>, cuts: seq<Cut>)
    returns (ok: bool, output: seq<Byte>, rest: seq<Byte>)
    requires x.Consistent() && x.taken == [] && x.delivered == []
    modifies x
    ensures x.stale == old(x.stale)
    ensures ok ==> x.Consistent() && stream == x.taken + rest && output == x.delivered
    ensures !ok ==> Run(x.k, StartWith(x.stale), stream) == Failed && x.Recoverable()
  {
    hide *;
    ok, output, rest := true, [], stream;
    for i := 0 to |cuts|
      invariant ok && x.Consistent() && x.stale == old(x.stale) && stream == x.taken + rest && output == x.delivered
    {
      var d := new DstBuffer(cuts[i].room, false);
      var n := if cuts[i].input < |rest| then cuts[i].input else |rest|;
      ghost var before := x.taken;
      var r, consumed := x.Decompress(rest[..n], d);
      if r.Error? {
        assert stream == before + rest[..n] + rest[n..];
        RunAppend(x.k, StartWith(x.stale), before + rest[..n], rest[n..]);
        RunFailed(x.k, rest[n..]);
        return false, output, rest;
      }
      output := output + d.written;
      assert rest == rest[..n][..consumed] + rest[consumed..];
      rest := rest[consumed..];
    }
  }

  /** A stream of good frames, in any pieces: there is no error, what is put out is the beginning of what the frames
      mean, and it is all of it when all has been taken and nothing waits. */
  method DecodeFrames(k: Codec, ghost frames: seq<FrameParts>, stream: seq<Byte>, cuts: seq<Cut>)
    returns (ok: bool, output: seq<Byte>, rest: seq<Byte>, waits: bool)
    requires forall f :: f in frames ==> WellShaped(k, f)
    requires stream == StreamBytes(frames)
    ensures StreamMeaning(k, frames).Some? ==> ok && output <= StreamMeaning(k, frames).value
    ensures StreamMeaning(k, frames).Some? && rest == [] && !waits ==> output == StreamMeaning(k, frames).value
    ensures StreamMeaning(k, frames).None? && rest == [] ==> !ok
  {
    hide StreamBytes, WellShaped, StreamMeaning, Run, Output;
    var x := new Dctx(k);
    ok, output, rest := DecodeInPieces(x, stream, cuts);
    StreamDecodes(k, frames, [], NoInfo());
    waits := x.dStage.FlushOut?;
    if ok {
      x.DeliveredIsOutput();
      RunAppend(k, StartWith(0), x.taken, rest);
      RunGrows(k, Run(k, StartWith(0), x.taken), rest);
      if rest == [] {
        assert stream == x.taken;
      }
      match StreamMeaning(k, frames)
      case None =>
      case Some(content) =>
        assert [] + content == content;
        PrefixOfPrefix(output, Output(Run(k, StartWith(0), x.taken)), content);
    }
  }

  lemma OneFrame(k: Codec, f: FrameParts)
    requires WellShaped(k, f)
    ensures StreamBytes([f]) == FrameBytes(f) && StreamMeaning(k, [f]) == Meaning(k, f, 0)
  {
    hide FrameBytes, Meaning, WellShaped;
    assert FrameBytes(f) + [] == FrameBytes(f) && [f][1..] == [];
    match Meaning(k, f, 0)
    case None =>
    case Some(content) => assert content + [] == content;
  }

  /** A source that is compressed in one step, with the room that the bound asks for, and decompressed in any pieces. */
  method RoundTrip(z: Compressor, src: seq<Byte>, p: Preferences, capacity: nat, cuts: seq<Cut>)
    returns (compressed: bool, ok: bool, output: seq<Byte>, rest: seq<Byte>, waits: bool)
    requires Sound(z, IsLinked(p, |src|)) && ValidPreferences(p) && |src| < U64_MODULUS && Countable(|src|, p)
    ensures compressed <==> CompressFrameBound(|src|, p) <= capacity
    ensures compressed ==> ok && output <= src && (rest == [] && !waits ==> output == src)
  {
    hide *;
    var c := new Cctx(z);
    var d := new DstBuffer(capacity, false);
    ghost var f;
    compressed, f := c.CompressFrame(src, p, d);
    ok, output, rest, waits := false, [], [], false;
    if compressed {
      OneFrame(z.codec, f);
      ok, output, rest, waits := DecodeFrames(z.codec, [f], d.written, cuts);
    }
  }
}
