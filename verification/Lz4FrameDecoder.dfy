/** LZ4F_decompress of lz4frame.c: the streaming state machine with its buffers, and the proof that it follows the
    byte-at-a-time machine whatever the sizes of the pieces it is given. */
module Lz4FrameDecoder {
  import opened Basics
  import opened Bytes
  import opened Lz4FrameFormat
  import opened Lz4FrameHistory

  const GB := 0x4000_0000

  datatype Stage =
    | GetFrameHeader | StoreFrameHeader | Init | GetBlockHeader | StoreBlockHeader | CopyDirect | GetBlockChecksum
    | GetCBlock | StoreCBlock | FlushOut | GetSuffix | StoreSuffix | GetSFrameSize | StoreSFrameSize | SkipSkippable

  /** Where the history is: nowhere, in the caller's dictionary, at the start of tmpOutBuffer, or in dstBuffer. */
  datatype Pointer = Null | UserDict | Tmp | DstAt(at: nat)

  /** How a stage ends: with another stage, at the end of the call with a hint, or with an error. */
  datatype Outcome = Again | Stop(hint: nat) | Error

  /** The caller's dstBuffer: what this call has written to it. */
  class DstBuffer {
    const capacity: nat
    const isNull: bool
    var written: seq<Byte>

    ghost predicate Valid()
      reads this
    {
      |written| <= capacity && (isNull ==> capacity == 0)
    }

    constructor (capacity: nat, isNull: bool)
      requires isNull ==> capacity == 0
      ensures Valid() && written == [] && this.capacity == capacity && this.isNull == isNull
    {
      this.capacity, this.isNull, written := capacity, isNull, [];
    }

    method Write(bytes: seq<Byte>)
      requires Valid() && |written| + |bytes| <= capacity
      modifies this
      ensures Valid() && written == old(written) + bytes
    {
      written := written + bytes;
    }
  }

  /** The size that tmpOutBuffer must have. */
  function Needed(info: FrameInfo): nat {
    info.maxBlockSize + if info.linked then 128 * KB else 0
  }

  /** A buffer that was allocated for some frame and is large enough to be kept holds the blocks of this one. */
  lemma BuffersSuffice(info: FrameInfo, alloc: nat, size: nat)
    requires IsBlockSize(alloc) && IsBlockSize(info.maxBlockSize) && size <= alloc + 128 * KB && Needed(info) <= size
    ensures info.maxBlockSize <= alloc
  {
  }

  predicate InBody(s: Stage) {
    s.Init? || s.GetBlockHeader? || s.StoreBlockHeader? || s.CopyDirect? || s.GetBlockChecksum? || s.GetCBlock?
    || s.StoreCBlock? || s.FlushOut?
  }

  predicate InFrame(s: Stage) { InBody(s) || s.GetSuffix? || s.StoreSuffix? }

  function Rank(s: Stage): nat {
    match s
    case GetFrameHeader => 9
    case StoreFrameHeader => 8
    case Init => 7
    case GetCBlock => 6
    case StoreCBlock => 5
    case CopyDirect => 6
    case GetBlockChecksum => 5
    case FlushOut => 4
    case GetBlockHeader => 3
    case StoreBlockHeader => 2
    case GetSuffix => 1
    case StoreSuffix => 0
    case GetSFrameSize => 6
    case StoreSFrameSize => 5
    case SkipSkippable => 4
  }

  /** A call goes on until it has used all its input, has filled dst or has finished a frame; the hint is 0 when it has
      finished a frame. */
  predicate Settled(r: Outcome, before: Stage, after: Stage, moved: bool, atEnd: bool, full: bool) {
    && (r.Again? ==> !after.GetFrameHeader?)
    && (r.Stop? ==>
          && !after.Init? && !after.GetSuffix? && (r.hint == 0 || atEnd || full) && (after.FlushOut? ==> full)
          && (r.hint == 0 ==> after.GetFrameHeader?)
          && (r.hint != 0 && after.GetFrameHeader? ==> before.GetFrameHeader? && !moved && atEnd))
  }

  lemma EnoughSpace(size: nat, preserveSize: nat, copySize: nat, total: nat)
    requires copySize == if size > WINDOW then 0 else Min(WINDOW - size, preserveSize)
    requires WINDOW <= preserveSize || total <= preserveSize + size
    ensures size <= WINDOW ==> WINDOW <= copySize + size || (total <= copySize + size && preserveSize == copySize)
  {
  }

  lemma SameParts(a: seq<Byte>, b: seq<Byte>, a': seq<Byte>, b': seq<Byte>)
    requires a + b == a' + b' && |a| == |a'|
    ensures a == a' && b == b'
  {
    assert a == (a + b)[..|a|] && b == (a + b)[|a|..];
    assert a' == (a' + b')[..|a'|] && b' == (a' + b')[|a'|..];
  }

  function Min(a: nat, b: nat): nat { if a < b then a else b }

  class Dctx {
    const k: Codec
    var frameInfo: FrameInfo
    var dStage: Stage
    var frameRemainingSize: nat
    var maxBufferSize: nat
    var tmpIn: seq<Byte>
    var tmpInSize: nat
    var tmpInTarget: nat
    var tmpOutBuffer: seq<Byte>
    var dict: Pointer
    var dictSize: nat
    var tmpOut: nat
    var tmpOutSize: nat
    var tmpOutStart: nat
    var xxh: seq<Byte>
    var blockChecksum: seq<Byte>
    var header: seq<Byte>

    ghost var g: Context          // what has been decoded
    ghost var delivered: seq<Byte> // what all calls have written
    ghost var rawBlock: seq<Byte> // the uncompressed block so far
    ghost var magic: seq<Byte>    // the first bytes of a skippable frame
    ghost var alloc: nat          // the block size that tmpIn was allocated for
    ghost var stale: nat          // frameRemainingSize when the context was made or reset
    ghost var taken: seq<Byte>    // all input since then

    // -------------------------------------------------------------------------
    // The state, and what it stands for
    // -------------------------------------------------------------------------

    /** The state of the byte-at-a-time machine. */
    ghost function Alpha(): State
      reads this`header, this`dStage, this`tmpInSize, this`tmpInTarget, this`tmpIn, this`g, this`blockChecksum,
        this`rawBlock,
        this`tmpOut, this`tmpOutSize, this`tmpOutStart, this`tmpOutBuffer, this`magic
      requires StageOk()
    {
      match dStage
      case GetFrameHeader => Collect(g, FrameHeader, MIN_FH_SIZE, [])
      case StoreFrameHeader => Collect(g, FrameHeader, tmpInTarget, Part(header, 0, tmpInSize))
      case Init => NextBlock(g)
      case GetBlockHeader => NextBlock(g)
      case StoreBlockHeader => Collect(g, BlockHeader, BH_SIZE, Part(tmpIn, 0, tmpInSize))
      case CopyDirect => RawOf(g, tmpInTarget, rawBlock)
      case GetBlockChecksum => Collect(g, RawChecksum(rawBlock), BF_SIZE, Part(header, 0, tmpInSize))
      case GetCBlock => Collect(g, CompressedBlock, tmpInTarget, [])
      case StoreCBlock => Collect(g, CompressedBlock, tmpInTarget, Part(tmpIn, 0, tmpInSize))
      case FlushOut => NextBlock(g)
      case GetSuffix => EndOfBlocks(g)
      case StoreSuffix => Collect(g, ContentChecksum, 4, Part(tmpIn, 0, tmpInSize))
      case GetSFrameSize => Collect(g, FrameHeader, MIN_FH_SIZE, magic)
      case StoreSFrameSize => SkipHeaderState(g, magic + Part(header, 4, tmpInSize - 4))
      case SkipSkippable => SkipOf(g, tmpInTarget)
    }

    /** The counters of the stage. */
    ghost predicate StageOk()
      reads this`header, this`dStage, this`tmpInSize, this`tmpInTarget, this`tmpIn, this`g, this`blockChecksum,
        this`rawBlock,
        this`tmpOut, this`tmpOutSize, this`tmpOutStart, this`tmpOutBuffer, this`magic
    {
      && |header| == MAX_FH_SIZE
      && match dStage
         case StoreFrameHeader =>
           && tmpInSize < tmpInTarget <= MAX_FH_SIZE && MIN_FH_SIZE <= tmpInTarget
           && (MIN_FH_SIZE < tmpInTarget ==> MIN_FH_SIZE <= tmpInSize && !IsSkippable(header[..4]))
         case StoreBlockHeader => tmpInSize < BH_SIZE <= |tmpIn|
         case CopyDirect => g.info.blockChecksum ==> blockChecksum == rawBlock
         case GetBlockChecksum => tmpInSize < BF_SIZE && blockChecksum == rawBlock && g.info.blockChecksum
         case GetCBlock => 0 < tmpInTarget <= |tmpIn| && (g.info.blockChecksum ==> BF_SIZE < tmpInTarget)
         case StoreCBlock => tmpInSize < tmpInTarget <= |tmpIn| && (g.info.blockChecksum ==> BF_SIZE < tmpInTarget)
         case FlushOut => tmpOutStart <= tmpOutSize && tmpOut + tmpOutSize <= |tmpOutBuffer|
         case StoreSuffix => tmpInSize < 4 <= |tmpIn| && g.info.contentChecksum
         case GetSFrameSize => IsSkippable(magic)
         case StoreSFrameSize => 4 <= tmpInSize < tmpInTarget == 8 && IsSkippable(magic)
         case _ => true
    }

    /** Decoded bytes that wait in tmpOutBuffer. */
    ghost function Pending(): seq<Byte>
      reads this`header, this`dStage, this`tmpInSize, this`tmpInTarget, this`tmpIn, this`g, this`blockChecksum,
        this`rawBlock,
        this`tmpOut, this`tmpOutSize, this`tmpOutStart, this`tmpOutBuffer, this`magic
      requires StageOk()
    {
      if dStage.FlushOut? then Part(tmpOutBuffer, tmpOut + tmpOutStart, tmpOutSize - tmpOutStart) else []
    }

    ghost predicate BuffersOk()
      reads this`tmpOutBuffer, this`maxBufferSize, this`alloc, this`tmpIn, this`frameRemainingSize, this`g, this`dStage,
        this`frameInfo, this`xxh
    {
      && |tmpOutBuffer| == maxBufferSize
      && (maxBufferSize == 0 ||
          (IsBlockSize(alloc) && |tmpIn| == alloc + BF_SIZE && alloc <= maxBufferSize <= alloc + 128 * KB))
      && frameRemainingSize == g.remaining < U64_MODULUS
      && (InFrame(dStage) ==> g.info == frameInfo && IsBlockSize(frameInfo.maxBlockSize))
      && (InFrame(dStage) && !dStage.Init? ==>
        frameInfo.maxBlockSize + BF_SIZE <= |tmpIn| && Needed(frameInfo) <= maxBufferSize)
      && (InFrame(dStage) && !dStage.Init? && frameInfo.contentChecksum ==> xxh == g.content)
      && (!InFrame(dStage) || dStage.Init? ==> g.content == [])
    }

    ghost predicate DictOk(w: seq<Byte>)
      reads this`dict, this`dictSize, this`tmpOutBuffer
    {
      match dict
      case Null => dictSize == 0
      case UserDict => dictSize == |k.dictionary| && dictSize != 0
      case Tmp => dictSize <= |tmpOutBuffer|
      case DstAt(at) => at + dictSize == |w|
    }

    /** The history that the dictionary pointer gives. */
    function DictBytes(w: seq<Byte>): (d: seq<Byte>)
      requires DictOk(w)
      reads this`dict, this`dictSize, this`tmpOutBuffer
      ensures |d| == dictSize
    {
      match dict
      case Null => []
      case UserDict => k.dictionary
      case Tmp => Part(tmpOutBuffer, 0, dictSize)
      case DstAt(at) => Part(w, at, dictSize)
    }

    /** The history is good for the next block: with the bytes that wait, its last 64 KB are those of all that came
        before. */
    ghost predicate HistoryOk(w: seq<Byte>)
      requires StageOk()
      reads this`header, this`dStage, this`tmpInSize, this`tmpInTarget, this`tmpIn, this`g, this`blockChecksum,
        this`rawBlock,
        this`tmpOut, this`tmpOutSize, this`tmpOutStart, this`tmpOutBuffer, this`magic
      reads this`frameInfo, this`dict, this`dictSize
    {
      && DictOk(w)
      && if frameInfo.linked then Last64(DictBytes(w) + Pending()) == Last64(k.dictionary + g.content)
         else DictBytes(w) == k.dictionary && (dict.Null? || dict.UserDict?) && (!dStage.Init? ==> tmpOut == 0)
    }

    /** A block that is being flushed: where its history is in front of it. */
    ghost predicate FlushOk()
      requires StageOk()
      reads this`header, this`dStage, this`tmpInSize, this`tmpInTarget, this`tmpIn, this`g, this`blockChecksum,
        this`rawBlock,
        this`tmpOut, this`tmpOutSize, this`tmpOutStart, this`tmpOutBuffer, this`magic
      reads this`frameInfo, this`dict, this`dictSize
    {
      dStage.FlushOut? ==>
        && |g.content| >= tmpOutSize && Suffix(g.content, tmpOutSize) == Part(tmpOutBuffer, tmpOut, tmpOutSize)
        && (frameInfo.linked ==>
              && (if dict.Tmp? then dictSize == tmpOut + tmpOutStart
                else WINDOW <= dictSize || tmpOut + tmpOutStart <= dictSize)
              && (dict.UserDict? || dict.Null? ==> tmpOutStart == 0)
              && (WINDOW <= tmpOut || |k.dictionary| + |g.content| <= tmpOut + tmpOutSize))
    }

    /** What has been delivered, of what has been decoded. */
    ghost predicate OutputOk(w: seq<Byte>)
      requires StageOk()
      reads this`header, this`dStage, this`tmpInSize, this`tmpInTarget, this`tmpIn, this`g, this`blockChecksum,
        this`rawBlock,
        this`tmpOut, this`tmpOutSize, this`tmpOutStart, this`tmpOutBuffer, this`magic
      reads this`delivered
    {
      && g.before + g.content == delivered + Pending()
      && |w| <= |delivered| && Suffix(delivered, |w|) == w
      && (InBody(dStage) ==> |w| + |Pending()| <= |g.content|)
    }

    ghost predicate Valid(w: seq<Byte>)
      reads this`header, this`dStage, this`tmpInSize, this`tmpInTarget, this`tmpIn, this`g, this`blockChecksum,
        this`rawBlock,
        this`tmpOut, this`tmpOutSize, this`tmpOutStart, this`tmpOutBuffer, this`magic
      reads this`tmpOutBuffer, this`maxBufferSize, this`alloc, this`tmpIn, this`frameRemainingSize, this`g, this`dStage,
        this`frameInfo, this`xxh
      reads this`dict, this`dictSize, this`delivered
    {
      && StageOk() && BuffersOk() && OutputOk(w) && FlushOk()
      && (InBody(dStage) ==> HistoryOk(w))
    }

    /** Before the header has been read, the call has written nothing and the history is the caller's dictionary. */
    ghost predicate Ready(w: seq<Byte>)
      reads this`header, this`dStage, this`tmpInSize, this`tmpInTarget, this`tmpIn, this`g, this`blockChecksum,
        this`rawBlock,
        this`tmpOut, this`tmpOutSize, this`tmpOutStart, this`tmpOutBuffer, this`magic
      reads this`tmpOutBuffer, this`maxBufferSize, this`alloc, this`tmpIn, this`frameRemainingSize, this`g, this`dStage,
        this`frameInfo, this`xxh
      reads this`dict, this`dictSize, this`delivered
    {
      && Valid(w)
      && (if InFrame(dStage) then |w| <= |g.content| else w == [])
      && (dStage.GetFrameHeader? || dStage.StoreFrameHeader? || dStage.Init? ==> FreshDict())
    }

    // -------------------------------------------------------------------------
    // LZ4F_updateDict
    // -------------------------------------------------------------------------

    /** How many bytes of history stay in front of a block of tmpOut, and the bytes before them that are only space. */
    method HistoryBeforeBlock() returns (preserveSize: nat, copySize: nat)
      ensures preserveSize == tmpOut && copySize <= preserveSize
      ensures copySize == if tmpOutSize > WINDOW then 0 else Min(WINDOW - tmpOutSize, preserveSize)
    {
      preserveSize := tmpOut;
      copySize := if tmpOutSize > WINDOW then 0 else WINDOW - tmpOutSize;
      if copySize > preserveSize {
        copySize := preserveSize;
      }
    }

    /** memcpy of the end of a history in front of the block in tmpOut, which then continues it. */
    method MoveInFrontOfBlock(past: seq<Byte>, copySize: nat, ghost history: seq<Byte>, ghost done: nat)
      requires copySize <= tmpOut && copySize <= |past| && tmpOut + tmpOutSize <= |tmpOutBuffer| && done <= tmpOutSize
      requires copySize == if tmpOutSize > WINDOW then 0 else Min(WINDOW - tmpOutSize, tmpOut)
      requires tmpOutSize <= WINDOW ==> Last64(past + Part(tmpOutBuffer, tmpOut, tmpOutSize)) == Last64(history)
      requires tmpOutSize <= |history| && Suffix(history, tmpOutSize) == Part(tmpOutBuffer, tmpOut, tmpOutSize)
      requires WINDOW <= tmpOut || |history| <= tmpOut + tmpOutSize
      modifies this`tmpOutBuffer
      ensures |tmpOutBuffer| == old(|tmpOutBuffer|)
      ensures Part(tmpOutBuffer, tmpOut, tmpOutSize) == old(Part(tmpOutBuffer, tmpOut, tmpOutSize))
      ensures Last64(Continued(tmpOutBuffer, tmpOut, tmpOutSize, done)) == Last64(history)
    {
      hide Last64, Suffix, Overlay, Min, Part, Continued;
      EnoughSpace(tmpOutSize, tmpOut, copySize, |history|);
      HistoryMoved(tmpOutBuffer, tmpOut, tmpOutSize, past, copySize, done, history);
      tmpOutBuffer := Overlay(tmpOutBuffer, tmpOut - copySize, Suffix(past, copySize));
    }

    /** Completes a history in tmpOutBuffer with what was written to dst. */
    method CompleteTmp(bytes: seq<Byte>, ghost history: seq<Byte>)
      requires dict.Tmp? && dictSize <= |tmpOutBuffer| == maxBufferSize && 192 * KB <= maxBufferSize && |bytes| < WINDOW
      requires Last64(Part(tmpOutBuffer, 0, dictSize) + bytes) == Last64(history)
      modifies this`tmpOutBuffer, this`dictSize
      ensures dictSize <= |tmpOutBuffer| == maxBufferSize
      ensures Last64(Part(tmpOutBuffer, 0, dictSize)) == Last64(history)
    {
      ghost var past := Part(tmpOutBuffer, 0, dictSize);
      if dictSize + |bytes| > maxBufferSize {
        var preserveSize := WINDOW - |bytes|;
        assert preserveSize <= dictSize - preserveSize;
        tmpOutBuffer := Overlay(tmpOutBuffer, 0, tmpOutBuffer[dictSize - preserveSize..dictSize]);
        dictSize := preserveSize;
        assert Part(tmpOutBuffer, 0, dictSize) == Suffix(past, preserveSize);
        KeepEnough([], past, history, bytes, preserveSize);
        assert [] + Suffix(past, preserveSize) == Suffix(past, preserveSize);
      }
      ghost var front := Part(tmpOutBuffer, 0, dictSize);
      tmpOutBuffer := Overlay(tmpOutBuffer, dictSize, bytes);
      dictSize := dictSize + |bytes|;
      assert Part(tmpOutBuffer, 0, dictSize) == front + bytes;
    }

    /** Joins a history that is elsewhere and what was written to dst. */
    method JoinInTmp(past: seq<Byte>, bytes: seq<Byte>, ghost history: seq<Byte>)
      requires |tmpOutBuffer| == maxBufferSize && 192 * KB <= maxBufferSize && |bytes| < WINDOW && dictSize == |past|
      requires Last64(past + bytes) == Last64(history)
      modifies this`tmpOutBuffer, this`dict, this`dictSize
      ensures dict.Tmp? && dictSize <= |tmpOutBuffer| == maxBufferSize
      ensures Last64(Part(tmpOutBuffer, 0, dictSize)) == Last64(history)
    {
      var preserveSize := Min(WINDOW - |bytes|, dictSize);
      tmpOutBuffer := Overlay(tmpOutBuffer, 0, Suffix(past, preserveSize));
      tmpOutBuffer := Overlay(tmpOutBuffer, preserveSize, bytes);
      dict := Tmp;
      dictSize := preserveSize + |bytes|;
      assert Part(tmpOutBuffer, 0, dictSize) == Suffix(past, preserveSize) + bytes;
      if preserveSize == |past| {
        WholeSuffix(past, preserveSize);
      } else {
        KeepEnough([], past, history, bytes, preserveSize);
        assert [] + Suffix(past, preserveSize) == Suffix(past, preserveSize);
      }
    }

    /** A block that follows the caller's dictionary starts to be flushed: the end of the dictionary goes in front of
        it in tmpOutBuffer. */
    method MoveUserDict(bytes: seq<Byte>, ghost rest: seq<Byte>, ghost history: seq<Byte>)
      requires dict.UserDict? && dictSize == |k.dictionary| && InTmp(bytes, rest, history)
      requires Last64(k.dictionary + bytes + rest) == Last64(history)
      modifies this`tmpOutBuffer, this`dict, this`dictSize
      ensures |tmpOutBuffer| == old(|tmpOutBuffer|) && dict.Tmp?
        && dictSize == tmpOut + tmpOutStart + |bytes| <= |tmpOutBuffer|
      ensures Last64(Part(tmpOutBuffer, 0, dictSize) + rest) == Last64(history)
      ensures Part(tmpOutBuffer, tmpOut, tmpOutSize) == old(Part(tmpOutBuffer, tmpOut, tmpOutSize))
    {
      hide Last64, Suffix, Part, Continued;
      var preserveSize, copySize := HistoryBeforeBlock();
      PartGrows(tmpOutBuffer, tmpOut, |bytes|, |rest|);
      assert k.dictionary + (bytes + rest) == k.dictionary + bytes + rest;
      assert k.dictionary[..dictSize - tmpOutStart] == k.dictionary;
      assert Part(tmpOutBuffer, tmpOut, tmpOutSize) == bytes + rest;
      MoveInFrontOfBlock(k.dictionary[..dictSize - tmpOutStart], copySize, history, tmpOutStart + |bytes|);
      ContinuedParts(tmpOutBuffer, tmpOut, tmpOutSize, tmpOutStart + |bytes|);
      PartGrows(tmpOutBuffer, tmpOut, |bytes|, |rest|);
      SameParts(Part(tmpOutBuffer, tmpOut, |bytes|), Part(tmpOutBuffer, tmpOut + |bytes|, |rest|), bytes, rest);
      dict := Tmp;
      dictSize := preserveSize + tmpOutStart + |bytes|;
    }

    /** Bytes have been written to dst after what the dictionary pointer knows: it must know them too, and still be
        usable when the call is over. `rest` is what waits in tmpOut after them. */
    method UpdateDict(d: DstBuffer, bytes: seq<Byte>, withinTmp: bool, ghost w: seq<Byte>, ghost rest: seq<Byte>,
        ghost history: seq<Byte>)
      requires d.written == w + bytes && DictOk(w) && |tmpOutBuffer| == maxBufferSize && 192 * KB <= maxBufferSize
      requires Last64(DictBytes(w) + bytes + rest) == Last64(history)
      requires |d.written| + |rest| <= |history| && Suffix(history, |d.written| + |rest|) == d.written + rest
      requires withinTmp ==> InTmp(bytes, rest, history) && tmpOutStart + |bytes| <= tmpOutSize
      requires !withinTmp ==> rest == []
      modifies this`tmpOutBuffer, this`dict, this`dictSize
      ensures |tmpOutBuffer| == maxBufferSize && DictOk(d.written)
      ensures Last64(DictBytes(d.written) + rest) == Last64(history)
      ensures withinTmp ==>
        && tmpOut + tmpOutSize <= |tmpOutBuffer|
        && Part(tmpOutBuffer, tmpOut, tmpOutSize) == old(Part(tmpOutBuffer, tmpOut, tmpOutSize))
        && (if dict.Tmp? then dictSize == tmpOut + tmpOutStart + |bytes|
            else dict.DstAt? && (WINDOW <= dictSize || tmpOut + tmpOutStart + |bytes| <= dictSize))
    {
      hide Last64, Suffix, Part, Continued;
      var dstPtr := |d.written| - |bytes|;
      PartOfAppend(w, bytes, if dict.DstAt? then dict.at else 0);
      if dictSize == 0 {
        assert DictBytes(w) == [];
        PartOfAppend(w, bytes, |w|);
        dict := DstAt(dstPtr);
        assert Part(w, |w|, 0) == [];
      }
      if dict.DstAt? && dict.at + dictSize == dstPtr {
        dictSize := dictSize + |bytes|;
        return;
      }
      if |d.written| >= WINDOW {
        WholeDst(history, d.written, rest);
        dict, dictSize := DstAt(0), |d.written|;
        return;
      }
      if withinTmp {
        ContinueInTmp(bytes, w, rest, history);
        return;
      }
      assert bytes + rest == bytes && DictBytes(w) + bytes + rest == DictBytes(w) + bytes;
      SaveInTmp(bytes, w, history);
      assert DictBytes(d.written) + rest == DictBytes(d.written);
    }

    /** The history goes on in tmpOutBuffer, where the block is. */
    method ContinueInTmp(bytes: seq<Byte>, ghost w: seq<Byte>, ghost rest: seq<Byte>, ghost history: seq<Byte>)
      requires DictOk(w) && InTmp(bytes, rest, history) && Last64(DictBytes(w) + bytes + rest) == Last64(history)
      requires dict.Tmp? || dict.UserDict?
      modifies this`tmpOutBuffer, this`dict, this`dictSize
      ensures |tmpOutBuffer| == old(|tmpOutBuffer|)
      ensures dict.Tmp? && dictSize == tmpOut + tmpOutStart + |bytes| <= tmpOut + tmpOutSize <= |tmpOutBuffer|
      ensures Last64(Part(tmpOutBuffer, 0, dictSize) + rest) == Last64(history)
      ensures Part(tmpOutBuffer, tmpOut, tmpOutSize) == old(Part(tmpOutBuffer, tmpOut, tmpOutSize))
    {
      hide Last64, Suffix, Part;
      if dict.Tmp? {
        PartGrows(tmpOutBuffer, 0, dictSize, |bytes|);
        dictSize := dictSize + |bytes|;
      } else {
        MoveUserDict(bytes, rest, history);
      }
    }

    /** dst does not hold enough history. */
    method SaveInTmp(bytes: seq<Byte>, ghost w: seq<Byte>, ghost history: seq<Byte>)
      requires DictOk(w) && |tmpOutBuffer| == maxBufferSize && 192 * KB <= maxBufferSize && |bytes| < WINDOW
      requires (dict.Tmp? || dict.UserDict?) && Last64(DictBytes(w) + bytes) == Last64(history)
      modifies this`tmpOutBuffer, this`dict, this`dictSize
      ensures dict.Tmp? && dictSize <= |tmpOutBuffer| == maxBufferSize
      ensures Last64(Part(tmpOutBuffer, 0, dictSize)) == Last64(history)
    {
      hide Last64, Suffix, Part;
      if dict.Tmp? {
        CompleteTmp(bytes, history);
      } else {
        JoinInTmp(k.dictionary, bytes, history);
      }
    }

    /** `bytes` and then `rest` are what is left of the block in tmpOut. */
    ghost predicate InTmp(bytes: seq<Byte>, rest: seq<Byte>, history: seq<Byte>)
      reads this`tmpOutBuffer, this`tmpOut, this`tmpOutStart, this`tmpOutSize, this`dict, this`dictSize
    {
      && tmpOutStart + |bytes| + |rest| == tmpOutSize && tmpOut + tmpOutSize <= |tmpOutBuffer|
      && Part(tmpOutBuffer, tmpOut + tmpOutStart, |bytes|) == bytes
      && Part(tmpOutBuffer, tmpOut + tmpOutStart + |bytes|, |rest|) == rest
      && (if dict.Tmp? then dictSize == tmpOut + tmpOutStart
        else WINDOW <= dictSize || tmpOut + tmpOutStart <= dictSize)
      && (dict.UserDict? || dict.Null? ==> tmpOutStart == 0)
      && tmpOutSize <= |history| && Suffix(history, tmpOutSize) == Part(tmpOutBuffer, tmpOut, tmpOutSize)
      && (WINDOW <= tmpOut || |history| <= tmpOut + tmpOutSize)
    }

    // -------------------------------------------------------------------------
    // The end of a call
    // -------------------------------------------------------------------------

    /** dstBuffer belongs to the caller again: a history that is not in tmpOutBuffer is saved there. */
    method PreserveHistory(d: DstBuffer)
      requires Valid(d.written) && !dStage.Init?
      modifies this`tmpOutBuffer, this`dict, this`dictSize, this`tmpOut
      ensures Valid([]) && Alpha() == old(Alpha())
    {
      hide Last64, Suffix, Part, Continued, Overlay;
      NothingDelivered(delivered);
      if InBody(dStage) && frameInfo.linked && !dict.Tmp? && !dict.Null? {
        if dStage.FlushOut? {
          PreserveFlush(d);
        } else {
          PreserveBetween(d);
        }
      }
    }

    /** What is flushed so far and the dictionary in front of it, told apart. */
    lemma PastAndBlock(w: seq<Byte>)
      requires Valid(w) && dStage.FlushOut? && frameInfo.linked && (dict.DstAt? || dict.UserDict?)
        && tmpOutSize <= WINDOW
      ensures tmpOutStart <= dictSize
      ensures DictBytes(w)[..dictSize - tmpOutStart] + Part(tmpOutBuffer, tmpOut, tmpOutSize)
        == DictBytes(w) + Pending()
    {
      hide Last64, Suffix, Part, BuffersOk;
      if dict.UserDict? {
        assert k.dictionary[..dictSize] == k.dictionary;
      } else {
        SuffixOfSuffix(delivered, w, dict.at, dictSize);
        SuffixOfAppend(g.before, g.content, tmpOutSize);
        DictCoversBlock(DictBytes(w), delivered, Pending(), g.before + g.content,
          Part(tmpOutBuffer, tmpOut, tmpOutSize),
                        k.dictionary + g.content);
      }
    }

    method PreserveFlush(d: DstBuffer)
      requires Valid(d.written) && dStage.FlushOut? && frameInfo.linked && !dict.Tmp? && !dict.Null?
      modifies this`tmpOutBuffer, this`dict, this`dictSize
      ensures Valid([]) && Alpha() == old(Alpha())
    {
      hide *;
      ValidIsFlushing(d.written);
      FlushingBounds(d.written);
      ghost var w := d.written;
      ghost var block := Part(tmpOutBuffer, tmpOut, tmpOutSize);
      ghost var rest := Part(tmpOutBuffer, tmpOut + tmpOutStart, tmpOutSize - tmpOutStart);
      NoPart(tmpOutBuffer, tmpOut + tmpOutStart);
      NothingMore(w);
      BeginFlush(w, [], rest);
      PastOfBlock(w);
      FlushingIsLinked(w);
      var past := if tmpOutStart <= dictSize then DictBytes(d.written)[..dictSize - tmpOutStart] else [];
      MoveBlockHistory(past, k.dictionary + g.content);
      MovedIsFlushing(w, rest, block);
      FlushingIsReady([]);
    }

    /** What MoveBlockHistory needs. */
    lemma PastOfBlock(w: seq<Byte>)
      requires Valid(w) && dStage.FlushOut? && frameInfo.linked && (dict.DstAt? || dict.UserDict?)
      ensures DictOk(w) && tmpOut + tmpOutSize <= |tmpOutBuffer| && tmpOutStart <= tmpOutSize
      ensures var past := if tmpOutStart <= dictSize then DictBytes(w)[..dictSize - tmpOutStart] else [];
              tmpOutSize <= WINDOW ==>
                && Last64(past + Part(tmpOutBuffer, tmpOut, tmpOutSize)) == Last64(k.dictionary + g.content)
                && (WINDOW <= |past| + tmpOutStart || tmpOut <= |past|)
      ensures tmpOutSize <= |k.dictionary + g.content|
      ensures Suffix(k.dictionary + g.content, tmpOutSize) == Part(tmpOutBuffer, tmpOut, tmpOutSize)
      ensures WINDOW <= tmpOut || |k.dictionary + g.content| <= tmpOut + tmpOutSize
    {
      hide Last64, Suffix, Part, BuffersOk, OutputOk;
      SuffixOfAppend(k.dictionary, g.content, tmpOutSize);
      if tmpOutSize <= WINDOW {
        PastAndBlock(w);
      }
    }

    lemma NothingMore(w: seq<Byte>)
      ensures w + [] == w && |[] + w| == |w|
    {
    }

    lemma FlushingIsLinked(w: seq<Byte>)
      requires Flushing(w)
      ensures |tmpOutBuffer| == maxBufferSize
    {
    }

    /** The history of a block that is being flushed is now in front of it. */
    lemma MovedIsFlushing(w: seq<Byte>, rest: seq<Byte>, block: seq<Byte>)
      requires Counted(w, [], rest, block, tmpOutStart, delivered) && frameInfo.linked
        && |tmpOutBuffer| == maxBufferSize
      requires dict.Tmp? && dictSize == tmpOut + tmpOutStart && tmpOutStart <= tmpOutSize
        && tmpOut + tmpOutSize <= |tmpOutBuffer|
      requires Part(tmpOutBuffer, tmpOut, tmpOutSize) == block
      requires Part(tmpOutBuffer, tmpOut + tmpOutStart, tmpOutSize - tmpOutStart) == rest
      requires Last64(Part(tmpOutBuffer, 0, dictSize) + rest) == Last64(k.dictionary + g.content)
      ensures Flushing([])
    {
      hide Last64, Suffix, Part, Steady;
      NothingDelivered(delivered);
      assert delivered + [] == delivered;
    }

    method MoveBlockHistory(past: seq<Byte>, ghost history: seq<Byte>)
      requires tmpOut + tmpOutSize <= |tmpOutBuffer| && tmpOutStart <= tmpOutSize
      requires tmpOutSize <= WINDOW ==>
        && Last64(past + Part(tmpOutBuffer, tmpOut, tmpOutSize)) == Last64(history)
        && (WINDOW <= |past| + tmpOutStart || tmpOut <= |past|)
      requires tmpOutSize <= |history| && Suffix(history, tmpOutSize) == Part(tmpOutBuffer, tmpOut, tmpOutSize)
      requires WINDOW <= tmpOut || |history| <= tmpOut + tmpOutSize
      modifies this`tmpOutBuffer, this`dict, this`dictSize
      ensures |tmpOutBuffer| == old(|tmpOutBuffer|) && dict.Tmp? && dictSize == tmpOut + tmpOutStart
      ensures Last64(Part(tmpOutBuffer, 0, dictSize)
        + Part(tmpOutBuffer, tmpOut + tmpOutStart, tmpOutSize - tmpOutStart)) == Last64(history)
      ensures Part(tmpOutBuffer, tmpOut, tmpOutSize) == old(Part(tmpOutBuffer, tmpOut, tmpOutSize))
      ensures Part(tmpOutBuffer, tmpOut + tmpOutStart, tmpOutSize - tmpOutStart)
           == old(Part(tmpOutBuffer, tmpOut + tmpOutStart, tmpOutSize - tmpOutStart))
    {
      hide Last64, Suffix, Part, Continued, Overlay;
      var preserveSize, copySize := HistoryBeforeBlock();
      PartGrows(tmpOutBuffer, tmpOut, tmpOutStart, tmpOutSize - tmpOutStart);
      MoveInFrontOfBlock(past, copySize, history, tmpOutStart);
      ContinuedParts(tmpOutBuffer, tmpOut, tmpOutSize, tmpOutStart);
      PartGrows(tmpOutBuffer, tmpOut, tmpOutStart, tmpOutSize - tmpOutStart);
      SameParts(Part(tmpOutBuffer, tmpOut, tmpOutStart),
        Part(tmpOutBuffer, tmpOut + tmpOutStart, tmpOutSize - tmpOutStart),
                old(Part(tmpOutBuffer, tmpOut, tmpOutStart)),
                  old(Part(tmpOutBuffer, tmpOut + tmpOutStart, tmpOutSize - tmpOutStart)));
      dict := Tmp;
      dictSize := preserveSize + tmpOutStart;
    }

    /** memcpy of the end of a history to the start of tmpOutBuffer. */
    method SaveHistory(all: seq<Byte>, n: nat)
      requires n <= |all| && n <= |tmpOutBuffer|
      modifies this`tmpOutBuffer, this`dict, this`dictSize, this`tmpOut
      ensures |tmpOutBuffer| == old(|tmpOutBuffer|) && dict.Tmp? && dictSize == n && tmpOut == n
      ensures Part(tmpOutBuffer, 0, n) == Suffix(all, n)
    {
      hide Overlay, Suffix, Part;
      OverlaidFront(tmpOutBuffer, Suffix(all, n));
      tmpOutBuffer := Overlay(tmpOutBuffer, 0, Suffix(all, n));
      dict, dictSize, tmpOut := Tmp, n, n;
    }

    method PreserveBetween(d: DstBuffer)
      requires Valid(d.written) && IsBetween() && frameInfo.linked && !dict.Tmp? && !dict.Null?
      modifies this`tmpOutBuffer, this`dict, this`dictSize, this`tmpOut
      ensures Valid([]) && Alpha() == old(Alpha())
    {
      hide Last64, Suffix, Part, Ready, Valid, BuffersOk, OutputOk, FlushOk, HistoryOk;
      ValidIsBetween(d.written);
      var all := DictBytes(d.written);
      var newDictSize := Min(dictSize, WINDOW);
      KeepSuffix(all, newDictSize);
      SaveHistory(all, newDictSize);
      NothingDelivered(delivered);
      BetweenIsReady([]);
    }

    // -------------------------------------------------------------------------
    // Stages
    // -------------------------------------------------------------------------

    /** A stage follows the byte-at-a-time machine: over the bytes it took, or into failure over all that there are. */
    twostate predicate Stepped(d: DstBuffer, src: seq<Byte>, sp: nat, sp': nat, r: Outcome)
      requires old(StageOk()) && sp <= sp' <= |src|
      reads this, d
    {
      && (r.Error? ==> Run(k, old(Alpha()), src[sp..]) == Failed && Recoverable())
      && (!r.Error? ==>
            && d.Valid() && Valid(d.written) && Run(k, old(Alpha()), src[sp..sp']) == Alpha()
            && ((d.written == old(d.written) && delivered == old(delivered)) ||
                (old(d.written) <= d.written && delivered == old(delivered) + d.written[|old(d.written)|..])))
      && (r.Again? ==> Ready(d.written) && (sp < sp' || Rank(dStage) < old(Rank(dStage))))
      && Settled(r, old(dStage), dStage, sp < sp', sp' == |src|, |d.written| == d.capacity)
    }

    /** What is left of the context after an error: it can be reset. */
    ghost predicate Recoverable()
      reads this`header, this`tmpOutBuffer, this`maxBufferSize, this`alloc, this`tmpIn, this`frameRemainingSize
    {
      |header| == MAX_FH_SIZE && Allocated() && frameRemainingSize < U64_MODULUS
    }

    lemma IdleIsRecoverable(w: seq<Byte>)
      requires Idle(w) && |header| == MAX_FH_SIZE
      ensures Recoverable()
    {
    }

    lemma EndingIsRecoverable(w: seq<Byte>)
      requires Ending(w)
      ensures Recoverable()
    {
    }

    /** Between frames: nothing of a frame has been decoded or written. */
    ghost predicate Idle(w: seq<Byte>)
      reads this`tmpOutBuffer, this`maxBufferSize, this`alloc, this`tmpIn, this`frameRemainingSize, this`g, this`dStage,
        this`frameInfo, this`xxh
      reads this`delivered
    {
      && BuffersOk() && !InFrame(dStage) && w == [] && g.content == [] && g.before == delivered
    }

    ghost predicate FreshDict()
      reads this`dict, this`dictSize
    {
      (dict.Null? && dictSize == 0 && k.dictionary == []) || (dict.UserDict? && dictSize == |k.dictionary| != 0)
    }

    lemma ReadyIsIdle(w: seq<Byte>)
      requires Ready(w) && !InFrame(dStage)
      ensures StageOk() && Idle(w) && (dStage.GetFrameHeader? || dStage.StoreFrameHeader? ==> FreshDict())
    {
      hide Suffix, Last64, Part;
      NothingPending(g.before, g.content, delivered);
    }

    lemma IdleIsValid(w: seq<Byte>)
      requires StageOk() && Idle(w)
      ensures Valid(w)
    {
      hide Suffix, Last64, Part;
      NothingDelivered(delivered);
      NothingPendingYet(g.before, delivered);
      assert g.before + [] == g.before;
    }

    lemma IdleIsReady(w: seq<Byte>)
      requires StageOk() && Idle(w)
      requires dStage.GetFrameHeader? || dStage.StoreFrameHeader? ==> FreshDict()
      ensures Ready(w) && Valid(w)
    {
      hide Suffix, Last64, Part;
      NothingDelivered(delivered);
      assert g.before + [] == g.before && delivered + [] == delivered;
    }

    /** A decoded frame header opens the frame. */
    method SetFrame(info: FrameInfo, sized: bool, ghost w: seq<Byte>)
      requires |header| == MAX_FH_SIZE && Idle(w) && FreshDict() && IsBlockSize(info.maxBlockSize)
        && info.contentSize < U64_MODULUS
      modifies this`frameInfo, this`frameRemainingSize, this`dStage, this`g
      ensures dStage.Init? && StageOk() && Ready(w) && Valid(w)
      ensures Alpha() == NextBlock(Context(info, old(g.before), old(g.content), if sized then info.contentSize
        else old(g.remaining)))
    {
      hide Suffix, Last64, Part;
      frameInfo := info;
      if sized {
        frameRemainingSize := info.contentSize;
      }
      dStage := Init;
      g := Context(info, g.before, g.content, if sized then info.contentSize else g.remaining);
      NothingDelivered(delivered);
      assert g.before + [] == g.before && delivered + [] == delivered;
      assert k.dictionary + [] == k.dictionary;
    }

    /** A stage between frames that wrote nothing. */
    twostate predicate Quiet(src: seq<Byte>, sp: nat, sp': nat, w: seq<Byte>)
      requires old(StageOk()) && sp <= sp' <= |src|
      reads this
    {
      StageOk() && Ready(w) && Valid(w) && Run(k, old(Alpha()), src[sp..sp']) == Alpha() && delivered == old(delivered)
      && !dStage.GetFrameHeader?
      && (sp < sp' || Rank(dStage) < old(Rank(dStage)))
    }

    /** Enough input for any header. */
    method HeaderShortcut(src: seq<Byte>, sp: nat, ghost w: seq<Byte>) returns (ok: bool, sp': nat)
      requires StageOk() && Idle(w) && FreshDict() && dStage.GetFrameHeader? && sp + MAX_FH_SIZE <= |src|
      modifies this
      ensures sp <= sp' <= |src|
      ensures !ok ==> Run(k, old(Alpha()), src[sp..]) == Failed && Recoverable()
      ensures ok ==> Quiet(src, sp, sp', w)
    {
      hide Suffix, Last64, DecodeHeader, OpenFrame, Run, Part, Valid, Ready;
      var s := src[sp..];
      RunHeader(k, g, s);
      SkippableMagic(k, s);
      match DecodeHeader(k, s) {
        case BadHeader =>
          return false, sp;
        case Skippable =>
          frameInfo := NoInfo();
          magic := s[..4];
          dStage := GetSFrameSize;
          assert s[..4] == src[sp..sp + 4];
          IdleIsReady(w);
          return true, sp + 4;
        case Frame(size, info, sized) =>
          OpenedFrame(k, g, s[..size]);
          assert s[..size] == src[sp..sp + size];
          SetFrame(info, sized, w);
          return true, sp + size;
      }
    }

    method DoGetFrameHeader(src: seq<Byte>, sp: nat, d: DstBuffer) returns (r: Outcome, sp': nat)
      requires Ready(d.written) && d.Valid() && dStage.GetFrameHeader? && sp <= |src|
      modifies this
      ensures sp <= sp' <= |src| && Stepped(d, src, sp, sp', r)
    {
      hide Suffix, Last64, DecodeHeader, OpenFrame, Part, Run, Valid, Ready;
      ReadyIsIdle(d.written);
      assert src[sp..sp] == [];
      assert Run(k, Alpha(), []) == Alpha() by { RunNothing(k, Alpha()); }
      if |src| - sp >= MAX_FH_SIZE {
        var ok;
        ok, sp' := HeaderShortcut(src, sp, d.written);
        return if ok then Again else Error, sp';
      }
      tmpInSize := 0;
      if sp == |src| {
        IdleIsReady(d.written);
        return Stop(MIN_FH_SIZE), sp;
      }
      tmpInTarget := MIN_FH_SIZE;
      dStage := StoreFrameHeader;
      EmptyPart(header);
      IdleIsReady(d.written);
      return Again, sp;
    }

    /** memcpy of as much input as is wanted into the header. */
    method CollectHeader(src: seq<Byte>, sp: nat, target: nat, ghost from: nat) returns (n: nat)
      requires |header| == MAX_FH_SIZE && sp <= |src| && from <= tmpInSize < target <= MAX_FH_SIZE
      modifies this`header, this`tmpInSize
      ensures |header| == MAX_FH_SIZE && sp + n <= |src|
      ensures tmpInSize == old(tmpInSize) + n <= target && (tmpInSize < target ==> sp + n == |src|)
      ensures Part(header, from, tmpInSize - from) == old(Part(header, from, tmpInSize - from)) + src[sp..sp + n]
      ensures Part(header, 0, old(tmpInSize)) == old(Part(header, 0, tmpInSize))
    {
      n := Min(target - tmpInSize, |src| - sp);
      Collecting(header, from, tmpInSize, src[sp..sp + n]);
      header := Overlay(header, tmpInSize, src[sp..sp + n]);
      tmpInSize := tmpInSize + n;
    }

    method DoStoreFrameHeader(src: seq<Byte>, sp: nat, d: DstBuffer) returns (r: Outcome, sp': nat)
      requires Ready(d.written) && d.Valid() && dStage.StoreFrameHeader? && sp <= |src|
      modifies this
      ensures sp <= sp' <= |src| && Stepped(d, src, sp, sp', r)
    {
      hide Suffix, Last64, DecodeHeader, OpenFrame, Part, Run, Overlay, Collected, Valid, Ready;
      ReadyIsIdle(d.written);
      ghost var c, target, got := g, tmpInTarget, Part(header, 0, tmpInSize);
      var n := CollectHeader(src, sp, tmpInTarget, 0);
      sp' := sp + n;
      RunCollect(k, c, FrameHeader, target, got, src[sp..sp']);
      HeaderKeepsMagic(header, old(header), old(tmpInSize));
      if tmpInSize < tmpInTarget {
        IdleIsReady(d.written);
        return Stop(tmpInTarget - tmpInSize + BH_SIZE), sp';
      }
      RunOn(k, old(Alpha()), src, sp, sp');
      CollectedHeader(k, c, got + src[sp..sp']);
      var ok := OpenStoredHeader(d.written);
      r := if ok then Again else Error;
    }

    /** LZ4F_decodeHeader on the header that has been stored. */
    method OpenStoredHeader(ghost w: seq<Byte>) returns (ok: bool)
      requires |header| == MAX_FH_SIZE && Idle(w) && FreshDict() && dStage.StoreFrameHeader?
      requires MIN_FH_SIZE <= tmpInTarget <= MAX_FH_SIZE && tmpInSize == tmpInTarget
      requires MIN_FH_SIZE < tmpInTarget ==> !IsSkippable(header[..4])
      modifies this
      ensures header == old(header) && delivered == old(delivered)
      ensures !ok ==> OpenFrame(k, old(g), old(Part(header, 0, tmpInTarget))) == Failed && Recoverable()
      ensures ok ==> !dStage.GetFrameHeader?
      ensures ok ==>
        StageOk() && Ready(w) && Valid(w) && OpenFrame(k, old(g), old(Part(header, 0, tmpInTarget))) == Alpha()
    {
      hide Suffix, Last64, DecodeHeader, Run, Valid, Ready, StageOk, Alpha, IsSkippable, Recoverable, Part,
        SkipHeaderState;
      var s := header[..tmpInTarget];
      IdleIsRecoverable(w);
      HeaderPart(header, tmpInTarget);
      SkippableMagic(k, s);
      match DecodeHeader(k, s) {
        case BadHeader =>
          return false;
        case Skippable =>
          frameInfo := NoInfo();
          magic := header[..4];
          tmpInTarget := 8;
          dStage := StoreSFrameSize;
          FullSkipHeader(g, s);
          AtSFrame();
          IdleIsReady(w);
        case Incomplete(size) =>
          tmpInTarget := size;
          AtStoreFrameHeader();
          IdleIsReady(w);
        case Frame(size, info, sized) =>
          SetFrame(info, sized, w);
      }
      return true;
    }

    lemma AtSFrame()
      requires dStage.GetSFrameSize? || dStage.StoreSFrameSize? || dStage.SkipSkippable?
      ensures StageOk() ==>
        && |header| == MAX_FH_SIZE
        && (!dStage.SkipSkippable? ==> IsSkippable(magic))
        && (dStage.GetSFrameSize? ==> Alpha() == Collect(g, FrameHeader, MIN_FH_SIZE, magic))
        && (dStage.StoreSFrameSize? ==>
              4 <= tmpInSize < tmpInTarget == 8
                && Alpha() == SkipHeaderState(g, magic + Part(header, 4, tmpInSize - 4)))
        && (dStage.SkipSkippable? ==> Alpha() == SkipOf(g, tmpInTarget))
      ensures (|header| == MAX_FH_SIZE && (!dStage.SkipSkippable? ==> IsSkippable(magic))
               && (dStage.StoreSFrameSize? ==> 4 <= tmpInSize < tmpInTarget == 8)) ==> StageOk()
    {
    }

    lemma AtStoreFrameHeader()
      requires dStage.StoreFrameHeader?
      ensures StageOk() ==>
        && |header| == MAX_FH_SIZE && tmpInSize < tmpInTarget <= MAX_FH_SIZE && MIN_FH_SIZE <= tmpInTarget
        && (MIN_FH_SIZE < tmpInTarget ==> MIN_FH_SIZE <= tmpInSize && !IsSkippable(header[..4]))
        && Alpha() == Collect(g, FrameHeader, tmpInTarget, Part(header, 0, tmpInSize))
      ensures (&& |header| == MAX_FH_SIZE && tmpInSize < tmpInTarget <= MAX_FH_SIZE && MIN_FH_SIZE <= tmpInTarget
               && (MIN_FH_SIZE < tmpInTarget ==> MIN_FH_SIZE <= tmpInSize && !IsSkippable(header[..4]))) ==> StageOk()
    {
    }

    method DoGetSFrameSize(src: seq<Byte>, sp: nat, d: DstBuffer) returns (r: Outcome, sp': nat)
      requires Ready(d.written) && d.Valid() && dStage.GetSFrameSize? && sp <= |src|
      modifies this
      ensures sp <= sp' <= |src| && Stepped(d, src, sp, sp', r)
    {
      hide Suffix, Last64, Run, Overlay, Collected, Valid, Ready, Part, ReadLE, SkipOf, SkipHeaderState, StageOk, Alpha,
        IsSkippable, Recoverable;
      ReadyIsIdle(d.written);
      AtSFrame();
      if |src| - sp >= 4 {
        sp' := sp + 4;
        assert magic[..4] == magic;
        SkippableLength(magic);
        ShortSkipHeader(g, magic);
        RunSkipHeader(k, g, magic, src[sp..sp']);
        SizeAfterMagic(magic, src, sp);
        tmpInTarget := ReadLE(src, sp, 4);
        dStage := SkipSkippable;
        AtSFrame();
        IdleIsReady(d.written);
        return Again, sp';
      }
      tmpInSize := 4;
      tmpInTarget := 8;
      dStage := StoreSFrameSize;
      NoPart(header, 4);
      SkippableLength(magic);
      ShortSkipHeader(g, magic);
      AtSFrame();
      assert magic + [] == magic;
      assert src[sp..sp] == [];
      RunNothing(k, old(Alpha()));
      IdleIsReady(d.written);
      return Again, sp;
    }

    method DoStoreSFrameSize(src: seq<Byte>, sp: nat, d: DstBuffer) returns (r: Outcome, sp': nat)
      requires Ready(d.written) && d.Valid() && dStage.StoreSFrameSize? && sp <= |src|
      modifies this
      ensures sp <= sp' <= |src| && Stepped(d, src, sp, sp', r)
    {
      hide Suffix, Last64, Run, Overlay, Collected, Part, Valid, Ready, ReadLE, SkipOf, SkipHeaderState, StageOk, Alpha,
        IsSkippable, Recoverable;
      ReadyIsIdle(d.written);
      AtSFrame();
      SkippableLength(magic);
      ghost var got := magic + Part(header, 4, tmpInSize - 4);
      assert got[..4] == magic;
      var n := CollectHeader(src, sp, tmpInTarget, 4);
      sp' := sp + n;
      RunSkipHeader(k, g, got, src[sp..sp']);
      assert got + src[sp..sp'] == magic + Part(header, 4, tmpInSize - 4);
      if tmpInSize < tmpInTarget {
        AtSFrame();
        IdleIsReady(d.written);
        return Stop(tmpInTarget - tmpInSize), sp';
      }
      SizeInHeader(magic, header);
      tmpInTarget := ReadLE(header, 4, 4);
      dStage := SkipSkippable;
      AtSFrame();
      IdleIsReady(d.written);
      return Again, sp';
    }

    method DoSkipSkippable(src: seq<Byte>, sp: nat, d: DstBuffer) returns (r: Outcome, sp': nat)
      requires Ready(d.written) && d.Valid() && dStage.SkipSkippable? && sp <= |src|
      modifies this
      ensures sp <= sp' <= |src| && Stepped(d, src, sp, sp', r)
    {
      hide Suffix, Last64, Run, Valid, Ready, Part;
      ReadyIsIdle(d.written);
      var skipSize := Min(tmpInTarget, |src| - sp);
      RunSkip(k, g, tmpInTarget, src[sp..sp + skipSize]);
      sp' := sp + skipSize;
      tmpInTarget := tmpInTarget - skipSize;
      r := Stop(tmpInTarget);
      if tmpInTarget == 0 {
        ResetContext();
      }
      assert g.before + [] == g.before && old(g.before) + old(g.content) == old(g.before);
      IdleIsValid(d.written);
    }

    /** LZ4F_resetDecompressionContext at the end of a frame. */
    method ResetContext()
      modifies this`dStage, this`dict, this`dictSize, this`g
      ensures dStage.GetFrameHeader? && dict.Null? && dictSize == 0
      ensures g == old(g).(before := old(g.before) + old(g.content), content := [])
    {
      dStage, dict, dictSize := GetFrameHeader, Null, 0;
      g := g.(before := g.before + g.content, content := []);
    }

    /** Inside a frame, with nothing waiting to be flushed. */
    ghost predicate Ending(w: seq<Byte>)
      reads this`header, this`tmpOutBuffer, this`maxBufferSize, this`alloc, this`tmpIn, this`frameRemainingSize, this`g,
        this`frameInfo, this`xxh, this`delivered
    {
      && |header| == MAX_FH_SIZE && |tmpOutBuffer| == maxBufferSize
      && IsBlockSize(alloc) && |tmpIn| == alloc + BF_SIZE && alloc <= maxBufferSize <= alloc + 128 * KB
      && frameRemainingSize == g.remaining < U64_MODULUS && g.info == frameInfo && IsBlockSize(frameInfo.maxBlockSize)
      && frameInfo.maxBlockSize + BF_SIZE <= |tmpIn| && Needed(frameInfo) <= maxBufferSize
      && (frameInfo.contentChecksum ==> xxh == g.content)
      && g.before + g.content == delivered && |w| <= |g.content| && Suffix(delivered, |w|) == w
    }

    /** Between two pieces of a frame: the history is good as well. */
    ghost predicate Between(w: seq<Byte>)
      reads this`header, this`tmpOutBuffer, this`maxBufferSize, this`alloc, this`tmpIn, this`frameRemainingSize, this`g,
        this`frameInfo, this`xxh, this`delivered
      reads this`dict, this`dictSize, this`tmpOut
    {
      && Ending(w) && DictOk(w)
      && if frameInfo.linked then Last64(DictBytes(w)) == Last64(k.dictionary + g.content)
         else DictBytes(w) == k.dictionary && (dict.Null? || dict.UserDict?) && tmpOut == 0
    }

    predicate IsBetween() reads this`dStage { InBody(dStage) && !dStage.Init? && !dStage.FlushOut? }

    lemma ReadyIsBetween(w: seq<Byte>)
      requires Ready(w) && IsBetween()
      ensures StageOk() && Between(w)
    {
      hide Between, Valid;
      ValidIsBetween(w);
    }

    lemma ValidIsBetween(w: seq<Byte>)
      requires Valid(w) && IsBetween()
      ensures StageOk() && Between(w)
    {
      hide Suffix, Last64, Part;
      assert delivered + [] == delivered;
      assert DictBytes(w) + [] == DictBytes(w);
    }

    lemma BetweenIsReady(w: seq<Byte>)
      requires StageOk() && Between(w) && IsBetween()
      ensures Ready(w) && Valid(w)
    {
      hide Suffix, Last64, Part;
      assert delivered + [] == delivered;
      assert DictBytes(w) + [] == DictBytes(w);
    }

    lemma EndingIsReady(w: seq<Byte>)
      requires StageOk() && Ending(w) && (dStage.GetSuffix? || dStage.StoreSuffix?)
      ensures Ready(w) && Valid(w)
    {
      hide Suffix, Last64, Part;
      assert delivered + [] == delivered;
    }

    lemma ReadyIsEnding(w: seq<Byte>)
      requires Ready(w) && (dStage.GetSuffix? || dStage.StoreSuffix?)
      ensures StageOk() && Ending(w)
    {
      hide Suffix, Last64, Part;
      assert delivered + [] == delivered;
    }

    /** A frame has just been opened. */
    ghost predicate Opened(w: seq<Byte>)
      reads this`header, this`frameRemainingSize, this`g, this`frameInfo, this`delivered, this`dict, this`dictSize
    {
      && |header| == MAX_FH_SIZE
      && frameRemainingSize == g.remaining < U64_MODULUS && g.info == frameInfo && IsBlockSize(frameInfo.maxBlockSize)
      && g.content == [] && g.before == delivered && w == [] && FreshDict()
    }

    /** The buffers that an earlier frame has left, if any. */
    ghost predicate Allocated()
      reads this`tmpOutBuffer, this`maxBufferSize, this`alloc, this`tmpIn
    {
      && |tmpOutBuffer| == maxBufferSize
      && (maxBufferSize == 0 ||
          (IsBlockSize(alloc) && |tmpIn| == alloc + BF_SIZE && alloc <= maxBufferSize <= alloc + 128 * KB))
    }

    lemma ReadyIsOpened(w: seq<Byte>)
      requires Ready(w) && dStage.Init?
      ensures StageOk() && Opened(w) && Allocated()
    {
      hide Suffix, Last64, Part;
      NothingPending(g.before, g.content, delivered);
      assert w == [];
    }

    /** Internal buffers: those that are too small are allocated again. */
    method AllocateBuffers()
      requires Allocated() && IsBlockSize(frameInfo.maxBlockSize)
      modifies this`tmpIn, this`tmpOutBuffer, this`maxBufferSize, this`alloc
      ensures Allocated() && frameInfo.maxBlockSize + BF_SIZE <= |tmpIn| && Needed(frameInfo) <= maxBufferSize
    {
      var bufferNeeded := Needed(frameInfo);
      if bufferNeeded > maxBufferSize {
        tmpIn := seq(frameInfo.maxBlockSize + BF_SIZE, _ => 0);
        tmpOutBuffer := seq(bufferNeeded, _ => 0);
        maxBufferSize := bufferNeeded;
        alloc := frameInfo.maxBlockSize;
      } else {
        BuffersSuffice(frameInfo, alloc, maxBufferSize);
      }
    }

    /** The stages that have no counters. */
    lemma AtBlock()
      requires |header| == MAX_FH_SIZE && (dStage.Init? || dStage.GetBlockHeader?)
      ensures StageOk() && Alpha() == NextBlock(g)
    {
    }

    method ResetCounters()
      modifies this`tmpInSize, this`tmpInTarget, this`tmpOut, this`tmpOutStart, this`tmpOutSize, this`dStage
      ensures dStage.GetBlockHeader? && tmpOut == 0
    {
      tmpInSize, tmpInTarget := 0, 0;
      tmpOut, tmpOutStart, tmpOutSize := 0, 0, 0;
      dStage := GetBlockHeader;
    }

    method InitFrame(ghost w: seq<Byte>)
      requires Opened(w) && Allocated() && dStage.Init?
      modifies this`xxh, this`tmpIn, this`tmpOutBuffer, this`maxBufferSize, this`alloc, this`tmpInSize,
        this`tmpInTarget, this`tmpOut,
        this`tmpOutStart, this`tmpOutSize, this`dStage
      ensures dStage.GetBlockHeader? && |header| == MAX_FH_SIZE && Between(w)
    {
      hide *;
      HeaderOf(w);
      if frameInfo.contentChecksum {
        xxh := [];
      }
      AllocateBuffers();
      ResetCounters();
      OpenedIsBetween(w);
    }

    method DoInit(src: seq<Byte>, sp: nat, d: DstBuffer) returns (r: Outcome, sp': nat)
      requires Ready(d.written) && d.Valid() && dStage.Init? && sp <= |src|
      modifies this
      ensures sp <= sp' <= |src| && Stepped(d, src, sp, sp', r)
    {
      hide Suffix, Last64, Part, Run, Ready, Valid, Between, Opened, Allocated, StageOk, Alpha;
      ReadyIsOpened(d.written);
      HeaderOf(d.written);
      AtBlock();
      assert src[sp..sp] == [];
      RunNothing(k, Alpha());
      InitFrame(d.written);
      AtBlock();
      BetweenIsReady(d.written);
      return Again, sp;
    }

    lemma HeaderOf(w: seq<Byte>)
      requires Opened(w)
      ensures |header| == MAX_FH_SIZE && IsBlockSize(frameInfo.maxBlockSize)
    {
    }

    lemma OpenedIsBetween(w: seq<Byte>)
      requires Opened(w) && Allocated() && frameInfo.maxBlockSize + BF_SIZE <= |tmpIn|
        && Needed(frameInfo) <= maxBufferSize
      requires tmpOut == 0 && (frameInfo.contentChecksum ==> xxh == [])
      ensures Between(w)
    {
      hide Last64;
      NothingDelivered(delivered);
      assert k.dictionary + [] == k.dictionary && g.before + [] == g.before;
    }

    method DoGetBlockHeader(src: seq<Byte>, sp: nat, d: DstBuffer) returns (r: Outcome, sp': nat)
      requires Ready(d.written) && d.Valid() && dStage.GetBlockHeader? && sp <= |src|
      modifies this
      ensures sp <= sp' <= |src| && Stepped(d, src, sp, sp', r)
    {
      hide Suffix, Last64, Part, Run, Ready, Valid, Between, ReadLE, OpenBlock, Collected;
      ReadyIsBetween(d.written);
      if |src| - sp >= BH_SIZE {
        sp' := sp + BH_SIZE;
        var selectedIn := src[sp..sp'];
        RunCollect(k, g, BlockHeader, BH_SIZE, [], selectedIn);
        assert [] + selectedIn == selectedIn;
        CollectedBlockHeader(k, g, selectedIn);
        RunOn(k, old(Alpha()), src, sp, sp');
        r := OpenBlockHeader(selectedIn, d, |src| - sp');
        return;
      }
      tmpInSize := 0;
      dStage := StoreBlockHeader;
      TmpInReady(d.written);
      EmptyPart(tmpIn);
      assert src[sp..sp] == [];
      RunNothing(k, old(Alpha()));
      BetweenIsReady(d.written);
      return Again, sp;
    }

    lemma TmpInReady(w: seq<Byte>)
      requires Between(w)
      ensures |header| == MAX_FH_SIZE && frameInfo.maxBlockSize + BF_SIZE <= |tmpIn| && BH_SIZE <= |tmpIn|
        && g.info == frameInfo
      ensures frameRemainingSize == g.remaining < U64_MODULUS
    {
    }

    lemma BetweenIsRecoverable(w: seq<Byte>)
      requires Between(w)
      ensures Recoverable()
    {
    }

    lemma EndingOf(w: seq<Byte>)
      requires Between(w)
      ensures Ending(w)
    {
    }

    /** The block header has been read. */
    method OpenBlockHeader(selectedIn: seq<Byte>, d: DstBuffer, inputLeft: nat) returns (r: Outcome)
      requires |selectedIn| == BH_SIZE && Between(d.written)
      modifies this`tmpInTarget, this`dStage, this`blockChecksum, this`rawBlock
      ensures !r.Error? ==>
        StageOk() && Ready(d.written) && Valid(d.written)
        && Alpha() == OpenBlock(old(g), ReadLE(selectedIn, 0, BH_SIZE))
      ensures r.Error? ==> OpenBlock(old(g), ReadLE(selectedIn, 0, BH_SIZE)) == Failed && Recoverable()
      ensures r.Again? ==> !dStage.GetFrameHeader?
      ensures r.Stop? ==> dStage.GetCBlock? && r.hint != 0 && (|d.written| == d.capacity || inputLeft == 0)
    {
      hide Suffix, Last64, Part, Run, Ready, Valid, Between, ReadLE, Collected, StageOk, Alpha, Recoverable, RawOf,
        Ending;
      TmpInReady(d.written);
      var blockHeader := ReadLE(selectedIn, 0, BH_SIZE);
      var nextCBlockSize := blockHeader % BLOCK_UNCOMPRESSED_FLAG;
      var crcSize := if frameInfo.blockChecksum then BF_SIZE else 0;
      if blockHeader == 0 {
        dStage := GetSuffix;
        AtSuffix();
        assert Ending(d.written) by { EndingOf(d.written); }
        EndingIsReady(d.written);
        return Again;
      }
      if nextCBlockSize > frameInfo.maxBlockSize {
        BetweenIsRecoverable(d.written);
        return Error;
      }
      if blockHeader >= BLOCK_UNCOMPRESSED_FLAG {
        tmpInTarget := nextCBlockSize;
        if frameInfo.blockChecksum {
          blockChecksum := [];
        }
        rawBlock := [];
        dStage := CopyDirect;
        AtCopyDirect();
        BetweenIsReady(d.written);
        return Again;
      }
      tmpInTarget := nextCBlockSize + crcSize;
      dStage := GetCBlock;
      AtCBlock();
      BetweenIsReady(d.written);
      if |d.written| == d.capacity || inputLeft == 0 {
        return Stop(BH_SIZE + nextCBlockSize + crcSize);
      }
      return Again;
    }

    /** memcpy of as much input as is wanted into tmpIn. */
    method CollectTmpIn(src: seq<Byte>, sp: nat, target: nat) returns (n: nat)
      requires sp <= |src| && tmpInSize < target <= |tmpIn|
      modifies this`tmpIn, this`tmpInSize
      ensures |tmpIn| == old(|tmpIn|) && sp + n <= |src|
      ensures tmpInSize == old(tmpInSize) + n <= target && (tmpInSize < target ==> sp + n == |src|)
      ensures Part(tmpIn, 0, tmpInSize) == old(Part(tmpIn, 0, tmpInSize)) + src[sp..sp + n]
    {
      n := Min(target - tmpInSize, |src| - sp);
      Collecting(tmpIn, 0, tmpInSize, src[sp..sp + n]);
      tmpIn := Overlay(tmpIn, tmpInSize, src[sp..sp + n]);
      tmpInSize := tmpInSize + n;
    }

    /** The same inside a frame. */
    method CollectInFrame(src: seq<Byte>, sp: nat, target: nat, ghost w: seq<Byte>) returns (n: nat)
      requires Between(w) && sp <= |src| && tmpInSize < target <= |tmpIn|
      modifies this`tmpIn, this`tmpInSize
      ensures Between(w) && |tmpIn| == old(|tmpIn|) && sp + n <= |src|
      ensures tmpInSize == old(tmpInSize) + n <= target && (tmpInSize < target ==> sp + n == |src|)
      ensures Part(tmpIn, 0, tmpInSize) == old(Part(tmpIn, 0, tmpInSize)) + src[sp..sp + n]
    {
      hide Suffix, Last64, Part, Overlay, DictBytes;
      n := CollectTmpIn(src, sp, target);
    }

    method Enter(stage: Stage, size: nat)
      modifies this`dStage, this`tmpInSize
      ensures dStage == stage && tmpInSize == size
    {
      dStage, tmpInSize := stage, size;
    }

    lemma AtStoreBlockHeader()
      requires dStage.StoreBlockHeader?
      ensures StageOk() ==>
        tmpInSize < BH_SIZE <= |tmpIn| && Alpha() == Collect(g, BlockHeader, BH_SIZE, Part(tmpIn, 0, tmpInSize))
      ensures |header| == MAX_FH_SIZE && tmpInSize < BH_SIZE <= |tmpIn| ==> StageOk()
    {
    }

    method DoStoreBlockHeader(src: seq<Byte>, sp: nat, d: DstBuffer) returns (r: Outcome, sp': nat)
      requires Ready(d.written) && d.Valid() && dStage.StoreBlockHeader? && sp <= |src|
      modifies this
      ensures sp <= sp' <= |src| && Stepped(d, src, sp, sp', r)
    {
      hide Suffix, Last64, Part, Run, Ready, Valid, Between, ReadLE, OpenBlock, Collected, StageOk, Alpha;
      ReadyIsBetween(d.written);
      AtStoreBlockHeader();
      TmpInReady(d.written);
      ghost var c, got := g, Part(tmpIn, 0, tmpInSize);
      var n := CollectInFrame(src, sp, BH_SIZE, d.written);
      sp' := sp + n;
      RunCollect(k, c, BlockHeader, BH_SIZE, got, src[sp..sp']);
      AtStoreBlockHeader();
      if tmpInSize < BH_SIZE {
        BetweenIsReady(d.written);
        return Stop(BH_SIZE - tmpInSize), sp';
      }
      CollectedBlockHeader(k, c, got + src[sp..sp']);
      RunOn(k, old(Alpha()), src, sp, sp');
      r := OpenBlockHeader(Part(tmpIn, 0, BH_SIZE), d, |src| - sp');
    }

    // -------------------------------------------------------------------------
    // Content
    // -------------------------------------------------------------------------

    /** Decoded or copied bytes: the hash and what remains of the size follow. */
    method Account(bytes: seq<Byte>, ghost w: seq<Byte>)
      requires Ending(w)
      modifies this`xxh, this`frameRemainingSize, this`g, this`delivered
      ensures Ending(w + bytes) && g == Add(old(g), bytes) && delivered == old(delivered) + bytes
      ensures k.dictionary + g.content == k.dictionary + old(g.content) + bytes
      ensures |w + bytes| <= |k.dictionary + g.content| && Suffix(k.dictionary + g.content, |w + bytes|) == w + bytes
    {
      hide Suffix, Last64, Part;
      Written(k.dictionary, g, delivered, w, bytes);
      if frameInfo.contentChecksum {
        xxh := xxh + bytes;
      }
      if frameInfo.contentSize != 0 {
        frameRemainingSize := (frameRemainingSize + U64_MODULUS - |bytes| % U64_MODULUS) % U64_MODULUS;
      }
      g := Add(g, bytes);
      delivered := delivered + bytes;
    }

    /** The history follows what was written, for linked blocks. */
    method FollowHistory(d: DstBuffer, bytes: seq<Byte>, ghost w: seq<Byte>)
      requires d.written == w + bytes && Ending(d.written) && DictOk(w)
      requires if frameInfo.linked then Last64(DictBytes(w) + bytes) == Last64(k.dictionary + g.content)
               else DictBytes(w) == k.dictionary && (dict.Null? || dict.UserDict?) && tmpOut == 0
      requires |d.written| <= |k.dictionary + g.content| && Suffix(k.dictionary + g.content, |d.written|) == d.written
      modifies this`dict, this`dictSize, this`tmpOutBuffer
      ensures Between(d.written)
    {
      hide Suffix, Last64, Part;
      if frameInfo.linked {
        assert DictBytes(w) + bytes + [] == DictBytes(w) + bytes && d.written + [] == d.written;
        UpdateDict(d, bytes, false, w, [], k.dictionary + g.content);
        assert DictBytes(d.written) + [] == DictBytes(d.written);
      }
    }

    /** Decoded or copied bytes go to dst. */
    method Deliver(d: DstBuffer, bytes: seq<Byte>)
      requires Between(d.written) && d.Valid() && |d.written| + |bytes| <= d.capacity
      modifies d, this`xxh, this`frameRemainingSize, this`g, this`delivered, this`dict, this`dictSize, this`tmpOutBuffer
      ensures Between(d.written) && d.Valid() && d.written == old(d.written) + bytes
      ensures g == Add(old(g), bytes) && delivered == old(delivered) + bytes
    {
      hide Suffix, Last64, Part, Ending, DictOk, DictBytes, Add;
      ghost var w := d.written;
      if frameInfo.linked {
        GrowBoth(DictBytes(w), k.dictionary + g.content, bytes);
      }
      d.Write(bytes);
      Account(bytes, w);
      FollowHistory(d, bytes, w);
    }

    lemma AtCopyDirect()
      requires dStage.CopyDirect?
      ensures StageOk() ==>
        Alpha() == RawOf(g, tmpInTarget, rawBlock) && (g.info.blockChecksum ==> blockChecksum == rawBlock)
      ensures |header| == MAX_FH_SIZE && (g.info.blockChecksum ==> blockChecksum == rawBlock) ==> StageOk()
    {
    }

    lemma AtGetBlockChecksum()
      requires dStage.GetBlockChecksum?
      ensures StageOk() ==>
        && |header| == MAX_FH_SIZE && tmpInSize < BF_SIZE && blockChecksum == rawBlock && g.info.blockChecksum
        && Alpha() == Collect(g, RawChecksum(rawBlock), BF_SIZE, Part(header, 0, tmpInSize))
      ensures |header| == MAX_FH_SIZE && tmpInSize < BF_SIZE && blockChecksum == rawBlock && g.info.blockChecksum ==>
        StageOk()
    {
    }

    /** Copies part of an uncompressed block. */
    method CopyRaw(d: DstBuffer, bytes: seq<Byte>)
      requires Between(d.written) && d.Valid() && |d.written| + |bytes| <= d.capacity && |bytes| <= tmpInTarget
      requires g.info.blockChecksum ==> blockChecksum == rawBlock
      modifies d, this`xxh, this`frameRemainingSize, this`g, this`delivered, this`dict, this`dictSize,
        this`tmpOutBuffer,
        this`blockChecksum, this`rawBlock
      ensures Between(d.written) && d.Valid() && d.written == old(d.written) + bytes
        && delivered == old(delivered) + bytes
      ensures g == Add(old(g), bytes) && rawBlock == old(rawBlock) + bytes
      ensures g.info.blockChecksum ==> blockChecksum == rawBlock
    {
      hide *;
      TmpInReady(d.written);
      if frameInfo.blockChecksum {
        blockChecksum := blockChecksum + bytes;
      }
      rawBlock := rawBlock + bytes;
      ghost var c := g;
      Deliver(d, bytes);
      AddInfo(c, bytes);
    }

    /** The uncompressed block has been copied to the end. */
    method CloseRaw(ghost w: seq<Byte>)
      requires Between(w) && dStage.CopyDirect? && (g.info.blockChecksum ==> blockChecksum == rawBlock)
      modifies this`dStage, this`tmpInSize
      ensures !dStage.GetFrameHeader? && Rank(dStage) < Rank(CopyDirect)
      ensures StageOk() && Ready(w) && Valid(w) && Alpha() == RawOf(g, 0, rawBlock)
    {
      hide Suffix, Last64, Part, Ready, Valid, Between, StageOk, Alpha, RawOf;
      TmpInReady(w);
      RawDone(g, rawBlock);
      if frameInfo.blockChecksum {
        EmptyPart(header);
        Enter(GetBlockChecksum, 0);
        AtGetBlockChecksum();
      } else {
        Enter(GetBlockHeader, tmpInSize);
        AtBlock();
      }
      BetweenIsReady(w);
    }

    method DoCopyDirect(src: seq<Byte>, sp: nat, d: DstBuffer) returns (r: Outcome, sp': nat)
      requires Ready(d.written) && d.Valid() && dStage.CopyDirect? && sp <= |src|
      modifies this, d
      ensures sp <= sp' <= |src| && Stepped(d, src, sp, sp', r)
    {
      hide Suffix, Last64, Part, Run, Ready, Valid, Between, StageOk, Alpha, Add, RawOf, Recoverable;
      ReadyIsBetween(d.written);
      TmpInReady(d.written);
      AtCopyDirect();
      var sizeToCopy := 0;
      if !d.isNull {
        sizeToCopy := Min(tmpInTarget, Min(|src| - sp, d.capacity - |d.written|));
      }
      sp' := sp + sizeToCopy;
      RunRaw(k, g, tmpInTarget, rawBlock, src[sp..sp']);
      ghost var c := g;
      CopyRaw(d, src[sp..sp']);
      AddInfo(c, src[sp..sp']);
      if sizeToCopy == tmpInTarget {
        CloseRaw(d.written);
        return Again, sp';
      }
      TmpInReady(d.written);
      tmpInTarget := tmpInTarget - sizeToCopy;
      AtCopyDirect();
      BetweenIsReady(d.written);
      r := Stop(tmpInTarget + (if frameInfo.blockChecksum then BF_SIZE else 0) + BH_SIZE);
    }

    method DoGetBlockChecksum(src: seq<Byte>, sp: nat, d: DstBuffer) returns (r: Outcome, sp': nat)
      requires Ready(d.written) && d.Valid() && dStage.GetBlockChecksum? && sp <= |src|
      modifies this
      ensures sp <= sp' <= |src| && Stepped(d, src, sp, sp', r)
    {
      hide Suffix, Last64, Part, Run, Ready, Valid, Between, StageOk, Alpha, ReadLE, Collected;
      ReadyIsBetween(d.written);
      AtGetBlockChecksum();
      ghost var c, got := g, Part(header, 0, tmpInSize);
      var crcSrc;
      if |src| - sp >= 4 && tmpInSize == 0 {
        EmptyPart(header);
        sp' := sp + 4;
        crcSrc := src[sp..sp'];
        assert [] + crcSrc == crcSrc;
      } else {
        var n := CollectHeaderInFrame(src, sp, BF_SIZE, d.written);
        sp' := sp + n;
        if tmpInSize < BF_SIZE {
          RunCollect(k, c, RawChecksum(rawBlock), BF_SIZE, got, src[sp..sp']);
          AtGetBlockChecksum();
          BetweenIsReady(d.written);
          return Stop(1), sp';
        }
        crcSrc := Part(header, 0, BF_SIZE);
      }
      RunCollect(k, c, RawChecksum(rawBlock), BF_SIZE, got, src[sp..sp']);
      CollectedRawChecksum(k, c, rawBlock, crcSrc);
      RunOn(k, old(Alpha()), src, sp, sp');
      if ReadLE(crcSrc, 0, BF_SIZE) != k.xxh32(blockChecksum) {
        BetweenIsRecoverable(d.written);
        return Error, sp';
      }
      TmpInReady(d.written);
      Enter(GetBlockHeader, tmpInSize);
      AtBlock();
      BetweenIsReady(d.written);
      return Again, sp';
    }

    method CollectHeaderInFrame(src: seq<Byte>, sp: nat, target: nat, ghost w: seq<Byte>) returns (n: nat)
      requires Between(w) && sp <= |src| && tmpInSize < target <= MAX_FH_SIZE
      modifies this`header, this`tmpInSize
      ensures Between(w) && sp + n <= |src|
      ensures tmpInSize == old(tmpInSize) + n <= target && (tmpInSize < target ==> sp + n == |src|)
      ensures |header| == MAX_FH_SIZE == old(|header|)
      ensures Part(header, 0, tmpInSize) == old(Part(header, 0, tmpInSize)) + src[sp..sp + n]
    {
      hide Suffix, Last64, Part, Overlay, DictBytes;
      n := CollectHeader(src, sp, target, 0);
    }

    // -------------------------------------------------------------------------
    // Compressed blocks
    // -------------------------------------------------------------------------

    lemma AtCBlock()
      requires dStage.GetCBlock? || dStage.StoreCBlock?
      ensures StageOk() ==>
        && 0 < tmpInTarget <= |tmpIn| && (g.info.blockChecksum ==> BF_SIZE < tmpInTarget)
        && (dStage.StoreCBlock? ==> tmpInSize < tmpInTarget)
        && Alpha() == Collect(g, CompressedBlock, tmpInTarget, if dStage.GetCBlock? then []
          else Part(tmpIn, 0, tmpInSize))
      ensures (&& |header| == MAX_FH_SIZE && 0 < tmpInTarget <= |tmpIn|
        && (g.info.blockChecksum ==> BF_SIZE < tmpInTarget)
               && (dStage.StoreCBlock? ==> tmpInSize < tmpInTarget)) ==> StageOk()
    {
    }

    method DoGetCBlock(src: seq<Byte>, sp: nat, d: DstBuffer) returns (r: Outcome, sp': nat)
      requires Ready(d.written) && d.Valid() && dStage.GetCBlock? && sp <= |src|
      modifies this, d
      ensures sp <= sp' <= |src| && Stepped(d, src, sp, sp', r)
    {
      hide Suffix, Last64, Part, Run, Ready, Valid, Between, StageOk, Alpha, Collected, DecodeBlock;
      ReadyIsBetween(d.written);
      TmpInReady(d.written);
      AtCBlock();
      if |src| - sp < tmpInTarget {
        EmptyPart(tmpIn);
        Enter(StoreCBlock, 0);
        AtCBlock();
        assert src[sp..sp] == [];
        RunNothing(k, old(Alpha()));
        BetweenIsReady(d.written);
        return Again, sp;
      }
      sp' := sp + tmpInTarget;
      var selectedIn := src[sp..sp'];
      RunCollect(k, g, CompressedBlock, tmpInTarget, [], selectedIn);
      assert [] + selectedIn == selectedIn;
      CollectedCBlock(k, g, selectedIn);
      RunOn(k, old(Alpha()), src, sp, sp');
      r := DecodeCBlock(selectedIn, d);
    }

    method DoStoreCBlock(src: seq<Byte>, sp: nat, d: DstBuffer) returns (r: Outcome, sp': nat)
      requires Ready(d.written) && d.Valid() && dStage.StoreCBlock? && sp <= |src|
      modifies this, d
      ensures sp <= sp' <= |src| && Stepped(d, src, sp, sp', r)
    {
      hide Suffix, Last64, Part, Run, Ready, Valid, Between, StageOk, Alpha, Collected, DecodeBlock;
      ReadyIsBetween(d.written);
      TmpInReady(d.written);
      AtCBlock();
      ghost var c, got := g, Part(tmpIn, 0, tmpInSize);
      var n := CollectInFrame(src, sp, tmpInTarget, d.written);
      sp' := sp + n;
      RunCollect(k, c, CompressedBlock, tmpInTarget, got, src[sp..sp']);
      if tmpInSize < tmpInTarget {
        AtCBlock();
        BetweenIsReady(d.written);
        return Stop(tmpInTarget - tmpInSize + (if frameInfo.blockChecksum then BF_SIZE else 0) + BH_SIZE), sp';
      }
      CollectedCBlock(k, c, got + src[sp..sp']);
      RunOn(k, old(Alpha()), src, sp, sp');
      r := DecodeCBlock(Part(tmpIn, 0, tmpInTarget), d);
    }

    /** The dictionary as LZ4_decompress_safe_usingDict gets it: its size must be an int. */
    method DictArgument(d: DstBuffer) returns (history: seq<Byte>)
      requires DictOk(d.written)
      ensures Last64(history) == Last64(DictBytes(d.written))
    {
      history := DictBytes(d.written);
      if dictSize > GB {
        KeepSuffix(history, WINDOW);
        history := Suffix(history, WINDOW);
      }
    }

    /** The checksum of a block that is all there. */
    method CheckBlock(selectedIn: seq<Byte>, ghost w: seq<Byte>) returns (ok: bool, data: seq<Byte>)
      requires Between(w) && |selectedIn| == tmpInTarget && (g.info.blockChecksum ==> BF_SIZE < tmpInTarget)
      modifies this`tmpInTarget
      ensures ok ==> Checked(k, g, selectedIn, data)
      ensures !ok ==> DecodeBlock(k, g, selectedIn) == Failed
    {
      hide Between, ReadLE, DecodeBlock;
      TmpInReady(w);
      data := selectedIn;
      if frameInfo.blockChecksum {
        tmpInTarget := tmpInTarget - BF_SIZE;
        data := selectedIn[..tmpInTarget];
        if ReadLE(selectedIn, tmpInTarget, BF_SIZE) != k.xxh32(data) {
          DecodeFails(k, g, selectedIn, data);
          return false, data;
        }
      }
      ok := true;
    }

    /** Decodes into dst if the block surely fits, and into tmpOut if not. */
    method DecodeChecked(data: seq<Byte>, d: DstBuffer) returns (decoded: Option<seq<Byte>>)
      requires Between(d.written) && d.Valid()
      modifies this`tmpOut, this`tmpOutBuffer, this`dictSize, this`dict, this`xxh, this`frameRemainingSize, this`g,
        this`delivered,
        this`tmpOutSize, this`tmpOutStart, this`dStage, this`tmpInSize, d
      ensures decoded == Decode(k, data, History(k, old(g)), old(g).info.maxBlockSize)
      ensures decoded.None? ==> Recoverable()
      ensures decoded.Some? ==>
        && d.Valid() && StageOk() && Ready(d.written) && Valid(d.written)
          && Alpha() == NextBlock(Add(old(g), decoded.value))
        && old(d.written) <= d.written && delivered == old(delivered) + d.written[|old(d.written)|..]
        && !dStage.GetFrameHeader?
    {
      hide Suffix, Last64, Part, Ready, Valid, Between, StageOk, Alpha, Add, History, DictBytes, Recoverable, Decode;
      TmpInReady(d.written);
      BetweenHistory(d.written);
      var direct := d.capacity - |d.written| >= frameInfo.maxBlockSize;
      if !direct {
        PlaceTmpOut(d);
      }
      var history := DictArgument(d);
      SameHistory(k, g, data, history);
      decoded := Decode(k, data, history, frameInfo.maxBlockSize);
      if decoded.None? {
        BetweenIsRecoverable(d.written);
        return;
      }
      if direct {
        Deliver(d, decoded.value);
        TmpInReady(d.written);
        Enter(GetBlockHeader, tmpInSize);
        AtBlock();
        BetweenIsReady(d.written);
        assert d.written[|old(d.written)|..] == decoded.value;
      } else {
        FillTmpOut(d, decoded.value);
        assert d.written[|old(d.written)|..] == [] && delivered + [] == delivered;
      }
    }

    /** A block is all there. */
    method DecodeCBlock(selectedIn: seq<Byte>, d: DstBuffer) returns (r: Outcome)
      requires Between(d.written) && d.Valid() && |selectedIn| == tmpInTarget && 0 < tmpInTarget
      requires g.info.blockChecksum ==> BF_SIZE < tmpInTarget
      modifies this, d
      ensures r.Error? ==> DecodeBlock(k, old(g), selectedIn) == Failed && Recoverable()
      ensures !r.Error? ==>
        && r.Again? && d.Valid() && StageOk() && Ready(d.written) && Valid(d.written)
        && Alpha() == DecodeBlock(k, old(g), selectedIn) && !dStage.GetFrameHeader?
        && old(d.written) <= d.written && delivered == old(delivered) + d.written[|old(d.written)|..]
    {
      hide *;
      BetweenIsRecoverable(d.written);
      ghost var c := g;
      var ok, data := CheckBlock(selectedIn, d.written);
      if !ok {
        return Error;
      }
      var decoded := DecodeChecked(data, d);
      DecodeSucceeds(k, c, selectedIn, data, decoded);
      r := if decoded.None? then Error else Again;
    }

    /** The history that the next block is decoded with. */
    lemma BetweenHistory(w: seq<Byte>)
      requires Between(w)
      ensures DictOk(w) && Last64(DictBytes(w)) == Last64(History(k, g))
    {
    }

    /** Room for a block in tmpOutBuffer, behind the history if that is there too. */
    method PlaceTmpOut(d: DstBuffer)
      requires Between(d.written)
      modifies this`tmpOut, this`tmpOutBuffer, this`dictSize
      ensures Between(d.written) && DictOk(d.written) && Last64(DictBytes(d.written)) == Last64(History(k, g))
      ensures frameInfo.linked ==> Placed()
    {
      hide Suffix, Last64, Part;
      BetweenHistory(d.written);
      if frameInfo.linked {
        if dict.Tmp? {
          if dictSize > 128 * KB {
            ghost var past := DictBytes(d.written);
            OverlaidFront(tmpOutBuffer, tmpOutBuffer[dictSize - WINDOW..dictSize]);
            assert Suffix(past, WINDOW) == tmpOutBuffer[dictSize - WINDOW..dictSize] by { TailOfPart(tmpOutBuffer,
              dictSize, WINDOW); }
            KeepSuffix(past, WINDOW);
            CompactTmp();
          }
          tmpOut := dictSize;
        } else {
          tmpOut := Min(dictSize, WINDOW);
        }
        HistoryFits(DictBytes(d.written), k.dictionary + g.content, tmpOut);
      }
    }

    method CompactTmp()
      requires 2 * WINDOW <= dictSize <= |tmpOutBuffer|
      modifies this`tmpOutBuffer, this`dictSize
      ensures dictSize == WINDOW && tmpOutBuffer
        == Overlay(old(tmpOutBuffer), 0, old(tmpOutBuffer[dictSize - WINDOW..dictSize]))
    {
      tmpOutBuffer := Overlay(tmpOutBuffer, 0, tmpOutBuffer[dictSize - WINDOW..dictSize]);
      dictSize := WINDOW;
    }

    /** Where a block of a linked frame goes in tmpOutBuffer. */
    ghost predicate Placed()
      reads this`tmpOut, this`dict, this`dictSize, this`g
    {
      && tmpOut <= 128 * KB && (if dict.Tmp? then tmpOut == dictSize else WINDOW <= dictSize || tmpOut <= dictSize)
      && (WINDOW <= tmpOut || |k.dictionary| + |g.content| <= tmpOut)
    }

    /** The rest of the block in tmpOut. */
    ghost function Waiting(): seq<Byte>
      requires tmpOutStart <= tmpOutSize && tmpOut + tmpOutSize <= |tmpOutBuffer|
      reads this`tmpOut, this`tmpOutStart, this`tmpOutSize, this`tmpOutBuffer
    {
      Part(tmpOutBuffer, tmpOut + tmpOutStart, tmpOutSize - tmpOutStart)
    }

    /** Sizes and hashes inside a frame. */
    ghost predicate Steady()
      reads this`header, this`maxBufferSize, this`alloc, this`tmpIn, this`frameRemainingSize, this`g, this`frameInfo,
        this`xxh
    {
      && |header| == MAX_FH_SIZE
      && IsBlockSize(alloc) && |tmpIn| == alloc + BF_SIZE && alloc <= maxBufferSize <= alloc + 128 * KB
      && frameRemainingSize == g.remaining < U64_MODULUS && g.info == frameInfo && IsBlockSize(frameInfo.maxBlockSize)
      && frameInfo.maxBlockSize + BF_SIZE <= |tmpIn| && Needed(frameInfo) <= maxBufferSize
      && (frameInfo.contentChecksum ==> xxh == g.content)
    }

    ghost predicate Sized()
      reads this`header, this`tmpOutBuffer, this`maxBufferSize, this`alloc, this`tmpIn, this`frameRemainingSize, this`g,
        this`frameInfo, this`xxh
    {
      Steady() && |tmpOutBuffer| == maxBufferSize
    }

    /** A block is being flushed. */
    ghost predicate Flushing(w: seq<Byte>)
      reads this`header, this`tmpOutBuffer, this`maxBufferSize, this`alloc, this`tmpIn, this`frameRemainingSize, this`g,
        this`frameInfo, this`xxh, this`delivered
      reads this`dict, this`dictSize, this`tmpOut, this`tmpOutStart, this`tmpOutSize
    {
      && Sized() && tmpOutStart <= tmpOutSize && tmpOut + tmpOutSize <= |tmpOutBuffer|
      && g.before + g.content == delivered + Waiting()
      && |w| <= |delivered| && Suffix(delivered, |w|) == w && |w| + |Waiting()| <= |g.content|
      && tmpOutSize <= |g.content| && Suffix(g.content, tmpOutSize) == Part(tmpOutBuffer, tmpOut, tmpOutSize)
      && DictOk(w)
      && if frameInfo.linked then
           && Last64(DictBytes(w) + Waiting()) == Last64(k.dictionary + g.content)
           && (if dict.Tmp? then dictSize == tmpOut + tmpOutStart
             else WINDOW <= dictSize || tmpOut + tmpOutStart <= dictSize)
           && (dict.UserDict? || dict.Null? ==> tmpOutStart == 0)
           && (WINDOW <= tmpOut || |k.dictionary| + |g.content| <= tmpOut + tmpOutSize)
         else DictBytes(w) == k.dictionary && (dict.Null? || dict.UserDict?) && tmpOut == 0
    }

    lemma FlushingIsReady(w: seq<Byte>)
      requires Flushing(w) && dStage.FlushOut?
      ensures StageOk() && Ready(w) && Valid(w) && Alpha() == NextBlock(g)
    {
      hide Suffix, Last64, Part;
    }

    lemma ReadyIsFlushing(w: seq<Byte>)
      requires Ready(w) && dStage.FlushOut?
      ensures StageOk() && Flushing(w) && Alpha() == NextBlock(g)
    {
      hide Valid, Flushing;
      ValidIsFlushing(w);
    }

    lemma ValidIsFlushing(w: seq<Byte>)
      requires Valid(w) && dStage.FlushOut?
      ensures StageOk() && Flushing(w) && Alpha() == NextBlock(g)
    {
      hide Suffix, Last64, Part;
    }

    /** A decoded block goes to tmpOut. */
    method StoreBlock(bytes: seq<Byte>)
      requires tmpOut + |bytes| <= |tmpOutBuffer| && (dict.Tmp? ==> dictSize <= tmpOut)
      modifies this`tmpOutBuffer, this`tmpOutSize, this`tmpOutStart
      ensures |tmpOutBuffer| == old(|tmpOutBuffer|) && tmpOutStart == 0 && tmpOutSize == |bytes|
      ensures Part(tmpOutBuffer, tmpOut, tmpOutSize) == bytes && Waiting() == bytes
      ensures dict.Tmp? ==> Part(tmpOutBuffer, 0, dictSize) == old(Part(tmpOutBuffer, 0, dictSize))
    {
      tmpOutBuffer := Overlay(tmpOutBuffer, tmpOut, bytes);
      tmpOutSize, tmpOutStart := |bytes|, 0;
    }

    /** The hash and what remains of the size, for a block that is not delivered yet. */
    method AccountWaiting(bytes: seq<Byte>)
      requires Sized()
      modifies this`xxh, this`frameRemainingSize, this`g
      ensures Sized() && g == Add(old(g), bytes)
    {
      if frameInfo.contentChecksum {
        xxh := xxh + bytes;
      }
      if frameInfo.contentSize != 0 {
        frameRemainingSize := (frameRemainingSize + U64_MODULUS - |bytes| % U64_MODULUS) % U64_MODULUS;
      }
      g := Add(g, bytes);
    }

    method PutInTmpOut(bytes: seq<Byte>, ghost w: seq<Byte>)
      requires Between(w) && |bytes| <= frameInfo.maxBlockSize && (frameInfo.linked ==> Placed())
      requires frameInfo.linked ==> Last64(DictBytes(w) + bytes) == Last64(k.dictionary + (g.content + bytes))
      requires Suffix(g.content + bytes, |bytes|) == bytes && g.before + (g.content + bytes) == delivered + bytes
      modifies this`xxh, this`frameRemainingSize, this`g, this`tmpOutBuffer, this`tmpOutSize, this`tmpOutStart
      ensures Flushing(w) && g == Add(old(g), bytes)
    {
      hide Suffix, Last64, Part;
      StoreBlock(bytes);
      AccountWaiting(bytes);
    }

    /** The block is in tmpOut and waits to be flushed. */
    method FillTmpOut(d: DstBuffer, bytes: seq<Byte>)
      requires Between(d.written) && |bytes| <= frameInfo.maxBlockSize && d.Valid()
      requires frameInfo.linked ==> Placed()
      modifies this`xxh, this`frameRemainingSize, this`g, this`tmpOutBuffer, this`tmpOutSize, this`tmpOutStart,
        this`dStage,
        this`tmpInSize
      ensures dStage.FlushOut? && StageOk() && Ready(d.written) && Valid(d.written)
      ensures Alpha() == NextBlock(Add(old(g), bytes)) && delivered == old(delivered)
    {
      hide Suffix, Last64, Part, Ready, Valid, StageOk, Alpha, Flushing, Placed, DictOk, Add;
      ghost var w := d.written;
      Written(k.dictionary, g, delivered, w, bytes);
      if frameInfo.linked {
        GrowBoth(DictBytes(w), k.dictionary + g.content, bytes);
      }
      SuffixOfGrown(g.content, bytes);
      PutInTmpOut(bytes, w);
      Enter(FlushOut, tmpInSize);
      FlushingIsReady(w);
    }

    /** Part of the block in tmpOut goes to dst. */
    method FlushSome(d: DstBuffer)
      requires Flushing(d.written) && d.Valid()
      modifies d, this`tmpOutStart, this`delivered, this`dict, this`dictSize, this`tmpOutBuffer
      ensures Flushing(d.written) && d.Valid() && (tmpOutStart != tmpOutSize ==> |d.written| == d.capacity)
      ensures old(d.written) <= d.written && delivered == old(delivered) + d.written[|old(d.written)|..]
    {
      hide Suffix, Last64, Flushing, FlushedPart, Sized, DictOk, DictBytes;
      FlushingBounds(d.written);
      var sizeToCopy := Min(tmpOutSize - tmpOutStart, d.capacity - |d.written|);
      var bytes := Part(tmpOutBuffer, tmpOut + tmpOutStart, sizeToCopy);
      ghost var w, start, done := d.written, tmpOutStart, delivered;
      d.Write(bytes);
      FlushHistory(d, bytes, w);
      delivered := delivered + bytes;
      tmpOutStart := tmpOutStart + sizeToCopy;
      NextIsFlushing(d.written, bytes, start, done);
      assert d.written[|w|..] == bytes;
    }

    /** `bytes` have been written and are not counted as delivered yet; `rest` waits after them. */
    ghost predicate Counted(w: seq<Byte>, bytes: seq<Byte>, rest: seq<Byte>, block: seq<Byte>, start: nat,
        done: seq<Byte>)
      reads this`header, this`maxBufferSize, this`alloc, this`tmpIn, this`frameRemainingSize, this`g, this`frameInfo,
        this`xxh,
        this`tmpOut, this`tmpOutSize
    {
      && Steady() && start + |bytes| + |rest| == tmpOutSize == |block| && tmpOut + tmpOutSize <= maxBufferSize
      && g.before + g.content == done + bytes + rest
      && |w| <= |done + bytes| && Suffix(done + bytes, |w|) == w && |w| + |rest| <= |g.content|
      && tmpOutSize <= |g.content| && Suffix(g.content, tmpOutSize) == block
      && (frameInfo.linked ==> WINDOW <= tmpOut || |k.dictionary| + |g.content| <= tmpOut + tmpOutSize)
    }

    /** The history knows them. */
    ghost predicate Known(w: seq<Byte>, rest: seq<Byte>, end: nat)
      reads this`tmpOutBuffer, this`maxBufferSize, this`g, this`frameInfo, this`dict, this`dictSize, this`tmpOut
    {
      && |tmpOutBuffer| == maxBufferSize && DictOk(w)
      && if frameInfo.linked then
           && Last64(DictBytes(w) + rest) == Last64(k.dictionary + g.content)
           && (if dict.Tmp? then dictSize == tmpOut + end
             else dict.DstAt? && (WINDOW <= dictSize || tmpOut + end <= dictSize))
         else DictBytes(w) == k.dictionary && (dict.Null? || dict.UserDict?) && tmpOut == 0
    }

    ghost predicate FlushedPart(w: seq<Byte>, bytes: seq<Byte>, start: nat, done: seq<Byte>)
      reads this`header, this`tmpOutBuffer, this`maxBufferSize, this`alloc, this`tmpIn, this`frameRemainingSize, this`g,
        this`frameInfo, this`xxh
      reads this`dict, this`dictSize, this`tmpOut, this`tmpOutSize
    {
      && start + |bytes| <= tmpOutSize && tmpOut + tmpOutSize <= |tmpOutBuffer|
      && var rest := Part(tmpOutBuffer, tmpOut + start + |bytes|, tmpOutSize - start - |bytes|);
      && Counted(w, bytes, rest, Part(tmpOutBuffer, tmpOut, tmpOutSize), start, done) && Known(w, rest, start + |bytes|)
    }

    lemma NextIsFlushing(w: seq<Byte>, bytes: seq<Byte>, start: nat, done: seq<Byte>)
      requires FlushedPart(w, bytes, start, done) && delivered == done + bytes && tmpOutStart == start + |bytes|
      ensures Flushing(w)
    {
      hide Suffix, Last64, Part, Steady;
    }

    lemma BeginFlush(w: seq<Byte>, bytes: seq<Byte>, rest: seq<Byte>)
      requires Flushing(w) && tmpOutStart + |bytes| + |rest| == tmpOutSize && tmpOut + tmpOutSize <= |tmpOutBuffer|
      requires bytes == Part(tmpOutBuffer, tmpOut + tmpOutStart, |bytes|)
      requires rest == Part(tmpOutBuffer, tmpOut + tmpOutStart + |bytes|, |rest|)
      ensures Counted(w + bytes, bytes, rest, Part(tmpOutBuffer, tmpOut, tmpOutSize), tmpOutStart, delivered)
      ensures |tmpOutBuffer| == maxBufferSize && DictOk(w)
      ensures !frameInfo.linked ==> Known(w + bytes, rest, tmpOutStart + |bytes|)
      ensures frameInfo.linked ==>
        192 * KB <= maxBufferSize && Last64(DictBytes(w) + (bytes + rest)) == Last64(k.dictionary + g.content)
      ensures |w + bytes| + |rest| <= |k.dictionary + g.content|
      ensures Suffix(k.dictionary + g.content, |w + bytes| + |rest|) == w + bytes + rest
    {
      hide Suffix, Last64, Part;
      PartGrows(tmpOutBuffer, tmpOut + tmpOutStart, |bytes|, |rest|);
      WrittenAndWaiting(k.dictionary, g, delivered, w, bytes, rest);
    }

    lemma BeginFlushLinked(w: seq<Byte>, bytes: seq<Byte>, rest: seq<Byte>)
      requires Flushing(w) && tmpOutStart + |bytes| + |rest| == tmpOutSize && tmpOut + tmpOutSize <= |tmpOutBuffer|
      requires bytes == Part(tmpOutBuffer, tmpOut + tmpOutStart, |bytes|)
      requires rest == Part(tmpOutBuffer, tmpOut + tmpOutStart + |bytes|, |rest|)
      ensures frameInfo.linked ==> InTmp(bytes, rest, k.dictionary + g.content)
    {
      hide Last64, Part, Steady, DictOk, DictBytes;
      SuffixOfAppend(k.dictionary, g.content, tmpOutSize);
    }

    /** The history follows a part of the block in tmpOut. */
    method FlushHistory(d: DstBuffer, bytes: seq<Byte>, ghost w: seq<Byte>)
      requires Flushing(w) && d.written == w + bytes && tmpOutStart + |bytes| <= tmpOutSize
      requires tmpOut + tmpOutSize <= |tmpOutBuffer| && bytes == Part(tmpOutBuffer, tmpOut + tmpOutStart, |bytes|)
      modifies this`dict, this`dictSize, this`tmpOutBuffer
      ensures FlushedPart(d.written, bytes, tmpOutStart, delivered)
    {
      hide Suffix, Last64, Part, Flushing, Counted, DictOk, DictBytes, InTmp;
      ghost var rest := Part(tmpOutBuffer, tmpOut + tmpOutStart + |bytes|, tmpOutSize - tmpOutStart - |bytes|);
      BeginFlush(w, bytes, rest);
      BeginFlushLinked(w, bytes, rest);
      if frameInfo.linked {
        assert DictBytes(w) + bytes + rest == DictBytes(w) + (bytes + rest);
        UpdateDict(d, bytes, true, w, rest, k.dictionary + g.content);
        SameTail(old(tmpOutBuffer), tmpOutBuffer, tmpOut, tmpOutSize, tmpOutStart + |bytes|);
      }
    }

    method DoFlushOut(src: seq<Byte>, sp: nat, d: DstBuffer) returns (r: Outcome, sp': nat)
      requires Ready(d.written) && d.Valid() && dStage.FlushOut? && sp <= |src|
      modifies this, d
      ensures sp <= sp' <= |src| && Stepped(d, src, sp, sp', r)
    {
      hide Suffix, Last64, Part, Run, Ready, Valid, StageOk, Alpha, Flushing, Between;
      ReadyIsFlushing(d.written);
      assert src[sp..sp] == [];
      RunNothing(k, Alpha());
      if !d.isNull {
        FlushSome(d);
      }
      FlushingBounds(d.written);
      if tmpOutStart == tmpOutSize {
        FlushedIsBetween(d.written);
        Enter(GetBlockHeader, tmpInSize);
        AtBlock();
        BetweenIsReady(d.written);
        return Again, sp;
      }
      FlushingIsReady(d.written);
      return Stop(BH_SIZE), sp;
    }

    lemma FlushingBounds(w: seq<Byte>)
      requires Flushing(w)
      ensures |header| == MAX_FH_SIZE && tmpOutStart <= tmpOutSize && tmpOut + tmpOutSize <= |tmpOutBuffer|
    {
    }

    lemma FlushedIsBetween(w: seq<Byte>)
      requires Flushing(w) && tmpOutStart == tmpOutSize
      ensures Between(w)
    {
      hide Suffix, Last64;
      assert Waiting() == [];
      assert delivered + [] == delivered && DictBytes(w) + [] == DictBytes(w);
    }

    // -------------------------------------------------------------------------
    // The end of a frame
    // -------------------------------------------------------------------------

    lemma AtSuffix()
      requires dStage.GetSuffix? || dStage.StoreSuffix?
      ensures StageOk() ==>
        && (dStage.GetSuffix? ==> Alpha() == EndOfBlocks(g))
        && (dStage.StoreSuffix? ==>
          tmpInSize < 4 <= |tmpIn| && g.info.contentChecksum
          && Alpha() == Collect(g, ContentChecksum, 4, Part(tmpIn, 0, tmpInSize)))
      ensures
        && |header| == MAX_FH_SIZE
        && (dStage.StoreSuffix? ==> tmpInSize < 4 <= |tmpIn| && g.info.contentChecksum)
        ==> StageOk()
    {
    }

    lemma EndingFacts(w: seq<Byte>)
      requires Ending(w)
      ensures |header| == MAX_FH_SIZE && 4 <= |tmpIn| && g.info == frameInfo && frameRemainingSize == g.remaining
      ensures frameInfo.contentChecksum ==> xxh == g.content
    {
    }

    /** The frame is complete. */
    method FinishFrame(ghost w: seq<Byte>)
      requires Ending(w)
      modifies this`dStage, this`dict, this`dictSize, this`g
      ensures StageOk() && Valid(w) && Alpha() == NewFrame(old(g)) && dStage.GetFrameHeader?
    {
      hide Last64, Part;
      NothingPendingYet(g.before + g.content, delivered);
      assert g.before + g.content + [] == g.before + g.content;
      SuffixShorter(delivered, w);
      ResetContext();
    }

    method DoGetSuffix(src: seq<Byte>, sp: nat, d: DstBuffer) returns (r: Outcome, sp': nat)
      requires Ready(d.written) && d.Valid() && dStage.GetSuffix? && sp <= |src|
      modifies this
      ensures sp <= sp' <= |src| && Stepped(d, src, sp, sp', r)
    {
      hide Suffix, Last64, Part, Run, Ready, Valid, StageOk, Alpha, Ending, Collected, ReadLE;
      ReadyIsEnding(d.written);
      AtSuffix();
      EndingFacts(d.written);
      assert src[sp..sp] == [];
      RunNothing(k, Alpha());
      RunOn(k, Alpha(), src, sp, sp);
      EndingIsRecoverable(d.written);
      if frameRemainingSize != 0 {
        return Error, sp;
      }
      if !frameInfo.contentChecksum {
        FinishFrame(d.written);
        return Stop(0), sp;
      }
      if |src| - sp < 4 {
        EmptyPart(tmpIn);
        Enter(StoreSuffix, 0);
        AtSuffix();
        EndingIsReady(d.written);
        return Again, sp;
      }
      sp' := sp + 4;
      ghost var c := g;
      RunCollect(k, c, ContentChecksum, 4, [], src[sp..sp']);
      assert [] + src[sp..sp'] == src[sp..sp'];
      CollectedSuffix(k, c, src[sp..sp']);
      RunOn(k, Alpha(), src, sp, sp');
      r := CheckSuffix(src[sp..sp'], d.written);
    }

    method DoStoreSuffix(src: seq<Byte>, sp: nat, d: DstBuffer) returns (r: Outcome, sp': nat)
      requires Ready(d.written) && d.Valid() && dStage.StoreSuffix? && sp <= |src|
      modifies this
      ensures sp <= sp' <= |src| && Stepped(d, src, sp, sp', r)
    {
      hide Suffix, Last64, Part, Run, Ready, Valid, StageOk, Alpha, Ending, Collected, ReadLE;
      ReadyIsEnding(d.written);
      AtSuffix();
      EndingFacts(d.written);
      ghost var c, got := g, Part(tmpIn, 0, tmpInSize);
      var n := CollectAtEnd(src, sp, 4, d.written);
      sp' := sp + n;
      RunCollect(k, c, ContentChecksum, 4, got, src[sp..sp']);
      if tmpInSize < 4 {
        AtSuffix();
        EndingIsReady(d.written);
        return Stop(4 - tmpInSize), sp';
      }
      CollectedSuffix(k, c, got + src[sp..sp']);
      RunOn(k, old(Alpha()), src, sp, sp');
      r := CheckSuffix(Part(tmpIn, 0, 4), d.written);
    }

    method CollectAtEnd(src: seq<Byte>, sp: nat, target: nat, ghost w: seq<Byte>) returns (n: nat)
      requires Ending(w) && sp <= |src| && tmpInSize < target <= |tmpIn|
      modifies this`tmpIn, this`tmpInSize
      ensures Ending(w) && |tmpIn| == old(|tmpIn|) && sp + n <= |src|
      ensures tmpInSize == old(tmpInSize) + n <= target && (tmpInSize < target ==> sp + n == |src|)
      ensures Part(tmpIn, 0, tmpInSize) == old(Part(tmpIn, 0, tmpInSize)) + src[sp..sp + n]
    {
      hide Suffix, Last64, Part, Overlay;
      n := CollectTmpIn(src, sp, target);
    }

    method CheckSuffix(selectedIn: seq<Byte>, ghost w: seq<Byte>) returns (r: Outcome)
      requires Ending(w) && |selectedIn| == 4 && frameInfo.contentChecksum
      modifies this`dStage, this`dict, this`dictSize, this`g
      ensures r.Error? ==> ReadLE(selectedIn, 0, 4) != k.xxh32(old(g.content)) && Recoverable()
      ensures !r.Error? ==>
        r.Stop? && r.hint == 0 && dStage.GetFrameHeader? && ReadLE(selectedIn, 0, 4) == k.xxh32(old(g.content))
                            && StageOk() && Valid(w) && Alpha() == NewFrame(old(g))
    {
      hide Suffix, Last64, Part, Ending, ReadLE;
      EndingFacts(w);
      EndingIsRecoverable(w);
      if ReadLE(selectedIn, 0, 4) != k.xxh32(xxh) {
        return Error;
      }
      FinishFrame(w);
      return Stop(0);
    }

    // -------------------------------------------------------------------------
    // Whole calls
    // -------------------------------------------------------------------------

    /** LZ4F_createDecompressionContext. */
    constructor (k: Codec)
      ensures this.k == k && Consistent() && stale == 0 && taken == [] && delivered == []
    {
      this.k := k;
      frameInfo, dStage, frameRemainingSize, maxBufferSize := NoInfo(), GetFrameHeader, 0, 0;
      tmpIn, tmpInSize, tmpInTarget, tmpOutBuffer := [], 0, 0, [];
      dict, dictSize, tmpOut, tmpOutSize, tmpOutStart := Null, 0, 0, 0, 0;
      xxh, blockChecksum, header := [], [], seq(MAX_FH_SIZE, _ => 0);
      g, delivered, rawBlock, magic, alloc := Context(NoInfo(), [], [], 0), [], [], [], 0;
      stale, taken := 0, [];
      new;
      IdleIsValid([]);
    }

    /** LZ4F_resetDecompressionContext by the caller, at any time, also after an error. What is left of the announced
        size of the frame that was given up is not reset. */
    method Reset()
      requires Consistent() || Recoverable()
      modifies this
      ensures Consistent() && stale == old(frameRemainingSize) && taken == [] && delivered == []
    {
      ResetIsSafe();
      dStage, dict, dictSize := GetFrameHeader, Null, 0;
      g, delivered := Context(NoInfo(), [], [], frameRemainingSize), [];
      stale, taken := frameRemainingSize, [];
      IdleIsValid([]);
    }

    /** Between calls: the context stands for the state in which the byte-at-a-time machine is after all the input
        since the context was made or reset. */
    ghost predicate Consistent()
      reads this
    {
      Valid([]) && !dStage.GetSuffix? && Alpha() == Run(k, StartWith(stale), taken)
    }

    lemma ResetIsSafe()
      requires Consistent() || Recoverable()
      ensures Recoverable()
    {
      hide Alpha, Run, OutputOk, FlushOk, HistoryOk;
    }

    /** What has been delivered, with what waits to be flushed, is what the machine has put out. */
    lemma DeliveredIsOutput()
      requires Consistent()
      ensures !Run(k, StartWith(stale), taken).Failed?
      ensures delivered + Pending() == Output(Run(k, StartWith(stale), taken))
      ensures !dStage.FlushOut? ==> delivered == Output(Run(k, StartWith(stale), taken))
    {
      hide Run, Part, Suffix, Last64, BuffersOk, FlushOk, HistoryOk;
      assert g.before + g.content + [] == g.before + g.content && delivered + [] == delivered;
      OutputOfAlpha();
    }

    lemma OutputOfAlpha()
      requires StageOk() && !dStage.GetSuffix?
      ensures !Alpha().Failed? && (dStage.FlushOut? ==> Alpha() == NextBlock(g))
      ensures Output(Alpha()) == g.before + g.content
    {
      hide Part, ReadLE;
      assert g.before + g.content + [] == g.before + g.content;
    }

    method DoStage(src: seq<Byte>, sp: nat, d: DstBuffer) returns (r: Outcome, sp': nat)
      requires Ready(d.written) && d.Valid() && sp <= |src|
      modifies this, d
      ensures sp <= sp' <= |src| && Stepped(d, src, sp, sp', r)
    {
      hide *;
      match dStage {
        case GetFrameHeader => r, sp' := DoGetFrameHeader(src, sp, d);
        case StoreFrameHeader => r, sp' := DoStoreFrameHeader(src, sp, d);
        case Init => r, sp' := DoInit(src, sp, d);
        case GetBlockHeader => r, sp' := DoGetBlockHeader(src, sp, d);
        case StoreBlockHeader => r, sp' := DoStoreBlockHeader(src, sp, d);
        case CopyDirect => r, sp' := DoCopyDirect(src, sp, d);
        case GetBlockChecksum => r, sp' := DoGetBlockChecksum(src, sp, d);
        case GetCBlock => r, sp' := DoGetCBlock(src, sp, d);
        case StoreCBlock => r, sp' := DoStoreCBlock(src, sp, d);
        case FlushOut => r, sp' := DoFlushOut(src, sp, d);
        case GetSuffix => r, sp' := DoGetSuffix(src, sp, d);
        case StoreSuffix => r, sp' := DoStoreSuffix(src, sp, d);
        case GetSFrameSize => r, sp' := DoGetSFrameSize(src, sp, d);
        case StoreSFrameSize => r, sp' := DoStoreSFrameSize(src, sp, d);
        case SkipSkippable => r, sp' := DoSkipSkippable(src, sp, d);
      }
    }

    /** LZ4F_decompress_usingDict up to the first bytes of a frame: the dictionary of the caller is the history. */
    method UseDictionary(d: DstBuffer)
      requires Valid([]) && d.written == []
      modifies this`dict, this`dictSize
      ensures Ready([]) && Valid([]) && Alpha() == old(Alpha()) && delivered == old(delivered) && dStage == old(dStage)
    {
      hide Suffix, Last64, Part;
      if dStage.GetFrameHeader? || dStage.StoreFrameHeader? || dStage.Init? {
        dict := if k.dictionary == [] then Null else UserDict;
        dictSize := |k.dictionary|;
        NothingPending(g.before, g.content, delivered);
        assert k.dictionary + [] == k.dictionary;
      }
    }

    /** One more stage of a call that started in `start`. */
    method Continue(src: seq<Byte>, sp: nat, d: DstBuffer, ghost start: State, ghost done: seq<Byte>)
      returns (r: Outcome, sp': nat)
      requires Ready(d.written) && d.Valid() && sp <= |src|
      requires StageOk() && Run(k, start, src[..sp]) == Alpha() && delivered == done + d.written
      modifies this, d
      ensures sp <= sp' <= |src|
      ensures r.Error? ==> Run(k, start, src) == Failed && Recoverable()
      ensures !r.Error? ==>
        && d.Valid() && Valid(d.written) && StageOk() && Run(k, start, src[..sp']) == Alpha()
          && delivered == done + d.written
      ensures r.Again? ==> Ready(d.written) && (sp < sp' || Rank(dStage) < old(Rank(dStage)))
      ensures Settled(r, old(dStage), dStage, sp < sp', sp' == |src|, |d.written| == d.capacity)
    {
      hide Ready, Valid, StageOk, Alpha, Recoverable, Run, Settled;
      ghost var mid, w := Alpha(), d.written;
      r, sp' := DoStage(src, sp, d);
      RunFurther(k, start, src, sp, sp', mid);
      if !r.Error? {
        ValidIsStageOk(d.written);
        if delivered != old(delivered) {
          WrittenFurther(done, w, d.written, delivered);
        }
      }
    }

    lemma ValidIsStageOk(w: seq<Byte>)
      requires Valid(w)
      ensures StageOk()
    {
    }

    ghost method Record(stale: nat, taken: seq<Byte>)
      requires Valid([])
      modifies this`stale, this`taken
      ensures Valid([]) && Alpha() == old(Alpha()) && this.stale == stale && this.taken == taken
    {
      hide *;
      this.stale, this.taken := stale, taken;
    }

    /** LZ4F_decompress_usingDict: any input, any room in dst. */
    method Decompress(src: seq<Byte>, d: DstBuffer) returns (r: Outcome, consumed: nat)
      requires Consistent() && d.Valid() && d.written == []
      modifies this, d
      ensures consumed <= |src| && !r.Again? && stale == old(stale)
      ensures r.Error? ==> Run(k, StartWith(stale), old(taken) + src) == Failed && Recoverable()
      ensures r.Stop? ==>
        d.Valid() && Consistent() && taken == old(taken) + src[..consumed] && delivered == old(delivered) + d.written
      ensures r.Stop? ==> Settled(r, old(dStage), dStage, consumed > 0, consumed == |src|, |d.written| == d.capacity)
    {
      hide Ready, Valid, StageOk, Alpha, Recoverable, Run, Rank;
      ValidIsStageOk([]);
      ghost var r0, input, done, start, first := stale, taken, delivered, Alpha(), dStage;
      UseDictionary(d);
      ValidIsStageOk([]);
      RunNothing(k, start);
      assert src[..0] == [] && delivered + [] == delivered;
      r, consumed := Again, 0;
      while r.Again?
        invariant consumed <= |src|
        invariant r.Error? ==> Run(k, start, src) == Failed && Recoverable()
        invariant !r.Error? ==>
          && d.Valid() && Valid(d.written) && StageOk() && Run(k, start, src[..consumed]) == Alpha()
            && delivered == done + d.written
        invariant r.Again? ==> Ready(d.written) && ((consumed == 0 && dStage == first) || !dStage.GetFrameHeader?)
        invariant r.Stop? ==> Settled(r, first, dStage, consumed > 0, consumed == |src|, |d.written| == d.capacity)
        decreases r.Again?, |src| - consumed, Rank(dStage)
      {
        r, consumed := Continue(src, consumed, d, start, done);
      }
      RunAppend(k, StartWith(r0), input, src);
      if r.Stop? {
        RunAppend(k, StartWith(r0), input, src[..consumed]);
        PreserveHistory(d);
        Record(r0, input + src[..consumed]);
      } else {
        stale := r0;
      }
    }
  }

  lemma RunFurther(k: Codec, start: State, src: seq<Byte>, sp: nat, sp': nat, mid: State)
    requires sp <= sp' <= |src| && Run(k, start, src[..sp]) == mid
    ensures Run(k, start, src[..sp']) == Run(k, mid, src[sp..sp']) && Run(k, start, src) == Run(k, mid, src[sp..])
  {
    hide Run;
    assert src[..sp'] == src[..sp] + src[sp..sp'] && src == src[..sp] + src[sp..];
    RunAppend(k, start, src[..sp], src[sp..sp']);
    RunAppend(k, start, src[..sp], src[sp..]);
  }

  lemma WrittenFurther(done: seq<Byte>, w: seq<Byte>, w': seq<Byte>, delivered: seq<Byte>)
    requires w <= w' && delivered == done + w + w'[|w|..]
    ensures delivered == done + w'
  {
    assert w' == w + w'[|w|..];
  }

  lemma SkippableLength(magic: seq<Byte>)
    requires IsSkippable(magic)
    ensures |magic| == 4 && magic[..4] == magic
  {
  }

  lemma ShortSkipHeader(c: Context, got: seq<Byte>)
    requires |got| == 4
    ensures SkipHeaderState(c, got) == Collect(c, FrameHeader, MIN_FH_SIZE, got)
  {
  }

  lemma FullSkipHeader(c: Context, got: seq<Byte>)
    requires |got| == MIN_FH_SIZE
    ensures SkipHeaderState(c, got) == Collect(c, SkipHeader, 8, got)
  {
  }

  lemma HeaderPart(header: seq<Byte>, n: nat)
    requires 4 <= n <= |header|
    ensures header[..n] == Part(header, 0, n) == header[..4] + Part(header, 4, n - 4) && header[..n][..4] == header[..4]
  {
  }

  lemma CollectedSuffix(k: Codec, c: Context, got: seq<Byte>)
    requires |got| == 4
    ensures Collected(k, c, ContentChecksum, got) == if ReadLE(got, 0, 4) == k.xxh32(c.content) then NewFrame(c)
      else Failed
  {
  }

  lemma WrittenAndWaiting(dictionary: seq<Byte>, c: Context, delivered: seq<Byte>, w: seq<Byte>, bytes: seq<Byte>,
      rest: seq<Byte>)
    requires c.before + c.content == delivered + (bytes + rest) && |w| + |bytes + rest| <= |c.content|
    requires |w| <= |delivered| && Suffix(delivered, |w|) == w
    ensures c.before + c.content == delivered + bytes + rest
    ensures Suffix(delivered + bytes, |w + bytes|) == w + bytes
    ensures Suffix(dictionary + c.content, |w + bytes| + |rest|) == w + bytes + rest
  {
    var all := c.before + c.content;
    assert all == delivered + bytes + rest;
    assert Suffix(all, |w + bytes| + |rest|) == w + bytes + rest;
    assert Suffix(all, |w + bytes| + |rest|) == Suffix(c.content, |w + bytes| + |rest|);
  }

  lemma SameTail(buffer: seq<Byte>, buffer': seq<Byte>, at: nat, size: nat, done: nat)
    requires at + size <= |buffer| && at + size <= |buffer'| && done <= size
      && Part(buffer, at, size) == Part(buffer', at, size)
    ensures Part(buffer, at + done, size - done) == Part(buffer', at + done, size - done)
  {
    assert Part(buffer, at + done, size - done) == Part(buffer, at, size)[done..];
    assert Part(buffer', at + done, size - done) == Part(buffer', at, size)[done..];
  }

  lemma SuffixShorter(s: seq<Byte>, w: seq<Byte>)
    requires |w| <= |s| && Suffix(s, |w|) == w
    ensures |w| <= |s|
  {
  }

  lemma SuffixOfGrown(a: seq<Byte>, b: seq<Byte>)
    ensures Suffix(a + b, |b|) == b
  {
  }

  lemma CollectedCBlock(k: Codec, c: Context, got: seq<Byte>)
    ensures Collected(k, c, CompressedBlock, got) == DecodeBlock(k, c, got)
  {
  }

  lemma DecodeFails(k: Codec, c: Context, got: seq<Byte>, data: seq<Byte>)
    requires c.info.blockChecksum && BF_SIZE <= |got| && data == got[..|got| - BF_SIZE]
    requires ReadLE(got, |got| - BF_SIZE, BF_SIZE) != k.xxh32(data)
    ensures DecodeBlock(k, c, got) == Failed
  {
  }

  /** The data of a block whose checksum, if it has one, is right. */
  ghost predicate Checked(k: Codec, c: Context, got: seq<Byte>, data: seq<Byte>) {
    if c.info.blockChecksum then
      BF_SIZE < |got| && data == got[..|got| - BF_SIZE] && ReadLE(got, |got| - BF_SIZE, BF_SIZE) == k.xxh32(data)
    else
      data == got
  }

  lemma DecodeSucceeds(k: Codec, c: Context, got: seq<Byte>, data: seq<Byte>, decoded: Option<seq<Byte>>)
    requires Checked(k, c, got, data)
    requires decoded == Decode(k, data, History(k, c), c.info.maxBlockSize)
    ensures DecodeBlock(k, c, got) == if decoded.None? then Failed else NextBlock(Add(c, decoded.value))
  {
  }

  lemma SameHistory(k: Codec, c: Context, data: seq<Byte>, history: seq<Byte>)
    requires Last64(history) == Last64(History(k, c))
    ensures Decode(k, data, history, c.info.maxBlockSize) == Decode(k, data, History(k, c), c.info.maxBlockSize)
  {
  }

  lemma AddInfo(c: Context, bytes: seq<Byte>)
    ensures Add(c, bytes).info == c.info
  {
  }

  lemma RawDone(c: Context, block: seq<Byte>)
    ensures RawOf(c, 0, block) == if c.info.blockChecksum then Collect(c, RawChecksum(block), BF_SIZE, [])
      else NextBlock(c)
  {
  }

  lemma CollectedRawChecksum(k: Codec, c: Context, block: seq<Byte>, got: seq<Byte>)
    requires |got| == BF_SIZE
    ensures Collected(k, c, RawChecksum(block), got) == if ReadLE(got, 0, BF_SIZE) == k.xxh32(block) then NextBlock(c)
      else Failed
  {
  }

  lemma Written(dictionary: seq<Byte>, c: Context, delivered: seq<Byte>, w: seq<Byte>, bytes: seq<Byte>)
    requires c.before + c.content == delivered && |w| <= |c.content| && Suffix(delivered, |w|) == w
    ensures c.before + (c.content + bytes) == delivered + bytes
    ensures dictionary + (c.content + bytes) == dictionary + c.content + bytes
    ensures Suffix(delivered + bytes, |w + bytes|) == w + bytes
    ensures Suffix(dictionary + (c.content + bytes), |w + bytes|) == w + bytes
  {
    assert c.content == delivered[|c.before|..];
    assert Suffix(c.content, |w|) == w;
  }

  lemma CollectedBlockHeader(k: Codec, c: Context, got: seq<Byte>)
    requires |got| == BH_SIZE
    ensures Collected(k, c, BlockHeader, got) == OpenBlock(c, ReadLE(got, 0, BH_SIZE))
  {
  }

  lemma NothingPendingYet(before: seq<Byte>, delivered: seq<Byte>)
    requires before == delivered
    ensures before + [] == delivered + []
  {
  }

  lemma RunOn(k: Codec, s: State, src: seq<Byte>, sp: nat, sp': nat)
    requires sp <= sp' <= |src|
    ensures Run(k, s, src[sp..]) == Run(k, Run(k, s, src[sp..sp']), src[sp'..])
    ensures Run(k, Failed, src[sp'..]) == Failed
  {
    assert src[sp..] == src[sp..sp'] + src[sp'..];
    RunAppend(k, s, src[sp..sp'], src[sp'..]);
    RunFailed(k, src[sp'..]);
  }

  lemma HeaderKeepsMagic(header: seq<Byte>, before: seq<Byte>, size: nat)
    requires size <= |header| == |before| && Part(header, 0, size) == Part(before, 0, size)
    ensures 4 <= size ==> header[..4] == before[..4]
  {
    if 4 <= size {
      assert header[..4] == Part(header, 0, size)[..4] && before[..4] == Part(before, 0, size)[..4];
    }
  }

  lemma CollectedHeader(k: Codec, c: Context, got: seq<Byte>)
    ensures Collected(k, c, FrameHeader, got) == OpenFrame(k, c, got)
  {
  }

  lemma SizeAfterMagic(magic: seq<Byte>, src: seq<Byte>, sp: nat)
    requires |magic| == 4 && sp + 4 <= |src|
    ensures ReadLE(magic + src[sp..sp + 4], 4, 4) == ReadLE(src, sp, 4)
  {
    var part := src[sp..sp + 4];
    assert At(src, sp, part) && At(magic + part, 4, part);
    ReadInside(src, sp, part, 0, 4);
    ReadInside(magic + part, 4, part, 0, 4);
  }

  lemma SizeInHeader(magic: seq<Byte>, header: seq<Byte>)
    requires |magic| == 4 && 8 <= |header|
    ensures ReadLE(magic + Part(header, 4, 4), 4, 4) == ReadLE(header, 4, 4)
  {
    var part := Part(header, 4, 4);
    assert At(header, 4, part) && At(magic + part, 4, part);
    ReadInside(header, 4, part, 0, 4);
    ReadInside(magic + part, 4, part, 0, 4);
  }

  /** The header of a skippable frame, from wherever it is read. */
  lemma RunSkipHeader(k: Codec, c: Context, got: seq<Byte>, bytes: seq<Byte>)
    requires 4 <= |got| < 8 && |got| + |bytes| <= 8 && IsSkippable(got[..4])
    ensures |got| + |bytes| < 8 ==> Run(k, SkipHeaderState(c, got), bytes) == SkipHeaderState(c, got + bytes)
    ensures |got| + |bytes| == 8 ==> Run(k, SkipHeaderState(c, got), bytes) == SkipOf(c, ReadLE(got + bytes, 4, 4))
  {
    hide DecodeHeader;
    var all := got + bytes;
    if |got| < MIN_FH_SIZE <= |all| {
      var first, second := bytes[..MIN_FH_SIZE - |got|], bytes[MIN_FH_SIZE - |got|..];
      assert bytes == first + second && got + first == all[..MIN_FH_SIZE] && got + first + second == all;
      RunAppend(k, SkipHeaderState(c, got), first, second);
      RunCollect(k, c, FrameHeader, MIN_FH_SIZE, got, first);
      assert all[..MIN_FH_SIZE][..4] == got[..4];
      SkippableMagic(k, all[..MIN_FH_SIZE]);
      RunCollect(k, c, SkipHeader, 8, got + first, second);
    } else {
      RunCollect(k, c, if |got| < MIN_FH_SIZE then FrameHeader else SkipHeader, if |got| < MIN_FH_SIZE then MIN_FH_SIZE
        else 8, got, bytes);
    }
  }

  lemma RunNothing(k: Codec, s: State)
    ensures Run(k, s, []) == s
  {
  }

  lemma OpenedFrame(k: Codec, c: Context, s: seq<Byte>)
    requires MIN_FH_SIZE <= |s| && DecodeHeader(k, s).Frame?
    ensures var h := DecodeHeader(k, s);
            OpenFrame(k, c, s) == NextBlock(Context(h.info, c.before, c.content, if h.sized then h.info.contentSize
              else c.remaining))
  {
    hide DecodeHeader;
  }

  lemma NothingPending(before: seq<Byte>, content: seq<Byte>, delivered: seq<Byte>)
    requires before + content == delivered + [] && content == []
    ensures before == delivered
  {
    assert before + [] == before && delivered + [] == delivered;
  }

  lemma NoPart(s: seq<Byte>, at: nat)
    requires at <= |s|
    ensures Part(s, at, 0) == []
  {
  }

  lemma EmptyPart(s: seq<Byte>)
    ensures Part(s, 0, 0) == []
  {
  }

  function SkipHeaderState(c: Context, got: seq<Byte>): State {
    if |got| < MIN_FH_SIZE then Collect(c, FrameHeader, MIN_FH_SIZE, got) else Collect(c, SkipHeader, 8, got)
  }
}
