/** The heterogeneous queue of the transit crate: what push appends, and the two readers that walk its bytes. */
module TransitQueue {
  import opened Basics
  import opened Bytes

  const POINTER_SIZE := 8
  const U32_SIZE := 4

  // ---------------------------------------------------------------------------
  // Types and objects
  // ---------------------------------------------------------------------------

  /** IN_PROC_SIZE. */
  datatype InProcSize = Const(size: nat) | Dynamic

  datatype Member = Member(name: string, typeName: string, offset: nat, size: nat, isReference: bool)

  datatype Udt = Udt(name: string, size: nat, members: seq<Member>, isReference: bool)

  /** A pushed value: the index of its type and the bytes that write_value appends. */
  datatype Obj = Obj(typeIndex: Byte, payload: seq<Byte>)

  /** The sizes of the types of a queue, in order. */
  type Sizes = seq<InProcSize>

  /** The asserts of push. */
  predicate Pushable(types: Sizes, o: Obj) {
    && o.typeIndex as nat < |types|
    && match types[o.typeIndex]
       case Const(n) => |o.payload| == n
       case Dynamic => |o.payload| < 0x1_0000_0000
  }

  predicate AllPushable(types: Sizes, os: seq<Obj>) {
    forall o :: o in os ==> Pushable(types, o)
  }

  /** What comes before the payload: the type index, and the size if it is dynamic. */
  function Header(types: Sizes, o: Obj): (h: seq<Byte>)
    ensures 1 <= |h|
  {
    [o.typeIndex] + if o.typeIndex as nat < |types| && types[o.typeIndex].Dynamic? then LE(|o.payload|, U32_SIZE)
      else []
  }

  function ObjBytes(types: Sizes, o: Obj): seq<Byte> {
    Header(types, o) + o.payload
  }

  function QueueBytes(types: Sizes, os: seq<Obj>): seq<Byte>
    decreases |os|
  {
    if os == [] then [] else ObjBytes(types, os[0]) + QueueBytes(types, os[1..])
  }

  // ---------------------------------------------------------------------------
  // Reading: where the objects stand
  // ---------------------------------------------------------------------------

  /** An object found in the bytes: its type index, where its payload starts and how long that is. */
  datatype Frame = Frame(typeIndex: Byte, start: nat, size: nat)

  /** One step of a reader that knows these sizes. None: the index is unknown, or the size of a dynamic object is
      not in the buffer. */
  function ReadFrame(types: Sizes, buffer: seq<Byte>, offset: nat): (r: Option<Frame>)
    requires offset < |buffer|
    ensures r.Some? ==> offset < r.value.start && r.value.typeIndex as nat < |types|
  {
    var index := buffer[offset];
    if index as nat >= |types| then None
    else
      match types[index]
      case Const(n) => Some(Frame(index, offset + 1, n))
      case Dynamic =>
        if offset + 1 + U32_SIZE > |buffer| then None
        else Some(Frame(index, offset + 1 + U32_SIZE, ReadLE(buffer, offset + 1, U32_SIZE)))
  }

  /** The frames that a reader meets from `offset` to the end. */
  function Frames(types: Sizes, buffer: seq<Byte>, offset: nat): Option<seq<Frame>>
    decreases |buffer| - offset
  {
    if offset >= |buffer| then Some([])
    else
      match ReadFrame(types, buffer, offset)
      case None => None
      case Some(f) =>
        match Frames(types, buffer, f.start + f.size)
        case None => None
        case Some(fs) => Some([f] + fs)
  }

  /** What read_dependencies and parse_object_buffer know: the sizes of the metadata, where 0 means dynamic. */
  function MetaSizes(udts: seq<Udt>): (r: Sizes)
    ensures |r| == |udts|
  {
    seq(|udts|, i requires 0 <= i < |udts| => if udts[i].size == 0 then Dynamic else Const(udts[i].size))
  }

  /** Where an object really stands. */
  function FrameOf(types: Sizes, o: Obj, offset: nat): Frame {
    Frame(o.typeIndex, offset + |Header(types, o)|, |o.payload|)
  }

  function FramesOf(types: Sizes, os: seq<Obj>, offset: nat): (fs: seq<Frame>)
    ensures |fs| == |os|
    decreases |os|
  {
    if os == [] then []
    else [FrameOf(types, os[0], offset)] + FramesOf(types, os[1..], offset + |ObjBytes(types, os[0])|)
  }

  lemma {:induction false} QueueBytesSnoc(types: Sizes, os: seq<Obj>, o: Obj)
    ensures QueueBytes(types, os + [o]) == QueueBytes(types, os) + ObjBytes(types, o)
    decreases |os|
  {
    hide ObjBytes;
    if os == [] {
      assert os + [o] == [o] && [o][1..] == [];
    } else {
      assert (os + [o])[0] == os[0] && (os + [o])[1..] == os[1..] + [o];
      QueueBytesSnoc(types, os[1..], o);
    }
  }

  /** An object is read back when the reader has the right size for its type. */
  lemma ObjReadsBack(types: Sizes, known: Sizes, o: Obj, buffer: seq<Byte>, offset: nat)
    requires Pushable(types, o) && At(buffer, offset, ObjBytes(types, o))
    requires o.typeIndex as nat < |known| && known[o.typeIndex] == types[o.typeIndex]
    ensures offset < |buffer| && ReadFrame(known, buffer, offset) == Some(FrameOf(types, o, offset))
    ensures At(buffer, offset + |Header(types, o)|, o.payload)
  {
    AtAppend(buffer, offset, Header(types, o), o.payload);
    assert buffer[offset] == buffer[offset..offset + |Header(types, o)|][0];
    if known[o.typeIndex].Dynamic? {
      AtAppend(buffer, offset, [o.typeIndex], LE(|o.payload|, U32_SIZE));
      assert Pow256(4) == 0x1_0000_0000;
      ReadsBack(buffer, offset + 1, |o.payload|, U32_SIZE);
    }
  }

  /** The objects from `offset` to the end of the buffer. */
  ghost predicate Remaining(types: Sizes, os: seq<Obj>, buffer: seq<Byte>, offset: nat) {
    At(buffer, offset, QueueBytes(types, os)) && offset + |QueueBytes(types, os)| == |buffer|
  }

  lemma RemainingTail(types: Sizes, os: seq<Obj>, buffer: seq<Byte>, offset: nat)
    requires Remaining(types, os, buffer, offset) && os != []
    ensures At(buffer, offset, ObjBytes(types, os[0]))
    ensures Remaining(types, os[1..], buffer, offset + |ObjBytes(types, os[0])|)
  {
    hide ObjBytes;
    AtAppend(buffer, offset, ObjBytes(types, os[0]), QueueBytes(types, os[1..]));
  }

  lemma RemainingEnd(types: Sizes, os: seq<Obj>, buffer: seq<Byte>, offset: nat)
    requires Remaining(types, os, buffer, offset)
    ensures os == [] <==> offset >= |buffer|
  {
  }

  lemma FramesStep(known: Sizes, buffer: seq<Byte>, offset: nat, f: Frame)
    requires offset < |buffer| && ReadFrame(known, buffer, offset) == Some(f)
    ensures Frames(known, buffer, offset) ==
            match Frames(known, buffer, f.start + f.size) case None => None case Some(fs) => Some([f] + fs)
  {
    hide ReadFrame;
  }

  /** A reader that has the right sizes meets every object where it stands, and ends at the end of the buffer. */
  lemma {:induction false} FramesReadBack(types: Sizes, known: Sizes, os: seq<Obj>, buffer: seq<Byte>, offset: nat)
    requires AllPushable(types, os) && Remaining(types, os, buffer, offset)
    requires forall o :: o in os ==> o.typeIndex as nat < |known| && known[o.typeIndex] == types[o.typeIndex]
    ensures Frames(known, buffer, offset) == Some(FramesOf(types, os, offset))
    decreases |os|
  {
    hide Remaining, Pushable, ReadFrame, At, Header;
    RemainingEnd(types, os, buffer, offset);
    if os != [] {
      assert Pushable(types, os[0]);
      RemainingTail(types, os, buffer, offset);
      ObjReadsBack(types, known, os[0], buffer, offset);
      FramesStep(known, buffer, offset, FrameOf(types, os[0], offset));
      FramesReadBack(types, known, os[1..], buffer, offset + |ObjBytes(types, os[0])|);
      hide Frames;
    }
  }

  /** The process reads back what it pushed. */
  lemma InProcessFraming(types: Sizes, os: seq<Obj>)
    requires AllPushable(types, os)
    ensures Frames(types, QueueBytes(types, os), 0) == Some(FramesOf(types, os, 0))
  {
    assert Remaining(types, os, QueueBytes(types, os), 0);
    FramesReadBack(types, types, os, QueueBytes(types, os), 0);
  }

  /** Metadata that starts with that of the queue's types, in order. The size that reflect() gives is that of a type
      of constant size, and 0 for the others. */
  predicate Describes(udts: seq<Udt>, types: Sizes) {
    && |types| <= |udts|
    && forall i :: 0 <= i < |types| ==> udts[i].size == match types[i] case Const(n) => n case Dynamic => 0
  }

  predicate HasSize(types: Sizes, o: Obj) {
    o.typeIndex as nat < |types| && types[o.typeIndex] != Const(0)
  }

  predicate AllHaveSize(types: Sizes, os: seq<Obj>) {
    forall o :: o in os ==> HasSize(types, o)
  }

  /** An object of an empty type is not found where it stands. */
  lemma EmptyIsMissed(types: Sizes, udts: seq<Udt>, o: Obj, buffer: seq<Byte>, offset: nat)
    requires Pushable(types, o) && Describes(udts, types) && At(buffer, offset, ObjBytes(types, o))
      && !HasSize(types, o)
    ensures offset < |buffer| && ReadFrame(MetaSizes(udts), buffer, offset) != Some(FrameOf(types, o, offset))
  {
    AtAppend(buffer, offset, Header(types, o), o.payload);
    assert buffer[offset] == buffer[offset..offset + |Header(types, o)|][0];
  }

  /** Both readers agree on where objects stand exactly when no object of an empty type was pushed: the metadata
      of such a type says that its size is dynamic. */
  lemma {:induction false} ParserFraming(types: Sizes, udts: seq<Udt>, os: seq<Obj>, buffer: seq<Byte>, offset: nat)
    requires AllPushable(types, os) && Describes(udts, types) && Remaining(types, os, buffer, offset)
    ensures Frames(MetaSizes(udts), buffer, offset) == Some(FramesOf(types, os, offset)) <==> AllHaveSize(types, os)
    decreases |os|
  {
    hide Remaining, Pushable, ReadFrame, At, Header, MetaSizes, HasSize;
    RemainingEnd(types, os, buffer, offset);
    if os != [] {
      var known, next := MetaSizes(udts), offset + |ObjBytes(types, os[0])|;
      assert Pushable(types, os[0]) && os == [os[0]] + os[1..];
      RemainingTail(types, os, buffer, offset);
      ParserFraming(types, udts, os[1..], buffer, next);
      if HasSize(types, os[0]) {
        KnownSize(types, udts, os[0]);
        ObjReadsBack(types, known, os[0], buffer, offset);
        FramesStep(known, buffer, offset, FrameOf(types, os[0], offset));
        SameTail(FrameOf(types, os[0], offset), FramesOf(types, os[1..], next));
      } else {
        EmptyIsMissed(types, udts, os[0], buffer, offset);
        if ReadFrame(known, buffer, offset).Some? {
          var f := ReadFrame(known, buffer, offset).value;
          FramesStep(known, buffer, offset, f);
          assert forall fs: seq<Frame> :: ([f] + fs)[0] == f;
          assert FramesOf(types, os, offset)[0] != f;
        }
      }
    }
  }

  lemma KnownSize(types: Sizes, udts: seq<Udt>, o: Obj)
    requires Pushable(types, o) && Describes(udts, types) && HasSize(types, o)
    ensures o.typeIndex as nat < |MetaSizes(udts)| && MetaSizes(udts)[o.typeIndex] == types[o.typeIndex]
  {
  }

  lemma SameTail(f: Frame, rest: seq<Frame>)
    ensures forall other: seq<Frame> :: [f] + other == [f] + rest <==> other == rest
  {
    forall other: seq<Frame> | [f] + other == [f] + rest
      ensures other == rest
    {
      assert other == ([f] + other)[1..] && rest == ([f] + rest)[1..];
    }
  }

  // ---------------------------------------------------------------------------
  // The queue and its iterator
  // ---------------------------------------------------------------------------

  class Queue {
    const types: Sizes
    var buffer: seq<Byte>
    var objCounter: nat
    ghost var pushed: seq<Obj>

    ghost predicate Valid()
      reads this
    {
      AllPushable(types, pushed) && buffer == QueueBytes(types, pushed) && objCounter == |pushed|
    }

    constructor (types: Sizes)
      ensures Valid() && pushed == [] && this.types == types
    {
      this.types := types;
      buffer, objCounter, pushed := [], 0, [];
    }

    method Push(o: Obj)
      requires Valid() && Pushable(types, o)
      modifies this
      ensures Valid() && pushed == old(pushed) + [o]
      ensures buffer == old(buffer) + ObjBytes(types, o)
      ensures buffer == old(buffer) + [o.typeIndex] + (if types[o.typeIndex].Dynamic? then LE(|o.payload|, 4) else [])
        + o.payload
    {
      hide QueueBytes, Pushable;
      PushableIndex(types, o);
      QueueBytesSnoc(types, pushed, o);
      ghost var before := buffer;
      objCounter := objCounter + 1;
      buffer := buffer + [o.typeIndex];
      if types[o.typeIndex].Dynamic? {
        buffer := buffer + LE(|o.payload|, U32_SIZE);
      }
      assert buffer == before + Header(types, o);
      buffer := buffer + o.payload;
      assert buffer == before + (Header(types, o) + o.payload);
      pushed := pushed + [o];
    }
  }

  /** The iterator over the objects pushed in the same process. */
  class QueueIterator {
    const queue: Queue
    var offset: nat
    ghost var seen: nat

    /** What is left to read are the objects not seen yet. */
    ghost predicate Valid()
      reads this, queue
    {
      queue.Valid() && seen <= |queue.pushed| && Remaining(queue.types, queue.pushed[seen..], queue.buffer, offset)
    }

    constructor (queue: Queue)
      requires queue.Valid()
      ensures Valid() && this.queue == queue && seen == 0
    {
      this.queue := queue;
      offset, seen := 0, 0;
      new;
      assert queue.pushed[0..] == queue.pushed;
    }

    method Next() returns (r: Option<Obj>)
      requires Valid()
      modifies this
      ensures Valid()
      ensures old(seen) < |queue.pushed| ==> r == Some(queue.pushed[old(seen)]) && seen == old(seen) + 1
      ensures old(seen) == |queue.pushed| ==> r == None && seen == old(seen)
    {
      hide ReadFrame, Remaining, Pushable, QueueBytes, ObjBytes, Header;
      ghost var rest := queue.pushed[seen..];
      RemainingEnd(queue.types, rest, queue.buffer, offset);
      if offset >= |queue.buffer| {
        return None;
      }
      assert rest[0] == queue.pushed[seen] && rest[1..] == queue.pushed[seen + 1..];
      assert Pushable(queue.types, rest[0]);
      NextReadsBack(queue.types, rest, queue.buffer, offset);
      var frame := ReadFrame(queue.types, queue.buffer, offset).value;
      r := Some(Obj(frame.typeIndex, queue.buffer[frame.start..frame.start + frame.size]));
      offset := frame.start + frame.size;
      seen := seen + 1;
    }
  }

  lemma NextReadsBack(types: Sizes, os: seq<Obj>, buffer: seq<Byte>, offset: nat)
    requires os != [] && Pushable(types, os[0]) && Remaining(types, os, buffer, offset)
    ensures offset < |buffer|
    ensures var f := ReadFrame(types, buffer, offset);
            && f.Some? && f.value.start + f.value.size <= |buffer|
            && os[0] == Obj(f.value.typeIndex, buffer[f.value.start..f.value.start + f.value.size])
            && Remaining(types, os[1..], buffer, f.value.start + f.value.size)
  {
    hide Remaining, ReadFrame, Header, Pushable;
    var o := os[0];
    PushableIndex(types, o);
    RemainingTail(types, os, buffer, offset);
    ObjReadsBack(types, types, o, buffer, offset);
    ObjSize(types, o);
  }

  lemma PushableIndex(types: Sizes, o: Obj)
    requires Pushable(types, o)
    ensures o.typeIndex as nat < |types|
  {
  }

  lemma ObjSize(types: Sizes, o: Obj)
    ensures |ObjBytes(types, o)| == |Header(types, o)| + |o.payload|
  {
  }
}
