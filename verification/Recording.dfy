/** Recording streams: events are pushed in a current block, which is swapped for a new one and delivered to the sink.
    Any number of threads push and flush one stream, step by step, under its mutex. */
module Recording {
  import opened Basics

  /** An event, and the bytes that it takes in its queue: its type index at least. */
  datatype Event = Event(payload: nat, bytes: nat)

  datatype Block = Block(offset: nat, events: seq<Event>)

  function Size(events: seq<Event>): nat {
    if events == [] then 0 else events[0].bytes + Size(events[1..])
  }

  function Concat(blocks: seq<Block>): seq<Event> {
    if blocks == [] then [] else blocks[0].events + Concat(blocks[1..])
  }

  /** Blocks that are not empty and follow each other without a gap. */
  ghost predicate Tiled(blocks: seq<Block>, from: nat) {
    blocks == [] || (blocks[0].offset == from && blocks[0].events != []
      && Tiled(blocks[1..], from + |blocks[0].events|))
  }

  lemma {:induction false} TiledAppend(blocks: seq<Block>, b: Block, from: nat)
    requires Tiled(blocks, from) && b.events != [] && b.offset == from + |Concat(blocks)|
    ensures Tiled(blocks + [b], from) && Concat(blocks + [b]) == Concat(blocks) + b.events
    decreases |blocks|
  {
    var all := blocks + [b];
    if blocks == [] {
      assert all == [b] && all[1..] == [] && b.events + [] == b.events && [] + b.events == b.events;
    } else {
      assert all[0] == blocks[0] && all[1..] == blocks[1..] + [b];
      TiledAppend(blocks[1..], b, from + |blocks[0].events|);
      assert blocks[0].events + (Concat(blocks[1..]) + b.events) == blocks[0].events + Concat(blocks[1..]) + b.events;
    }
  }

  /** The number that a reader gives an event, from the offset of its block and its place in it, is its place among
      all. */
  lemma {:induction false} NumberedByOffset(blocks: seq<Block>, from: nat, j: nat, k: nat)
    requires Tiled(blocks, from) && j < |blocks| && k < |blocks[j].events|
    ensures from <= blocks[j].offset && blocks[j].offset + k - from < |Concat(blocks)|
    ensures Concat(blocks)[blocks[j].offset + k - from] == blocks[j].events[k]
    decreases |blocks|
  {
    if j > 0 {
      NumberedByOffset(blocks[1..], from + |blocks[0].events|, j - 1, k);
    }
  }

  /** Later blocks have greater offsets: the same numbers are never used twice. */
  lemma {:induction false} OffsetsRise(blocks: seq<Block>, from: nat, i: nat, j: nat)
    requires Tiled(blocks, from) && i < j < |blocks|
    ensures blocks[i].offset + |blocks[i].events| <= blocks[j].offset
    decreases |blocks|
  {
    if i > 0 {
      OffsetsRise(blocks[1..], from + |blocks[0].events|, i - 1, j - 1);
    } else {
      BlockNotEmpty(blocks[1..], from + |blocks[0].events|, j - 1);
    }
  }

  lemma {:induction false} BlockNotEmpty(blocks: seq<Block>, from: nat, j: nat)
    requires Tiled(blocks, from) && j < |blocks|
    ensures blocks[j].events != [] && from <= blocks[j].offset
    decreases |blocks|
  {
    if j > 0 {
      BlockNotEmpty(blocks[1..], from + |blocks[0].events|, j - 1);
    }
  }

  lemma {:induction false} SizeAppend(events: seq<Event>, e: Event)
    ensures Size(events + [e]) == Size(events) + e.bytes
  {
    if events != [] {
      assert (events + [e])[1..] == events[1..] + [e];
      SizeAppend(events[1..], e);
    }
  }

  // ---------------------------------------------------------------------------
  // Threads
  // ---------------------------------------------------------------------------

  /** The two recorders. In Rust a thread that has filled the block gives the lock back and takes it again to flush, and
      the sink is called under the lock; in Unreal it keeps the lock, and the sink is called after it. */
  datatype Recorder = Recorder(capacity: nat, padding: nat, rust: bool)

  /** Where a thread is. `asked` says that a flush was asked for, and not brought about by a full block. */
  datatype Place = Idle | InPush(e: Event) | AfterPush | WantFlush | InFlush(asked: bool) | Deliver(index: nat)

  datatype Action = Push(e: Event) | Flush | SetFull | Go

  /** `asked` says of every block that was swapped whether a flush had been asked for. */
  datatype State = State(block: Block, threshold: nat, lock: Option<nat>, places: seq<Place>,
                         swapped: seq<Block>, asked: seq<bool>, delivered: seq<nat>, pushed: seq<Event>)

  predicate Holds(p: Place, rust: bool) {
    p.InPush? || p.AfterPush? || p.InFlush? || (rust && p.Deliver?)
  }

  function Threshold(r: Recorder): nat {
    if r.capacity < r.padding then 0 else r.capacity - r.padding
  }

  /** The threshold leaves room for the padding: from there on a block counts as full. */
  lemma ThresholdIs(r: Recorder)
    ensures r.padding <= r.capacity ==> Threshold(r) + r.padding == r.capacity
    ensures r.capacity < r.padding ==> Threshold(r) == 0
  {
  }

  /** EventStream::is_full, which compares with > in Rust and >= in Unreal. */
  predicate IsFull(r: Recorder, s: State) {
    if r.rust then Size(s.block.events) > s.threshold else Size(s.block.events) >= s.threshold
  }

  function Start(r: Recorder, threads: nat): State {
    State(Block(0, []), Threshold(r), None, seq(threads, _ => Idle), [], [], [], [])
  }

  predicate CanStep(s: State, t: nat, a: Action) {
    t < |s.places| &&
    match a
    case SetFull => true
    case Push(e) => s.places[t].Idle? && s.lock.None? && e.bytes > 0
    case Flush => s.places[t].Idle? && s.lock.None?
    case Go => !s.places[t].Idle? && (s.places[t].WantFlush? ==> s.lock.None?)
  }

  function Goto(s: State, t: nat, p: Place, lock: Option<nat>): State
    requires t < |s.places|
  {
    s.(places := s.places[t := p], lock := lock)
  }

  /** The block that is there goes to the sink; the next one starts where it ends. */
  function Swap(r: Recorder, s: State, asked: bool): State {
    s.(swapped := s.swapped + [s.block], asked := s.asked + [asked],
      block := Block(s.block.offset + |s.block.events|, []),
      threshold := Threshold(r))
  }

  function Step(r: Recorder, s: State, t: nat, a: Action): State
    requires CanStep(s, t, a)
  {
    match a
    case SetFull => s.(threshold := 0)
    case Push(e) => Goto(s, t, InPush(e), Some(t))
    case Flush => Goto(s, t, InFlush(true), Some(t))
    case Go =>
      match s.places[t]
      case Idle => s
      case InPush(e) =>
        Goto(s.(block := s.block.(events := s.block.events + [e]), pushed := s.pushed + [e]), t, AfterPush, Some(t))
      case AfterPush =>
        if !IsFull(r, s) then Goto(s, t, Idle, None)
        else if r.rust then Goto(s, t, WantFlush, None)
        else Goto(s, t, InFlush(false), Some(t))
      case WantFlush => Goto(s, t, InFlush(false), Some(t))
      case InFlush(asked) =>
        if Size(s.block.events) == 0 then Goto(s, t, Idle, None)
        else Goto(Swap(r, s, asked), t, Deliver(|s.swapped|), if r.rust then Some(t) else None)
      case Deliver(j) => Goto(s.(delivered := s.delivered + [j]), t, Idle, if r.rust then None else s.lock)
  }

  function Run(r: Recorder, s: State, schedule: seq<(nat, Action)>): Option<State>
    decreases |schedule|
  {
    if schedule == [] then Some(s)
    else if CanStep(s, schedule[0].0, schedule[0].1)
      then Run(r, Step(r, s, schedule[0].0, schedule[0].1), schedule[1..])
    else None
  }

  // ---------------------------------------------------------------------------
  // The invariant
  // ---------------------------------------------------------------------------

  /** Blocks that have been swapped out, and the current one, hold all events, in the order in which they were
      pushed. */
  ghost predicate Conserved(s: State) {
    && Tiled(s.swapped, 0) && s.block.offset == |Concat(s.swapped)| && Concat(s.swapped) + s.block.events == s.pushed
    && (forall e :: e in s.pushed ==> e.bytes > 0)
  }

  /** Who holds the lock is where the lock is held, and nobody else. */
  ghost predicate Locked(r: Recorder, s: State) {
    && (s.lock.Some? ==> s.lock.value < |s.places|)
    && (forall t :: 0 <= t < |s.places| ==> (Holds(s.places[t], r.rust) <==> s.lock == Some(t)))
    && (forall t :: 0 <= t < |s.places| && s.places[t].InPush? ==> s.places[t].e.bytes > 0)
  }

  ghost predicate InFlight(s: State, j: nat) {
    exists t :: 0 <= t < |s.places| && s.places[t] == Deliver(j)
  }

  /** Each block that has been swapped out has been delivered once or is on its way once. */
  ghost predicate EachOnce(s: State) {
    && (forall j :: j in s.delivered ==> j < |s.swapped|)
    && (forall a, b :: 0 <= a < b < |s.delivered| ==> s.delivered[a] != s.delivered[b])
    && (forall j: nat :: InFlight(s, j) ==> j < |s.swapped| && j !in s.delivered)
    && (forall t, u, j: nat ::
      0 <= t < |s.places| && 0 <= u < |s.places| && s.places[t] == Deliver(j) && s.places[u] == Deliver(j) ==> t == u)
    && (forall j: nat :: j < |s.swapped| ==> j in s.delivered || InFlight(s, j))
  }

  /** In Rust blocks are delivered in the order of their offsets. */
  ghost predicate InOrder(s: State) {
    && (forall i :: 0 <= i < |s.delivered| ==> s.delivered[i] == i)
    && (forall t :: 0 <= t < |s.places| && s.places[t].Deliver? ==>
          s.places[t].index == |s.delivered| && |s.swapped| == |s.delivered| + 1)
    && |s.delivered| <= |s.swapped| <= |s.delivered| + 1
    && (|s.swapped| == |s.delivered| + 1 ==>
      s.lock.Some? && s.lock.value < |s.places| && s.places[s.lock.value].Deliver?)
  }

  ghost predicate Inv(r: Recorder, s: State) {
    Conserved(s) && Locked(r, s) && EachOnce(s) && (r.rust ==> InOrder(s))
  }

  lemma StartInv(r: Recorder, threads: nat)
    ensures Inv(r, Start(r, threads))
  {
    StartIsEmpty(r, threads);
    hide Start;
  }

  lemma StartIsEmpty(r: Recorder, threads: nat)
    ensures var s := Start(r, threads);
      && s.block == Block(0, []) && s.lock == None && s.swapped == [] && s.delivered == [] && s.pushed == []
      && forall t :: 0 <= t < |s.places| ==> s.places[t] == Idle
  {
  }

  lemma StepConserved(r: Recorder, s: State, t: nat, a: Action)
    requires Inv(r, s) && CanStep(s, t, a)
    ensures Conserved(Step(r, s, t, a))
  {
    hide Tiled, Concat, EachOnce, InOrder, IsFull, Size;
    if a.Go? && s.places[t].InPush? {
      var e := s.places[t].e;
      assert Concat(s.swapped) + (s.block.events + [e]) == Concat(s.swapped) + s.block.events + [e];
    } else if a.Go? && s.places[t].InFlush? && Size(s.block.events) != 0 {
      assert s.block.events != [] by { EmptyHasNoSize(s.block.events); }
      TiledAppend(s.swapped, s.block, 0);
      assert s.pushed + [] == s.pushed;
    }
  }

  lemma EmptyHasNoSize(events: seq<Event>)
    ensures events == [] ==> Size(events) == 0
  {
  }

  lemma StepLocked(r: Recorder, s: State, t: nat, a: Action)
    requires Locked(r, s) && CanStep(s, t, a)
    ensures Locked(r, Step(r, s, t, a))
  {
    hide IsFull, Size;
    var s' := Step(r, s, t, a);
    forall u | 0 <= u < |s'.places|
      ensures (Holds(s'.places[u], r.rust) <==> s'.lock == Some(u))
        && (s'.places[u].InPush? ==> s'.places[u].e.bytes > 0)
    {
      assert Holds(s.places[u], r.rust) <==> s.lock == Some(u);
      assert Holds(s.places[t], r.rust) <==> s.lock == Some(t);
    }
  }

  /** A step that neither swaps nor delivers. */
  predicate Quiet(s: State, t: nat, a: Action)
    requires CanStep(s, t, a)
  {
    !a.Go? || !(s.places[t].Deliver? || (s.places[t].InFlush? && Size(s.block.events) != 0))
  }

  lemma StepQuiet(r: Recorder, s: State, t: nat, a: Action)
    requires EachOnce(s) && CanStep(s, t, a) && Quiet(s, t, a)
    ensures EachOnce(Step(r, s, t, a))
  {
    hide IsFull, Size;
    var s' := Step(r, s, t, a);
    assert forall u :: 0 <= u < |s.places| ==>
      (s'.places[u] == s.places[u] || (!s.places[u].Deliver? && !s'.places[u].Deliver?));
    forall j: nat
      ensures InFlight(s', j) <==> InFlight(s, j)
    {
      if InFlight(s, j) {
        var u :| 0 <= u < |s.places| && s.places[u] == Deliver(j);
        assert s'.places[u] == Deliver(j);
      }
    }
  }

  lemma StepSwap(r: Recorder, s: State, t: nat)
    requires EachOnce(s) && CanStep(s, t, Go) && s.places[t].InFlush? && Size(s.block.events) != 0
    ensures EachOnce(Step(r, s, t, Go))
  {
    hide Size, IsFull;
    var s' := Step(r, s, t, Go);
    var n := |s.swapped|;
    assert s'.places[t] == Deliver(n) && !InFlight(s, n) && n !in s.delivered;
    assert forall u :: 0 <= u < |s.places| ==> s.places[u] != Deliver(n);
    forall j: nat
      ensures InFlight(s', j) <==> InFlight(s, j) || j == n
    {
      if InFlight(s, j) {
        var u :| 0 <= u < |s.places| && s.places[u] == Deliver(j);
        assert s'.places[u] == Deliver(j);
      }
    }
    forall u, v, j: nat | 0 <= u < |s'.places| && 0 <= v < |s'.places| && s'.places[u] == Deliver(j)
      && s'.places[v] == Deliver(j)
      ensures u == v
    {
      assert s.places[u] != Deliver(n) && s.places[v] != Deliver(n);
    }
  }

  lemma StepDeliver(r: Recorder, s: State, t: nat)
    requires EachOnce(s) && CanStep(s, t, Go) && s.places[t].Deliver?
    ensures EachOnce(Step(r, s, t, Go))
  {
    hide Size, IsFull;
    var s' := Step(r, s, t, Go);
    var n := s.places[t].index;
    assert InFlight(s, n);
    forall j: nat
      ensures InFlight(s', j) <==> InFlight(s, j) && j != n
    {
      if InFlight(s, j) && j != n {
        var u :| 0 <= u < |s.places| && s.places[u] == Deliver(j);
        assert s'.places[u] == Deliver(j);
      }
    }
  }

  lemma StepInOrder(r: Recorder, s: State, t: nat, a: Action)
    requires r.rust && Locked(r, s) && InOrder(s) && CanStep(s, t, a)
    ensures InOrder(Step(r, s, t, a))
  {
    hide Size, IsFull;
    var s' := Step(r, s, t, a);
    assert Holds(s.places[t], true) <==> s.lock == Some(t);
    assert forall u :: 0 <= u < |s.places| && u != t ==> s'.places[u] == s.places[u];
    forall u | 0 <= u < |s'.places| && s'.places[u].Deliver?
      ensures s'.places[u].index == |s'.delivered| && |s'.swapped| == |s'.delivered| + 1
    {
      assert Holds(s.places[u], true) <==> s.lock == Some(u);
    }
  }

  lemma StepInv(r: Recorder, s: State, t: nat, a: Action)
    requires Inv(r, s) && CanStep(s, t, a)
    ensures Inv(r, Step(r, s, t, a))
  {
    hide Conserved, Locked, EachOnce, InOrder, Step, Size;
    StepConserved(r, s, t, a);
    StepLocked(r, s, t, a);
    if Quiet(s, t, a) {
      StepQuiet(r, s, t, a);
    } else if s.places[t].Deliver? {
      StepDeliver(r, s, t);
    } else {
      StepSwap(r, s, t);
    }
    if r.rust {
      StepInOrder(r, s, t, a);
    }
  }

  lemma {:induction false} RunInv(r: Recorder, s: State, schedule: seq<(nat, Action)>)
    requires Inv(r, s) && Run(r, s, schedule).Some?
    ensures Inv(r, Run(r, s, schedule).value)
    decreases |schedule|
  {
    hide Inv, Step, CanStep;
    if schedule != [] {
      StepInv(r, s, schedule[0].0, schedule[0].1);
      RunInv(r, Step(r, s, schedule[0].0, schedule[0].1), schedule[1..]);
    }
  }

  // ---------------------------------------------------------------------------
  // What it means
  // ---------------------------------------------------------------------------

  /** In every interleaving: blocks that have been delivered are not empty, none is delivered twice, and each event of
      one is the event that was pushed at the number that its reader gives it. */
  lemma DeliveredIsRecorded(r: Recorder, threads: nat, schedule: seq<(nat, Action)>, i: nat)
    requires Run(r, Start(r, threads), schedule).Some?
    requires i < |Run(r, Start(r, threads), schedule).value.delivered|
    ensures var s := Run(r, Start(r, threads), schedule).value;
            && s.delivered[i] < |s.swapped|
            && var b := s.swapped[s.delivered[i]];
               && b.events != [] && b.offset + |b.events| <= |s.pushed|
               && (forall k :: 0 <= k < |b.events| ==> s.pushed[b.offset + k] == b.events[k])
               && (forall j :: 0 <= j < |s.delivered| && j != i ==> s.delivered[j] != s.delivered[i])
  {
    StartInv(r, threads);
    RunInv(r, Start(r, threads), schedule);
    hide Start, Run;
    var s := Run(r, Start(r, threads), schedule).value;
    var n := s.delivered[i];
    assert n in s.delivered;
    BlockNotEmpty(s.swapped, 0, n);
    forall k | 0 <= k < |s.swapped[n].events|
      ensures s.swapped[n].offset + k < |s.pushed|
      ensures s.pushed[s.swapped[n].offset + k] == s.swapped[n].events[k]
    {
      NumberedByOffset(s.swapped, 0, n, k);
    }
    NumberedByOffset(s.swapped, 0, n, |s.swapped[n].events| - 1);
  }

  /** When nothing is on its way and the current block is empty, every event has been delivered: its block is one of
      those that the sink got, and nothing else is. */
  lemma NothingIsLost(r: Recorder, threads: nat, schedule: seq<(nat, Action)>)
    requires Run(r, Start(r, threads), schedule).Some?
    requires var s := Run(r, Start(r, threads), schedule).value;
             s.block.events == [] && forall t :: 0 <= t < |s.places| ==> !s.places[t].Deliver?
    ensures var s := Run(r, Start(r, threads), schedule).value;
            && Tiled(s.swapped, 0) && Concat(s.swapped) == s.pushed
            && (forall j :: 0 <= j < |s.swapped| <==> j in s.delivered)
            && (r.rust ==> s.delivered == seq(|s.swapped|, j => j))
  {
    StartInv(r, threads);
    RunInv(r, Start(r, threads), schedule);
    hide Start, Run;
    var s := Run(r, Start(r, threads), schedule).value;
    assert Concat(s.swapped) + [] == Concat(s.swapped);
    if r.rust {
      assert s.delivered == seq(|s.swapped|, j => j);
    }
  }

  /** The assertion of the Rust recorder after a swap cannot fail: an empty block is never full. In Unreal it would be
      exactly when the threshold is 0. */
  lemma EmptyIsFullIff(r: Recorder, s: State)
    requires s.block.events == []
    ensures IsFull(r, s) <==> !r.rust && s.threshold == 0
  {
  }

  lemma Next(r: Recorder, s: State, t: nat, a: Action, rest: seq<(nat, Action)>)
    requires CanStep(s, t, a)
    ensures Run(r, s, [(t, a)] + rest) == Run(r, Step(r, s, t, a), rest)
  {
    assert ([(t, a)] + rest)[1..] == rest;
  }

  // ---------------------------------------------------------------------------
  // Order
  // ---------------------------------------------------------------------------

  /** Blocks are delivered in the order of their offsets, and none is left out. */
  predicate Ordered(s: State) {
    forall i :: 0 <= i < |s.delivered| ==> s.delivered[i] == i
  }

  /** One thread in Unreal: a block is delivered before the next one is swapped. */
  ghost predicate Alone(s: State) {
    && |s.places| <= 1 && Ordered(s)
    && (forall t :: 0 <= t < |s.places| ==>
          if s.places[t].Deliver? then s.places[t].index == |s.delivered| && |s.swapped| == |s.delivered| + 1
          else |s.swapped| == |s.delivered|)
  }

  lemma StepAlone(r: Recorder, s: State, t: nat, a: Action)
    requires !r.rust && Alone(s) && CanStep(s, t, a)
    ensures Alone(Step(r, s, t, a))
  {
    hide Size, IsFull;
    assert t == 0;
    assert Step(r, s, t, a).places == [Step(r, s, t, a).places[0]];
  }

  lemma {:induction false} RunAlone(r: Recorder, s: State, schedule: seq<(nat, Action)>)
    requires !r.rust && Alone(s) && Run(r, s, schedule).Some?
    ensures Alone(Run(r, s, schedule).value)
    decreases |schedule|
  {
    hide Alone, Step, CanStep;
    if schedule != [] {
      StepAlone(r, s, schedule[0].0, schedule[0].1);
      RunAlone(r, Step(r, s, schedule[0].0, schedule[0].1), schedule[1..]);
    }
  }

  /** In Unreal a thread pushes an event into an empty block, and swaps the block: because it is full, or by a flush. */
  lemma PushAndSwap(r: Recorder, s: State, t: nat, e: Event) returns (s': State, schedule: seq<(nat, Action)>)
    requires !r.rust && t < |s.places| && s.places[t].Idle? && s.lock.None? && s.block.events == [] && 0 < e.bytes
    ensures Run(r, s, schedule) == Some(s')
    ensures s'.places == s.places[t := Deliver(|s.swapped|)] && s'.lock.None? && s'.block.events == []
    ensures |s'.swapped| == |s.swapped| + 1 && s'.delivered == s.delivered
  {
    hide Run;
    var s1 := Step(r, s, t, Push(e));
    var s2 := Step(r, s1, t, Go);
    assert s2.block.events == [e] && Size([e]) == e.bytes;
    var s3 := Step(r, s2, t, Go);
    if IsFull(r, s2) {
      s' := Step(r, s3, t, Go);
      schedule := [(t, Go)] + [];
      Next(r, s3, t, Go, []);
    } else {
      var s4 := Step(r, s3, t, Flush);
      s' := Step(r, s4, t, Go);
      schedule := [(t, Flush)] + ([(t, Go)] + []);
      Next(r, s3, t, Flush, [(t, Go)] + []);
      Next(r, s4, t, Go, []);
    }
    RunNothing(r, s');
    Next(r, s2, t, Go, schedule);
    Next(r, s1, t, Go, [(t, Go)] + schedule);
    schedule := [(t, Go)] + ([(t, Go)] + schedule);
    Next(r, s, t, Push(e), schedule);
    schedule := [(t, Push(e))] + schedule;
  }

  lemma RunNothing(r: Recorder, s: State)
    ensures Run(r, s, []) == Some(s)
  {
  }

  lemma {:induction false} RunAppend(r: Recorder, s: State, a: seq<(nat, Action)>, b: seq<(nat, Action)>)
    requires Run(r, s, a).Some?
    ensures Run(r, s, a + b) == Run(r, Run(r, s, a).value, b)
    decreases |a|
  {
    hide Step, CanStep;
    if a == [] {
      assert a + b == b;
    } else {
      assert (a + b)[0] == a[0] && (a + b)[1..] == a[1..] + b;
      RunAppend(r, Step(r, s, a[0].0, a[0].1), a[1..], b);
    }
  }

  /** In Unreal two threads can deliver their blocks in the wrong order, whatever the sizes of blocks and events. */
  lemma UnrealOutOfOrder(r: Recorder, threads: nat, e: Event) returns (schedule: seq<(nat, Action)>)
    requires !r.rust && 2 <= threads && 0 < e.bytes
    ensures var s := Run(r, Start(r, threads), schedule); s.Some? && s.value.delivered == [1, 0]
  {
    var s0 := Start(r, threads);
    var s1, a := PushAndSwap(r, s0, 0, e);
    var s2, b := PushAndSwap(r, s1, 1, e);
    var s3 := Step(r, s2, 1, Go);
    var s4 := Step(r, s3, 0, Go);
    hide Run;
    var last := [(1, Go)] + ([(0, Go)] + []);
    Next(r, s2, 1, Go, [(0, Go)] + []);
    Next(r, s3, 0, Go, []);
    RunNothing(r, s4);
    RunAppend(r, s1, b, last);
    RunAppend(r, s0, a, b + last);
    schedule := a + (b + last);
  }

  /** Blocks come to the sink in the order of their offsets, in every interleaving, exactly in Rust and for streams of
      at most one thread. */
  lemma InOrderIff(r: Recorder, threads: nat)
    ensures (forall schedule :: Run(r, Start(r, threads), schedule).Some? ==>
                                  Ordered(Run(r, Start(r, threads), schedule).value))
        <==> r.rust || threads <= 1
  {
    if r.rust || threads <= 1 {
      forall schedule | Run(r, Start(r, threads), schedule).Some?
        ensures Ordered(Run(r, Start(r, threads), schedule).value)
      {
        if r.rust {
          StartInv(r, threads);
          RunInv(r, Start(r, threads), schedule);
        } else {
          RunAlone(r, Start(r, threads), schedule);
        }
      }
    } else {
      var schedule := UnrealOutOfOrder(r, threads, Event(0, 1));
      var s := Run(r, Start(r, threads), schedule).value;
      assert s.delivered[0] == 1;
      assert !Ordered(s);
    }
  }

  // ---------------------------------------------------------------------------
  // How full blocks are
  // ---------------------------------------------------------------------------

  predicate Works(p: Place) { p.InPush? || Pushed(p) }

  predicate Pushed(p: Place) { p.AfterPush? || p.WantFlush? || p.InFlush? }

  /** One thread at a time is between the start of a push and the end of the flush that it may bring about: in Unreal by
      the lock, in Rust only if there is no other thread. */
  ghost predicate Exclusive(r: Recorder, s: State) {
    if r.rust then |s.places| <= 1
    else Locked(r, s) && forall t :: 0 <= t < |s.places| ==> !s.places[t].WantFlush?
  }

  lemma OneWorks(r: Recorder, s: State, t: nat, u: nat)
    requires Exclusive(r, s) && t < |s.places| && u < |s.places| && Works(s.places[t]) && Works(s.places[u])
    ensures t == u
  {
    if !r.rust {
      assert Holds(s.places[t], r.rust) && Holds(s.places[u], r.rust);
    }
  }

  lemma StepExclusive(r: Recorder, s: State, t: nat, a: Action)
    requires Exclusive(r, s) && CanStep(s, t, a)
    ensures Exclusive(r, Step(r, s, t, a))
  {
    hide Locked, IsFull, Size;
    if !r.rust {
      StepLocked(r, s, t, a);
    }
  }

  lemma StartExclusive(r: Recorder, threads: nat)
    requires !r.rust || threads <= 1
    ensures Exclusive(r, Start(r, threads))
  {
  }

  /** A block that was swapped although no flush had been asked for has less room left than the padding, in Unreal at
      most as much. */
  ghost predicate Filled(r: Recorder, s: State) {
    |s.asked| == |s.swapped| && forall i :: 0 <= i < |s.swapped| && !s.asked[i] ==>
      if r.rust then r.capacity < Size(s.swapped[i].events) + r.padding
      else r.capacity <= Size(s.swapped[i].events) + r.padding
  }

  ghost predicate Filling(r: Recorder, s: State) {
    && Exclusive(r, s) && s.threshold == Threshold(r) && Filled(r, s)
    && forall t :: 0 <= t < |s.places| && (s.places[t].WantFlush? || s.places[t] == InFlush(false)) ==> IsFull(r, s)
  }

  lemma StepFilling(r: Recorder, s: State, t: nat, a: Action)
    requires Filling(r, s) && CanStep(s, t, a) && !a.SetFull?
    ensures Filling(r, Step(r, s, t, a))
  {
    hide Exclusive, Size;
    StepExclusive(r, s, t, a);
    var s' := Step(r, s, t, a);
    forall u | 0 <= u < |s'.places| && (s'.places[u].WantFlush? || s'.places[u] == InFlush(false))
      ensures IsFull(r, s')
    {
      if u != t && Works(s.places[t]) {
        assert s'.places[u] == s.places[u];
        OneWorks(r, s, t, u);
      }
    }
  }

  predicate NoSetFull(schedule: seq<(nat, Action)>) { forall i :: 0 <= i < |schedule| ==> !schedule[i].1.SetFull? }

  lemma {:induction false} RunFilling(r: Recorder, s: State, schedule: seq<(nat, Action)>)
    requires Filling(r, s) && NoSetFull(schedule) && Run(r, s, schedule).Some?
    ensures Filling(r, Run(r, s, schedule).value)
    decreases |schedule|
  {
    hide Filling, Step, CanStep;
    if schedule != [] {
      assert !schedule[0].1.SetFull?;
      StepFilling(r, s, schedule[0].0, schedule[0].1);
      RunFilling(r, Step(r, s, schedule[0].0, schedule[0].1), schedule[1..]);
    }
  }

  /** No block takes more than the capacity. */
  ghost predicate Bounded(r: Recorder, s: State) {
    && Size(s.block.events) <= r.capacity
    && forall i :: 0 <= i < |s.swapped| ==> Size(s.swapped[i].events) <= r.capacity
  }

  /** Nobody is between a push and the end of its flush. */
  ghost predicate Calm(s: State) { forall t :: 0 <= t < |s.places| ==> !Pushed(s.places[t]) }

  ghost predicate Sized(r: Recorder, s: State) {
    && Exclusive(r, s) && s.threshold <= Threshold(r) && r.padding <= r.capacity && Bounded(r, s)
    && (Calm(s) ==> Size(s.block.events) <= Threshold(r))
    && (forall t :: 0 <= t < |s.places| && s.places[t].InPush? ==> s.places[t].e.bytes <= r.padding)
  }

  lemma StepSized(r: Recorder, s: State, t: nat, a: Action)
    requires Sized(r, s) && CanStep(s, t, a) && (a.Push? ==> a.e.bytes <= r.padding)
    ensures Sized(r, Step(r, s, t, a))
  {
    hide Exclusive, Size;
    StepExclusive(r, s, t, a);
    var s' := Step(r, s, t, a);
    assert Size([]) == 0 by { EmptyHasNoSize([]); }
    if a.Go? && s.places[t].InPush? {
      forall u | 0 <= u < |s.places|
        ensures !Pushed(s.places[u])
      {
        if Pushed(s.places[u]) {
          OneWorks(r, s, t, u);
        }
      }
      SizeAppend(s.block.events, s.places[t].e);
      ThresholdIs(r);
      assert Pushed(s'.places[t]);
    } else if !a.Go? || !Pushed(s.places[t]) {
      assert forall u :: 0 <= u < |s.places| && Pushed(s.places[u]) ==> Pushed(s'.places[u]);
    } else {
      assert !Pushed(s'.places[t]) ==> Size(s'.block.events) <= Threshold(r);
      assert Calm(s') ==> !Pushed(s'.places[t]);
    }
  }

  predicate SmallEvents(r: Recorder, schedule: seq<(nat, Action)>) {
    forall i :: 0 <= i < |schedule| && schedule[i].1.Push? ==> schedule[i].1.e.bytes <= r.padding
  }

  lemma {:induction false} RunSized(r: Recorder, s: State, schedule: seq<(nat, Action)>)
    requires Sized(r, s) && SmallEvents(r, schedule) && Run(r, s, schedule).Some?
    ensures Sized(r, Run(r, s, schedule).value)
    decreases |schedule|
  {
    hide Sized, Step, CanStep;
    if schedule != [] {
      assert schedule[0].1.Push? ==> schedule[0].1.e.bytes <= r.padding;
      StepSized(r, s, schedule[0].0, schedule[0].1);
      assert forall i :: 0 <= i < |schedule[1..]| ==> schedule[1..][i] == schedule[i + 1];
      RunSized(r, Step(r, s, schedule[0].0, schedule[0].1), schedule[1..]);
    }
  }

  /** A schedule of three steps. */
  lemma ThreeSteps(r: Recorder, s: State, t: nat, a: Action)
    requires CanStep(s, t, a) && CanStep(Step(r, s, t, a), t, Go) && CanStep(Step(r, Step(r, s, t, a), t, Go), t, Go)
    ensures Run(r, s, [(t, a), (t, Go), (t, Go)]) == Some(Step(r, Step(r, Step(r, s, t, a), t, Go), t, Go))
  {
    hide Step, CanStep, Run;
    var s1 := Step(r, s, t, a);
    var s2 := Step(r, s1, t, Go);
    Next(r, s, t, a, [(t, Go)] + ([(t, Go)] + []));
    Next(r, s1, t, Go, [(t, Go)] + []);
    Next(r, s2, t, Go, []);
    RunNothing(r, Step(r, s2, t, Go));
    assert [(t, a)] + ([(t, Go)] + ([(t, Go)] + [])) == [(t, a), (t, Go), (t, Go)];
  }

  /** In Rust a thread pushes an event; if the block is full then, it still has to flush it. */
  lemma PushAlone(r: Recorder, s: State, t: nat, e: Event) returns (s': State, schedule: seq<(nat, Action)>)
    requires r.rust && t < |s.places| && s.places[t].Idle? && s.lock.None? && 0 < e.bytes
    ensures Run(r, s, schedule) == Some(s') && schedule == [(t, Push(e)), (t, Go), (t, Go)]
    ensures s'.block == s.block.(events := s.block.events + [e]) && s'.lock.None?
    ensures s'.threshold == s.threshold && s'.swapped == s.swapped && s'.asked == s.asked
    ensures s'.places == s.places[t := if Size(s.block.events) + e.bytes > s.threshold then WantFlush else Idle]
  {
    SizeAppend(s.block.events, e);
    ThreeSteps(r, s, t, Push(e));
    s' := Step(r, Step(r, Step(r, s, t, Push(e)), t, Go), t, Go);
    schedule := [(t, Push(e)), (t, Go), (t, Go)];
  }

  /** In Rust a thread flushes because it had found the block full. */
  lemma FlushAlone(r: Recorder, s: State, t: nat) returns (s': State, schedule: seq<(nat, Action)>)
    requires r.rust && t < |s.places| && s.places[t].WantFlush? && s.lock.None? && 0 < Size(s.block.events)
    ensures Run(r, s, schedule) == Some(s') && schedule == [(t, Go), (t, Go), (t, Go)]
    ensures s'.swapped == s.swapped + [s.block] && s'.asked == s.asked + [false] && s'.block.events == []
    ensures s'.threshold == Threshold(r) && s'.lock.None? && s'.places == s.places[t := Idle]
  {
    ThreeSteps(r, s, t, Go);
    s' := Step(r, Step(r, Step(r, s, t, Go), t, Go), t, Go);
    schedule := [(t, Go), (t, Go), (t, Go)];
  }

  /** In Rust two threads fill a block, and the first one flushes it. */
  lemma TwoFill(r: Recorder, threads: nat) returns (s': State, schedule: seq<(nat, Action)>)
    requires r.rust && 2 <= threads && r.padding < r.capacity
    ensures NoSetFull(schedule) && Run(r, Start(r, threads), schedule) == Some(s') && |s'.swapped| == |s'.asked| == 1
    ensures s'.block.events == [] && s'.threshold == Threshold(r) && s'.lock.None?
    ensures s'.places == seq(threads, _ => Idle)[1 := WantFlush]
  {
    var big, one := Event(0, Threshold(r) + 1), Event(0, 1);
    var s0 := Start(r, threads);
    var s1, a := PushAlone(r, s0, 0, big);
    var s2, b := PushAlone(r, s1, 1, one);
    SizeAppend([], big);
    SizeAppend([big], one);
    assert [] + [big] == [big];
    var c;
    s', c := FlushAlone(r, s2, 0);
    hide Run;
    RunAppend(r, s1, b, c);
    RunAppend(r, s0, a, b + c);
    schedule := a + (b + c);
  }

  /** In Rust a thread that comes too late flushes a block that another thread has only begun to fill. */
  lemma RustFlushesEarly(r: Recorder, threads: nat) returns (schedule: seq<(nat, Action)>)
    requires r.rust && 2 <= threads && r.padding < r.capacity
    ensures var s := Run(r, Start(r, threads), schedule);
            NoSetFull(schedule) && s.Some? && !Filled(r, s.value)
  {
    hide Run;
    var one := Event(0, 1);
    var s3, c := TwoFill(r, threads);
    var s4, d := PushAlone(r, s3, 0, one);
    SizeAppend([], one);
    assert [] + [one] == [one];
    var s5, e := FlushAlone(r, s4, 1);
    RunAppend(r, s3, d, e);
    RunAppend(r, Start(r, threads), c, d + e);
    schedule := c + (d + e);
    assert s5.swapped[1].events == [one] && !s5.asked[1];
  }

  /** Without set_full, a block that is swapped unasked is full up to the padding in every interleaving: exactly in
      Unreal, for streams of at most one thread, and where the padding takes the whole capacity. */
  lemma FilledIff(r: Recorder, threads: nat)
    ensures (forall schedule :: NoSetFull(schedule) && Run(r, Start(r, threads), schedule).Some? ==>
                                  Filled(r, Run(r, Start(r, threads), schedule).value))
        <==> !r.rust || threads <= 1 || r.capacity <= r.padding
  {
    if !r.rust || threads <= 1 {
      forall schedule | NoSetFull(schedule) && Run(r, Start(r, threads), schedule).Some?
        ensures Filled(r, Run(r, Start(r, threads), schedule).value)
      {
        StartExclusive(r, threads);
        RunFilling(r, Start(r, threads), schedule);
      }
    } else if r.capacity <= r.padding {
      forall schedule | Run(r, Start(r, threads), schedule).Some?
        ensures Filled(r, Run(r, Start(r, threads), schedule).value)
      {
        StartInv(r, threads);
        RunInv(r, Start(r, threads), schedule);
        NoneEmpty(r, threads, schedule);
      }
    } else {
      var schedule := RustFlushesEarly(r, threads);
      assert NoSetFull(schedule);
    }
  }

  /** Every block that was swapped holds something, and it is known whether it was asked for. */
  ghost predicate SomethingIn(s: State) {
    |s.asked| == |s.swapped| && forall i :: 0 <= i < |s.swapped| ==> Size(s.swapped[i].events) > 0
  }

  lemma NoneEmpty(r: Recorder, threads: nat, schedule: seq<(nat, Action)>)
    requires Run(r, Start(r, threads), schedule).Some?
    ensures SomethingIn(Run(r, Start(r, threads), schedule).value)
  {
    RunSomethingIn(r, Start(r, threads), schedule);
  }

  lemma {:induction false} RunSomethingIn(r: Recorder, s: State, schedule: seq<(nat, Action)>)
    requires SomethingIn(s) && Run(r, s, schedule).Some?
    ensures SomethingIn(Run(r, s, schedule).value)
    decreases |schedule|
  {
    if schedule != [] {
      assert SomethingIn(Step(r, s, schedule[0].0, schedule[0].1)) by { hide Size, IsFull; }
      hide Step, CanStep, SomethingIn;
      RunSomethingIn(r, Step(r, s, schedule[0].0, schedule[0].1), schedule[1..]);
    }
  }

  /** In Rust a thread fills a block, byte by byte, up to its threshold. */
  lemma {:induction false} FillUp(r: Recorder, s: State, t: nat, n: nat)
    returns (s': State, schedule: seq<(nat, Action)>)
    requires r.rust && t < |s.places| && s.places[t].Idle? && s.lock.None? && Size(s.block.events) + n <= s.threshold
    ensures Run(r, s, schedule) == Some(s')
    ensures forall i :: 0 <= i < |schedule| && schedule[i].1.Push? ==> schedule[i].1.e.bytes == 1
    ensures Size(s'.block.events) == Size(s.block.events) + n && s'.threshold == s.threshold
    ensures s'.lock.None? && s'.places == s.places
    decreases n
  {
    hide Run;
    if n == 0 {
      RunNothing(r, s);
      return s, [];
    }
    var s1, a := PushAlone(r, s, t, Event(0, 1));
    SizeAppend(s.block.events, Event(0, 1));
    assert s.places[t := Idle] == s.places;
    var b;
    s', b := FillUp(r, s1, t, n - 1);
    RunAppend(r, s, a, b);
    schedule := a + b;
  }

  /** In Rust a second thread can push into a block that is full up to the capacity and still has to be flushed. */
  lemma RustOverfills(r: Recorder, threads: nat) returns (schedule: seq<(nat, Action)>)
    requires r.rust && 2 <= threads && 1 <= r.padding <= r.capacity
    ensures var s := Run(r, Start(r, threads), schedule);
            SmallEvents(r, schedule) && s.Some? && !Bounded(r, s.value)
  {
    var s0 := Start(r, threads);
    ThresholdIs(r);
    var s1, a := FillUp(r, s0, 0, Threshold(r));
    var s2, b := PushAlone(r, s1, 0, Event(0, r.padding));
    var s3, c := PushAlone(r, s2, 1, Event(0, 1));
    SizeAppend(s1.block.events, Event(0, r.padding));
    SizeAppend(s2.block.events, Event(0, 1));
    hide Run;
    RunAppend(r, s1, b, c);
    RunAppend(r, s0, a, b + c);
    schedule := a + (b + c);
  }

  /** When no event is larger than the padding, no block takes more than the capacity in any interleaving: exactly in
      Unreal, for streams of at most one thread, and where there is no padding. */
  lemma BoundedIff(r: Recorder, threads: nat)
    requires r.padding <= r.capacity
    ensures (forall schedule :: SmallEvents(r, schedule) && Run(r, Start(r, threads), schedule).Some? ==>
                                  Bounded(r, Run(r, Start(r, threads), schedule).value))
        <==> !r.rust || threads <= 1 || r.padding == 0
  {
    if !r.rust || threads <= 1 {
      forall schedule | SmallEvents(r, schedule) && Run(r, Start(r, threads), schedule).Some?
        ensures Bounded(r, Run(r, Start(r, threads), schedule).value)
      {
        StartExclusive(r, threads);
        RunSized(r, Start(r, threads), schedule);
      }
    } else if r.padding == 0 {
      forall schedule | SmallEvents(r, schedule) && Run(r, Start(r, threads), schedule).Some?
        ensures Bounded(r, Run(r, Start(r, threads), schedule).value)
      {
        RunWithoutPush(r, Start(r, threads), schedule);
      }
    } else {
      var schedule := RustOverfills(r, threads);
      assert SmallEvents(r, schedule);
    }
  }

  ghost predicate NothingYet(s: State) {
    s.block.events == [] && s.swapped == [] && forall t :: 0 <= t < |s.places| ==> !s.places[t].InPush?
  }

  lemma {:induction false} RunWithoutPush(r: Recorder, s: State, schedule: seq<(nat, Action)>)
    requires r.padding == 0 && NothingYet(s) && SmallEvents(r, schedule) && Run(r, s, schedule).Some?
    ensures NothingYet(Run(r, s, schedule).value)
    decreases |schedule|
  {
    if schedule != [] {
      assert !schedule[0].1.Push?;
      assert forall i :: 0 <= i < |schedule[1..]| ==> schedule[1..][i] == schedule[i + 1];
      RunWithoutPush(r, Step(r, s, schedule[0].0, schedule[0].1), schedule[1..]);
    }
  }

  // ---------------------------------------------------------------------------
  // A thread's own stream
  // ---------------------------------------------------------------------------

  /** EventStream, for a thread that records alone: nothing is locked, and the sink is called at once. */
  class ThreadStream {
    const bufferSize: nat
    const maxObjSize: nat
    var currentBlock: Block
    var fullThreshold: nat
    var sink: seq<Block>            // what on_process_thread_block has got
    ghost var pushed: seq<Event>
    ghost var asked: seq<bool>      // of every block in the sink: whether a flush had been asked for
    ghost var hurried: bool         // set_full was called

    /** All events are in the sink or in the current block, in order. */
    ghost predicate Recorded()
      reads this
    {
      && maxObjSize <= bufferSize && Tiled(sink, 0) && currentBlock.offset == |Concat(sink)|
      && Concat(sink) + currentBlock.events == pushed && (forall e :: e in pushed ==> e.bytes > 0)
    }

    /** Without set_full: what the sink got unasked has less room left than the largest object takes. */
    ghost predicate FullUnasked()
      reads this
    {
      && |asked| == |sink| && fullThreshold <= bufferSize - maxObjSize
      && (!hurried ==>
            && fullThreshold == bufferSize - maxObjSize
            && forall i :: 0 <= i < |sink| && !asked[i] ==> bufferSize < Size(sink[i].events) + maxObjSize)
    }

    /** As long as no event is larger than that, no block takes more than the buffer. */
    ghost predicate WithinBuffer()
      reads this
    {
      (forall e :: e in pushed ==> e.bytes <= maxObjSize) ==>
        && Size(currentBlock.events) <= bufferSize
        && forall i :: 0 <= i < |sink| ==> Size(sink[i].events) <= bufferSize
    }

    ghost predicate Valid()
      reads this
    {
      Recorded() && FullUnasked() && WithinBuffer() && Size(currentBlock.events) <= bufferSize - maxObjSize
    }

    constructor (bufferSize: nat, maxObjSize: nat)
      requires maxObjSize <= bufferSize
      ensures Valid() && pushed == [] && sink == [] && !hurried && currentBlock == Block(0, [])
      ensures this.bufferSize == bufferSize && this.maxObjSize == maxObjSize
      ensures fullThreshold == bufferSize - maxObjSize
    {
      this.bufferSize, this.maxObjSize := bufferSize, maxObjSize;
      currentBlock, fullThreshold := Block(0, []), bufferSize - maxObjSize;
      sink, pushed, asked, hurried := [], [], [], false;
    }

    /** EventStream::is_full. */
    method IsFull() returns (full: bool)
      ensures full <==> Size(currentBlock.events) > fullThreshold
    {
      full := Size(currentBlock.events) > fullThreshold;
    }

    /** The next event makes the block full, whatever its size. */
    ghost predicate Flushing()
      reads this
    {
      forall e: Event :: e.bytes > 0 ==> Size(currentBlock.events + [e]) > fullThreshold
    }

    /** EventStream::set_full, which may come from another thread: whatever event comes next is delivered at once. */
    method SetFull()
      requires Valid()
      modifies this`fullThreshold, this`hurried
      ensures Valid() && Flushing() && fullThreshold == 0
    {
      fullThreshold, hurried := 0, true;
      forall e: Event | e.bytes > 0
        ensures Size(currentBlock.events + [e]) > 0
      {
        SizeAppend(currentBlock.events, e);
      }
    }

    /** EventStream::replace_block. A block that holds something can follow what the sink has got, and an empty one that
        starts where it ends can follow that; it is not full. */
    method ReplaceBlock(newBlock: Block) returns (oldBlock: Block)
      requires Recorded()
      modifies this`currentBlock, this`fullThreshold
      ensures oldBlock == old(currentBlock) && currentBlock == newBlock && fullThreshold == bufferSize - maxObjSize
      ensures Concat(sink) + oldBlock.events == pushed
      ensures oldBlock.events != [] ==> Tiled(sink + [oldBlock], 0) && Concat(sink + [oldBlock]) == pushed
      ensures newBlock == Block(oldBlock.offset + |oldBlock.events|, []) ==>
        currentBlock.offset == |pushed| && Size(currentBlock.events) <= fullThreshold
    {
      hide Tiled, Concat;
      oldBlock := currentBlock;
      fullThreshold := bufferSize - maxObjSize;
      currentBlock := newBlock;
      if oldBlock.events != [] {
        TiledAppend(sink, oldBlock, 0);
      }
    }

    /** Dispatch::flush_thread_buffer: by a caller, or because the block is full. */
    method Flush(ghost wanted: bool)
      requires Recorded() && FullUnasked() && WithinBuffer()
      requires wanted || Size(currentBlock.events) > fullThreshold
      modifies this`currentBlock, this`fullThreshold, this`sink, this`asked
      ensures Valid() && Concat(sink) == pushed
      ensures if old(currentBlock.events) == [] then
          sink == old(sink) && asked == old(asked) && currentBlock == old(currentBlock)
            && fullThreshold == old(fullThreshold)
        else
          && sink == old(sink) + [old(currentBlock)] && asked == old(asked) + [wanted]
          && currentBlock == Block(|pushed|, []) && fullThreshold == bufferSize - maxObjSize
    {
      hide Tiled, Concat;
      SizeOfSome(currentBlock.events);
      if Size(currentBlock.events) == 0 {
        assert Concat(sink) + [] == Concat(sink);
        return;
      }
      var nextOffset := currentBlock.offset + |currentBlock.events|;
      var oldBlock := ReplaceBlock(Block(nextOffset, []));
      var full := IsFull();
      assert !full;
      sink, asked := sink + [oldBlock], asked + [wanted];
      assert Concat(sink) + [] == Concat(sink);
    }

    lemma SizeOfSome(events: seq<Event>)
      requires Recorded() && events == currentBlock.events
      ensures Size(events) == 0 <==> events == []
    {
      if events != [] {
        assert pushed[|Concat(sink)|] == events[0];
      }
    }

    /** on_thread_event: a block that the event makes full is delivered with it, and any other goes on; so afterwards
        the block is not full. */
    method OnThreadEvent(e: Event)
      requires Valid() && e.bytes > 0
      modifies this
      ensures Valid() && pushed == old(pushed) + [e] && Size(currentBlock.events) <= fullThreshold
      ensures hurried == old(hurried)
      ensures var block := old(currentBlock).(events := old(currentBlock.events) + [e]);
              if Size(block.events) > old(fullThreshold) then
                && sink == old(sink) + [block] && Concat(sink) == pushed && asked == old(asked) + [false]
                && currentBlock == Block(|pushed|, []) && fullThreshold == bufferSize - maxObjSize
              else
                && sink == old(sink) && asked == old(asked) && currentBlock == block
                && fullThreshold == old(fullThreshold)
      ensures old(Flushing()) ==> currentBlock.events == [] && Concat(sink) == pushed
    {
      hide Tiled, Concat, Size;
      SizeAppend(currentBlock.events, e);
      currentBlock := currentBlock.(events := currentBlock.events + [e]);
      pushed := pushed + [e];
      assert Concat(sink) + (old(currentBlock.events) + [e]) == Concat(sink) + old(currentBlock.events) + [e];
      assert forall x :: x in old(pushed) ==> x in pushed;
      assert e in pushed;
      var full := IsFull();
      if full {
        Flush(false);
      }
    }
  }
}
