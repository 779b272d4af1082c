/** The limit of a call tree: an event that it stops is missing in the tree, so the tree is right exactly when the limit
    stops no event of the window. */
module CallTreeLimit {
  import opened Basics
  import opened CallTree

  function Ids(ns: seq<Node>): set<int> {
    if ns == [] then {}
    else (if ns[0].id.Some? then {ns[0].id.value} else {}) + Ids(ns[0].children) + Ids(ns[1..])
  }

  function EventIds(es: seq<Event>): set<int> {
    set e | e in es :: e.id
  }

  predicate DistinctIds(es: seq<Event>) {
    forall i, j :: 0 <= i < j < |es| ==> es[i].id != es[j].id
  }

  lemma {:induction false} IdsAppend(a: seq<Node>, b: seq<Node>)
    ensures Ids(a + b) == Ids(a) + Ids(b)
    decreases |a|
  {
    if a == [] {
      assert a + b == b;
    } else {
      assert (a + b)[1..] == a[1..] + b;
      IdsAppend(a[1..], b);
    }
  }

  lemma IdsOfOne(n: Node)
    ensures Ids([n]) == (if n.id.Some? then {n.id.value} else {}) + Ids(n.children)
  {
    assert Ids([n][1..]) == {};
  }

  lemma IdsAddAll(c: Config, stack: seq<Node>, nodes: seq<Node>)
    ensures Ids(AddAll(c, stack, nodes)) == Ids(stack) + Ids(nodes)
  {
    if nodes == [] {
    } else if stack == [] {
      IdsOfOne(Node(None, c.rootHash, c.lo, c.hi, nodes));
    } else {
      var below, top := stack[..|stack| - 1], stack[|stack| - 1];
      assert stack == below + [top];
      IdsAppend(below, [top]);
      IdsAppend(below, [top.(children := top.children + nodes)]);
      IdsAppend(top.children, nodes);
      IdsOfOne(top);
      IdsOfOne(top.(children := top.children + nodes));
    }
  }

  lemma {:induction false} IdsNest(open: seq<Node>)
    ensures Ids(Nest(open)) == Ids(open)
    decreases |open|
  {
    if open != [] {
      IdsNest(open[1..]);
      IdsAppend(open[0].children, Nest(open[1..]));
      IdsOfOne(open[0].(children := open[0].children + Nest(open[1..])));
    }
  }

  /** A node goes on the stack, or under its top. */
  lemma AddedIds(c: Config, stack: seq<Node>, n: Node)
    ensures Ids(stack + [n]) == Ids(AddAll(c, stack, [n])) == Ids(stack) + Ids([n])
  {
    IdsAppend(stack, [n]);
    IdsAddAll(c, stack, [n]);
  }

  /** The top of the stack is closed, perhaps with another number. */
  lemma ClosedIds(c: Config, stack: seq<Node>, n: Node, id: int)
    requires stack != []
    requires var top := stack[|stack| - 1]; n.children == top.children && (n.id == top.id || n.id == Some(id))
    ensures Ids(AddAll(c, stack[..|stack| - 1], [n])) <= Ids(stack) + {id}
  {
    var below, top := stack[..|stack| - 1], stack[|stack| - 1];
    assert stack == below + [top];
    AddedIds(c, below, top);
    AddedIds(c, below, n);
    IdsOfOne(top);
    IdsOfOne(n);
  }

  lemma IdsOfFirst(e: Event, begin: int, end: int)
    ensures Ids([Node(Some(e.id), e.scope.hash, begin, end, [])]) == {e.id}
  {
    IdsOfOne(Node(Some(e.id), e.scope.hash, begin, end, []));
  }

  lemma BeginIds(c: Config, st: State, e: Event)
    ensures var r := OnBegin(c, st, e);
            !r.Mismatch? && Ids(r.st.stack) <= Ids(st.stack) + {e.id} && (r.Stop? ==> r.st == st)
  {
    var time := c.ns(e.ts);
    IdsOfFirst(e, time, c.hi);
    AddedIds(c, st.stack, Node(Some(e.id), e.scope.hash, time, c.hi, []));
    hide AddAll, Ids;
  }

  lemma EndIds(c: Config, st: State, e: Event)
    ensures var r := OnEnd(c, st, e);
            r.Mismatch? || (Ids(r.st.stack) <= Ids(st.stack) + {e.id} && (r.Stop? ==> r.st == st))
  {
    hide AddAll, Ids;
    var time := c.ns(e.ts);
    if st.stack == [] {
      IdsOfFirst(e, c.lo, time);
      AddedIds(c, [], Node(Some(e.id), e.scope.hash, c.lo, time, []));
    } else {
      var top := st.stack[|st.stack| - 1];
      ClosedIds(c, st.stack, top.(end := time), e.id);
      ClosedIds(c, st.stack, top.(id := Some(e.id), hash := e.scope.hash, end := time), e.id);
    }
  }

  /** A step takes no number into the tree but that of its event, and none if it stops. */
  lemma StepIds(c: Config, st: State, e: Event)
    ensures var r := Step(c, st, e);
            r.Mismatch? || (Ids(r.st.stack) <= Ids(st.stack) + {e.id} && (r.Stop? ==> r.st == st))
  {
    hide OnBegin, OnEnd, Ids;
    BeginIds(c, st, e);
    EndIds(c, st, e);
  }

  lemma {:induction false} RunBlockIds(c: Config, st: State, es: seq<Event>)
    ensures var r := RunBlock(c, st, es); r.Mismatch? || Ids(r.st.stack) <= Ids(st.stack) + EventIds(es)
    decreases |es|
  {
    if es != [] {
      StepIds(c, st, es[0]);
      hide Step, Ids;
      var r := Step(c, st, es[0]);
      if r.Continue? {
        RunBlockIds(c, r.st, es[1..]);
      }
      assert EventIds(es) == {es[0].id} + EventIds(es[1..]);
    }
  }

  lemma {:induction false} RunBlocksIds(c: Config, st: State, blocks: seq<seq<Event>>)
    ensures var r := RunBlocks(c, st, blocks); r.None? || Ids(r.value.stack) <= Ids(st.stack) + EventIds(Concat(blocks))
    decreases |blocks|
  {
    if blocks != [] {
      RunBlockIds(c, st, blocks[0]);
      hide RunBlock, Ids;
      var r := RunBlock(c, st, blocks[0]);
      if !r.Mismatch? {
        RunBlocksIds(c, r.st, blocks[1..]);
      }
      assert EventIds(Concat(blocks)) == EventIds(blocks[0]) + EventIds(Concat(blocks[1..]));
    }
  }

  /** Only what has been counted is in the stack. */
  predicate Counted(st: State) {
    st.stack == [] ==> st.nbSpans == 0
  }

  /** An event that is refused begins a span. */
  lemma RefusedBegins(c: Config, st: State, e: Event, es: seq<Event>)
    requires Refused(c, st, e) && Counted(st) && 0 < c.limit
    ensures e.isBegin && InWindow(c, c.ns(e.ts)) && RunBlock(c, st, [e] + es) == Stop(st)
  {
    assert ([e] + es)[0] == e;
  }

  /** After an event of the trace that stops the block for another reason nothing is refused. */
  lemma StoppedAfter(c: Config, st: State, e: Event, es: seq<Event>)
    requires Sorted(c, [e] + es) && Late(c, st, [e] + es) && 0 < c.limit
    requires Step(c, st, e).Stop? && !Refused(c, st, e)
    ensures Roomy(c, st, [e] + es)
  {
    assert e == ([e] + es)[0] && e in [e] + es;
    forall x | x in es
      ensures !InWindow(c, c.ns(x.ts))
    {
      var k :| 0 <= k < |es| && es[k] == x;
      assert ([e] + es)[k + 1] == x;
    }
    RoomyOutside(c, Step(c, st, e).st, es);
    RoomyFirst(c, st, e, es);
  }

  lemma EventIdsJoin(a: seq<Event>, b: seq<Event>)
    ensures EventIds(a + b) == EventIds(a) + EventIds(b)
  {
  }

  lemma EventIdsOfOne(e: Event)
    ensures EventIds([e]) == {e.id}
  {
  }

  lemma SortedParts(c: Config, a: seq<Event>, b: seq<Event>)
    requires Sorted(c, a + b)
    ensures Sorted(c, a) && Sorted(c, b)
  {
    assert a == (a + b)[..|a|] && b == (a + b)[|a|..];
  }

  lemma RunBlockFirst(c: Config, st: State, e: Event, es: seq<Event>)
    requires Step(c, st, e).Continue?
    ensures RunBlock(c, st, [e] + es) == RunBlock(c, Step(c, st, e).st, es)
    ensures Feed(c, st, [e]) == Some(Step(c, st, e).st)
  {
    assert ([e] + es)[1..] == es;
  }

  /** The first event of a block that is refused is a begin event, and the block ends there. */
  lemma {:induction false} BlockRefuses(c: Config, st: State, es: seq<Event>) returns (i: nat)
    requires Sorted(c, es) && Late(c, st, es) && Counted(st) && 0 < c.limit && !Roomy(c, st, es)
    ensures i < |es| && es[i].isBegin && InWindow(c, c.ns(es[i].ts))
    ensures var r := RunBlock(c, st, es); !r.Mismatch? && Ids(r.st.stack) <= Ids(st.stack) + EventIds(es[..i])
    decreases |es|
  {
    assert es != [];
    var e, rest := es[0], es[1..];
    assert [e] + rest == es;
    hide *;
    RoomyFirst(c, st, e, rest);
    if Refused(c, st, e) {
      RefusedBegins(c, st, e, rest);
      return 0;
    }
    var r := Step(c, st, e);
    if r.Stop? {
      StoppedAfter(c, st, e, rest);
      assert false;
    }
    RunBlockFirst(c, st, e, rest);
    LateAfter(c, st, [e], rest);
    CountedAfter(c, st, [e]);
    StepIds(c, st, e);
    SortedParts(c, [e], rest);
    var k := BlockRefuses(c, r.st, rest);
    i := k + 1;
    assert es[..i] == [e] + rest[..k];
    EventIdsJoin([e], rest[..k]);
    EventIdsOfOne(e);
  }

  lemma {:induction false} CountedAfter(c: Config, st: State, es: seq<Event>)
    requires Counted(st) && Feed(c, st, es).Some?
    ensures Counted(Feed(c, st, es).value)
    decreases |es|
  {
    if es != [] {
      CountedAfter(c, Step(c, st, es[0]).st, es[1..]);
    }
  }

  /** The first event that is refused is a begin event whose number is missing in the end. */
  lemma {:induction false} BlocksRefuse(c: Config, st: State, blocks: seq<seq<Event>>) returns (i: nat)
    requires Sorted(c, Concat(blocks)) && Late(c, st, Concat(blocks)) && Counted(st) && 0 < c.limit
    requires !Roomy(c, st, Concat(blocks))
    ensures var es := Concat(blocks);
            && i < |es| && es[i].isBegin && InWindow(c, c.ns(es[i].ts))
            && var r := RunBlocks(c, st, blocks);
               r.None? || Ids(r.value.stack) <= Ids(st.stack) + EventIds(es[..i]) + EventIds(es[i + 1..])
    decreases |blocks|
  {
    var es, rest := blocks[0], Concat(blocks[1..]);
    var all := es + rest;
    assert all == Concat(blocks);
    RunBlocksFirst(c, st, blocks);
    RoomyAppend(c, st, es, rest);
    SortedParts(c, es, rest);
    LateFirst(c, st, es, rest);
    hide *;
    if Roomy(c, st, es) {
      RunBlockIsFeed(c, st, es);
      LateAfter(c, st, es, rest);
      CountedAfter(c, st, es);
      RunBlockIds(c, st, es);
      var k := BlocksRefuse(c, Feed(c, st, es).value, blocks[1..]);
      i := |es| + k;
      assert all[..i] == es + rest[..k] && all[i + 1..] == rest[k + 1..];
      EventIdsJoin(es, rest[..k]);
    } else {
      i := BlockRefuses(c, st, es);
      RunBlocksIds(c, RunBlock(c, st, es).st, blocks[1..]);
      assert all[..i] == es[..i] && all[i + 1..] == es[i + 1..] + rest;
      EventIdsJoin(es[i + 1..], rest);
    }
  }

  lemma RunBlocksFirst(c: Config, st: State, blocks: seq<seq<Event>>)
    requires blocks != []
    ensures RunBlocks(c, st, blocks) ==
            var r := RunBlock(c, st, blocks[0]); if r.Mismatch? then None else RunBlocks(c, r.st, blocks[1..])
  {
  }

  lemma LateFirst(c: Config, st: State, es: seq<Event>, rest: seq<Event>)
    requires Late(c, st, es + rest)
    ensures Late(c, st, es)
  {
    forall e | e in es
      ensures e in es + rest
    {
    }
  }

  /** Without any room the builder never leaves its first state. */
  lemma {:induction false} NothingEnters(c: Config, blocks: seq<seq<Event>>)
    requires c.limit <= 0
    ensures RunBlocks(c, State([], 0), blocks) == Some(State([], 0))
    decreases |blocks|
  {
    if blocks != [] {
      BlockEntersNothing(c, blocks[0]);
      NothingEnters(c, blocks[1..]);
    }
  }

  lemma {:induction false} BlockEntersNothing(c: Config, es: seq<Event>)
    requires c.limit <= 0
    ensures var r := RunBlock(c, State([], 0), es); !r.Mismatch? && r.st == State([], 0)
    decreases |es|
  {
    if es != [] {
      BlockEntersNothing(c, es[1..]);
    }
  }

  /** An event of the window is seen through it, and a begin event with its number. */
  lemma {:induction false} SeenInClip(c: Config, f: seq<Span>, e: Event)
    requires e in Flatten(f) && InWindow(c, c.ns(e.ts))
    ensures Clip(c, f) != [] && (e.isBegin ==> e.id in Ids(Clip(c, f)))
    decreases f
  {
    var s, rest := f[0], f[1..];
    var inside := Clip(c, s.children);
    var first := if Visible(c, s) then [ClippedNode(c, s, inside)] else inside;
    IdsAppend(first, Clip(c, rest));
    IdsOfOne(ClippedNode(c, s, inside));
    if e in Flatten(rest) {
      SeenInClip(c, rest, e);
    } else if e in Flatten(s.children) {
      SeenInClip(c, s.children, e);
    } else {
      assert e == BeginOf(s) || e == EndOf(s);
    }
  }

  /** The numbers in a tree that is expected are those of the view. */
  lemma IdsOfExpected(c: Config, f: seq<Span>, blocks: seq<seq<Event>>)
    requires Shows(c, f, blocks) && IsExpected(c, f, RunBlocks(c, State([], 0), blocks)) && Clip(c, f) != []
    ensures var r := RunBlocks(c, State([], 0), blocks);
            r.Some? && Finish(r.value.stack) != None && Ids(r.value.stack) == Ids(Clip(c, f))
  {
    var stack := RunBlocks(c, State([], 0), blocks).value.stack;
    var from, to :| Ordered(c, f, from, to);
    ClipIsClosedAndOpen(c, f, from, to);
    assert Finish(stack) == ExpectedTree(c, f);
    hide Ids, RunBlocks, Clip, Closed, Open, Nest;
    IdsNest(stack);
    assert Nest(stack) == [Nest(stack)[0]];
    IdsOfOne(Nest(stack)[0]);
    if Closed(c, f) == [] {
      assert Clip(c, f) == Nest(Open(c, f)) == [Clip(c, f)[0]];
    } else {
      IdsOfOne(Node(None, c.rootHash, c.lo, c.hi, Clip(c, f)));
    }
  }

  /** When the events of a trace have different numbers, the call tree is the view through the window if and only if the
      limit stops no event of the window. */
  lemma CallTreeIsClipIff(c: Config, f: seq<Span>, blocks: seq<seq<Event>>)
    requires Shows(c, f, blocks) && DistinctIds(Concat(blocks))
    ensures IsExpected(c, f, RunBlocks(c, State([], 0), blocks)) <==> Roomy(c, State([], 0), Concat(blocks))
  {
    var es, start := Concat(blocks), State([], 0);
    hide *;
    if Roomy(c, start, es) {
      CallTreeIsClip(c, f, blocks);
    } else {
      AllShown(c, f, blocks);
      var i := SomethingMissing(c, blocks);
      SeenInClip(c, f, es[i]);
      if IsExpected(c, f, RunBlocks(c, start, blocks)) {
        IdsOfExpected(c, f, blocks);
        NotAmongOthers(es, i);
      }
    }
  }

  lemma NotAmongOthers(es: seq<Event>, i: nat)
    requires DistinctIds(es) && i < |es|
    ensures es[i].id !in EventIds(es[..i]) + EventIds(es[i + 1..])
  {
  }

  /** What blocks show of a trace is in time order, and in the trace. */
  lemma AllShown(c: Config, f: seq<Span>, blocks: seq<seq<Event>>)
    requires Shows(c, f, blocks)
    ensures Sorted(c, Concat(blocks)) && forall i :: 0 <= i < |Concat(blocks)| ==> Concat(blocks)[i] in Flatten(f)
  {
    var es := Concat(blocks);
    var from, to :| Ordered(c, f, from, to);
    var before: seq<Event>, after: seq<Event> :|
      && Flatten(f) == before + es + after
      && (forall e :: e in before + after ==> !InWindow(c, c.ns(e.ts)));
    FlattenSorted(c, f, from, to);
    SortedFactor(c, before, es, after);
    forall i | 0 <= i < |es|
      ensures es[i] in Flatten(f)
    {
      assert Flatten(f)[|before| + i] == es[i];
    }
  }

  /** An event of the window whose number is not in the tree. */
  lemma SomethingMissing(c: Config, blocks: seq<seq<Event>>) returns (i: nat)
    requires Sorted(c, Concat(blocks)) && !Roomy(c, State([], 0), Concat(blocks))
    ensures var es := Concat(blocks);
            && i < |es| && InWindow(c, c.ns(es[i].ts))
            && var r := RunBlocks(c, State([], 0), blocks);
               if c.limit <= 0 then r.Some? && Finish(r.value.stack) == None
               else es[i].isBegin && (r.None? || Ids(r.value.stack) <= EventIds(es[..i]) + EventIds(es[i + 1..]))
  {
    var es, start := Concat(blocks), State([], 0);
    assert Late(c, start, es) && Counted(start) && Ids([]) == {} && Finish([]) == None;
    hide Roomy, Ids, RunBlocks, Late, InWindow, Sorted, Counted, Finish;
    if c.limit <= 0 {
      if forall e :: e in es ==> !InWindow(c, c.ns(e.ts)) {
        RoomyOutside(c, start, es);
      }
      var e :| e in es && InWindow(c, c.ns(e.ts));
      i :| 0 <= i < |es| && es[i] == e;
      NothingEnters(c, blocks);
    } else {
      i := BlocksRefuse(c, start, blocks);
    }
  }

  // ---------------------------------------------------------------------------
  // What the limit is for
  // ---------------------------------------------------------------------------

  function Begins(es: seq<Event>): set<int> {
    set e | e in es && e.isBegin :: e.id
  }

  /** Only begin events have these numbers. */
  predicate Tells(es: seq<Event>, begins: set<int>) {
    forall e :: e in es ==> (e.isBegin <==> e.id in begins)
  }

  /** No more begin events are in the stack than are counted, nor than the limit allows. */
  ghost predicate Limited(c: Config, st: State, begins: set<int>) {
    var n := |Ids(st.stack) * begins|;
    n <= st.nbSpans && (n == 0 || n <= c.limit)
  }

  lemma FewerIn(a: set<int>, b: set<int>)
    requires a <= b
    ensures |a| <= |b|
  {
    assert b == a + (b - a);
  }

  lemma StepCounts(c: Config, st: State, e: Event)
    ensures var r := Step(c, st, e);
            r.Mismatch? || r.st == st
            || if e.isBegin then st.nbSpans < c.limit && r.st.nbSpans == st.nbSpans + 1
               else st.nbSpans <= r.st.nbSpans
  {
    hide AddAll;
  }

  lemma StepLimited(c: Config, st: State, e: Event, begins: set<int>)
    requires Limited(c, st, begins) && (e.isBegin <==> e.id in begins)
    ensures var r := Step(c, st, e); r.Mismatch? || Limited(c, r.st, begins)
  {
    StepIds(c, st, e);
    StepCounts(c, st, e);
    hide Step, Ids;
    var r := Step(c, st, e);
    if !r.Mismatch? && r.st != st {
      var before, after := Ids(st.stack) * begins, Ids(r.st.stack) * begins;
      if e.isBegin {
        FewerIn(after, before + {e.id});
        assert |before + {e.id}| <= |before| + 1;
      } else {
        FewerIn(after, before);
      }
    }
  }

  lemma {:induction false} BlockLimited(c: Config, st: State, es: seq<Event>, begins: set<int>)
    requires Limited(c, st, begins) && Tells(es, begins)
    ensures var r := RunBlock(c, st, es); r.Mismatch? || Limited(c, r.st, begins)
    decreases |es|
  {
    if es != [] {
      assert es[0] in es;
      StepLimited(c, st, es[0], begins);
      hide Step, Limited;
      var r := Step(c, st, es[0]);
      if r.Continue? {
        BlockLimited(c, r.st, es[1..], begins);
      }
    }
  }

  lemma {:induction false} BlocksLimited(c: Config, st: State, blocks: seq<seq<Event>>, begins: set<int>)
    requires Limited(c, st, begins) && Tells(Concat(blocks), begins)
    ensures var r := RunBlocks(c, st, blocks); r.None? || Limited(c, r.value, begins)
    decreases |blocks|
  {
    if blocks != [] {
      assert Concat(blocks) == blocks[0] + Concat(blocks[1..]);
      BlockLimited(c, st, blocks[0], begins);
      hide RunBlock, Limited;
      var r := RunBlock(c, st, blocks[0]);
      if !r.Mismatch? {
        BlocksLimited(c, r.st, blocks[1..], begins);
      }
    }
  }

  /** Whatever the events, balanced or not and in any order: no more than `limit` begin events have a node in the tree.
      End events whose begin is not in the window can have more. */
  lemma BegunWithinLimit(c: Config, blocks: seq<seq<Event>>)
    requires DistinctIds(Concat(blocks))
    ensures var r := RunBlocks(c, State([], 0), blocks);
            r.Some? && Finish(r.value.stack).Some? ==>
            0 < c.limit && |Ids([Finish(r.value.stack).value]) * Begins(Concat(blocks))| <= c.limit
  {
    var es, start := Concat(blocks), State([], 0);
    var begins := Begins(es);
    assert Ids([]) * begins == {};
    BlocksLimited(c, start, blocks, begins);
    if c.limit <= 0 {
      NothingEnters(c, blocks);
    }
    var r := RunBlocks(c, start, blocks);
    if r.Some? && r.value.stack != [] {
      IdsNest(r.value.stack);
      assert Nest(r.value.stack) == [Nest(r.value.stack)[0]];
    }
  }

  /** The limit does not bound the nodes: two end events have nodes under a root, whatever the limit above 0. */
  lemma EndsPassTheLimit(c: Config, a: Event, b: Event)
    requires 0 < c.limit && !a.isBegin && !b.isBegin && InWindow(c, c.ns(a.ts)) && InWindow(c, c.ns(b.ts))
    requires b.scope.hash != c.rootHash
    ensures var r := RunBlocks(c, State([], 0), [[a, b]]);
            r.Some? && r.value.nbSpans == 2 && Finish(r.value.stack).Some? && Finish(r.value.stack).value.id == None
            && {a.id, b.id} <= Ids([Finish(r.value.stack).value])
  {
    var first, root := Node(Some(a.id), a.scope.hash, c.lo, c.ns(a.ts), []), Node(None, c.rootHash, c.lo, c.hi, []);
    var second := Node(Some(b.id), b.scope.hash, c.lo, c.ns(b.ts), [first]);
    var one, two := State([root.(children := [first])], 1), State([root.(children := [second])], 2);
    assert Step(c, State([], 0), a) == Continue(one);
    assert one.stack[..0] == [] && Step(c, one, b) == Continue(two);
    RunBlockFirst(c, State([], 0), a, [b]);
    RunBlockFirst(c, one, b, []);
    assert [a] + [b] == [a, b] && [b] + [] == [b] && [[a, b]][1..] == [];
    assert Nest(two.stack) == [two.stack[0].(children := [second] + [])];
    IdsOfOne(first);
    IdsOfOne(second);
    IdsOfOne(root.(children := [second]));
  }
}
