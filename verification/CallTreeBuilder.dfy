/** The CallTreeBuilder of call_tree.rs as an object, the loop over blocks that drives it, and what every state of
    it keeps. */
module CallTreeBuilder {
  import opened Basics
  import opened CallTree
  import opened CallTreeLimit

  // ---------------------------------------------------------------------------
  // What every reachable state keeps, well nested or not
  // ---------------------------------------------------------------------------

  /** Siblings are disjoint and in time order between `from` and `to`, and so are the children of each. */
  predicate Tiled(ns: seq<Node>, from: int, to: int) {
    if ns == [] then from <= to
    else
      && from <= ns[0].begin
      && Tiled(ns[0].children, ns[0].begin, ns[0].end)
      && Tiled(ns[1..], ns[0].end, to)
  }

  /** A node and all below it have a scope description under their hash. */
  ghost predicate Known(n: Node, hashes: set<nat>) {
    n.hash in hashes && forall k :: k in n.children ==> Known(k, hashes)
  }

  ghost predicate AllKnown(ns: seq<Node>, hashes: set<nat>) {
    forall n :: n in ns ==> Known(n, hashes)
  }

  /** The time up to which the span at `i` has children. */
  function Until(stack: seq<Node>, i: nat, now: int): int {
    if i + 1 < |stack| then stack[i + 1].begin else now
  }

  /** Open spans lie inside one another and reach the end of the window; the thread's root is at the bottom only. */
  predicate Inv(c: Config, stack: seq<Node>, now: int) {
    && (stack == [] || (c.lo <= stack[0].begin && now <= c.hi))
    && (forall i :: 0 <= i < |stack| ==>
          stack[i].end == c.hi && Tiled(stack[i].children, stack[i].begin, Until(stack, i, now)))
    && (forall i :: 1 <= i < |stack| ==> stack[i].hash != c.rootHash)
    && (stack != [] && stack[0].hash == c.rootHash ==> stack[0].begin == c.lo && stack[0].id == None)
  }

  lemma {:induction false} TiledSnoc(ns: seq<Node>, n: Node, from: int, to: int)
    requires Tiled(ns, from, n.begin) && Tiled(n.children, n.begin, n.end) && n.end <= to
    ensures Tiled(ns + [n], from, to)
    decreases |ns|
  {
    if ns == [] {
    } else {
      assert (ns + [n])[0] == ns[0] && (ns + [n])[1..] == ns[1..] + [n];
      TiledSnoc(ns[1..], n, ns[0].end, to);
    }
  }

  lemma {:induction false} TiledLonger(ns: seq<Node>, from: int, to: int, to': int)
    requires Tiled(ns, from, to) && to <= to'
    ensures Tiled(ns, from, to') && from <= to
    decreases ns
  {
    if ns != [] {
      TiledLonger(ns[0].children, ns[0].begin, ns[0].end, ns[0].end);
      TiledLonger(ns[1..], ns[0].end, to, to');
    }
  }

  /** Only the top of the stack depends on the time that has passed. */
  lemma ChangeTop(c: Config, stack: seq<Node>, n: Node, n': Node, now: int, now': int)
    requires Inv(c, stack + [n], now) && now' <= c.hi && n'.end == c.hi && n'.begin == n.begin
    requires n'.hash == n.hash && n'.id == n.id && Tiled(n'.children, n'.begin, now')
    ensures Inv(c, stack + [n'], now')
  {
    hide Tiled;
    var s, s' := stack + [n], stack + [n'];
    forall i | 0 <= i < |s'|
      ensures s'[i].end == c.hi && Tiled(s'[i].children, s'[i].begin, Until(s', i, now'))
    {
      if i < |stack| {
        assert s[i] == s'[i] && Until(s, i, now) == Until(s', i, now');
      }
    }
    assert forall i :: 0 <= i < |s| ==> s[i].hash == s'[i].hash;
    assert s[0].begin == s'[0].begin && s[0].id == s'[0].id;
  }

  lemma TopIsTiled(c: Config, stack: seq<Node>, n: Node, now: int)
    requires Inv(c, stack + [n], now)
    ensures Tiled(n.children, n.begin, now) && n.end == c.hi && c.lo <= n.begin <= now
  {
    var s := stack + [n];
    assert s[|stack|] == n && Until(s, |stack|, now) == now;
    TiledLonger(n.children, n.begin, now, now);
    BeginsRise(c, s, now, |stack|);
  }

  /** A closed span goes under the one below it. */
  lemma AddKeepsInv(c: Config, stack: seq<Node>, n: Node, now: int)
    requires Inv(c, stack, n.begin) && Tiled(n.children, n.begin, n.end) && c.lo <= n.begin && n.end <= now <= c.hi
    ensures Inv(c, AddAll(c, stack, [n]), now)
  {
    if stack == [] {
      TiledLonger(n.children, n.begin, n.end, n.end);
      TiledSnoc([], n, c.lo, now);
      assert [] + [n] == [n];
    } else {
      hide Inv, Tiled;
      var below, top := stack[..|stack| - 1], stack[|stack| - 1];
      assert stack == below + [top];
      TopIsTiled(c, below, top, n.begin);
      TiledSnoc(top.children, n, top.begin, now);
      ChangeTop(c, below, top, top.(children := top.children + [n]), n.begin, now);
    }
  }

  /** Popping the top leaves a stack that was valid when it was pushed. */
  lemma PopKeepsInv(c: Config, stack: seq<Node>, n: Node, now: int)
    requires Inv(c, stack + [n], now)
    ensures Inv(c, stack, n.begin) && (stack == [] || n.hash != c.rootHash)
  {
    TopIsTiled(c, stack, n, now);
    hide Tiled;
    var s := stack + [n];
    forall i | 0 <= i < |stack|
      ensures stack[i].end == c.hi && Tiled(stack[i].children, stack[i].begin, Until(stack, i, n.begin))
    {
      assert s[i] == stack[i] && Until(s, i, now) == Until(stack, i, n.begin);
    }
    assert s != [] && n.begin <= now <= c.hi && s[|stack|] == n;
    assert forall i :: 0 <= i < |stack| ==> stack[i] == s[i];
  }

  lemma PushKeepsInv(c: Config, stack: seq<Node>, n: Node, now: int)
    requires Inv(c, stack, now) && c.lo <= now <= n.begin <= c.hi && n.end == c.hi && n.children == []
      && n.hash != c.rootHash
    ensures Inv(c, stack + [n], n.begin)
  {
    var s := stack + [n];
    forall i | 0 <= i < |s|
      ensures s[i].end == c.hi && Tiled(s[i].children, s[i].begin, Until(s, i, n.begin))
    {
      if i < |stack| {
        TiledLonger(stack[i].children, stack[i].begin, Until(stack, i, now), Until(s, i, n.begin));
      }
    }
  }

  lemma {:induction false} BeginsRise(c: Config, stack: seq<Node>, now: int, i: nat)
    requires Inv(c, stack, now) && i < |stack|
    ensures c.lo <= stack[i].begin
    decreases i
  {
    if i > 0 {
      BeginsRise(c, stack, now, i - 1);
      TiledLonger(stack[i - 1].children, stack[i - 1].begin, stack[i].begin, stack[i].begin);
    }
  }

  /** Time passes. */
  lemma WaitKeepsInv(c: Config, stack: seq<Node>, now: int, now': int)
    requires Inv(c, stack, now) && now <= now' <= c.hi
    ensures Inv(c, stack, now')
  {
    if stack != [] {
      var below, top := stack[..|stack| - 1], stack[|stack| - 1];
      assert stack == below + [top];
      TopIsTiled(c, below, top, now);
      TiledLonger(top.children, top.begin, now, now');
      ChangeTop(c, below, top, top, now, now');
    }
  }

  /** The end event of `n`, which is on top. */
  lemma CloseKeepsInv(c: Config, stack: seq<Node>, n: Node, closed: Node, now: int)
    requires Inv(c, stack + [n], now) && closed.begin == n.begin && closed.children == n.children
    requires now <= closed.end <= c.hi
    ensures Inv(c, AddAll(c, stack, [closed]), closed.end) && AddAll(c, stack, [closed]) != []
  {
    hide Inv, Tiled;
    TopIsTiled(c, stack, n, now);
    PopKeepsInv(c, stack, n, now);
    TiledLonger(n.children, n.begin, now, closed.end);
    AddKeepsInv(c, stack, closed, closed.end);
  }

  function After(c: Config, now: int, e: Event): int {
    if InWindow(c, c.ns(e.ts)) then c.ns(e.ts) else now
  }

  /** One event in time order keeps the invariant. A stack that holds something always will, and it does from the
      first event in the window that is not refused. */
  lemma StepKeepsInv(c: Config, st: State, e: Event, now: int)
    requires Inv(c, st.stack, now) && e.scope.hash != c.rootHash && c.lo <= now
    requires InWindow(c, c.ns(e.ts)) ==> now <= c.ns(e.ts)
    ensures var r := Step(c, st, e); r.Mismatch? || Inv(c, r.st.stack, After(c, now, e))
    ensures var r := Step(c, st, e);
            r.Mismatch? || r.st.stack != [] || (st.stack == [] && (r.Stop? || !InWindow(c, c.ns(e.ts))))
  {
    hide Inv, Tiled, AddAll;
    var time := c.ns(e.ts);
    var r := Step(c, st, e);
    if !InWindow(c, time) {
    } else if e.isBegin {
      if r.Continue? {
        PushKeepsInv(c, st.stack, Node(Some(e.id), e.scope.hash, time, c.hi, []), now);
      } else {
        WaitKeepsInv(c, st.stack, now, time);
      }
    } else if st.stack == [] {
      var n := Node(Some(e.id), e.scope.hash, c.lo, time, []);
      StartInv(c, n, time);
      StartInv(c, n, c.lo);
      AddKeepsInv(c, [], n, time);
      NotEmptied(c, [], n);
    } else {
      var below, top := st.stack[..|st.stack| - 1], st.stack[|st.stack| - 1];
      assert st.stack == below + [top];
      CloseKeepsInv(c, below, top, top.(end := time), now);
      CloseKeepsInv(c, below, top, top.(id := Some(e.id), hash := e.scope.hash, end := time), now);
    }
  }

  lemma StartInv(c: Config, n: Node, now: int)
    requires n.children == [] && n.begin == c.lo <= n.end
    ensures Inv(c, [], now) && Tiled(n.children, n.begin, n.end)
  {
  }

  lemma NotEmptied(c: Config, stack: seq<Node>, n: Node)
    ensures AddAll(c, stack, [n]) != []
  {
  }

  lemma TailKeepsInv(c: Config, stack: seq<Node>, now: int)
    requires Inv(c, stack, now) && stack != []
    ensures Inv(c, stack[1..], now)
    ensures Tiled(stack[0].children, stack[0].begin, if |stack| > 1 then stack[1].begin else now)
  {
    hide Tiled;
    var tail := stack[1..];
    assert Until(stack, 0, now) == if |stack| > 1 then stack[1].begin else now;
    forall i | 0 <= i < |tail|
      ensures tail[i].end == c.hi && Tiled(tail[i].children, tail[i].begin, Until(tail, i, now))
    {
      assert tail[i] == stack[i + 1] && Until(tail, i, now) == Until(stack, i + 1, now);
    }
    if tail != [] {
      BeginsRise(c, stack, now, 1);
    }
  }

  /** The finished tree lies in the window, and every span in it inside its parent and after its elder siblings. */
  lemma {:induction false} FinishIsTiled(c: Config, stack: seq<Node>, now: int)
    requires Inv(c, stack, now) && stack != []
    ensures var t := Finish(stack).value;
            && t.begin == stack[0].begin && c.lo <= t.begin && t.end == c.hi && Tiled(t.children, t.begin, t.end)
    decreases |stack|
  {
    hide Inv;
    TailKeepsInv(c, stack, now);
    assert c.lo <= stack[0].begin && now <= c.hi && stack[0].end == c.hi by { BottomInv(c, stack, now); }
    var kids := stack[0].children;
    if |stack| == 1 {
      assert Nest(stack[1..]) == [] && kids + [] == kids;
      TiledLonger(kids, stack[0].begin, now, c.hi);
    } else {
      FinishIsTiled(c, stack[1..], now);
      TiledSnoc(kids, Nest(stack[1..])[0], stack[0].begin, c.hi);
      assert Nest(stack[1..]) == [Nest(stack[1..])[0]];
    }
  }

  lemma BottomInv(c: Config, stack: seq<Node>, now: int)
    requires Inv(c, stack, now) && stack != []
    ensures c.lo <= stack[0].begin && now <= c.hi && stack[0].end == c.hi
  {
  }

  lemma {:induction false} KnownMore(n: Node, hashes: set<nat>, hashes': set<nat>)
    requires Known(n, hashes) && hashes <= hashes'
    ensures Known(n, hashes')
  {
    forall k | k in n.children
      ensures Known(k, hashes')
    {
      KnownMore(k, hashes, hashes');
    }
  }

  lemma AllKnownMore(ns: seq<Node>, hashes: set<nat>, hashes': set<nat>)
    requires AllKnown(ns, hashes) && hashes <= hashes'
    ensures AllKnown(ns, hashes')
  {
    forall n | n in ns
      ensures Known(n, hashes')
    {
      KnownMore(n, hashes, hashes');
    }
  }

  lemma AddAllKnown(c: Config, stack: seq<Node>, n: Node, hashes: set<nat>)
    requires AllKnown(stack, hashes) && Known(n, hashes) && c.rootHash in hashes
    ensures AllKnown(AddAll(c, stack, [n]), hashes)
  {
    if stack != [] {
      var top := stack[|stack| - 1];
      assert Known(top, hashes);
      assert forall k :: k in top.children + [n] ==> Known(k, hashes);
    }
  }

  lemma {:induction false} NestKnown(open: seq<Node>, hashes: set<nat>)
    requires AllKnown(open, hashes)
    ensures AllKnown(Nest(open), hashes)
    decreases |open|
  {
    if open != [] {
      NestKnown(open[1..], hashes);
      assert Known(open[0], hashes);
      assert forall k :: k in open[0].children + Nest(open[1..]) ==> Known(k, hashes);
    }
  }

  // ---------------------------------------------------------------------------
  // Where nodes come from
  // ---------------------------------------------------------------------------

  /** Every node has the number and the hash of one of these events, or is a root that was invented. */
  ghost predicate From(c: Config, n: Node, es: seq<Event>) {
    && (if n.id.None? then n.hash == c.rootHash
        else exists e :: e in es && n.id == Some(e.id) && n.hash == e.scope.hash)
    && forall k :: k in n.children ==> From(c, k, es)
  }

  ghost predicate AllFrom(c: Config, ns: seq<Node>, es: seq<Event>) { forall n :: n in ns ==> From(c, n, es) }

  lemma AddAllFrom(c: Config, stack: seq<Node>, n: Node, es: seq<Event>)
    requires AllFrom(c, stack, es) && From(c, n, es)
    ensures AllFrom(c, AddAll(c, stack, [n]), es)
  {
    if stack != [] {
      var top := stack[|stack| - 1];
      assert From(c, top, es);
      assert forall k :: k in top.children + [n] ==> From(c, k, es);
    }
  }

  lemma StepFrom(c: Config, st: State, e: Event, es: seq<Event>)
    requires AllFrom(c, st.stack, es) && e in es
    ensures var r := Step(c, st, e); r.Mismatch? || AllFrom(c, r.st.stack, es)
  {
    if !e.isBegin && InWindow(c, c.ns(e.ts)) {
      if st.stack == [] {
        AddAllFrom(c, [], Node(Some(e.id), e.scope.hash, c.lo, c.ns(e.ts), []), es);
      } else {
        var top := st.stack[|st.stack| - 1];
        assert From(c, top, es);
        var closed := if top.hash == e.scope.hash then top.(end := c.ns(e.ts))
          else top.(id := Some(e.id), hash := e.scope.hash, end := c.ns(e.ts));
        assert From(c, closed, es);
        AddAllFrom(c, st.stack[..|st.stack| - 1], closed, es);
      }
    }
  }

  lemma {:induction false} RunBlockFrom(c: Config, st: State, block: seq<Event>, es: seq<Event>)
    requires AllFrom(c, st.stack, es) && forall e :: e in block ==> e in es
    ensures var r := RunBlock(c, st, block); r.Mismatch? || AllFrom(c, r.st.stack, es)
    decreases |block|
  {
    hide Step, AllFrom;
    if block != [] {
      StepFrom(c, st, block[0], es);
      var r := Step(c, st, block[0]);
      if r.Continue? {
        RunBlockFrom(c, r.st, block[1..], es);
      }
    }
  }

  lemma {:induction false} RunBlocksFrom(c: Config, st: State, blocks: seq<seq<Event>>, es: seq<Event>)
    requires AllFrom(c, st.stack, es) && forall e :: e in Concat(blocks) ==> e in es
    ensures var r := RunBlocks(c, st, blocks); r.None? || AllFrom(c, r.value.stack, es)
    decreases |blocks|
  {
    hide RunBlock, AllFrom;
    if blocks != [] {
      assert forall e :: e in blocks[0] ==> e in Concat(blocks);
      RunBlockFrom(c, st, blocks[0], es);
      var r := RunBlock(c, st, blocks[0]);
      if !r.Mismatch? {
        assert forall e :: e in Concat(blocks[1..]) ==> e in Concat(blocks);
        RunBlocksFrom(c, r.st, blocks[1..], es);
      }
    }
  }

  lemma {:induction false} NestFrom(c: Config, open: seq<Node>, es: seq<Event>)
    requires AllFrom(c, open, es)
    ensures AllFrom(c, Nest(open), es)
    decreases |open|
  {
    if open != [] {
      NestFrom(c, open[1..], es);
      assert From(c, open[0], es);
      assert forall k :: k in open[0].children + Nest(open[1..]) ==> From(c, k, es);
    }
  }

  /** Whatever the events: the nodes of a tree have the numbers and hashes of events. */
  lemma CallTreeIsFrom(c: Config, blocks: seq<seq<Event>>)
    ensures var r := RunBlocks(c, State([], 0), blocks);
            r.Some? && Finish(r.value.stack).Some? ==> From(c, Finish(r.value.stack).value, Concat(blocks))
  {
    hide From;
    RunBlocksFrom(c, State([], 0), blocks, Concat(blocks));
    var r := RunBlocks(c, State([], 0), blocks);
    if r.Some? {
      NestFrom(c, r.value.stack, Concat(blocks));
    }
  }

  // ---------------------------------------------------------------------------
  // Which scopes are recorded
  // ---------------------------------------------------------------------------

  /** An event records its scope if it is seen in the window: an end always, a begin while there is room for it. */
  predicate Records(c: Config, st: State, e: Event) {
    c.lo <= c.ns(e.ts) <= c.hi && (e.isBegin ==> st.nbSpans < c.limit)
  }

  /** The scopes of a block that are recorded, in order. */
  function RecordedInBlock(c: Config, st: State, es: seq<Event>): seq<ScopeDesc>
    decreases |es|
  {
    if es == [] then []
    else
      (if Records(c, st, es[0]) then [es[0].scope] else [])
      + match Step(c, st, es[0])
        case Continue(st') => RecordedInBlock(c, st', es[1..])
        case _ => []
  }

  function Recorded(c: Config, st: State, blocks: seq<seq<Event>>): seq<ScopeDesc>
    decreases |blocks|
  {
    if blocks == [] then []
    else
      RecordedInBlock(c, st, blocks[0])
      + match RunBlock(c, st, blocks[0])
        case Mismatch => []
        case r => Recorded(c, r.st, blocks[1..])
  }

  /** The first description of a hash stays. */
  function Describe(scopes: map<nat, ScopeDesc>, recorded: seq<ScopeDesc>): map<nat, ScopeDesc>
    decreases |recorded|
  {
    if recorded == [] then scopes
    else
      var s := recorded[0];
      Describe(if s.hash in scopes then scopes else scopes[s.hash := s], recorded[1..])
  }

  /** `s` is the first of these with its hash. */
  ghost predicate IsFirst(recorded: seq<ScopeDesc>, s: ScopeDesc) {
    exists i :: 0 <= i < |recorded| && recorded[i] == s && forall j :: 0 <= j < i ==> recorded[j].hash != s.hash
  }

  lemma {:induction false} DescribeBoth(scopes: map<nat, ScopeDesc>, a: seq<ScopeDesc>, b: seq<ScopeDesc>)
    ensures Describe(scopes, a + b) == Describe(Describe(scopes, a), b)
    decreases |a|
  {
    if a == [] {
      assert a + b == b;
    } else {
      var s := a[0];
      assert (a + b)[0] == s && (a + b)[1..] == a[1..] + b;
      DescribeBoth(if s.hash in scopes then scopes else scopes[s.hash := s], a[1..], b);
    }
  }

  /** A hash has the description that it had, or else the first that was recorded with it. */
  lemma {:induction false} DescribedByFirst(scopes: map<nat, ScopeDesc>, recorded: seq<ScopeDesc>, h: nat)
    ensures var d := Describe(scopes, recorded);
      && (h in d <==> h in scopes || exists i :: 0 <= i < |recorded| && recorded[i].hash == h)
      && (h in scopes ==> d[h] == scopes[h])
      && (h !in scopes && h in d ==> d[h].hash == h && IsFirst(recorded, d[h]))
    decreases |recorded|
  {
    if recorded != [] {
      var s, rest := recorded[0], recorded[1..];
      var more := if s.hash in scopes then scopes else scopes[s.hash := s];
      DescribedByFirst(more, rest, h);
      var d := Describe(scopes, recorded);
      assert forall i :: 0 <= i < |rest| ==> rest[i] == recorded[i + 1];
      assert h in d && h !in scopes ==> h == s.hash || IsFirst(rest, d[h]);
      if h == s.hash {
        assert recorded[0].hash == h;
      } else if h in d && h !in scopes {
        var i :| 0 <= i < |rest| && rest[i] == d[h] && forall j :: 0 <= j < i ==> rest[j].hash != d[h].hash;
        assert recorded[i + 1] == d[h];
      }
    }
  }

  lemma {:induction false} RecordedAreScopes(c: Config, st: State, blocks: seq<seq<Event>>, s: ScopeDesc)
    requires s in Recorded(c, st, blocks)
    ensures exists e :: e in Concat(blocks) && e.scope == s
    decreases |blocks|
  {
    hide RunBlock, RecordedInBlock;
    if s in RecordedInBlock(c, st, blocks[0]) {
      BlockRecordsScopes(c, st, blocks[0], s);
      var e :| e in blocks[0] && e.scope == s;
      assert e in Concat(blocks);
    } else {
      var r := RunBlock(c, st, blocks[0]);
      RecordedAreScopes(c, r.st, blocks[1..], s);
      var e :| e in Concat(blocks[1..]) && e.scope == s;
      assert e in Concat(blocks);
    }
  }

  lemma {:induction false} BlockRecordsScopes(c: Config, st: State, es: seq<Event>, s: ScopeDesc)
    requires s in RecordedInBlock(c, st, es)
    ensures exists e :: e in es && e.scope == s
    decreases |es|
  {
    hide Step;
    if Records(c, st, es[0]) && s == es[0].scope {
      assert es[0] in es;
    } else {
      BlockRecordsScopes(c, Step(c, st, es[0]).st, es[1..], s);
      var e :| e in es[1..] && e.scope == s;
      assert e in es;
    }
  }

  /** No two scopes have the same hash. */
  ghost predicate Injective(thread: ScopeDesc, es: seq<Event>) {
    && (forall e :: e in es ==> e.scope.hash != thread.hash)
    && forall e, e' :: e in es && e' in es && e.scope.hash == e'.scope.hash ==> e.scope == e'.scope
  }

  /** What a tree's scopes are: the thread's, and of every other hash the first scope that was recorded with it; if no
      two scopes have the same hash, every event's own. */
  lemma ScopesAre(c: Config, thread: ScopeDesc, blocks: seq<seq<Event>>)
    requires c.rootHash == thread.hash
    ensures var recorded := Recorded(c, State([], 0), blocks);
      var d := Describe(map[thread.hash := thread], recorded);
      && thread.hash in d && d[thread.hash] == thread
      && (forall h :: h in d && h != thread.hash ==> d[h].hash == h && IsFirst(recorded, d[h]))
      && (Injective(thread, Concat(blocks)) ==>
            forall e :: e in Concat(blocks) && e.scope.hash in d ==> d[e.scope.hash] == e.scope)
  {
    hide Recorded, IsFirst;
    var recorded := Recorded(c, State([], 0), blocks);
    var start := map[thread.hash := thread];
    var d := Describe(start, recorded);
    DescribedByFirst(start, recorded, thread.hash);
    forall h | h in d && h != thread.hash
      ensures d[h].hash == h && IsFirst(recorded, d[h])
      ensures d[h] in recorded
    {
      DescribedByFirst(start, recorded, h);
      FirstIsIn(recorded, d[h]);
    }
    if Injective(thread, Concat(blocks)) {
      forall e | e in Concat(blocks) && e.scope.hash in d
        ensures d[e.scope.hash] == e.scope
      {
        RecordedAreScopes(c, State([], 0), blocks, d[e.scope.hash]);
      }
    }
  }

  /** Every node is described by the scope of the event whose number it has, and an invented root by the thread's. */
  ghost predicate OwnScope(n: Node, scopes: map<nat, ScopeDesc>, thread: ScopeDesc, es: seq<Event>) {
    && n.hash in scopes
    && (if n.id.None? then scopes[n.hash] == thread
        else exists e :: e in es && n.id == Some(e.id) && e.scope == scopes[n.hash])
    && forall k :: k in n.children ==> OwnScope(k, scopes, thread, es)
  }

  lemma {:induction false} NodesHaveTheirScopes(c: Config, n: Node, scopes: map<nat, ScopeDesc>, thread: ScopeDesc,
      es: seq<Event>)
    requires From(c, n, es) && Known(n, scopes.Keys) && c.rootHash == thread.hash
    requires thread.hash in scopes && scopes[thread.hash] == thread
    requires forall e :: e in es && e.scope.hash in scopes ==> scopes[e.scope.hash] == e.scope
    ensures OwnScope(n, scopes, thread, es)
  {
    forall k | k in n.children
      ensures OwnScope(k, scopes, thread, es)
    {
      NodesHaveTheirScopes(c, k, scopes, thread, es);
    }
  }

  lemma FirstIsIn(recorded: seq<ScopeDesc>, s: ScopeDesc)
    requires IsFirst(recorded, s)
    ensures s in recorded
  {
  }

  // ---------------------------------------------------------------------------
  // The builder
  // ---------------------------------------------------------------------------

  datatype Tree = Tree(scopes: map<nat, ScopeDesc>, root: Option<Node>)

  class Builder {
    const c: Config
    var nbSpans: int
    var stack: seq<Node>
    var scopes: map<nat, ScopeDesc>

    /** Every node can be described. */
    ghost predicate Valid()
      reads this
    {
      && c.rootHash in scopes && AllKnown(stack, scopes.Keys)
      && forall h :: h in scopes ==> scopes[h].hash == h
    }

    function St(): State
      reads this
    {
      State(stack, nbSpans)
    }

    constructor (lo: int, hi: int, limit: int, ns: int -> int, thread: ScopeDesc)
      ensures Valid() && St() == State([], 0) && c == Config(lo, hi, limit, thread.hash, ns)
      ensures scopes == map[thread.hash := thread]
    {
      c := Config(lo, hi, limit, thread.hash, ns);
      nbSpans, stack, scopes := 0, [], map[thread.hash := thread];
    }

    method RecordScopeDesc(scope: ScopeDesc)
      requires Valid()
      modifies this`scopes
      ensures Valid() && scope.hash in scopes && old(scopes.Keys) <= scopes.Keys
      ensures scopes == if scope.hash in old(scopes) then old(scopes) else old(scopes)[scope.hash := scope]
    {
      if scope.hash !in scopes {
        AllKnownMore(stack, scopes.Keys, scopes[scope.hash := scope].Keys);
        scopes := scopes[scope.hash := scope];
      }
    }

    method AddChildToTop(node: Node)
      requires Valid() && Known(node, scopes.Keys)
      modifies this`stack, this`nbSpans
      ensures Valid() && St() == CallTree.AddChildToTop(c, old(St()), node)
    {
      AddAllKnown(c, stack, node, scopes.Keys);
      if |stack| > 0 {
        var top := stack[|stack| - 1];
        stack := stack[..|stack| - 1];
        top := top.(children := top.children + [node]);
        stack := stack + [top];
      } else {
        stack := stack + [Node(None, c.rootHash, c.lo, c.hi, [node])];
        nbSpans := nbSpans + 1;
      }
    }

    /** true: carry on; false: stop this block; None: an error. */
    method OnBeginThreadScope(e: Event) returns (r: Option<bool>)
      requires Valid() && e.isBegin
      modifies this
      ensures Valid() && Is(Step(c, old(St()), e), St(), r)
      ensures scopes == Describe(old(scopes), if Records(c, old(St()), e) then [e.scope] else [])
    {
      if nbSpans >= c.limit {
        return Some(false);
      }
      var time := c.ns(e.ts);
      if time < c.lo {
        return Some(true);
      }
      if time > c.hi {
        return Some(false);
      }
      RecordScopeDesc(e.scope);
      stack := stack + [Node(Some(e.id), e.scope.hash, time, c.hi, [])];
      nbSpans := nbSpans + 1;
      return Some(true);
    }

    method OnEndThreadScope(e: Event) returns (r: Option<bool>)
      requires Valid() && !e.isBegin
      modifies this
      ensures Valid() && Is(Step(c, old(St()), e), St(), r)
      ensures scopes == Describe(old(scopes), if Records(c, old(St()), e) then [e.scope] else [])
    {
      var time := c.ns(e.ts);
      if time < c.lo {
        return Some(true);
      }
      if time > c.hi {
        return Some(false);
      }
      RecordScopeDesc(e.scope);
      if |stack| > 0 {
        var oldTop := stack[|stack| - 1];
        assert Known(oldTop, scopes.Keys);
        stack := stack[..|stack| - 1];
        if oldTop.hash == e.scope.hash {
          AddChildToTop(oldTop.(end := time));
        } else if oldTop.hash == c.rootHash {
          AddChildToTop(oldTop.(id := Some(e.id), hash := e.scope.hash, end := time));
        } else {
          return None;
        }
      } else {
        if nbSpans >= c.limit {
          return Some(false);
        }
        AddChildToTop(Node(Some(e.id), e.scope.hash, c.lo, time, []));
      }
      return Some(true);
    }

    method Finish() returns (tree: Tree)
      requires Valid()
      modifies this`stack
      ensures tree.root == CallTree.Finish(old(stack)) && tree.scopes == old(scopes)
      ensures tree.root.Some? ==> Known(tree.root.value, tree.scopes.Keys)
    {
      NestKnown(stack, scopes.Keys);
      if stack == [] {
        return Tree(scopes, None);
      }
      ghost var whole := Nest(stack);
      assert Known(whole[0], scopes.Keys);
      while |stack| > 1
        invariant stack != [] && Nest(stack) == whole
        decreases |stack|
      {
        ghost var was, m := stack, |stack| - 2;
        NestPop(stack);
        var top := stack[|stack| - 1];
        stack := stack[..|stack| - 1];
        var parent := stack[|stack| - 1];
        stack := stack[|stack| - 1 := parent.(children := parent.children + [top])];
        assert stack == was[..m] + [was[m].(children := was[m].children + [was[m + 1]])];
      }
      assert Nest(stack[1..]) == [] && stack[0].children + [] == stack[0].children;
      assert stack[0].(children := stack[0].children + Nest(stack[1..])) == stack[0];
      assert whole[0] == stack[0];
      return Tree(scopes, Some(stack[0]));
    }
  }

  /** What a handler leaves and returns is what the step says. */
  ghost predicate Is(step: Outcome, st: State, r: Option<bool>) {
    match step
    case Continue(st') => st == st' && r == Some(true)
    case Stop(st') => st == st' && r == Some(false)
    case Mismatch => r == None
  }

  /** Moving the last open span under the one below it does not change the nested whole. */
  lemma {:induction false} NestPop(stack: seq<Node>)
    requires |stack| > 1
    ensures var m := |stack| - 2;
            Nest(stack) == Nest(stack[..m] + [stack[m].(children := stack[m].children + [stack[m + 1]])])
    decreases |stack|
  {
    var m := |stack| - 2;
    var moved := stack[m].(children := stack[m].children + [stack[m + 1]]);
    var rest := stack[..m] + [moved];
    if m == 0 {
      assert Nest(stack[1..][1..]) == [];
      assert stack[1].children + Nest(stack[1..][1..]) == stack[1].children;
      assert Nest(rest[1..]) == [] && moved.children + Nest(rest[1..]) == moved.children;
      assert Nest(stack[1..]) == [stack[1]];
    } else {
      NestPop(stack[1..]);
      assert stack[1..][..m - 1] + [moved] == rest[1..];
    }
  }

  // ---------------------------------------------------------------------------
  // Runs
  // ---------------------------------------------------------------------------

  /** The events still to come are in time order and not before what has been seen. */
  predicate Follows(c: Config, es: seq<Event>, now: int) {
    && Sorted(c, es)
    && forall i :: 0 <= i < |es| ==>
      es[i].scope.hash != c.rootHash && (InWindow(c, c.ns(es[i].ts)) ==> now <= c.ns(es[i].ts))
  }

  lemma {:induction false} RunBlockKeepsInv(c: Config, st: State, es: seq<Event>, rest: seq<Event>, now: int)
    returns (now': int)
    requires Inv(c, st.stack, now) && c.lo <= now && Follows(c, es + rest, now)
    ensures var r := RunBlock(c, st, es); r.Mismatch? || Inv(c, r.st.stack, now')
    ensures now <= now' && Follows(c, rest, now')
    decreases |es|
  {
    hide Inv, Step;
    now' := now;
    if es == [] {
      assert es + rest == rest;
    } else {
      assert (es + rest)[0] == es[0] && (es + rest)[1..] == es[1..] + rest;
      StepKeepsInv(c, st, es[0], now);
      var later := After(c, now, es[0]);
      assert Follows(c, es[1..] + rest, later);
      assert rest == (es[1..] + rest)[|es| - 1..];
      now' := later;
      var r := Step(c, st, es[0]);
      if r.Continue? {
        now' := RunBlockKeepsInv(c, r.st, es[1..], rest, later);
      }
    }
  }

  lemma {:induction false} RunBlocksKeepsInv(c: Config, st: State, blocks: seq<seq<Event>>, now: int)
    returns (now': int)
    requires Inv(c, st.stack, now) && c.lo <= now && Follows(c, Concat(blocks), now)
    ensures var r := RunBlocks(c, st, blocks); r.None? || Inv(c, r.value.stack, now')
    decreases |blocks|
  {
    hide Inv, Follows;
    now' := now;
    if blocks != [] {
      now' := RunBlockKeepsInv(c, st, blocks[0], Concat(blocks[1..]), now);
      var r := RunBlock(c, st, blocks[0]);
      if !r.Mismatch? {
        now' := RunBlocksKeepsInv(c, r.st, blocks[1..], now');
      }
    }
  }

  /** Whatever the events, if they are in time order: a tree that comes out is tiled and lies in the window. */
  lemma CallTreeIsTiled(c: Config, blocks: seq<seq<Event>>)
    requires Sorted(c, Concat(blocks)) && forall e :: e in Concat(blocks) ==> e.scope.hash != c.rootHash
    ensures var r := RunBlocks(c, State([], 0), blocks);
            r.Some? && Finish(r.value.stack).Some? ==>
              var t := Finish(r.value.stack).value;
              c.lo <= t.begin && t.end == c.hi && Tiled(t.children, t.begin, t.end)
  {
    assert forall i :: 0 <= i < |Concat(blocks)| ==> Concat(blocks)[i] in Concat(blocks);
    var now := RunBlocksKeepsInv(c, State([], 0), blocks, c.lo);
    var r := RunBlocks(c, State([], 0), blocks);
    if r.Some? && r.value.stack != [] {
      FinishIsTiled(c, r.value.stack, now);
    }
  }

  /** An object of a block: a begin or end event, or something else. */
  datatype ThreadObject = ThreadEvent(isBegin: bool, scope: ScopeDesc, ts: int) | OtherObject

  datatype Block = Block(objectOffset: int, objects: seq<ThreadObject>)

  /** The events of a block: the number of an event is its index in the stream, other objects count too. */
  function Numbered(objects: seq<ThreadObject>, offset: int): seq<Event>
    decreases |objects|
  {
    if objects == [] then []
    else
      (match objects[0]
       case ThreadEvent(isBegin, scope, ts) => [Event(isBegin, offset, scope, ts)]
       case OtherObject => [])
      + Numbered(objects[1..], offset + 1)
  }

  function EventsOf(blocks: seq<Block>): (r: seq<seq<Event>>)
    ensures |r| == |blocks|
  {
    seq(|blocks|, i requires 0 <= i < |blocks| => Numbered(blocks[i].objects, blocks[i].objectOffset))
  }

  /** parse_thread_block_payload: stops when the processor asks for it or fails. */
  method ParseThreadBlock(b: Builder, block: Block) returns (r: Option<bool>)
    requires b.Valid()
    modifies b
    ensures b.Valid() && Is(RunBlock(b.c, old(b.St()), Numbered(block.objects, block.objectOffset)), b.St(), r)
    ensures b.scopes
      == Describe(old(b.scopes), RecordedInBlock(b.c, old(b.St()), Numbered(block.objects, block.objectOffset)))
  {
    hide Step, Describe, Records;
    ghost var all := RecordedInBlock(b.c, b.St(), Numbered(block.objects, block.objectOffset));
    ghost var scopes := Describe(b.scopes, all);
    var eventId, i := block.objectOffset, 0;
    while i < |block.objects|
      invariant 0 <= i <= |block.objects| && eventId == block.objectOffset + i && b.Valid()
      invariant RunBlock(b.c, old(b.St()), Numbered(block.objects, block.objectOffset))
             == RunBlock(b.c, b.St(), Numbered(block.objects[i..], eventId))
      invariant scopes == Describe(b.scopes, RecordedInBlock(b.c, b.St(), Numbered(block.objects[i..], eventId)))
    {
      assert block.objects[i..][1..] == block.objects[i + 1..];
      match block.objects[i] {
        case ThreadEvent(isBegin, scope, ts) =>
          var e := Event(isBegin, eventId, scope, ts);
          assert ([e] + Numbered(block.objects[i + 1..], eventId + 1))[1..]
            == Numbered(block.objects[i + 1..], eventId + 1);
          ghost var rest := match Step(b.c, b.St(), e)
            case Continue(st) => RecordedInBlock(b.c, st, Numbered(block.objects[i + 1..], eventId + 1))
            case _ => [];
          DescribeBoth(b.scopes, if Records(b.c, b.St(), e) then [scope] else [], rest);
          if isBegin {
            r := b.OnBeginThreadScope(e);
          } else {
            r := b.OnEndThreadScope(e);
          }
          if r != Some(true) {
            NothingMore(b.scopes);
            return;
          }
        case OtherObject =>
          assert [] + Numbered(block.objects[i + 1..], eventId + 1) == Numbered(block.objects[i + 1..], eventId + 1);
      }
      eventId, i := eventId + 1, i + 1;
    }
    NothingMore(b.scopes);
    return Some(true);
  }

  lemma NothingMore(scopes: map<nat, ScopeDesc>)
    ensures Describe(scopes, []) == scopes
  {
  }

  /** Blocks whose objects are numbered one after the other, perhaps with gaps between blocks. */
  predicate Tiling(blocks: seq<Block>) {
    forall i, j :: 0 <= i < j < |blocks| ==> blocks[i].objectOffset + |blocks[i].objects| <= blocks[j].objectOffset
  }

  /** The events of a block have the numbers of its objects. */
  lemma {:induction false} NumberedIds(objects: seq<ThreadObject>, offset: int)
    ensures DistinctIds(Numbered(objects, offset))
    ensures forall e :: e in Numbered(objects, offset) ==> offset <= e.id < offset + |objects|
    decreases |objects|
  {
    if objects != [] {
      NumberedIds(objects[1..], offset + 1);
    }
  }

  /** No two events of such blocks have the same number. */
  lemma {:induction false} TilingIsDistinct(blocks: seq<Block>)
    requires Tiling(blocks)
    ensures DistinctIds(Concat(EventsOf(blocks)))
    ensures forall e :: e in Concat(EventsOf(blocks)) ==> blocks != [] && blocks[0].objectOffset <= e.id
    decreases |blocks|
  {
    if blocks != [] {
      var rest := blocks[1..];
      TilingIsDistinct(rest);
      NumberedIds(blocks[0].objects, blocks[0].objectOffset);
      assert EventsOf(blocks)[1..] == EventsOf(rest);
      forall e | e in Concat(EventsOf(rest))
        ensures blocks[0].objectOffset + |blocks[0].objects| <= e.id
      {
        assert rest[0] == blocks[1];
      }
    }
  }

  /** make_call_tree: a failing block fails the whole, one that stops early does not stop the next. The tree of a
      well-nested trace is its view through the window if the limit stops no event, which it does not if it has room for
      the visible spans and a root; and only then, if the blocks number their events. */
  method MakeCallTree(blocks: seq<Block>, lo: int, hi: int, limit: int, ns: int -> int, thread: ScopeDesc)
    returns (r: Option<Tree>)
    ensures var run := RunBlocks(Config(lo, hi, limit, thread.hash, ns), State([], 0), EventsOf(blocks));
            && (r.None? <==> run.None?)
            && (r.Some? ==> r.value.root == CallTree.Finish(run.value.stack))
    ensures r.Some? && r.value.root.Some? ==> Known(r.value.root.value, r.value.scopes.Keys)
    ensures var c, es := Config(lo, hi, limit, thread.hash, ns), EventsOf(blocks);
      r.Some? ==>
        && thread.hash in r.value.scopes && r.value.scopes[thread.hash] == thread
        && (forall h :: h in r.value.scopes && h != thread.hash ==>
              r.value.scopes[h].hash == h && IsFirst(Recorded(c, State([], 0), es), r.value.scopes[h]))
        && (Injective(thread, Concat(es)) ==>
              forall e :: e in Concat(es) && e.scope.hash in r.value.scopes ==> r.value.scopes[e.scope.hash] == e.scope)
        && (r.value.root.Some? ==> From(c, r.value.root.value, Concat(es)))
        && (Injective(thread, Concat(es)) && r.value.root.Some? ==>
              OwnScope(r.value.root.value, r.value.scopes, thread, Concat(es)))
    ensures var c := Config(lo, hi, limit, thread.hash, ns);
            forall f :: Shows(c, f, EventsOf(blocks)) ==>
              var right := r.Some? && r.value.root == ExpectedTree(c, f);
              && (VisibleSpans(c, f) + 1 <= limit ==> right)
              && (Roomy(c, State([], 0), Concat(EventsOf(blocks))) ==> right)
              && (right && Tiling(blocks) ==> Roomy(c, State([], 0), Concat(EventsOf(blocks))))
  {
    var b := new Builder(lo, hi, limit, ns, thread);
    ghost var c, es := b.c, EventsOf(blocks);
    WhenRight(c, blocks);
    ScopesAre(c, thread, es);
    CallTreeIsFrom(c, es);
    ghost var scopes := Describe(b.scopes, Recorded(c, b.St(), es));
    hide RunBlock, RecordedInBlock, Describe, Injective, IsFirst, From, Records, OwnScope;
    for i := 0 to |blocks|
      invariant b.Valid() && RunBlocks(c, State([], 0), es) == RunBlocks(c, b.St(), es[i..])
      invariant scopes == Describe(b.scopes, Recorded(c, b.St(), es[i..]))
    {
      assert es[i..][1..] == es[i + 1..];
      ghost var run := RunBlock(c, b.St(), es[i]);
      DescribeBoth(b.scopes, RecordedInBlock(c, b.St(), es[i]),
        if run.Mismatch? then [] else Recorded(c, run.st, es[i + 1..]));
      var done := ParseThreadBlock(b, blocks[i]);
      if done.None? {
        return None;
      }
    }
    NothingMore(b.scopes);
    var tree := b.Finish();
    if Injective(thread, Concat(es)) && tree.root.Some? {
      NodesHaveTheirScopes(c, tree.root.value, tree.scopes, thread, Concat(es));
    }
    return Some(tree);
  }

  lemma WhenRight(c: Config, blocks: seq<Block>)
    ensures forall f :: Shows(c, f, EventsOf(blocks)) ==>
              var right := IsExpected(c, f, RunBlocks(c, State([], 0), EventsOf(blocks)));
              && (VisibleSpans(c, f) + 1 <= c.limit ==> right)
              && (Roomy(c, State([], 0), Concat(EventsOf(blocks))) ==> right)
              && (right && Tiling(blocks) ==> Roomy(c, State([], 0), Concat(EventsOf(blocks))))
  {
    var es := EventsOf(blocks);
    forall f | Shows(c, f, es)
      ensures var right := IsExpected(c, f, RunBlocks(c, State([], 0), es));
              && (VisibleSpans(c, f) + 1 <= c.limit ==> right)
              && (Roomy(c, State([], 0), Concat(es)) ==> right)
              && (right && Tiling(blocks) ==> Roomy(c, State([], 0), Concat(es)))
    {
      hide *;
      if VisibleSpans(c, f) + 1 <= c.limit {
        LimitSuffices(c, f, es);
      }
      if Roomy(c, State([], 0), Concat(es)) {
        CallTreeIsClip(c, f, es);
      }
      if Tiling(blocks) {
        TilingIsDistinct(blocks);
        CallTreeIsClipIff(c, f, es);
      }
    }
  }
}
