/** call_tree.rs: the stack machine that turns the begin and end events of a thread into a tree of spans clipped
    to a time window, and the specification it meets. */
module CallTree {
  import opened Basics

  datatype ScopeDesc = ScopeDesc(name: string, filename: string, target: string, line: nat, hash: nat)

  datatype Node = Node(id: Option<int>, hash: nat, begin: int, end: int, children: seq<Node>)

  /** A begin or end event with the number it has in its stream. */
  datatype Event = Event(isBegin: bool, id: int, scope: ScopeDesc, ts: int)

  /** What a builder is created with; `ns` converts ticks to nanoseconds. */
  datatype Config = Config(lo: int, hi: int, limit: int, rootHash: nat, ns: int -> int)

  datatype State = State(stack: seq<Node>, nbSpans: int)

  /** The result of feeding events: carry on, stop early in this block, or a mismatch, which is an error. */
  datatype Outcome = Continue(st: State) | Stop(st: State) | Mismatch

  // ---------------------------------------------------------------------------
  // The steps of the builder on values
  // ---------------------------------------------------------------------------

  /** Closed nodes go under the top of the stack; an empty stack gets the thread's root first. */
  function AddAll(c: Config, stack: seq<Node>, nodes: seq<Node>): seq<Node> {
    if nodes == [] then stack
    else if stack == [] then [Node(None, c.rootHash, c.lo, c.hi, nodes)]
    else
      var top := stack[|stack| - 1];
      stack[..|stack| - 1] + [top.(children := top.children + nodes)]
  }

  function AddChildToTop(c: Config, st: State, node: Node): State {
    State(AddAll(c, st.stack, [node]), if st.stack == [] then st.nbSpans + 1 else st.nbSpans)
  }

  function OnBegin(c: Config, st: State, e: Event): Outcome {
    var time := c.ns(e.ts);
    if st.nbSpans >= c.limit then Stop(st)
    else if time < c.lo then Continue(st)
    else if time > c.hi then Stop(st)
    else Continue(State(st.stack + [Node(Some(e.id), e.scope.hash, time, c.hi, [])], st.nbSpans + 1))
  }

  function OnEnd(c: Config, st: State, e: Event): Outcome {
    var time := c.ns(e.ts);
    if time < c.lo then Continue(st)
    else if time > c.hi then Stop(st)
    else if st.stack == [] then
      if st.nbSpans >= c.limit then Stop(st)
      else Continue(AddChildToTop(c, st, Node(Some(e.id), e.scope.hash, c.lo, time, [])))
    else
      var top := st.stack[|st.stack| - 1];
      var below := st.(stack := st.stack[..|st.stack| - 1]);
      if top.hash == e.scope.hash then Continue(AddChildToTop(c, below, top.(end := time)))
      else if top.hash == c.rootHash then
        Continue(AddChildToTop(c, below, top.(id := Some(e.id), hash := e.scope.hash, end := time)))
      else Mismatch
  }

  function Step(c: Config, st: State, e: Event): Outcome {
    if e.isBegin then OnBegin(c, st, e) else OnEnd(c, st, e)
  }

  /** One block: events are fed until one asks to stop. */
  function RunBlock(c: Config, st: State, es: seq<Event>): Outcome
    decreases |es|
  {
    if es == [] then Continue(st)
    else
      match Step(c, st, es[0])
      case Continue(st') => RunBlock(c, st', es[1..])
      case Stop(st') => Stop(st')
      case Mismatch => Mismatch
  }

  /** All blocks: stopping ends a block only, a mismatch ends everything. */
  function RunBlocks(c: Config, st: State, blocks: seq<seq<Event>>): Option<State>
    decreases |blocks|
  {
    if blocks == [] then Some(st)
    else
      match RunBlock(c, st, blocks[0])
      case Mismatch => None
      case r => RunBlocks(c, r.st, blocks[1..])
  }

  /** finish(): what is still open goes under what stands below it. */
  function Nest(open: seq<Node>): (r: seq<Node>)
    ensures |r| == if open == [] then 0 else 1
  {
    if open == [] then [] else [open[0].(children := open[0].children + Nest(open[1..]))]
  }

  function Finish(stack: seq<Node>): Option<Node> {
    if stack == [] then None else Some(Nest(stack)[0])
  }

  // ---------------------------------------------------------------------------
  // Specification: a well-nested trace and its view through a window
  // ---------------------------------------------------------------------------

  /** A span of the trace with the spans directly inside it. */
  datatype Span = Span(scope: ScopeDesc, begin: int, end: int, beginId: int, endId: int, children: seq<Span>)

  function BeginOf(s: Span): Event { Event(true, s.beginId, s.scope, s.begin) }
  function EndOf(s: Span): Event { Event(false, s.endId, s.scope, s.end) }

  function Flatten(f: seq<Span>): seq<Event> {
    if f == [] then []
    else
      var s := f[0];
      [BeginOf(s)] + Flatten(s.children) + [EndOf(s)] + Flatten(f[1..])
  }

  /** The events of the trace are in time order between `from` and `to`, and no span has the root's hash. */
  predicate Ordered(c: Config, f: seq<Span>, from: int, to: int) {
    if f == [] then from <= to
    else
      var s := f[0];
      && s.scope.hash != c.rootHash && from <= c.ns(s.begin)
      && Ordered(c, s.children, c.ns(s.begin), c.ns(s.end))
      && Ordered(c, f[1..], c.ns(s.end), to)
  }

  predicate InWindow(c: Config, time: int) {
    c.lo <= time <= c.hi
  }

  predicate Visible(c: Config, s: Span) {
    InWindow(c, c.ns(s.begin)) || InWindow(c, c.ns(s.end))
  }

  function Max(a: int, b: int): int { if a < b then b else a }
  function Min(a: int, b: int): int { if a < b then a else b }

  /** A visible span's node: its interval is cut to the window, and its number is that of its first visible event. */
  function ClippedNode(c: Config, s: Span, children: seq<Node>): Node {
    Node(Some(if InWindow(c, c.ns(s.begin)) then s.beginId else s.endId), s.scope.hash,
         Max(c.ns(s.begin), c.lo), Min(c.ns(s.end), c.hi), children)
  }

  /** The trace through the window: the visible spans, each under the nearest visible span around it. */
  function Clip(c: Config, f: seq<Span>): seq<Node> {
    if f == [] then []
    else
      var inside := Clip(c, f[0].children);
      (if Visible(c, f[0]) then [ClippedNode(c, f[0], inside)] else inside) + Clip(c, f[1..])
  }

  /** How many spans are visible. */
  function VisibleSpans(c: Config, f: seq<Span>): nat {
    if f == [] then 0
    else (if Visible(c, f[0]) then 1 else 0) + VisibleSpans(c, f[0].children) + VisibleSpans(c, f[1..])
  }

  // ---------------------------------------------------------------------------
  // Proof: what has been closed and what is still open when the window ends
  // ---------------------------------------------------------------------------

  /** What a span closes, given what its children close. */
  function ClosedBy(c: Config, s: Span, closed: seq<Node>): seq<Node> {
    if c.ns(s.end) > c.hi then if InWindow(c, c.ns(s.begin)) then [] else closed
    else if c.ns(s.end) < c.lo then []
    else [ClippedNode(c, s, closed)]
  }

  /** What a span leaves open. */
  function LeftOpenBy(c: Config, s: Span, closed: seq<Node>, open: seq<Node>): seq<Node> {
    if c.ns(s.end) <= c.hi then []
    else if InWindow(c, c.ns(s.begin)) then [ClippedNode(c, s, closed)] + open
    else open
  }

  function Closed(c: Config, f: seq<Span>): seq<Node> {
    if f == [] then [] else ClosedBy(c, f[0], Closed(c, f[0].children)) + Closed(c, f[1..])
  }

  function Open(c: Config, f: seq<Span>): seq<Node> {
    if f == [] then []
    else LeftOpenBy(c, f[0], Closed(c, f[0].children), Open(c, f[0].children)) + Open(c, f[1..])
  }

  lemma {:induction false} OrderedRange(c: Config, f: seq<Span>, from: int, to: int)
    requires Ordered(c, f, from, to)
    ensures from <= to
  {
    if f != [] {
      OrderedRange(c, f[0].children, c.ns(f[0].begin), c.ns(f[0].end));
      OrderedRange(c, f[1..], c.ns(f[0].end), to);
    }
  }

  /** Spans that lie wholly before or after the window leave nothing; spans that end in time leave nothing open. */
  lemma {:induction false} Outside(c: Config, f: seq<Span>, from: int, to: int)
    requires Ordered(c, f, from, to)
    ensures to < c.lo || c.hi < from ==> Clip(c, f) == [] && Closed(c, f) == []
    ensures to <= c.hi || c.hi < from ==> Open(c, f) == []
  {
    if f != [] {
      var b, e := c.ns(f[0].begin), c.ns(f[0].end);
      OrderedRange(c, f[0].children, b, e);
      OrderedRange(c, f[1..], e, to);
      Outside(c, f[0].children, b, e);
      Outside(c, f[1..], e, to);
    }
  }

  lemma ClipOne(c: Config, s: Span, clip: seq<Node>, closed: seq<Node>, open: seq<Node>)
    requires clip == closed + Nest(open) && c.ns(s.begin) <= c.ns(s.end) && c.lo <= c.hi
    requires c.ns(s.end) < c.lo || c.hi < c.ns(s.begin) ==> clip == []
    requires c.ns(s.end) <= c.hi ==> open == []
    ensures (if Visible(c, s) then [ClippedNode(c, s, clip)] else clip)
         == ClosedBy(c, s, closed) + Nest(LeftOpenBy(c, s, closed, open))
  {
    if c.ns(s.end) <= c.hi {
      assert clip == closed;
    } else if InWindow(c, c.ns(s.begin)) {
      assert ([ClippedNode(c, s, closed)] + open)[1..] == open;
    }
  }

  lemma Rejoin(closed: seq<Node>, open: seq<Node>, closed': seq<Node>, open': seq<Node>)
    requires open == [] || closed' == open' == []
    ensures (closed + Nest(open)) + (closed' + Nest(open')) == (closed + closed') + Nest(open + open')
  {
    if open == [] {
      assert open + open' == open';
      assert closed + Nest(open) == closed;
    } else {
      assert open + open' == open;
      assert closed' + Nest(open') == [];
    }
  }

  /** The view through the window is what was closed, then what is left open, nested. */
  lemma {:induction false} ClipIsClosedAndOpen(c: Config, f: seq<Span>, from: int, to: int)
    requires Ordered(c, f, from, to) && c.lo <= c.hi
    ensures Clip(c, f) == Closed(c, f) + Nest(Open(c, f))
  {
    if f != [] {
      var s, rest := f[0], f[1..];
      var clip, closed, open := Clip(c, s.children), Closed(c, s.children), Open(c, s.children);
      ClipIsClosedAndOpen(c, s.children, c.ns(s.begin), c.ns(s.end));
      ClipIsClosedAndOpen(c, rest, c.ns(s.end), to);
      OrderedRange(c, s.children, c.ns(s.begin), c.ns(s.end));
      Outside(c, s.children, c.ns(s.begin), c.ns(s.end));
      NothingAfter(c, s, rest, closed, open, to);
      hide ClosedBy, LeftOpenBy, Visible, ClippedNode, Nest, Ordered;
      ClipOne(c, s, clip, closed, open);
      Rejoin(ClosedBy(c, s, closed), LeftOpenBy(c, s, closed, open), Closed(c, rest), Open(c, rest));
    }
  }

  lemma NothingAfter(c: Config, s: Span, rest: seq<Span>, closed: seq<Node>, open: seq<Node>, to: int)
    requires Ordered(c, rest, c.ns(s.end), to)
    ensures LeftOpenBy(c, s, closed, open) == [] || (Closed(c, rest) == [] && Open(c, rest) == [])
    ensures Nest([]) == []
  {
    Outside(c, rest, c.ns(s.end), to);
  }

  // ---------------------------------------------------------------------------
  // Proof: the builder computes them
  // ---------------------------------------------------------------------------

  /** Every event is fed, whatever the previous one asked for. */
  function Feed(c: Config, st: State, es: seq<Event>): Option<State>
    decreases |es|
  {
    if es == [] then Some(st)
    else
      match Step(c, st, es[0])
      case Mismatch => None
      case r => Feed(c, r.st, es[1..])
  }

  /** The limit stops an event of the window. */
  predicate Refused(c: Config, st: State, e: Event) {
    InWindow(c, c.ns(e.ts)) && Step(c, st, e).Stop?
  }

  /** The limit stops none of these events. */
  predicate Roomy(c: Config, st: State, es: seq<Event>)
    decreases |es|
  {
    es == [] ||
    match Step(c, st, es[0])
    case Mismatch => true
    case r => !Refused(c, st, es[0]) && Roomy(c, r.st, es[1..])
  }

  /** What counts against the limit: the spans that have begun, and the root, which may have to be invented. */
  function Charge(st: State): int {
    st.nbSpans + if st.stack == [] then 1 else 0
  }

  lemma {:induction false} FeedAppend(c: Config, st: State, es: seq<Event>, es': seq<Event>)
    ensures Feed(c, st, es + es') ==
            match Feed(c, st, es) case None => None case Some(st') => Feed(c, st', es')
    decreases |es|
  {
    if es == [] {
      assert es + es' == es';
    } else {
      assert (es + es')[0] == es[0] && (es + es')[1..] == es[1..] + es';
      match Step(c, st, es[0])
      case Mismatch =>
      case r => FeedAppend(c, r.st, es[1..], es');
    }
  }

  lemma {:induction false} RoomyAppend(c: Config, st: State, es: seq<Event>, es': seq<Event>)
    ensures Roomy(c, st, es + es') <==>
            Roomy(c, st, es) && (Feed(c, st, es).None? || Roomy(c, Feed(c, st, es).value, es'))
    decreases |es|
  {
    hide Step;
    if es == [] {
      assert es + es' == es';
    } else {
      assert (es + es')[0] == es[0] && (es + es')[1..] == es[1..] + es';
      match Step(c, st, es[0])
      case Mismatch =>
      case r => RoomyAppend(c, r.st, es[1..], es');
    }
  }

  lemma AddAllTwice(c: Config, stack: seq<Node>, nodes: seq<Node>, nodes': seq<Node>)
    ensures AddAll(c, AddAll(c, stack, nodes), nodes') == AddAll(c, stack, nodes + nodes')
  {
    if nodes == [] {
      assert nodes + nodes' == nodes';
    } else if nodes' == [] {
      assert nodes + nodes' == nodes;
    } else if stack != [] {
      var top := stack[|stack| - 1];
      assert top.children + (nodes + nodes') == (top.children + nodes) + nodes';
    }
  }

  lemma AddAllOnTop(c: Config, stack: seq<Node>, n: Node, nodes: seq<Node>)
    requires n.children == []
    ensures AddAll(c, stack + [n], nodes) == stack + [n.(children := nodes)]
  {
    assert [] + nodes == nodes;
    assert (stack + [n])[..|stack|] == stack;
  }

  /** What the begin event of a span pushes. */
  function Begun(c: Config, s: Span): seq<Node> {
    if InWindow(c, c.ns(s.begin)) then [Node(Some(s.beginId), s.scope.hash, c.ns(s.begin), c.hi, [])] else []
  }

  /** What a span adds to the charge when it begins, and when it ends: 1 in all if it is visible. */
  function ChargeAtBegin(c: Config, st: State, s: Span): int {
    if !InWindow(c, c.ns(s.begin)) then 0 else if st.stack == [] then 0 else 1
  }

  function ChargeAtEnd(c: Config, st: State, s: Span): int {
    if !InWindow(c, c.ns(s.end)) then 0 else if InWindow(c, c.ns(s.begin)) && st.stack != [] then 0 else 1
  }

  /** The begin event of a span. */
  lemma FeedBegin(c: Config, st: State, s: Span)
    requires !Refused(c, st, BeginOf(s)) && (st.stack == [] || c.lo <= c.ns(s.begin))
    ensures var r := Step(c, st, BeginOf(s));
            && !r.Mismatch? && r.st.stack == st.stack + Begun(c, s)
            && Charge(r.st) == Charge(st) + ChargeAtBegin(c, st, s)
            && (r.st.stack == [] || c.lo <= c.ns(s.begin))
  {
  }

  /** Room for what the events of a span add to the charge is enough. */
  lemma SpanFits(c: Config, st: State, st': State, s: Span)
    ensures Charge(st) + ChargeAtBegin(c, st, s) <= c.limit ==> !Refused(c, st, BeginOf(s))
    ensures Charge(st') <= c.limit ==> !Refused(c, st', EndOf(s))
  {
  }

  /** An end event that closes the span on top. */
  lemma EndOnTop(c: Config, st: State, stack: seq<Node>, n: Node, e: Event)
    requires InWindow(c, c.ns(e.ts)) && st.stack == stack + [n] && n.hash == e.scope.hash
    ensures var r := OnEnd(c, st, e);
            && r.Continue? && r.st.stack == AddAll(c, stack, [n.(end := c.ns(e.ts))])
            && Charge(r.st) == Charge(st) + if stack == [] then 1 else 0
  {
    assert st.stack[..|st.stack| - 1] == stack;
  }

  /** An end event whose span began before the window: the root, if there is one, is that span. */
  lemma EndOfEarlierSpan(c: Config, st: State, closed: seq<Node>, e: Event)
    requires InWindow(c, c.ns(e.ts)) && st.stack == AddAll(c, [], closed) && e.scope.hash != c.rootHash
    requires !Refused(c, st, e) && !e.isBegin
    ensures var r := OnEnd(c, st, e);
            && r.Continue? && Charge(r.st) <= Charge(st) + 1
            && r.st.stack == AddAll(c, [], [Node(Some(e.id), e.scope.hash, c.lo, c.ns(e.ts), closed)])
  {
  }

  /** What the end event of a span does when its children have been fed to `st'`. */
  ghost predicate EndFed(c: Config, st: State, st': State, s: Span, closed: seq<Node>, open: seq<Node>) {
    var r := Step(c, st', EndOf(s));
    && !r.Mismatch? && Charge(r.st) <= Charge(st') + ChargeAtEnd(c, st, s)
    && r.st.stack == AddAll(c, st.stack, ClosedBy(c, s, closed)) + LeftOpenBy(c, s, closed, open)
  }

  lemma FeedEnd(c: Config, st: State, st': State, s: Span, closed: seq<Node>, open: seq<Node>)
    requires c.lo <= c.hi && c.ns(s.begin) <= c.ns(s.end) && s.scope.hash != c.rootHash
    requires !Refused(c, st', EndOf(s))
    requires st.stack == [] || c.lo <= c.ns(s.begin)
    requires c.ns(s.end) <= c.hi ==> open == []
    requires c.ns(s.end) < c.lo || c.hi < c.ns(s.begin) ==> closed == open == []
    requires st'.stack == AddAll(c, st.stack + Begun(c, s), closed) + open
    ensures EndFed(c, st, st', s, closed, open)
  {
    NoneAdded(c, st.stack);
    if InWindow(c, c.ns(s.begin)) {
      AddAllOnTop(c, st.stack, Begun(c, s)[0], closed);
      FeedEndOwn(c, st, st', s, closed, open);
    } else {
      assert st.stack + Begun(c, s) == st.stack;
      FeedEndOther(c, st, st', s, closed, open);
    }
  }

  /** An end event outside the window changes nothing. */
  lemma EndOutside(c: Config, st: State, e: Event)
    requires !InWindow(c, c.ns(e.ts))
    ensures var r := OnEnd(c, st, e); !r.Mismatch? && r.st == st
  {
  }

  /** The span began in the window: it is on top of the stack, or below what it leaves open. */
  lemma FeedEndOwn(c: Config, st: State, st': State, s: Span, closed: seq<Node>, open: seq<Node>)
    requires c.ns(s.begin) <= c.ns(s.end) && InWindow(c, c.ns(s.begin))
    requires c.ns(s.end) <= c.hi ==> open == []
    requires st'.stack == (st.stack + [Begun(c, s)[0].(children := closed)]) + open
    requires AddAll(c, st.stack, []) == st.stack
    ensures EndFed(c, st, st', s, closed, open)
  {
    hide AddAll, Charge;
    var mine := Begun(c, s)[0].(children := closed);
    if c.ns(s.end) <= c.hi {
      EndOnTop(c, st', st.stack, mine, EndOf(s));
    } else {
      EndOutside(c, st', EndOf(s));
      assert st'.stack == st.stack + ([mine] + open);
    }
  }

  /** The span began outside the window. */
  lemma FeedEndOther(c: Config, st: State, st': State, s: Span, closed: seq<Node>, open: seq<Node>)
    requires c.lo <= c.hi && c.ns(s.begin) <= c.ns(s.end) && s.scope.hash != c.rootHash && !InWindow(c, c.ns(s.begin))
    requires !Refused(c, st', EndOf(s))
    requires st.stack == [] || c.lo <= c.ns(s.begin)
    requires c.ns(s.end) <= c.hi ==> open == []
    requires c.ns(s.end) < c.lo || c.hi < c.ns(s.begin) ==> closed == open == []
    requires st'.stack == AddAll(c, st.stack, closed) + open && AddAll(c, st.stack, []) == st.stack
    ensures EndFed(c, st, st', s, closed, open)
  {
    hide AddAll, Charge;
    if InWindow(c, c.ns(s.end)) {
      assert st.stack == [] && st'.stack == AddAll(c, [], closed);
      EndOfEarlierSpan(c, st', closed, EndOf(s));
    } else {
      EndOutside(c, st', EndOf(s));
      hide OnEnd;
    }
  }

  lemma NoneAdded(c: Config, stack: seq<Node>)
    ensures AddAll(c, stack, []) == stack
  {
  }

  /** Feeding a trace closes and leaves open exactly what the window shows of it, if nothing is refused, and each
      visible span adds at most 1 to the charge. */
  lemma {:induction false} FeedForest(c: Config, st: State, f: seq<Span>, from: int, to: int)
    requires Ordered(c, f, from, to) && c.lo <= c.hi && Roomy(c, st, Flatten(f))
    requires st.stack == [] || c.lo <= from
    ensures var r := Feed(c, st, Flatten(f));
            && r.Some? && Charge(r.value) <= Charge(st) + VisibleSpans(c, f)
            && r.value.stack == AddAll(c, st.stack, Closed(c, f)) + Open(c, f)
    decreases f
  {
    if f == [] {
      assert AddAll(c, st.stack, []) + [] == st.stack;
    } else {
      var s, rest := f[0], f[1..];
      var begin, end := BeginOf(s), EndOf(s);
      var inner, after := Flatten(s.children), Flatten(rest);
      assert Flatten(f) == [begin] + (inner + ([end] + after));
      assert VisibleSpans(c, f)
        == (if Visible(c, s) then 1 else 0) + VisibleSpans(c, s.children) + VisibleSpans(c, rest);
      OrderedRange(c, s.children, c.ns(s.begin), c.ns(s.end));
      hide Step, AddAll, ClosedBy, LeftOpenBy, Begun, Charge, Roomy, InWindow, Refused, Flatten, Feed, VisibleSpans,
        Visible, ChargeAtBegin, ChargeAtEnd;
      RoomyFirst(c, st, begin, inner + ([end] + after));
      FeedBegin(c, st, s);
      var st1 := Step(c, st, begin).st;
      RoomyAppend(c, st1, inner, [end] + after);
      FeedForest(c, st1, s.children, c.ns(s.begin), c.ns(s.end));
      var st2 := Feed(c, st1, inner).value;
      RoomyFirst(c, st2, end, after);
      var closed, open := Closed(c, s.children), Open(c, s.children);
      Outside(c, s.children, c.ns(s.begin), c.ns(s.end));
      FeedEnd(c, st, st2, s, closed, open);
      var st3 := Step(c, st2, end).st;
      NothingBefore(c, st, s, closed, open);
      FeedForest(c, st3, rest, c.ns(s.end), to);
      FeedSteps(c, st, begin, inner, end, after);
      NothingAfter(c, s, rest, closed, open, to);
      Together(c, st.stack, ClosedBy(c, s, closed), LeftOpenBy(c, s, closed, open), Closed(c, rest), Open(c, rest));
      SpanCharge(c, st, s);
    }
  }

  lemma SpanCharge(c: Config, st: State, s: Span)
    requires st.stack == [] || c.lo <= c.ns(s.begin)
    requires c.ns(s.begin) <= c.ns(s.end)
    ensures 0 <= ChargeAtBegin(c, st, s) && 0 <= ChargeAtEnd(c, st, s)
    ensures ChargeAtBegin(c, st, s) + ChargeAtEnd(c, st, s) <= if Visible(c, s) then 1 else 0
  {
  }

  lemma RoomyFirst(c: Config, st: State, e: Event, es: seq<Event>)
    ensures Roomy(c, st, [e] + es) <==>
            Step(c, st, e).Mismatch? || (!Refused(c, st, e) && Roomy(c, Step(c, st, e).st, es))
  {
    assert ([e] + es)[1..] == es;
  }

  /** A limit that has room for the visible spans of a trace refuses none of its events. */
  lemma {:induction false} ForestFits(c: Config, st: State, f: seq<Span>, from: int, to: int)
    requires Ordered(c, f, from, to) && c.lo <= c.hi && Charge(st) + VisibleSpans(c, f) <= c.limit
    requires st.stack == [] || c.lo <= from
    ensures Roomy(c, st, Flatten(f))
    decreases f
  {
    if f != [] {
      var s, rest := f[0], f[1..];
      var begin, end := BeginOf(s), EndOf(s);
      var inner, after := Flatten(s.children), Flatten(rest);
      assert Flatten(f) == [begin] + (inner + ([end] + after));
      assert VisibleSpans(c, f)
        == (if Visible(c, s) then 1 else 0) + VisibleSpans(c, s.children) + VisibleSpans(c, rest);
      OrderedRange(c, s.children, c.ns(s.begin), c.ns(s.end));
      hide Step, AddAll, ClosedBy, LeftOpenBy, Begun, Charge, Roomy, InWindow, Refused, Flatten, Feed, VisibleSpans,
        Visible, ChargeAtBegin, ChargeAtEnd;
      SpanCharge(c, st, s);
      SpanFits(c, st, st, s);
      FeedBegin(c, st, s);
      var st1 := Step(c, st, begin).st;
      ForestFits(c, st1, s.children, c.ns(s.begin), c.ns(s.end));
      FeedForest(c, st1, s.children, c.ns(s.begin), c.ns(s.end));
      var st2 := Feed(c, st1, inner).value;
      SpanFits(c, st, st2, s);
      var closed, open := Closed(c, s.children), Open(c, s.children);
      Outside(c, s.children, c.ns(s.begin), c.ns(s.end));
      FeedEnd(c, st, st2, s, closed, open);
      var st3 := Step(c, st2, end).st;
      NothingBefore(c, st, s, closed, open);
      ForestFits(c, st3, rest, c.ns(s.end), to);
      RoomyFirst(c, st2, end, after);
      RoomyAppend(c, st1, inner, [end] + after);
      RoomyFirst(c, st, begin, inner + ([end] + after));
    }
  }

  lemma FeedSteps(c: Config, st: State, begin: Event, inner: seq<Event>, end: Event, after: seq<Event>)
    requires !Step(c, st, begin).Mismatch?
    requires var r := Feed(c, Step(c, st, begin).st, inner); r.Some? && !Step(c, r.value, end).Mismatch?
    ensures Feed(c, st, [begin] + (inner + ([end] + after)))
         == Feed(c, Step(c, Feed(c, Step(c, st, begin).st, inner).value, end).st, after)
  {
    hide Step;
    var st1 := Step(c, st, begin).st;
    FeedAppend(c, st1, inner, [end] + after);
    assert ([begin] + (inner + ([end] + after)))[1..] == inner + ([end] + after);
    assert ([end] + after)[1..] == after;
  }

  /** Nothing is in the stack after a span that ends before the window. */
  lemma NothingBefore(c: Config, st: State, s: Span, closed: seq<Node>, open: seq<Node>)
    requires st.stack == [] || c.lo <= c.ns(s.begin)
    requires c.ns(s.begin) <= c.ns(s.end) && c.lo <= c.hi
    requires c.ns(s.end) <= c.hi ==> open == []
    ensures var stack := AddAll(c, st.stack, ClosedBy(c, s, closed)) + LeftOpenBy(c, s, closed, open);
            stack == [] || c.lo <= c.ns(s.end)
  {
  }

  lemma Together(c: Config, stack: seq<Node>, closed: seq<Node>, open: seq<Node>, closed': seq<Node>, open': seq<Node>)
    requires open == [] || closed' == open' == []
    ensures AddAll(c, AddAll(c, stack, closed) + open, closed') + open'
      == AddAll(c, stack, closed + closed') + (open + open')
  {
    AddAllTwice(c, stack, closed, closed');
    if open == [] {
      assert AddAll(c, stack, closed) + open == AddAll(c, stack, closed);
      assert open + open' == open';
    } else {
      assert closed + closed' == closed;
    }
  }

  // ---------------------------------------------------------------------------
  // Proof: blocks, and the main theorem
  // ---------------------------------------------------------------------------

  predicate Sorted(c: Config, es: seq<Event>) {
    forall i, j :: 0 <= i < j < |es| ==> c.ns(es[i].ts) <= c.ns(es[j].ts)
  }

  function Concat(blocks: seq<seq<Event>>): seq<Event>
    decreases |blocks|
  {
    if blocks == [] then [] else blocks[0] + Concat(blocks[1..])
  }

  /** Events outside the window change nothing. */
  lemma {:induction false} FeedOutside(c: Config, st: State, es: seq<Event>)
    requires forall e :: e in es ==> !InWindow(c, c.ns(e.ts))
    ensures Feed(c, st, es) == Some(st)
    decreases |es|
  {
    if es != [] {
      assert es[0] in es;
      assert Step(c, st, es[0]) == Continue(st) || Step(c, st, es[0]) == Stop(st);
      FeedOutside(c, st, es[1..]);
    }
  }

  /** Before the first event of the window nothing has been counted. */
  predicate Late(c: Config, st: State, es: seq<Event>) {
    st == State([], 0) || forall e :: e in es ==> c.lo <= c.ns(e.ts)
  }

  lemma {:induction false} LateAfter(c: Config, st: State, es: seq<Event>, es': seq<Event>)
    requires Sorted(c, es + es') && Late(c, st, es + es') && Feed(c, st, es).Some?
    ensures Late(c, Feed(c, st, es).value, es')
    decreases |es|
  {
    if es == [] {
      assert es + es' == es';
    } else {
      var all := es + es';
      assert all[0] == es[0] && all[1..] == es[1..] + es';
      if c.lo <= c.ns(es[0].ts) {
        forall e | e in all[1..]
          ensures c.lo <= c.ns(e.ts)
        {
          var i :| 0 <= i < |all[1..]| && all[1..][i] == e;
          assert all[i + 1] == e;
        }
      }
      LateAfter(c, Step(c, st, es[0]).st, es[1..], es');
    }
  }

  /** A limit that leaves no room at all refuses the first event of the window. */
  lemma {:induction false} NoRoom(c: Config, st: State, es: seq<Event>)
    requires st == State([], 0) && c.limit <= 0 && Roomy(c, st, es)
    ensures forall e :: e in es ==> !InWindow(c, c.ns(e.ts))
    decreases |es|
  {
    if es != [] {
      assert Step(c, st, es[0]) == Continue(st) || Step(c, st, es[0]) == Stop(st);
      NoRoom(c, st, es[1..]);
    }
  }

  /** Stopping early loses nothing as long as nothing is refused. */
  lemma {:induction false} RunBlockIsFeed(c: Config, st: State, es: seq<Event>)
    requires Sorted(c, es) && Roomy(c, st, es) && Late(c, st, es)
    ensures var r := RunBlock(c, st, es);
            match Feed(c, st, es) case None => r.Mismatch? case Some(st') => !r.Mismatch? && r.st == st'
    decreases |es|
  {
    if es != [] {
      var r := Step(c, st, es[0]);
      if r.Stop? {
        if c.ns(es[0].ts) < c.lo {
          assert es[0] in es;
          NoRoom(c, st, es);
        }
        forall e | e in es
          ensures !InWindow(c, c.ns(e.ts))
        {
          var i :| 0 <= i < |es| && es[i] == e;
        }
        FeedOutside(c, st, es);
      } else if r.Continue? {
        assert [es[0]] + es[1..] == es;
        LateAfter(c, st, [es[0]], es[1..]);
        RunBlockIsFeed(c, r.st, es[1..]);
      }
    }
  }

  lemma {:induction false} RunBlocksIsFeed(c: Config, st: State, blocks: seq<seq<Event>>)
    requires Sorted(c, Concat(blocks)) && Late(c, st, Concat(blocks))
    requires Roomy(c, st, Concat(blocks)) && Feed(c, st, Concat(blocks)).Some?
    ensures RunBlocks(c, st, blocks) == Feed(c, st, Concat(blocks))
    decreases |blocks|
  {
    if blocks != [] {
      var es, rest := blocks[0], Concat(blocks[1..]);
      FeedAppend(c, st, es, rest);
      RoomyAppend(c, st, es, rest);
      LateAfter(c, st, es, rest);
      assert es == (es + rest)[..|es|] && rest == (es + rest)[|es|..];
      RunBlockIsFeed(c, st, es);
      RunBlocksIsFeed(c, RunBlock(c, st, es).st, blocks[1..]);
    }
  }

  predicate SortedWithin(c: Config, es: seq<Event>, from: int, to: int) {
    Sorted(c, es) && from <= to && forall i :: 0 <= i < |es| ==> from <= c.ns(es[i].ts) <= to
  }

  lemma SortedJoin(c: Config, es: seq<Event>, from: int, mid: int, es': seq<Event>, to: int)
    requires SortedWithin(c, es, from, mid) && SortedWithin(c, es', mid, to)
    ensures SortedWithin(c, es + es', from, to)
  {
  }

  lemma SortedOne(c: Config, e: Event, from: int)
    requires from <= c.ns(e.ts)
    ensures SortedWithin(c, [e], from, c.ns(e.ts))
  {
  }

  lemma {:induction false} FlattenSorted(c: Config, f: seq<Span>, from: int, to: int)
    requires Ordered(c, f, from, to)
    ensures SortedWithin(c, Flatten(f), from, to)
  {
    if f != [] {
      hide SortedWithin;
      var s, rest := f[0], f[1..];
      var begin, end := c.ns(s.begin), c.ns(s.end);
      OrderedRange(c, s.children, begin, end);
      FlattenSorted(c, s.children, begin, end);
      FlattenSorted(c, rest, end, to);
      SortedOne(c, BeginOf(s), from);
      SortedOne(c, EndOf(s), end);
      SortedJoin(c, [BeginOf(s)], from, begin, Flatten(s.children), end);
      SortedJoin(c, [BeginOf(s)] + Flatten(s.children), from, end, [EndOf(s)], end);
      SortedJoin(c, [BeginOf(s)] + Flatten(s.children) + [EndOf(s)], from, end, Flatten(rest), to);
    }
  }

  /** The tree of a window: none if nothing is visible; a single visible span that began in the window and is
      still open at its end; otherwise the thread's root over all that is visible. */
  function ExpectedTree(c: Config, f: seq<Span>): Option<Node> {
    if Clip(c, f) == [] then None
    else if Closed(c, f) == [] then Some(Clip(c, f)[0])
    else Some(Node(None, c.rootHash, c.lo, c.hi, Clip(c, f)))
  }

  ghost predicate IsExpected(c: Config, f: seq<Span>, r: Option<State>) {
    r.Some? && Finish(r.value.stack) == ExpectedTree(c, f)
  }

  /** The blocks hold every event of the trace that lies in the window, in order, and perhaps others around. */
  ghost predicate Covers(c: Config, f: seq<Span>, blocks: seq<seq<Event>>) {
    exists before, after ::
      && Flatten(f) == before + Concat(blocks) + after
      && (forall e :: e in before + after ==> !InWindow(c, c.ns(e.ts)))
  }

  /** The blocks show a well-nested trace in time order through the window. */
  ghost predicate Shows(c: Config, f: seq<Span>, blocks: seq<seq<Event>>) {
    c.lo <= c.hi && Covers(c, f, blocks) && exists from, to :: Ordered(c, f, from, to)
  }

  /** The call tree of a well-nested trace is its view through the window, however it is cut into blocks, if the limit
      stops no event of the window. */
  lemma CallTreeIsClip(c: Config, f: seq<Span>, blocks: seq<seq<Event>>)
    requires Shows(c, f, blocks)
    requires Roomy(c, State([], 0), Concat(blocks))
    ensures IsExpected(c, f, RunBlocks(c, State([], 0), blocks))
  {
    var before, after :|
      && Flatten(f) == before + Concat(blocks) + after
      && (forall e :: e in before + after ==> !InWindow(c, c.ns(e.ts)));
    var from, to :| Ordered(c, f, from, to);
    var es, start := Concat(blocks), State([], 0);
    FlattenSorted(c, f, from, to);
    assert Late(c, start, es);
    hide *;
    FeedFactor(c, start, before, es, after);
    SortedFactor(c, before, es, after);
    FeedForest(c, start, f, from, to);
    RunBlocksIsFeed(c, start, blocks);
    ClipIsClosedAndOpen(c, f, from, to);
    FinishExpected(c, f, Feed(c, start, es).value);
  }

  /** It stops none if there is room within it for the visible spans and a root. */
  lemma LimitSuffices(c: Config, f: seq<Span>, blocks: seq<seq<Event>>)
    requires Shows(c, f, blocks)
    requires VisibleSpans(c, f) + 1 <= c.limit
    ensures Roomy(c, State([], 0), Concat(blocks))
  {
    var before, after :|
      && Flatten(f) == before + Concat(blocks) + after
      && (forall e :: e in before + after ==> !InWindow(c, c.ns(e.ts)));
    var from, to :| Ordered(c, f, from, to);
    var start := State([], 0);
    assert Charge(start) == 1;
    hide *;
    ForestFits(c, start, f, from, to);
    FeedFactor(c, start, before, Concat(blocks), after);
  }

  lemma FeedFactor(c: Config, st: State, before: seq<Event>, es: seq<Event>, after: seq<Event>)
    requires forall e :: e in before + after ==> !InWindow(c, c.ns(e.ts))
    ensures Feed(c, st, before + es + after) == Feed(c, st, es)
    ensures Roomy(c, st, before + es + after) <==> Roomy(c, st, es)
  {
    hide InWindow, Refused;
    FeedOutside(c, st, before);
    FeedAppend(c, st, before + es, after);
    FeedAppend(c, st, before, es);
    RoomyOutside(c, st, before);
    RoomyAppend(c, st, before + es, after);
    RoomyAppend(c, st, before, es);
    if Feed(c, st, es).Some? {
      FeedOutside(c, Feed(c, st, es).value, after);
      RoomyOutside(c, Feed(c, st, es).value, after);
    }
  }

  lemma {:induction false} RoomyOutside(c: Config, st: State, es: seq<Event>)
    requires forall e :: e in es ==> !InWindow(c, c.ns(e.ts))
    ensures Roomy(c, st, es)
    decreases |es|
  {
    hide Step;
    if es != [] {
      assert es[0] in es;
      match Step(c, st, es[0])
      case Mismatch =>
      case r => RoomyOutside(c, r.st, es[1..]);
    }
  }

  lemma SortedFactor(c: Config, before: seq<Event>, es: seq<Event>, after: seq<Event>)
    requires Sorted(c, before + es + after)
    ensures Sorted(c, es)
  {
    assert es == (before + es + after)[|before|..|before| + |es|];
  }

  lemma FinishExpected(c: Config, f: seq<Span>, st: State)
    requires st.stack == AddAll(c, [], Closed(c, f)) + Open(c, f)
    requires Clip(c, f) == Closed(c, f) + Nest(Open(c, f))
    ensures Finish(st.stack) == ExpectedTree(c, f)
  {
    FinishNests(c, Closed(c, f), Open(c, f));
  }

  lemma FinishNests(c: Config, closed: seq<Node>, open: seq<Node>)
    ensures Finish(AddAll(c, [], closed) + open) ==
            if closed + Nest(open) == [] then None
            else if closed == [] then Some((closed + Nest(open))[0])
            else Some(Node(None, c.rootHash, c.lo, c.hi, closed + Nest(open)))
  {
    var stack := AddAll(c, [], closed) + open;
    if closed == [] {
      assert stack == open;
    } else {
      assert stack[1..] == open;
    }
  }
}
