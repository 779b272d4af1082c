/** The two span_table.rs: a call tree flattened to rows in preorder, rebuilt from them, and spread over tracks. */
module SpanRows {
  /** Times are carried along and never compared here. */
  type Time = int

  datatype Node = Node(id: int, hash: nat, begin: Time, end: Time, children: seq<Node>)

  datatype Row = Row(id: int, parent: int, depth: nat, hash: nat, begin: Time, end: Time)

  /** TabularSpanTree. */
  datatype Tabular = Tabular(rows: map<int, Row>, children: map<int, seq<int>>, roots: seq<int>, ids: seq<int>)

  function RowOf(n: Node, parent: int, depth: nat): Row {
    Row(n.id, parent, depth, n.hash, n.begin, n.end)
  }

  /** The rows of a forest: a node, what is below it, then its younger siblings. */
  function Preorder(ns: seq<Node>, parent: int, depth: nat): seq<Row> {
    if |ns| == 0 then []
    else
      [RowOf(ns[0], parent, depth)] + Preorder(ns[0].children, ns[0].id, depth + 1)
      + Preorder(ns[1..], parent, depth)
  }

  function Size(ns: seq<Node>): nat {
    if |ns| == 0 then 0 else 1 + Size(ns[0].children) + Size(ns[1..])
  }

  function TopIds(ns: seq<Node>): (r: seq<int>)
    ensures |r| == |ns|
  {
    if |ns| == 0 then [] else [ns[0].id] + TopIds(ns[1..])
  }

  ghost function IdSet(ns: seq<Node>): set<int> {
    if |ns| == 0 then {} else {ns[0].id} + IdSet(ns[0].children) + IdSet(ns[1..])
  }

  /** No id is used twice. */
  ghost predicate NoRepeat(ns: seq<Node>) {
    |ns| == 0 ||
    (&& ns[0].id !in IdSet(ns[0].children) + IdSet(ns[1..])
     && (forall i :: i in IdSet(ns[0].children) ==> i !in IdSet(ns[1..]))
     && NoRepeat(ns[0].children) && NoRepeat(ns[1..]))
  }

  // ---------------------------------------------------------------------------
  // Rebuilding
  // ---------------------------------------------------------------------------

  /** The ids of the rows under a parent, in order. */
  function ChildIds(rows: seq<Row>, parent: int): seq<int>
    decreases |rows|
  {
    if |rows| == 0 then []
    else
      var r := rows[|rows| - 1];
      ChildIds(rows[..|rows| - 1], parent) + if r.parent == parent then [r.id] else []
  }

  function RootIds(rows: seq<Row>): seq<int>
    decreases |rows|
  {
    if |rows| == 0 then []
    else
      var r := rows[|rows| - 1];
      RootIds(rows[..|rows| - 1]) + if r.depth == 0 then [r.id] else []
  }

  function ChildrenOf(t: Tabular, id: int): seq<int> {
    if id in t.children then t.children[id] else []
  }

  predicate LastWithId(rows: seq<Row>, i: nat)
    requires i < |rows|
  {
    forall j :: i < j < |rows| ==> rows[j].id != rows[i].id
  }

  /** `t` holds these rows: every parent's children in row order, the rows of depth 0, and each row under its id
      unless a later one has the same. */
  ghost predicate Built(t: Tabular, rows: seq<Row>) {
    && (forall p :: ChildrenOf(t, p) == ChildIds(rows, p))
    && t.roots == RootIds(rows) && |t.ids| == |rows|
    && (forall i :: 0 <= i < |rows| ==> t.ids[i] == rows[i].id && rows[i].id in t.rows)
    && (forall i :: 0 <= i < |rows| && LastWithId(rows, i) ==> t.rows[rows[i].id] == rows[i])
  }

  /** from_rows. */
  method FromRows(rows: seq<Row>) returns (t: Tabular)
    ensures Built(t, rows)
  {
    t := Tabular(map[], map[], [], []);
    assert Built(t, rows[..0]);
    hide Built;
    for i := 0 to |rows|
      invariant Built(t, rows[..i])
    {
      var row := rows[i];
      assert rows[..i + 1][..i] == rows[..i];
      ghost var was := t;
      if row.depth == 0 {
        t := t.(roots := t.roots + [row.id]);
      }
      t := t.(rows := t.rows[row.id := row],
              children := t.children[row.parent := ChildrenOf(t, row.parent) + [row.id]],
              ids := t.ids + [row.id]);
      BuiltStep(was, t, rows[..i], row);
      assert rows[..i + 1] == rows[..i] + [row];
    }
    assert rows[..|rows|] == rows;
  }

  lemma BuiltStep(t: Tabular, t': Tabular, rows: seq<Row>, row: Row)
    requires Built(t, rows)
    requires t'.roots == t.roots + if row.depth == 0 then [row.id] else []
    requires t'.rows == t.rows[row.id := row] && t'.ids == t.ids + [row.id]
    requires t'.children == t.children[row.parent := ChildrenOf(t, row.parent) + [row.id]]
    ensures Built(t', rows + [row])
  {
    var rows' := rows + [row];
    assert rows'[..|rows|] == rows;
    ChildrenStep(t, t', rows, row);
    RowsStep(t, t', rows, row);
    assert t'.roots == RootIds(rows');
    hide ChildIds, ChildrenOf, LastWithId, RootIds;
    assert forall i :: 0 <= i < |rows'| ==> t'.ids[i] == rows'[i].id;
  }

  lemma ChildrenStep(t: Tabular, t': Tabular, rows: seq<Row>, row: Row)
    requires forall p :: ChildrenOf(t, p) == ChildIds(rows, p)
    requires t'.children == t.children[row.parent := ChildrenOf(t, row.parent) + [row.id]]
    ensures forall p :: ChildrenOf(t', p) == ChildIds(rows + [row], p)
  {
    assert (rows + [row])[..|rows|] == rows;
    forall p
      ensures ChildrenOf(t', p) == ChildIds(rows + [row], p)
    {
      assert ChildrenOf(t, p) == ChildIds(rows, p);
      assert ChildIds(rows, p) + [] == ChildIds(rows, p);
    }
  }

  lemma RowsStep(t: Tabular, t': Tabular, rows: seq<Row>, row: Row)
    requires forall i :: 0 <= i < |rows| ==> rows[i].id in t.rows
    requires forall i :: 0 <= i < |rows| && LastWithId(rows, i) ==> t.rows[rows[i].id] == rows[i]
    requires t'.rows == t.rows[row.id := row]
    ensures forall i :: 0 <= i < |rows + [row]| ==> (rows + [row])[i].id in t'.rows
    ensures forall i :: 0 <= i < |rows + [row]| && LastWithId(rows + [row], i) ==>
      t'.rows[(rows + [row])[i].id] == (rows + [row])[i]
  {
    var rows' := rows + [row];
    forall i | 0 <= i < |rows'| && LastWithId(rows', i)
      ensures t'.rows[rows'[i].id] == rows'[i]
    {
      if i < |rows| {
        assert rows'[|rows|].id != rows'[i].id;
        assert forall j :: i < j < |rows| ==> rows'[j] == rows[j];
        assert LastWithId(rows, i);
      }
    }
  }

  // ---------------------------------------------------------------------------
  // The round trip
  // ---------------------------------------------------------------------------

  /** `t` holds the forest under these ids: the same rows and the same children in the same order. */
  ghost predicate Represents(t: Tabular, ids: seq<int>, ns: seq<Node>)
    decreases ns
  {
    && |ids| == |ns|
    && forall i :: 0 <= i < |ns| ==>
         && ids[i] == ns[i].id && ids[i] in t.rows
         && t.rows[ids[i]].hash == ns[i].hash && t.rows[ids[i]].begin == ns[i].begin && t.rows[ids[i]].end == ns[i].end
         && Represents(t, ChildrenOf(t, ids[i]), ns[i].children)
  }

  /** What is held determines the forest. */
  lemma {:induction false} RepresentsOnlyOne(t: Tabular, ids: seq<int>, ns: seq<Node>, ns': seq<Node>)
    requires Represents(t, ids, ns) && Represents(t, ids, ns')
    ensures ns == ns'
    decreases ns
  {
    forall i | 0 <= i < |ns|
      ensures ns[i] == ns'[i]
    {
      RepresentsOnlyOne(t, ChildrenOf(t, ids[i]), ns[i].children, ns'[i].children);
    }
  }

  lemma {:induction false} ChildIdsAppend(a: seq<Row>, b: seq<Row>, p: int)
    ensures ChildIds(a + b, p) == ChildIds(a, p) + ChildIds(b, p)
    ensures RootIds(a + b) == RootIds(a) + RootIds(b)
    decreases |b|
  {
    if |b| == 0 {
      assert a + b == a;
    } else {
      assert (a + b)[..|a + b| - 1] == a + b[..|b| - 1];
      ChildIdsAppend(a, b[..|b| - 1], p);
    }
  }

  lemma {:induction false} NoChildren(rows: seq<Row>, p: int)
    requires forall r :: r in rows ==> r.parent != p
    ensures ChildIds(rows, p) == []
    decreases |rows|
  {
    if |rows| != 0 {
      NoChildren(rows[..|rows| - 1], p);
    }
  }

  /** Where the ids and parents of the rows come from. */
  lemma {:induction false} PreorderIds(ns: seq<Node>, parent: int, depth: nat)
    ensures forall r :: r in Preorder(ns, parent, depth) ==>
              r.id in IdSet(ns) && (r.parent == parent || r.parent in IdSet(ns)) && depth <= r.depth
    ensures |Preorder(ns, parent, depth)| == Size(ns)
  {
    if |ns| != 0 {
      PreorderIds(ns[0].children, ns[0].id, depth + 1);
      PreorderIds(ns[1..], parent, depth);
    }
  }

  /** The rows under the forest's own parent are its top nodes, provided no node has that parent's id. */
  lemma {:induction false} TopChildren(ns: seq<Node>, parent: int, depth: nat)
    requires parent !in IdSet(ns)
    ensures ChildIds(Preorder(ns, parent, depth), parent) == TopIds(ns)
  {
    if |ns| != 0 {
      var below, rest := Preorder(ns[0].children, ns[0].id, depth + 1), Preorder(ns[1..], parent, depth);
      PreorderIds(ns[0].children, ns[0].id, depth + 1);
      NoChildren(below, parent);
      TopChildren(ns[1..], parent, depth);
      var top := [RowOf(ns[0], parent, depth)];
      ChildIdsAppend(top + below, rest, parent);
      ChildIdsAppend(top, below, parent);
      assert ChildIds(top, parent) == [ns[0].id] by { assert top[..0] == []; }
    }
  }

  lemma {:induction false} RootsAreTop(ns: seq<Node>, parent: int)
    ensures RootIds(Preorder(ns, parent, 0)) == TopIds(ns)
  {
    if |ns| != 0 {
      var below, rest := Preorder(ns[0].children, ns[0].id, 1), Preorder(ns[1..], parent, 0);
      PreorderIds(ns[0].children, ns[0].id, 1);
      NoRoots(below);
      RootsAreTop(ns[1..], parent);
      var top := [RowOf(ns[0], parent, 0)];
      ChildIdsAppend(top + below, rest, parent);
      ChildIdsAppend(top, below, parent);
      assert RootIds(top) == [ns[0].id] by { assert top[..0] == []; }
    }
  }

  lemma {:induction false} NoRoots(rows: seq<Row>)
    requires forall r :: r in rows ==> r.depth != 0
    ensures RootIds(rows) == []
    decreases |rows|
  {
    if |rows| != 0 {
      NoRoots(rows[..|rows| - 1]);
    }
  }

  /** No two rows have the same id. */
  predicate Distinct(rows: seq<Row>) {
    forall i, j :: 0 <= i < j < |rows| ==> rows[i].id != rows[j].id
  }

  lemma DistinctJoin(a: seq<Row>, b: seq<Row>)
    requires Distinct(a) && Distinct(b) && forall r, q :: r in a && q in b ==> r.id != q.id
    ensures Distinct(a + b)
  {
  }

  lemma {:induction false} PreorderDistinct(ns: seq<Node>, parent: int, depth: nat)
    requires NoRepeat(ns)
    ensures Distinct(Preorder(ns, parent, depth))
  {
    if |ns| != 0 {
      var top := [RowOf(ns[0], parent, depth)];
      var below, rest := Preorder(ns[0].children, ns[0].id, depth + 1), Preorder(ns[1..], parent, depth);
      PreorderDistinct(ns[0].children, ns[0].id, depth + 1);
      PreorderDistinct(ns[1..], parent, depth);
      PreorderIds(ns[0].children, ns[0].id, depth + 1);
      PreorderIds(ns[1..], parent, depth);
      DistinctJoin(top, below);
      DistinctJoin(top + below, rest);
    }
  }

  ghost predicate Foreign(rows: seq<Row>, ids: set<int>) {
    forall r :: r in rows ==> r.parent !in ids
  }

  /** The rest of a table does not hang below the children of a first node, nor below its siblings. */
  lemma ForeignParts(before: seq<Row>, ns: seq<Node>, after: seq<Row>, parent: int, depth: nat)
    requires |ns| != 0 && NoRepeat(ns) && parent !in IdSet(ns) && Foreign(before + after, IdSet(ns))
    ensures var n, top := ns[0], [RowOf(ns[0], parent, depth)];
            var below, rest := Preorder(n.children, n.id, depth + 1), Preorder(ns[1..], parent, depth);
            && Foreign((before + top) + (rest + after), IdSet(n.children))
            && Foreign((before + top) + (rest + after), {n.id})
            && Foreign((before + top + below) + after, IdSet(ns[1..]))
  {
    PreorderIds(ns[0].children, ns[0].id, depth + 1);
    PreorderIds(ns[1..], parent, depth);
  }

  /** Inside a table whose other rows do not hang below it, a forest is held under the ids of its top nodes. */
  lemma {:induction false} PreorderRepresents(t: Tabular, before: seq<Row>, ns: seq<Node>, after: seq<Row>,
                                                 parent: int, depth: nat)
    requires Built(t, before + Preorder(ns, parent, depth) + after)
    requires Distinct(before + Preorder(ns, parent, depth) + after)
    requires NoRepeat(ns) && parent !in IdSet(ns) && Foreign(before + after, IdSet(ns))
    ensures Represents(t, TopIds(ns), ns)
    decreases ns
  {
    if |ns| != 0 {
      hide Distinct, Foreign, Represents;
      var n, top := ns[0], [RowOf(ns[0], parent, depth)];
      var below, rest := Preorder(n.children, n.id, depth + 1), Preorder(ns[1..], parent, depth);
      var all := before + Preorder(ns, parent, depth) + after;
      assert all == (before + top) + below + (rest + after);
      assert all == (before + top + below) + rest + after;
      ForeignParts(before, ns, after, parent, depth);
      RowFound(t, all, |before|);
      assert all[|before|] == top[0];
      assert ChildrenOf(t, n.id) == ChildIds(all, n.id);
      hide Built, ChildrenOf;
      PreorderRepresents(t, before + top, n.children, rest + after, n.id, depth + 1);
      PreorderRepresents(t, before + top + below, ns[1..], after, parent, depth);
      ChildIdsInside(before + top, n.children, rest + after, n.id, depth + 1);
      ConsRepresents(t, ns);
    }
  }

  lemma ChildIdsInside(before: seq<Row>, ns: seq<Node>, after: seq<Row>, parent: int, depth: nat)
    requires parent !in IdSet(ns) && Foreign(before + after, {parent})
    ensures ChildIds(before + Preorder(ns, parent, depth) + after, parent) == TopIds(ns)
  {
    TopChildren(ns, parent, depth);
    NoChildren(before, parent);
    NoChildren(after, parent);
    ChildIdsAppend(before + Preorder(ns, parent, depth), after, parent);
    ChildIdsAppend(before, Preorder(ns, parent, depth), parent);
  }

  lemma RowFound(t: Tabular, rows: seq<Row>, i: nat)
    requires Built(t, rows) && Distinct(rows) && i < |rows|
    ensures |t.ids| == |rows| && t.ids[i] == rows[i].id
    ensures rows[i].id in t.rows && t.rows[rows[i].id] == rows[i]
  {
  }

  lemma ConsRepresents(t: Tabular, ns: seq<Node>)
    requires |ns| != 0 && Represents(t, TopIds(ns[1..]), ns[1..])
    requires var n := ns[0];
             n.id in t.rows && t.rows[n.id].hash == n.hash && t.rows[n.id].begin == n.begin && t.rows[n.id].end == n.end
             && ChildrenOf(t, n.id) == TopIds(n.children) && Represents(t, TopIds(n.children), n.children)
    ensures Represents(t, TopIds(ns), ns)
  {
    var ids := TopIds(ns);
    forall i | 0 <= i < |ns|
      ensures
         && ids[i] == ns[i].id && ids[i] in t.rows
         && t.rows[ids[i]].hash == ns[i].hash && t.rows[ids[i]].begin == ns[i].begin && t.rows[ids[i]].end == ns[i].end
         && Represents(t, ChildrenOf(t, ids[i]), ns[i].children)
    {
      if i > 0 {
        assert ns[i] == ns[1..][i - 1] && ids[i] == TopIds(ns[1..])[i - 1];
      }
    }
  }

  /** Round trip: rows made from a forest whose nodes have different ids, none of them that of the top parent, give
      the forest back. */
  lemma RowsRoundTrip(t: Tabular, ns: seq<Node>, parent: int)
    requires Built(t, Preorder(ns, parent, 0)) && NoRepeat(ns) && parent !in IdSet(ns)
    ensures Represents(t, t.roots, ns) && ChildrenOf(t, parent) == t.roots
  {
    PreorderDistinct(ns, parent, 0);
    assert [] + Preorder(ns, parent, 0) + [] == Preorder(ns, parent, 0);
    PreorderRepresents(t, [], ns, [], parent, 0);
    RootsAreTop(ns, parent);
    TopChildren(ns, parent, 0);
  }

  /** Every node with this id has no children. */
  predicate Childless(ns: seq<Node>, id: int) {
    |ns| == 0 ||
    ((ns[0].id == id ==> |ns[0].children| == 0) && Childless(ns[0].children, id) && Childless(ns[1..], id))
  }

  /** A table tells the top nodes from others exactly when no node with children has the id that stands for no
      parent. */
  lemma {:induction false} TopParentIsClear(ns: seq<Node>, parent: int, depth: nat, id: int)
    ensures var ids := ChildIds(Preorder(ns, parent, depth), id);
            if parent == id
              then |ns| <= |ids| && (ids == TopIds(ns) <==> |ids| == |ns|) && (|ids| == |ns| <==> Childless(ns, id))
            else ids == [] <==> Childless(ns, id)
  {
    if |ns| != 0 {
      var top := [RowOf(ns[0], parent, depth)];
      var below, rest := Preorder(ns[0].children, ns[0].id, depth + 1), Preorder(ns[1..], parent, depth);
      TopParentIsClear(ns[0].children, ns[0].id, depth + 1, id);
      TopParentIsClear(ns[1..], parent, depth, id);
      ChildIdsAppend(top + below, rest, id);
      ChildIdsAppend(top, below, id);
      assert ChildIds(top, id) == if parent == id then [ns[0].id] else [] by { assert top[..0] == []; }
    }
  }

  // ---------------------------------------------------------------------------
  // Numbering: the rows of a tree whose nodes have no ids yet
  // ---------------------------------------------------------------------------

  datatype Span = Span(hash: nat, begin: Time, end: Time, children: seq<Span>)

  function Count(ns: seq<Span>): nat {
    if |ns| == 0 then 0 else 1 + Count(ns[0].children) + Count(ns[1..])
  }

  /** Ids in preorder from `id` on. */
  function Number(ns: seq<Span>, id: int): seq<Node> {
    if |ns| == 0 then []
    else
      [Node(id, ns[0].hash, ns[0].begin, ns[0].end, Number(ns[0].children, id + 1))]
      + Number(ns[1..], id + 1 + Count(ns[0].children))
  }

  lemma NumberCons(ns: seq<Span>, id: int)
    requires |ns| != 0
    ensures var all := Number(ns, id);
            && |all| != 0 && all[0].id == id && all[0].children == Number(ns[0].children, id + 1)
            && all[1..] == Number(ns[1..], id + 1 + Count(ns[0].children))
  {
  }

  lemma {:induction false} NumberRange(ns: seq<Span>, id: int)
    ensures forall i :: i in IdSet(Number(ns, id)) ==> id <= i < id + Count(ns)
  {
    if |ns| != 0 {
      NumberRange(ns[0].children, id + 1);
      NumberRange(ns[1..], id + 1 + Count(ns[0].children));
      NumberCons(ns, id);
      hide Number;
    }
  }

  lemma NoRepeatCons(all: seq<Node>, inner: seq<Node>, rest: seq<Node>, next: int)
    requires |all| != 0 && all[0].children == inner && all[1..] == rest && NoRepeat(inner) && NoRepeat(rest)
    requires (forall i :: i in IdSet(inner) ==> all[0].id < i < next) && (forall i :: i in IdSet(rest) ==> next <= i)
    requires all[0].id < next
    ensures NoRepeat(all)
  {
    hide IdSet;
  }

  lemma {:induction false} NumberNoRepeat(ns: seq<Span>, id: int)
    ensures NoRepeat(Number(ns, id))
  {
    if |ns| != 0 {
      var next := id + 1 + Count(ns[0].children);
      NumberNoRepeat(ns[0].children, id + 1);
      NumberNoRepeat(ns[1..], next);
      NumberRange(ns[0].children, id + 1);
      NumberRange(ns[1..], next);
      NumberCons(ns, id);
      NoRepeatCons(Number(ns, id), Number(ns[0].children, id + 1), Number(ns[1..], next), next);
      hide *;
    }
  }

  /** Numbering only adds ids. */
  lemma {:induction false} NumberInjective(ns: seq<Span>, ns': seq<Span>, id: int)
    requires Number(ns, id) == Number(ns', id)
    ensures ns == ns'
  {
    if |ns| != 0 && |ns'| != 0 {
      var a, b := Number(ns, id), Number(ns', id);
      assert a[0] == b[0] && a[1..] == b[1..];
      NumberInjective(ns[0].children, ns'[0].children, id + 1);
      NumberInjective(ns[1..], ns'[1..], id + 1 + Count(ns[0].children));
      assert ns == [ns[0]] + ns[1..] && ns' == [ns'[0]] + ns'[1..];
    }
  }

  /** Row ids are consecutive and a parent's id is smaller than its children's. */
  lemma {:induction false} NumberedRows(ns: seq<Span>, id: int, parent: int, depth: nat)
    requires parent < id
    ensures var rows := Preorder(Number(ns, id), parent, depth);
            |rows| == Count(ns) && Consecutive(rows, id)
  {
    if |ns| != 0 {
      NumberedRows(ns[0].children, id + 1, id, depth + 1);
      NumberedRows(ns[1..], id + 1 + Count(ns[0].children), parent, depth);
      NumberCons(ns, id);
      RowsJoin([RowOf(Number(ns, id)[0], parent, depth)],
               Preorder(Number(ns[0].children, id + 1), id, depth + 1), id, id + 1);
      RowsJoin([RowOf(Number(ns, id)[0], parent, depth)] + Preorder(Number(ns[0].children, id + 1), id, depth + 1),
               Preorder(Number(ns[1..], id + 1 + Count(ns[0].children)), parent, depth), id, id + 1
                 + Count(ns[0].children));
      hide Consecutive, Number;
    }
  }

  /** Ids count up from `id`, and a parent's id is smaller. */
  predicate Consecutive(rows: seq<Row>, id: int) {
    forall i :: 0 <= i < |rows| ==> rows[i].id == id + i && rows[i].parent < rows[i].id
  }

  lemma RowsJoin(a: seq<Row>, b: seq<Row>, id: int, next: int)
    requires Consecutive(a, id) && Consecutive(b, next) && next == id + |a|
    ensures Consecutive(a + b, id)
  {
  }

  lemma {:induction false} NumberAppend(a: seq<Span>, b: seq<Span>, id: int)
    ensures Count(a + b) == Count(a) + Count(b)
    ensures Number(a + b, id) == Number(a, id) + Number(b, id + Count(a))
    decreases |a|
  {
    if |a| == 0 {
      assert a + b == b;
    } else {
      assert (a + b)[0] == a[0] && (a + b)[1..] == a[1..] + b;
      NumberAppend(a[1..], b, id + 1 + Count(a[0].children));
    }
  }

  lemma {:induction false} PreorderAppend(a: seq<Node>, b: seq<Node>, parent: int, depth: nat)
    ensures Preorder(a + b, parent, depth) == Preorder(a, parent, depth) + Preorder(b, parent, depth)
    decreases |a|
  {
    if |a| == 0 {
      assert a + b == b;
    } else {
      assert (a + b)[0] == a[0] && (a + b)[1..] == a[1..] + b;
      PreorderAppend(a[1..], b, parent, depth);
    }
  }

  /** One more sibling. */
  lemma RowsSnoc(ns: seq<Span>, n: Span, id: int, parent: int, depth: nat)
    ensures Count(ns + [n]) == Count(ns) + Count([n])
    ensures Preorder(Number(ns + [n], id), parent, depth)
         == Preorder(Number(ns, id), parent, depth) + Preorder(Number([n], id + Count(ns)), parent, depth)
  {
    NumberAppend(ns, [n], id);
    PreorderAppend(Number(ns, id), Number([n], id + Count(ns)), parent, depth);
  }

  lemma NothingToNumber(ns: seq<Span>, id: int, parent: int, depth: nat)
    requires |ns| == 0
    ensures Count(ns) == 0 && Preorder(Number(ns, id), parent, depth) == []
  {
  }

  lemma RowsOfOne(n: Span, id: int, parent: int, depth: nat)
    ensures Count([n]) == 1 + Count(n.children)
    ensures Preorder(Number([n], id), parent, depth)
         == [Row(id, parent, depth, n.hash, n.begin, n.end)] + Preorder(Number(n.children, id + 1), id, depth + 1)
  {
    var one := Number([n], id);
    assert one == [Node(id, n.hash, n.begin, n.end, Number(n.children, id + 1))];
    assert one[1..] == [];
  }

  /** No scope hash is 0, which make_rows_from_tree_impl insists on. */
  predicate NonZero(ns: seq<Span>) {
    |ns| == 0 || (ns[0].hash != 0 && NonZero(ns[0].children) && NonZero(ns[1..]))
  }

  lemma {:induction false} NonZeroAt(ns: seq<Span>, i: nat)
    requires NonZero(ns) && i < |ns|
    ensures ns[i].hash != 0 && NonZero(ns[i].children)
    decreases i
  {
    if i > 0 {
      NonZeroAt(ns[1..], i - 1);
    }
  }

  class SpanRowGroup {
    var rows: seq<Row>

    constructor ()
      ensures rows == []
    {
      rows := [];
    }

    method MakeRowsImpl(tree: Span, parent: int, depth: nat, nextId: int) returns (nextId': int)
      requires tree.hash != 0 && NonZero(tree.children)
      modifies this
      ensures nextId' == nextId + Count([tree])
      ensures rows == old(rows) + Preorder(Number([tree], nextId), parent, depth)
      decreases tree
    {
      var spanId := nextId;
      nextId' := nextId + 1;
      ghost var row := Row(spanId, parent, depth, tree.hash, tree.begin, tree.end);
      rows := rows + [Row(spanId, parent, depth, tree.hash, tree.begin, tree.end)];
      RowsOfOne(tree, nextId, parent, depth);
      nextId' := MakeChildren(tree.children, spanId, depth + 1, nextId');
      assert (old(rows) + [row]) + Preorder(Number(tree.children, nextId + 1), spanId, depth + 1)
          == old(rows) + ([row] + Preorder(Number(tree.children, nextId + 1), spanId, depth + 1));
    }

    method MakeChildren(children: seq<Span>, parent: int, depth: nat, nextId: int) returns (nextId': int)
      requires NonZero(children)
      modifies this
      ensures nextId' == nextId + Count(children)
      ensures rows == old(rows) + Preorder(Number(children, nextId), parent, depth)
      decreases children
    {
      nextId' := nextId;
      hide Preorder, Number, Count;
      assert Count(children[..0]) == 0 && Preorder(Number(children[..0], nextId), parent, depth) == [] by {
        NothingToNumber(children[..0], nextId, parent, depth);
      }
      for i := 0 to |children|
        invariant nextId' == nextId + Count(children[..i])
        invariant rows == old(rows) + Preorder(Number(children[..i], nextId), parent, depth)
      {
        NonZeroAt(children, i);
        RowsSnoc(children[..i], children[i], nextId, parent, depth);
        assert children[..i + 1] == children[..i] + [children[i]];
        nextId' := MakeRowsImpl(children[i], parent, depth, nextId');
      }
      assert children[..|children|] == children;
    }

    /** make_rows_from_tree: a root with hash 0 has no row of its own. */
    method MakeRows(tree: Span, nextId: int) returns (nextId': int)
      requires NonZero(tree.children)
      modifies this
      ensures nextId' == nextId + Count(Top(tree))
      ensures rows == old(rows) + Preorder(Number(Top(tree), nextId), 0, 0)
      ensures tree.hash == 0 ==> rows == old(rows) + Preorder(Number(tree.children, nextId), 0, 0)
      ensures tree.hash != 0 ==>
        rows == old(rows) + [Row(nextId, 0, 0, tree.hash, tree.begin, tree.end)]
                + Preorder(Number(tree.children, nextId + 1), nextId, 1)
    {
      RowsOfOne(tree, nextId, 0, 0);
      if tree.hash == 0 {
        nextId' := MakeChildren(tree.children, 0, 0, nextId);
      } else {
        nextId' := MakeRowsImpl(tree, 0, 0, nextId);
      }
    }
  }

  function Top(tree: Span): seq<Span> {
    if tree.hash == 0 then tree.children else [tree]
  }

  /** The rows of a tree, numbered from 1 on or later, give the tree back and no other. */
  lemma TreeRoundTrip(t: Tabular, tree: Span, nextId: int)
    requires 1 <= nextId && Built(t, Preorder(Number(Top(tree), nextId), 0, 0))
    ensures Represents(t, t.roots, Number(Top(tree), nextId)) && ChildrenOf(t, 0) == t.roots
    ensures forall ns :: Represents(t, t.roots, Number(ns, nextId)) ==> ns == Top(tree)
  {
    NumberRange(Top(tree), nextId);
    NumberNoRepeat(Top(tree), nextId);
    RowsRoundTrip(t, Number(Top(tree), nextId), 0);
    forall ns | Represents(t, t.roots, Number(ns, nextId))
      ensures ns == Top(tree)
    {
      RepresentsOnlyOne(t, t.roots, Number(ns, nextId), Number(Top(tree), nextId));
      NumberInjective(ns, Top(tree), nextId);
    }
  }

  // ---------------------------------------------------------------------------
  // Tracks
  // ---------------------------------------------------------------------------

  /** A span of a track; its alpha is always 255. */
  datatype Drawn = Drawn(hash: nat, begin: Time, end: Time, alpha: nat)

  function Track(rows: seq<Row>, depth: nat): seq<Drawn>
    decreases |rows|
  {
    if |rows| == 0 then []
    else
      var r := rows[|rows| - 1];
      Track(rows[..|rows| - 1], depth) + if r.depth == depth then [Drawn(r.hash, r.begin, r.end, 255)] else []
  }

  /** A row is at most one level deeper than the one before it, and the first is at the top. */
  predicate DepthSteps(rows: seq<Row>, from: nat) {
    && (|rows| != 0 ==> rows[0].depth == from)
    && (forall i :: 0 <= i < |rows| ==> from <= rows[i].depth)
    && (forall i :: 0 < i < |rows| ==> rows[i].depth <= rows[i - 1].depth + 1)
  }

  lemma {:induction false} PreorderSteps(ns: seq<Node>, parent: int, depth: nat)
    ensures DepthSteps(Preorder(ns, parent, depth), depth)
  {
    if |ns| != 0 {
      PreorderSteps(ns[0].children, ns[0].id, depth + 1);
      PreorderSteps(ns[1..], parent, depth);
    }
  }

  /** The tracks so far: track d holds the rows of depth d, and none is empty. */
  ghost predicate Drawing(tracks: seq<seq<Drawn>>, rows: seq<Row>) {
    && (forall d :: 0 <= d < |tracks| ==> tracks[d] == Track(rows, d) && tracks[d] != [])
    && (forall i :: 0 <= i < |rows| ==> rows[i].depth < |tracks|)
  }

  lemma {:induction false} NoTrack(rows: seq<Row>, depth: nat)
    requires forall i :: 0 <= i < |rows| ==> rows[i].depth < depth
    ensures Track(rows, depth) == []
    decreases |rows|
  {
    if |rows| != 0 {
      NoTrack(rows[..|rows| - 1], depth);
    }
  }

  lemma DrawOne(tracks: seq<seq<Drawn>>, rows: seq<Row>, r: Row)
    requires Drawing(tracks, rows) && r.depth <= |tracks|
    ensures var grown := if |tracks| <= r.depth then tracks + [[]] else tracks;
            Drawing(grown[r.depth := grown[r.depth] + [Drawn(r.hash, r.begin, r.end, 255)]], rows + [r])
  {
    assert (rows + [r])[..|rows|] == rows;
    NoTrack(rows, |tracks|);
  }

  /** A span goes on the track of its depth, which may be a new one. */
  method Draw(tracks: seq<seq<Drawn>>, row: Row, ghost rows: seq<Row>) returns (grown: seq<seq<Drawn>>)
    requires Drawing(tracks, rows) && row.depth <= |tracks|
    ensures Drawing(grown, rows + [row]) && row.depth < |grown|
  {
    DrawOne(tracks, rows, row);
    hide Drawing;
    grown := tracks;
    if |grown| <= row.depth {
      grown := grown + [[]];
    }
    grown := grown[row.depth := grown[row.depth] + [Drawn(row.hash, row.begin, row.end, 255)]];
  }

  /** lod0_from_span_tree: never indexes past its tracks, and track d holds the rows of depth d in order. */
  method Lod0(t: Tabular, ghost rows: seq<Row>) returns (tracks: seq<seq<Drawn>>)
    requires Built(t, rows) && Distinct(rows) && DepthSteps(rows, 0)
    ensures Drawing(tracks, rows)
  {
    tracks := [];
    NothingDrawn(rows[..0]);
    assert |t.ids| == |rows|;
    hide Drawing, Distinct, Built;
    for index := 0 to |t.ids|
      invariant Drawing(tracks, rows[..index])
      invariant index > 0 ==> rows[index - 1].depth < |tracks|
    {
      RowFound(t, rows, index);
      tracks := Draw(tracks, t.rows[t.ids[index]], rows[..index]);
      assert rows[..index + 1] == rows[..index] + [rows[index]];
    }
    assert rows[..|rows|] == rows;
  }

  lemma NothingDrawn(rows: seq<Row>)
    requires |rows| == 0
    ensures Drawing([], rows)
  {
  }
}
