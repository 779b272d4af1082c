/** append_call_tree of span_table.rs: the records of a call tree, which keep the numbers of its events as ids. */
module SpanTable {
  import opened Basics
  import C = CallTree
  import B = CallTreeBuilder
  import opened SpanRows

  /** The thread's root has no event and gets the id -1. */
  function Ided(ns: seq<C.Node>): (r: seq<Node>)
    ensures |r| == |ns|
  {
    if |ns| == 0 then []
    else
      var n := ns[0];
      [Node(if n.id.Some? then n.id.value else -1, n.hash, n.begin, n.end, Ided(n.children))] + Ided(ns[1..])
  }

  /** A row with the scope that its hash stands for. */
  datatype Record = Record(row: Row, scope: C.ScopeDesc)

  function Describe(rows: seq<Row>, scopes: map<nat, C.ScopeDesc>): (r: seq<Record>)
    requires forall i :: 0 <= i < |rows| ==> rows[i].hash in scopes
    ensures |r| == |rows|
  {
    seq(|rows|, i requires 0 <= i < |rows| => Record(rows[i], scopes[rows[i].hash]))
  }

  ghost predicate Described(rows: seq<Row>, scopes: map<nat, C.ScopeDesc>) {
    forall i :: 0 <= i < |rows| ==> rows[i].hash in scopes
  }

  /** Every row can be described exactly when every node is known. */
  lemma {:induction false} KnownIsDescribed(ns: seq<C.Node>, parent: int, depth: nat, scopes: map<nat, C.ScopeDesc>)
    ensures Described(Preorder(Ided(ns), parent, depth), scopes) <==> B.AllKnown(ns, scopes.Keys)
    decreases ns
  {
    if |ns| != 0 {
      var n, all := ns[0], Ided(ns);
      var below := Preorder(Ided(n.children), all[0].id, depth + 1);
      var rest := Preorder(Ided(ns[1..]), parent, depth);
      assert all[1..] == Ided(ns[1..]);
      KnownIsDescribed(n.children, all[0].id, depth + 1, scopes);
      KnownIsDescribed(ns[1..], parent, depth, scopes);
      DescribedJoin([RowOf(all[0], parent, depth)] + below, rest, scopes);
      DescribedJoin([RowOf(all[0], parent, depth)], below, scopes);
      AllKnownCons(ns, scopes.Keys);
      hide Described, B.AllKnown;
      assert Described([RowOf(all[0], parent, depth)], scopes) <==>
        n.hash in scopes by { DescribedOne(all[0], parent, depth, scopes); }
    }
  }

  lemma DescribedOne(n: Node, parent: int, depth: nat, scopes: map<nat, C.ScopeDesc>)
    ensures Described([RowOf(n, parent, depth)], scopes) <==> n.hash in scopes
  {
    assert [RowOf(n, parent, depth)][0].hash == n.hash;
  }

  lemma DescribedJoin(a: seq<Row>, b: seq<Row>, scopes: map<nat, C.ScopeDesc>)
    ensures Described(a + b, scopes) <==> Described(a, scopes) && Described(b, scopes)
  {
    if Described(a + b, scopes) {
      assert forall i :: 0 <= i < |a| ==> a[i] == (a + b)[i];
      assert forall i :: 0 <= i < |b| ==> b[i] == (a + b)[|a| + i];
    }
  }

  lemma AllKnownCons(ns: seq<C.Node>, hashes: set<nat>)
    requires |ns| != 0
    ensures B.AllKnown(ns, hashes) <==>
      ns[0].hash in hashes && B.AllKnown(ns[0].children, hashes) && B.AllKnown(ns[1..], hashes)
  {
    assert ns == [ns[0]] + ns[1..];
    if B.AllKnown(ns, hashes) {
      assert B.Known(ns[0], hashes);
    }
  }

  class SpanRecordBuilder {
    var records: seq<Record>

    constructor ()
      ensures records == []
    {
      records := [];
    }

    /** for_each_node_in_tree with the closure of append_call_tree. */
    method ForEachNode(node: C.Node, parent: int, depth: nat, scopes: map<nat, C.ScopeDesc>) returns (ok: bool)
      modifies this
      ensures ok <==> Described(Preorder(Ided([node]), parent, depth), scopes)
      ensures ok ==> records == old(records) + Describe(Preorder(Ided([node]), parent, depth), scopes)
      decreases node
    {
      if node.hash !in scopes {
        assert Preorder(Ided([node]), parent, depth)[0].hash == node.hash;
        return false;
      }
      var id := if node.id.Some? then node.id.value else -1;
      var row := Row(id, parent, depth, node.hash, node.begin, node.end);
      ghost var before := records;
      records := records + [Record(row, scopes[node.hash])];
      RowsOfNode(node, parent, depth);
      ghost var below := Preorder(Ided(node.children), id, depth + 1);
      DescribedJoin([row], below, scopes);
      assert Described([row], scopes);
      ok := ForEachChild(node.children, id, depth + 1, scopes);
      if ok {
        assert Describe([row] + below, scopes) == [Record(row, scopes[node.hash])] + Describe(below, scopes);
      }
    }

    method ForEachChild(children: seq<C.Node>, id: int, depth: nat, scopes: map<nat, C.ScopeDesc>) returns (ok: bool)
      modifies this
      ensures ok <==> Described(Preorder(Ided(children), id, depth), scopes)
      ensures ok ==> records == old(records) + Describe(Preorder(Ided(children), id, depth), scopes)
      decreases children
    {
      NothingDescribed(children[..0], id, depth, scopes);
      ghost var rows: seq<Row> := [];
      ghost var before := records;
      hide *;
      for i := 0 to |children|
        invariant rows == Preorder(Ided(children[..i]), id, depth)
        invariant Described(rows, scopes) && records == before + Describe(rows, scopes)
      {
        ghost var a, b, c := RowsAround(children, i, id, depth, scopes);
        var done := ForEachNode(children[i], id, depth, scopes);
        if !done {
          return false;
        }
        DescribeJoin(a, b, scopes);
        rows := a + b;
      }
      assert children[..|children|] == children;
      return true;
    }

    /** append_call_tree: it fails only if a node's scope is missing, which never happens to a tree that
        make_call_tree built. */
    method AppendCallTree(tree: B.Tree) returns (ok: bool)
      modifies this
      ensures tree.root.None? ==> ok && records == old(records)
      ensures tree.root.Some? ==> (ok <==> B.Known(tree.root.value, tree.scopes.Keys))
      ensures tree.root.Some? && ok ==>
        var rows := Preorder(Ided([tree.root.value]), 0, 0);
        Described(rows, tree.scopes) && records == old(records) + Describe(rows, tree.scopes)
      ensures tree.root.Some? && ok ==>
        var rows, n := Preorder(Ided([tree.root.value]), 0, 0), |old(records)|;
        && |records| == n + |rows| && records[..n] == old(records) && Described(rows, tree.scopes)
        && forall i :: 0 <= i < |rows| ==> records[n + i] == Record(rows[i], tree.scopes[rows[i].hash])
    {
      if tree.root.None? {
        return true;
      }
      ok := ForEachNode(tree.root.value, 0, 0, tree.scopes);
      KnownIsDescribed([tree.root.value], 0, 0, tree.scopes);
      assert B.AllKnown([tree.root.value], tree.scopes.Keys) <==> B.Known(tree.root.value, tree.scopes.Keys) by {
        assert tree.root.value in [tree.root.value];
      }
    }
  }

  lemma NothingDescribed(ns: seq<C.Node>, parent: int, depth: nat, scopes: map<nat, C.ScopeDesc>)
    requires |ns| == 0
    ensures var rows := Preorder(Ided(ns), parent, depth); Described(rows, scopes) && Describe(rows, scopes) == []
  {
  }

  lemma DescribeJoin(a: seq<Row>, b: seq<Row>, scopes: map<nat, C.ScopeDesc>)
    requires Described(a, scopes) && Described(b, scopes)
    ensures Described(a + b, scopes) && Describe(a + b, scopes) == Describe(a, scopes) + Describe(b, scopes)
  {
  }

  /** The rows of the siblings before, of one node, and of those after. */
  lemma RowsAround(ns: seq<C.Node>, i: nat, parent: int, depth: nat, scopes: map<nat, C.ScopeDesc>)
    returns (a: seq<Row>, b: seq<Row>, c: seq<Row>)
    requires i < |ns|
    ensures a == Preorder(Ided(ns[..i]), parent, depth) && b == Preorder(Ided([ns[i]]), parent, depth)
    ensures Preorder(Ided(ns[..i + 1]), parent, depth) == a + b
    ensures Described(Preorder(Ided(ns), parent, depth), scopes)
      <==> Described(a, scopes) && Described(b, scopes) && Described(c, scopes)
  {
    a, b, c := Preorder(Ided(ns[..i]), parent, depth), Preorder(Ided([ns[i]]), parent, depth),
      Preorder(Ided(ns[i + 1..]), parent, depth);
    RowsSplit(ns, i, parent, depth);
    DescribedJoin(a + b, c, scopes);
    DescribedJoin(a, b, scopes);
  }

  lemma RowsOfNode(n: C.Node, parent: int, depth: nat)
    ensures var id := if n.id.Some? then n.id.value else -1;
            Preorder(Ided([n]), parent, depth)
            == [Row(id, parent, depth, n.hash, n.begin, n.end)] + Preorder(Ided(n.children), id, depth + 1)
  {
    var one := Ided([n]);
    assert one[1..] == [];
  }

  lemma {:induction false} IdedAppend(a: seq<C.Node>, b: seq<C.Node>)
    ensures Ided(a + b) == Ided(a) + Ided(b)
    decreases |a|
  {
    if |a| == 0 {
      assert a + b == b;
    } else {
      assert (a + b)[0] == a[0] && (a + b)[1..] == a[1..] + b;
      IdedAppend(a[1..], b);
    }
  }

  lemma RowsSplit(ns: seq<C.Node>, i: nat, parent: int, depth: nat)
    requires i < |ns|
    ensures Preorder(Ided(ns[..i + 1]), parent, depth)
         == Preorder(Ided(ns[..i]), parent, depth) + Preorder(Ided([ns[i]]), parent, depth)
    ensures Preorder(Ided(ns), parent, depth)
         == Preorder(Ided(ns[..i]), parent, depth) + Preorder(Ided([ns[i]]), parent, depth)
            + Preorder(Ided(ns[i + 1..]), parent, depth)
  {
    hide Preorder, Ided;
    assert ns[..i + 1] == ns[..i] + [ns[i]] && ns == ns[..i + 1] + ns[i + 1..];
    IdedAppend(ns[..i], [ns[i]]);
    IdedAppend(ns[..i + 1], ns[i + 1..]);
    PreorderAppend(Ided(ns[..i]), Ided([ns[i]]), parent, depth);
    PreorderAppend(Ided(ns[..i + 1]), Ided(ns[i + 1..]), parent, depth);
  }

  /** Event numbers start at 0, which is also the parent of the root: when event 0 began a span with children, a
      reader of the table cannot tell them from the root by the parent column alone. TopParentIsClear says exactly
      when it can. */
  lemma ParentZeroIsAmbiguous()
    ensures var child := C.Node(Some(1), 7, 2, 3, []);
            var span := C.Node(Some(0), 8, 1, 4, [child]);
            var root := C.Node(None, 9, 0, 5, [span]);
            ChildIds(Preorder(Ided([root]), 0, 0), 0) != TopIds(Ided([root]))
  {
    var child := C.Node(Some(1), 7, 2, 3, []);
    var span := C.Node(Some(0), 8, 1, 4, [child]);
    var root := C.Node(None, 9, 0, 5, [span]);
    var n1 := Node(1, 7, 2, 3, []);
    var n0 := Node(0, 8, 1, 4, [n1]);
    var top := Node(-1, 9, 0, 5, [n0]);
    assert Ided([child]) == [n1];
    assert Ided([span]) == [n0];
    assert Ided([root]) == [top];
    assert !Childless([n0], 0);
    assert !Childless([top], 0);
    TopParentIsClear([top], 0, 0, 0);
  }
}
