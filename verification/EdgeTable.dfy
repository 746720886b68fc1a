/** Adding one containment edge to a node table. The edge is written on both
    endpoints, and every other fact of the table is kept. */
module EdgeTable {
  import opened Paths
  import opened Lists
  import opened Hierarchy

  function PushNew(list: seq<NodeId>, x: NodeId): seq<NodeId> {
    if x in list then list else list + [x]
  }

  lemma PushNewHas(list: seq<NodeId>, x: NodeId, y: NodeId)
    ensures y in PushNew(list, x) <==> y in list || y == x
  {
  }

  /** The table with `parent` -> `child` on both endpoints; unchanged for a
      self-edge or an unknown endpoint. */
  function WithEdge(nodes: seq<HierNode>, index: map<NodeId, nat>, parent: NodeId, child: NodeId): (r: seq<HierNode>)
    requires InRange(index, |nodes|)
    ensures |r| == |nodes|
  {
    if parent == child || parent !in index || child !in index then nodes
    else
      var c := index[child];
      var nodes1 := nodes[c := nodes[c].(parents := PushNew(nodes[c].parents, parent))];
      var p := index[parent];
      nodes1[p := nodes1[p].(children := PushNew(nodes1[p].children, child))]
  }

  /** The record of one edge in a node table held by the caller. */
  method AddContainment(nodes: seq<HierNode>, index: map<NodeId, nat>, parent: NodeId, child: NodeId)
    returns (r: seq<HierNode>)
    requires InRange(index, |nodes|)
    ensures r == WithEdge(nodes, index, parent, child)
  {
    r := nodes;
    if parent == child {
      return;
    }
    if parent !in index || child !in index {
      return;
    }
    var pi, ci := index[parent], index[child];
    if parent !in r[ci].parents {
      r := r[ci := r[ci].(parents := r[ci].parents + [parent])];
    }
    if child !in r[pi].children {
      r := r[pi := r[pi].(children := r[pi].children + [child])];
    }
  }

  /** Same nodes in the same order; only the link lists may have grown. */
  ghost predicate OnlyLinksGrew(nodes: seq<HierNode>, r: seq<HierNode>) {
    && |r| == |nodes|
    && forall i :: 0 <= i < |nodes| ==>
         && nodes[i].parents <= r[i].parents
         && nodes[i].children <= r[i].children
         && r[i] == nodes[i].(parents := r[i].parents, children := r[i].children)
  }

  /** The edges an `AddContainment` call contributes. */
  ghost function NewEdge(ids: set<NodeId>, parent: NodeId, child: NodeId): set<(NodeId, NodeId)> {
    if parent != child && parent in ids && child in ids then {(parent, child)} else {}
  }

  lemma SameIds(nodes: seq<HierNode>, r: seq<HierNode>)
    requires |r| == |nodes| && forall i :: 0 <= i < |nodes| ==> r[i].id == nodes[i].id
    ensures Ids(r) == Ids(nodes)
    ensures UniqueIds(nodes) ==> UniqueIds(r)
  {
    forall x
      ensures x in Ids(r) <==> x in Ids(nodes)
    {
      if x in Ids(r) {
        var i :| 0 <= i < |r| && r[i].id == x;
        assert nodes[i].id == x;
      }
      if x in Ids(nodes) {
        var i :| 0 <= i < |nodes| && nodes[i].id == x;
        assert r[i].id == x;
      }
    }
  }

  lemma SameIndex(nodes: seq<HierNode>, r: seq<HierNode>, index: map<NodeId, nat>)
    requires IsIndex(nodes, index)
    requires |r| == |nodes| && forall i :: 0 <= i < |nodes| ==> r[i].id == nodes[i].id
    ensures IsIndex(r, index) && Ids(r) == Ids(nodes)
  {
    SameIds(nodes, r);
    hide Ids;
  }

  lemma WithEdgeFrame(nodes: seq<HierNode>, index: map<NodeId, nat>, parent: NodeId, child: NodeId)
    requires IsIndex(nodes, index) && UniqueIds(nodes)
    ensures var r := WithEdge(nodes, index, parent, child);
            UniqueIds(r) && IsIndex(r, index) && Ids(r) == Ids(nodes) && OnlyLinksGrew(nodes, r)
  {
    var r := WithEdge(nodes, index, parent, child);
    WithEdgeShape(nodes, index, parent, child);
    SameIds(nodes, r);
    hide WithEdge, Ids, UniqueIds;
    SameIndex(nodes, r, index);
  }

  lemma WithEdgeShape(nodes: seq<HierNode>, index: map<NodeId, nat>, parent: NodeId, child: NodeId)
    requires IsIndex(nodes, index)
    ensures OnlyLinksGrew(nodes, WithEdge(nodes, index, parent, child))
  {
  }

  /** What one direction of one node lists afterwards. */
  lemma WithEdgeStep(nodes: seq<HierNode>, index: map<NodeId, nat>, parent: NodeId, child: NodeId, i: nat)
    requires IsIndex(nodes, index) && UniqueIds(nodes) && i < |nodes|
    ensures var r, e := WithEdge(nodes, index, parent, child), NewEdge(Ids(nodes), parent, child);
            && r[i].children == (if (nodes[i].id, child) in e then PushNew(nodes[i].children, child)
                                 else nodes[i].children)
            && r[i].parents == (if (parent, nodes[i].id) in e then PushNew(nodes[i].parents, parent)
                                else nodes[i].parents)
  {
    hide Ids, UniqueIds;
    if parent in index && child in index {
      UniqueAt(nodes, index[parent], i);
      UniqueAt(nodes, index[child], i);
    }
  }

  lemma UniqueAt(nodes: seq<HierNode>, i: nat, j: nat)
    requires UniqueIds(nodes) && i < |nodes| && j < |nodes|
    ensures nodes[i].id == nodes[j].id ==> i == j
  {
  }

  lemma WithEdgeLink(nodes: seq<HierNode>, index: map<NodeId, nat>, parent: NodeId, child: NodeId,
                     i: nat, y: NodeId)
    requires IsIndex(nodes, index) && UniqueIds(nodes) && i < |nodes|
    ensures var r, e := WithEdge(nodes, index, parent, child), NewEdge(Ids(nodes), parent, child);
            var x := nodes[i].id;
            && ((x, y) in Links(r, Down) <==> (x, y) in Links(nodes, Down) || (x, y) in e)
            && ((x, y) in Links(r, Up) <==> (x, y) in Links(nodes, Up) || (y, x) in e)
  {
    var r, e := WithEdge(nodes, index, parent, child), NewEdge(Ids(nodes), parent, child);
    WithEdgeFrame(nodes, index, parent, child);
    assert r[i].id == nodes[i].id;
    hide WithEdge, Links, UniqueIds, Ids, OnlyLinksGrew, IsIndex, PushNew;
    WithEdgeStep(nodes, index, parent, child, i);
    PushNewHas(nodes[i].children, child, y);
    PushNewHas(nodes[i].parents, parent, y);
    assert (nodes[i].id, y) in e ==> y == child;
    assert (y, nodes[i].id) in e ==> y == parent;
    hide NewEdge;
    LinksHas(nodes, Down, i, y);
    LinksHas(nodes, Up, i, y);
    LinksHas(r, Down, i, y);
    LinksHas(r, Up, i, y);
  }

  lemma WithEdgeLinks(nodes: seq<HierNode>, index: map<NodeId, nat>, parent: NodeId, child: NodeId)
    requires IsIndex(nodes, index) && UniqueIds(nodes)
    ensures var r, e := WithEdge(nodes, index, parent, child), NewEdge(Ids(nodes), parent, child);
            && Links(r, Down) == Links(nodes, Down) + e
            && Links(r, Up) == Links(nodes, Up) + Reversed(e)
  {
    var r, e := WithEdge(nodes, index, parent, child), NewEdge(Ids(nodes), parent, child);
    WithEdgeFrame(nodes, index, parent, child);
    hide WithEdge, Links, UniqueIds, Reversed, OnlyLinksGrew;
    forall x, y
      ensures (x, y) in Links(r, Down) <==> (x, y) in Links(nodes, Down) + e
      ensures (x, y) in Links(r, Up) <==> (x, y) in Links(nodes, Up) + Reversed(e)
    {
      ReversedHas(e, x, y);
      if x in Ids(nodes) {
        var i :| 0 <= i < |nodes| && nodes[i].id == x;
        WithEdgeLink(nodes, index, parent, child, i, y);
      } else {
        LinksOwned(nodes, Down, (x, y));
        LinksOwned(nodes, Up, (x, y));
        LinksOwned(r, Down, (x, y));
        LinksOwned(r, Up, (x, y));
      }
    }
    PairwiseEqual(Links(r, Down), Links(nodes, Down) + e);
    PairwiseEqual(Links(r, Up), Links(nodes, Up) + Reversed(e));
  }

  lemma ReversedPlus(a: set<(NodeId, NodeId)>, b: set<(NodeId, NodeId)>)
    ensures Reversed(a + b) == Reversed(a) + Reversed(b)
  {
    forall x, y
      ensures (x, y) in Reversed(a + b) <==> (x, y) in Reversed(a) + Reversed(b)
    {
      ReversedHas(a + b, x, y);
      ReversedHas(a, x, y);
      ReversedHas(b, x, y);
    }
    PairwiseEqual(Reversed(a + b), Reversed(a) + Reversed(b));
  }

  lemma WithEdgeLists(nodes: seq<HierNode>, index: map<NodeId, nat>, parent: NodeId, child: NodeId, i: nat)
    requires NodesOk(nodes) && IsIndex(nodes, index) && i < |nodes|
    ensures var r := WithEdge(nodes, index, parent, child);
            NoDup(r[i].parents) && NoDup(r[i].children) && DefinitionOk(r[i].definition)
  {
    WithEdgeShape(nodes, index, parent, child);
    WithEdgeStep(nodes, index, parent, child, i);
    hide WithEdge, Links, IsIndex, Ids, UniqueIds;
  }

  lemma PairwiseEqual(a: set<(NodeId, NodeId)>, b: set<(NodeId, NodeId)>)
    requires forall x, y :: (x, y) in a <==> (x, y) in b
    ensures a == b
  {
    forall p
      ensures p in a <==> p in b
    {
      assert p == (p.0, p.1);
    }
  }

  lemma LinksOwned(nodes: seq<HierNode>, dir: Dir, e: (NodeId, NodeId))
    ensures e in Links(nodes, dir) ==> e.0 in Ids(nodes)
  {
  }

  /** One edge keeps the whole representation invariant and adds exactly itself. */
  lemma WithEdgeKeeps(nodes: seq<HierNode>, index: map<NodeId, nat>, parent: NodeId, child: NodeId)
    requires NodesOk(nodes) && IsIndex(nodes, index)
    ensures var r := WithEdge(nodes, index, parent, child);
            && NodesOk(r) && IsIndex(r, index) && Ids(r) == Ids(nodes)
            && Links(r, Down) == Links(nodes, Down) + NewEdge(Ids(nodes), parent, child)
            && OnlyLinksGrew(nodes, r)
  {
    var r, e := WithEdge(nodes, index, parent, child), NewEdge(Ids(nodes), parent, child);
    WithEdgeFrame(nodes, index, parent, child);
    WithEdgeLinks(nodes, index, parent, child);
    forall i | 0 <= i < |r|
      ensures NoDup(r[i].parents) && NoDup(r[i].children) && DefinitionOk(r[i].definition)
    {
      WithEdgeLists(nodes, index, parent, child, i);
    }
    hide *;
    GrownNodesOk(nodes, r, parent, child);
  }

  lemma GrownNodesOk(nodes: seq<HierNode>, r: seq<HierNode>, parent: NodeId, child: NodeId)
    requires NodesOk(nodes) && UniqueIds(r) && Ids(r) == Ids(nodes)
    requires var e := NewEdge(Ids(nodes), parent, child);
             Links(r, Down) == Links(nodes, Down) + e && Links(r, Up) == Links(nodes, Up) + Reversed(e)
    requires forall i :: 0 <= i < |r| ==> NoDup(r[i].parents) && NoDup(r[i].children) && DefinitionOk(r[i].definition)
    ensures NodesOk(r)
  {
    ReversedPlus(Links(nodes, Down), NewEdge(Ids(nodes), parent, child));
    hide Links, UniqueIds, NoDup, DefinitionOk, Reversed, Ids;
  }

  // ----- A list of edges -----

  /** The table with every (parent, child) pair added in order. */
  function WithPairs(nodes: seq<HierNode>, index: map<NodeId, nat>, pairs: seq<(NodeId, NodeId)>): (r: seq<HierNode>)
    requires InRange(index, |nodes|)
    ensures |r| == |nodes|
  {
    if pairs == [] then nodes
    else
      var last := pairs[|pairs| - 1];
      WithEdge(WithPairs(nodes, index, pairs[..|pairs| - 1]), index, last.0, last.1)
  }

  /** The pairs that take effect over the known ids. */
  ghost function NewEdges(ids: set<NodeId>, pairs: seq<(NodeId, NodeId)>): set<(NodeId, NodeId)> {
    set p | p in pairs && p.0 != p.1 && p.0 in ids && p.1 in ids
  }

  lemma NewEdgesSnoc(ids: set<NodeId>, pairs: seq<(NodeId, NodeId)>, p: (NodeId, NodeId))
    ensures NewEdges(ids, pairs + [p]) == NewEdges(ids, pairs) + NewEdge(ids, p.0, p.1)
    ensures NewEdges(ids, []) == {}
  {
    assert forall q :: q in pairs + [p] <==> q in pairs || q == p;
  }

  lemma GrewMore(nodes: seq<HierNode>, mid: seq<HierNode>, r: seq<HierNode>)
    requires OnlyLinksGrew(nodes, mid) && OnlyLinksGrew(mid, r)
    ensures OnlyLinksGrew(nodes, r)
  {
  }

  lemma IndexInRange(nodes: seq<HierNode>, index: map<NodeId, nat>)
    requires IsIndex(nodes, index)
    ensures InRange(index, |nodes|)
  {
  }

  lemma GrewNothing(nodes: seq<HierNode>)
    ensures OnlyLinksGrew(nodes, nodes)
  {
  }

  lemma {:induction false} WithPairsKeeps(nodes: seq<HierNode>, index: map<NodeId, nat>, pairs: seq<(NodeId, NodeId)>)
    requires NodesOk(nodes) && IsIndex(nodes, index)
    ensures var r := WithPairs(nodes, index, pairs);
            && NodesOk(r) && IsIndex(r, index) && Ids(r) == Ids(nodes)
            && Links(r, Down) == Links(nodes, Down) + NewEdges(Ids(nodes), pairs)
            && OnlyLinksGrew(nodes, r)
  {
    hide NodesOk, IsIndex, Ids, Links, WithEdge, NewEdges, NewEdge, InRange, OnlyLinksGrew;
    IndexInRange(nodes, index);
    if pairs == [] {
      NewEdgesSnoc(Ids(nodes), [], (NodeId(""), NodeId("")));
      GrewNothing(nodes);
    } else {
      var init, last := pairs[..|pairs| - 1], pairs[|pairs| - 1];
      var mid := WithPairs(nodes, index, init);
      WithPairsKeeps(nodes, index, init);
      NewEdgesSnoc(Ids(nodes), init, last);
      assert pairs == init + [last];
      WithEdgeKeeps(mid, index, last.0, last.1);
      GrewMore(nodes, mid, WithPairs(nodes, index, pairs));
    }
  }

  // ----- Tables that differ outside their links -----

  lemma LinksOf(nodes: seq<HierNode>, r: seq<HierNode>, dir: Dir)
    requires |r| == |nodes|
    requires forall i :: 0 <= i < |nodes| ==> r[i].id == nodes[i].id && Step(r[i], dir) == Step(nodes[i], dir)
    ensures Links(r, dir) == Links(nodes, dir)
  {
    forall x, y
      ensures (x, y) in Links(r, dir) <==> (x, y) in Links(nodes, dir)
    {
      if (x, y) in Links(r, dir) {
        var i := LinkOwner(r, dir, (x, y));
        assert nodes[i].id == x && y in Step(nodes[i], dir);
      }
      if (x, y) in Links(nodes, dir) {
        var i := LinkOwner(nodes, dir, (x, y));
        assert r[i].id == x && y in Step(r[i], dir);
      }
    }
    hide Links;
    PairwiseEqual(Links(r, dir), Links(nodes, dir));
  }

  /** The same links and good definitions are all the invariant needs. */
  lemma SameLinksOk(nodes: seq<HierNode>, r: seq<HierNode>)
    requires NodesOk(nodes) && |r| == |nodes|
    requires forall i :: 0 <= i < |nodes| ==>
               && r[i].id == nodes[i].id && r[i].parents == nodes[i].parents && r[i].children == nodes[i].children
               && DefinitionOk(r[i].definition)
    ensures NodesOk(r) && Ids(r) == Ids(nodes) && Links(r, Down) == Links(nodes, Down)
  {
    SameIds(nodes, r);
    LinksOf(nodes, r, Up);
    LinksOf(nodes, r, Down);
    hide Links, Ids, Reversed, UniqueIds, DefinitionOk;
  }

  // ----- Leaf flags -----

  function WithLeaves(nodes: seq<HierNode>): (r: seq<HierNode>)
    ensures |r| == |nodes|
  {
    seq(|nodes|, i requires 0 <= i < |nodes| => nodes[i].(isLeaf := nodes[i].children == []))
  }

  /** Recompute every leaf flag once containment is complete. */
  method MarkLeaves(nodes: seq<HierNode>) returns (r: seq<HierNode>)
    ensures r == WithLeaves(nodes)
  {
    r := nodes;
    for i := 0 to |nodes|
      invariant |r| == |nodes|
      invariant forall j :: 0 <= j < |nodes| ==> r[j] == if j < i then WithLeaves(nodes)[j] else nodes[j]
    {
      r := r[i := r[i].(isLeaf := r[i].children == [])];
    }
  }

  lemma WithLeavesKeeps(nodes: seq<HierNode>)
    requires NodesOk(nodes)
    ensures var r := WithLeaves(nodes);
            && NodesOk(r) && LeavesMarked(r) && Ids(r) == Ids(nodes) && Links(r, Down) == Links(nodes, Down)
            && forall i :: 0 <= i < |nodes| ==> r[i].id == nodes[i].id && r[i].definition == nodes[i].definition
  {
    SameLinksOk(nodes, WithLeaves(nodes));
    hide NodesOk, Ids, Links;
  }
}
