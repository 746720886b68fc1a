/** In which order things are listed. Edges and merges append; filters keep the
    order; so the first parent of a node is the first one declared that exists. */
module OrderLaws {
  import opened Wrappers
  import opened Paths
  import opened Lists
  import opened LevelOrder
  import opened Hierarchy
  import opened EdgeTable
  import opened MergeLists
  import opened Merge
  import opened Projection

  // ----- The lists a merge edits -----

  /** Renaming acts item by item. */
  lemma RenamedAt(list: seq<NodeId>, from: NodeId, to: NodeId)
    ensures var r := Renamed(list, from, to);
            |r| == |list| && forall i :: 0 <= i < |list| ==> r[i] == if list[i] == from then to else list[i]
  {
  }

  /** Without repetition in the list, dropping later copies of the target alone is
      dropping later copies of anything: each id stays where it first stood. */
  lemma RepointedOrder(list: seq<NodeId>, from: NodeId, to: NodeId)
    requires NoDup(list)
    ensures Repointed(list, from, to) == Fresh(Renamed(list, from, to), {})
  {
    var renamed := Renamed(list, from, to);
    forall i, j | 0 <= i < j < |renamed| && renamed[i] == renamed[j]
      ensures renamed[i] == to
    {
    }
    KeepFirstIsFresh(renamed, to);
  }

  lemma {:induction false} KeepFirstIsFresh(list: seq<NodeId>, x: NodeId)
    requires forall i, j :: 0 <= i < j < |list| && list[i] == list[j] ==> list[i] == x
    ensures KeepFirst(list, x) == Fresh(list, {})
  {
    if list != [] {
      var init, last := list[..|list| - 1], list[|list| - 1];
      KeepFirstIsFresh(init, x);
      FreshHas(init, {}, last);
      KeepFirstHas(init, x, last);
      if last in init {
        var i :| 0 <= i < |init| && init[i] == last;
        assert list[i] == list[|list| - 1];
      }
    }
  }

  lemma {:induction false} WithoutConcat(a: seq<NodeId>, b: seq<NodeId>, x: NodeId)
    ensures Without(a + b, x) == Without(a, x) + Without(b, x)
  {
    if b == [] {
      assert a + b == a;
    } else {
      assert (a + b)[..|a + b| - 1] == a + b[..|b| - 1];
      WithoutConcat(a, b[..|b| - 1], x);
    }
  }

  /** Absorbing appends what is new, in its order. */
  lemma {:induction false} AbsorbedOrder(list: seq<NodeId>, extra: seq<NodeId>, self: NodeId)
    ensures Absorbed(list, extra, self) == list + Fresh(Without(extra, self), Elems(list))
  {
    if extra != [] {
      var init, last := extra[..|extra| - 1], extra[|extra| - 1];
      AbsorbedOrder(list, init, self);
      AbsorbedHas(list, init, self, last);
      WithoutHas(init, self, last);
      FreshHas(Without(init, self), Elems(list), last);
      if last != self {
        assert (Without(init, self) + [last])[..|Without(init, self)|] == Without(init, self);
      }
    }
  }

  // ----- Tables and cross-references -----

  lemma {:induction false} WithoutIdConcat(a: seq<HierNode>, b: seq<HierNode>, id: NodeId)
    ensures WithoutId(a + b, id) == WithoutId(a, id) + WithoutId(b, id)
  {
    if b == [] {
      assert a + b == a;
    } else {
      assert (a + b)[..|a + b| - 1] == a + b[..|b| - 1];
      WithoutIdConcat(a, b[..|b| - 1], id);
    }
  }

  lemma {:induction false} RepointedXrefsConcat(a: seq<XRef>, b: seq<XRef>, alias: NodeId, primary: NodeId)
    ensures RepointedXrefs(a + b, alias, primary)
            == RepointedXrefs(a, alias, primary) + RepointedXrefs(b, alias, primary)
  {
    if b == [] {
      assert a + b == a;
    } else {
      assert (a + b)[..|a + b| - 1] == a + b[..|b| - 1];
      RepointedXrefsConcat(a, b[..|b| - 1], alias, primary);
    }
  }

  /** The cross-references with known endpoints, in order. */
  function Known(xrefs: seq<XRef>, ids: set<NodeId>): seq<XRef> {
    if xrefs == [] then []
    else (if xrefs[0].from in ids && xrefs[0].to in ids then [xrefs[0]] else []) + Known(xrefs[1..], ids)
  }

  lemma {:induction false} KnownSnoc(xrefs: seq<XRef>, x: XRef, ids: set<NodeId>)
    ensures Known(xrefs + [x], ids) == Known(xrefs, ids) + if x.from in ids && x.to in ids then [x] else []
  {
    if xrefs == [] {
      assert [x][1..] == [];
    } else {
      assert (xrefs + [x])[1..] == xrefs[1..] + [x];
      KnownSnoc(xrefs[1..], x, ids);
    }
  }

  /** Of equal candidates the first is pushed, and the order is the candidates'. */
  lemma {:induction false} PushedOrder(xrefs: seq<XRef>, ids: set<NodeId>)
    ensures Pushed(xrefs, ids) == Fresh(Known(xrefs, ids), {})
  {
    if xrefs != [] {
      var init, last := xrefs[..|xrefs| - 1], xrefs[|xrefs| - 1];
      assert xrefs == init + [last];
      PushedOrder(init, ids);
      KnownSnoc(init, last, ids);
      var k := Known(init, ids);
      assert (k + [last])[..|k|] == k && k + [] == k;
    }
  }

  /** The projected nodes stand in the order of the first records of their ids. */
  lemma {:induction false} FirstOfEachOrder(records: seq<HierNode>, p: nat, q: nat)
    requires p < q < |FirstOfEach(records)|
    ensures var r := FirstOfEach(records);
            && r[p].id in Ids(records) && r[q].id in Ids(records)
            && Find(records, r[p].id).value < Find(records, r[q].id).value
  {
    var init, last := records[..|records| - 1], records[|records| - 1];
    assert records == init + [last];
    var r := FirstOfEach(init);
    FirstOfEachIs(records);
    FirstOfEachIs(init);
    assert FirstOfEach(records)[p].id in Ids(FirstOfEach(records));
    assert FirstOfEach(records)[q].id in Ids(FirstOfEach(records));
    assert r[p].id in Ids(r);
    FindSnoc(init, last, FirstOfEach(records)[p].id);
    FindSnoc(init, last, FirstOfEach(records)[q].id);
    hide Find, Ids;
    if q < |r| {
      FirstOfEachOrder(init, p, q);
    }
  }

  lemma FindSnoc(nodes: seq<HierNode>, n: HierNode, id: NodeId)
    ensures id in Ids(nodes) ==> Find(nodes + [n], id) == Find(nodes, id)
    ensures id !in Ids(nodes) && id == n.id ==> Find(nodes + [n], id) == Some(|nodes|)
  {
    assert (nodes + [n])[..|nodes|] == nodes;
  }

  // ----- The primary's lists after a merge -----

  lemma {:induction false} WithoutFresh(q: seq<NodeId>, seen: set<NodeId>, x: NodeId)
    ensures Without(Fresh(q, seen), x) == Fresh(Without(q, x), seen)
  {
    if q != [] {
      var init, last := q[..|q| - 1], q[|q| - 1];
      WithoutFresh(init, seen, x);
      FreshHas(init, seen, last);
      WithoutHas(init, x, last);
      FreshHas(Without(init, x), seen, last);
      var f := Fresh(init, seen);
      assert (f + [last])[..|f|] == f;
      var w := Without(init, x);
      assert (w + [last])[..|w|] == w;
    }
  }

  lemma {:induction false} FreshSameSeen(q: seq<NodeId>, a: set<NodeId>, b: set<NodeId>)
    requires forall y :: y in q ==> (y in a <==> y in b)
    ensures Fresh(q, a) == Fresh(q, b)
  {
    if q != [] {
      FreshSameSeen(q[..|q| - 1], a, b);
    }
  }

  lemma {:induction false} FreshTwice(q: seq<NodeId>, seen: set<NodeId>)
    ensures Fresh(Fresh(q, {}), seen) == Fresh(q, seen)
  {
    if q != [] {
      var init, last := q[..|q| - 1], q[|q| - 1];
      FreshTwice(init, seen);
      FreshHas(init, {}, last);
      FreshHas(init, seen, last);
      var f := Fresh(init, {});
      assert (f + [last])[..|f|] == f;
    }
  }

  /** Absorbing and dropping oneself, in one: both lists after each other, oneself
      left out, each id where it first stands. */
  lemma AbsorbedAll(own: seq<NodeId>, theirs: seq<NodeId>, self: NodeId)
    ensures Without(Absorbed(Fresh(own, {}), Fresh(theirs, {}), self), self)
            == Fresh(Without(own + theirs, self), {})
  {
    hide Fresh, Without, Absorbed;
    var list, extra := Fresh(own, {}), Fresh(theirs, {});
    var o, t := Without(own, self), Without(theirs, self);
    AbsorbedOrder(list, extra, self);
    WithoutFresh(theirs, {}, self);
    FreshTwice(t, Elems(list));
    WithoutConcat(list, Fresh(t, Elems(list)), self);
    WithoutFresh(own, {}, self);
    WithoutFresh(t, Elems(list), self);
    WithoutTwice(theirs, self);
    WithoutConcat(own, theirs, self);
    FreshAppend(o, t, {});
    forall y | y in t
      ensures y in Elems(list) <==> y in {} + Elems(o)
    {
      FreshHas(own, {}, y);
      WithoutHas(own, self, y);
      WithoutHas(theirs, self, y);
    }
    FreshSameSeen(t, Elems(list), {} + Elems(o));
  }

  lemma {:induction false} WithoutTwice(list: seq<NodeId>, x: NodeId)
    ensures Without(Without(list, x), x) == Without(list, x)
  {
    if list != [] {
      var init, last := list[..|list| - 1], list[|list| - 1];
      WithoutTwice(init, x);
      var w := Without(init, x);
      assert (w + [last])[..|w|] == w;
    }
  }

  /** After a merge the primary lists its own neighbours first and then the alias's,
      renamed, itself left out, each where it first stands. */
  lemma PrimaryLists(nodes: seq<HierNode>, primary: NodeId, alias: NodeId, dir: Dir)
    requires NodesOk(nodes) && primary in Ids(nodes) && alias in Ids(nodes) && primary != alias
    ensures primary in Ids(MergedNodes(nodes, primary, alias))
    ensures var own := Renamed(Step(NodeAt(nodes, primary).value, dir), alias, primary);
            var theirs := Renamed(Step(NodeAt(nodes, alias).value, dir), alias, primary);
            Step(NodeAt(MergedNodes(nodes, primary, alias), primary).value, dir)
            == Fresh(Without(own + theirs, primary), {})
  {
    var p, a := Find(nodes, primary).value, Find(nodes, alias).value;
    var f := FoldedNodes(nodes, primary, alias);
    MergedIds(nodes, primary, alias);
    WithoutIdHas(f, alias, f[p]);
    assert f[p].id == primary;
    assert Step(f[p], dir) == Without(Absorbed(Repointed(Step(nodes[p], dir), alias, primary),
                                               Repointed(Step(nodes[a], dir), alias, primary), primary), primary);
    assert NoDup(Step(nodes[p], dir)) && NoDup(Step(nodes[a], dir));
    hide FoldedNodes, Ids, UniqueIds, Links, Fresh, Absorbed, Without, Repointed, Renamed;
    NodeAtHas(MergedNodes(nodes, primary, alias), f[p]);
    RepointedOrder(Step(nodes[p], dir), alias, primary);
    RepointedOrder(Step(nodes[a], dir), alias, primary);
    AbsorbedAll(Renamed(Step(nodes[p], dir), alias, primary), Renamed(Step(nodes[a], dir), alias, primary), primary);
  }

  // ----- Parents and children -----

  /** The new neighbours a list of edges brings the node `id`, in order. */
  function Brought(pairs: seq<(NodeId, NodeId)>, dir: Dir, id: NodeId, ids: set<NodeId>): seq<NodeId> {
    if pairs == [] then []
    else
      var (parent, child) := pairs[|pairs| - 1];
      var (own, other) := if dir == Up then (child, parent) else (parent, child);
      Brought(pairs[..|pairs| - 1], dir, id, ids) + if own == id && other != id && other in ids then [other] else []
  }

  lemma {:induction false} BroughtConcat(a: seq<(NodeId, NodeId)>, b: seq<(NodeId, NodeId)>, dir: Dir, id: NodeId,
                                         ids: set<NodeId>)
    ensures Brought(a + b, dir, id, ids) == Brought(a, dir, id, ids) + Brought(b, dir, id, ids)
  {
    if b == [] {
      assert a + b == a;
    } else {
      assert (a + b)[..|a + b| - 1] == a + b[..|b| - 1];
      BroughtConcat(a, b[..|b| - 1], dir, id, ids);
    }
  }

  lemma FreshSnoc(list: seq<NodeId>, q: seq<NodeId>, x: NodeId)
    ensures PushNew(list + Fresh(q, Elems(list)), x) == list + Fresh(q + [x], Elems(list))
  {
    assert (q + [x])[..|q|] == q;
    FreshHas(q, Elems(list), x);
  }

  lemma EdgeStep(nodes: seq<HierNode>, index: map<NodeId, nat>, p: (NodeId, NodeId), dir: Dir, i: nat)
    requires IsIndex(nodes, index) && UniqueIds(nodes) && i < |nodes|
    ensures var r, id := WithEdge(nodes, index, p.0, p.1), nodes[i].id;
            var (own, other) := if dir == Up then (p.1, p.0) else (p.0, p.1);
            r[i].id == id
            && Step(r[i], dir) ==
                 if own == id && other != id && other in Ids(nodes) then PushNew(Step(nodes[i], dir), other)
                 else Step(nodes[i], dir)
  {
    WithEdgeShape(nodes, index, p.0, p.1);
    WithEdgeStep(nodes, index, p.0, p.1, i);
    assert nodes[i].id in Ids(nodes);
    hide WithEdge, UniqueIds, IsIndex, PushNew, Ids;
  }

  /** A list of edges appends to each node's list the new neighbours it brings, in
      the order of the edges. */
  lemma {:induction false} WithPairsOrder(nodes: seq<HierNode>, index: map<NodeId, nat>, pairs: seq<(NodeId, NodeId)>,
                                          dir: Dir, i: nat)
    requires NodesOk(nodes) && IsIndex(nodes, index) && i < |nodes|
    ensures var r, was := WithPairs(nodes, index, pairs), Step(nodes[i], dir);
            && r[i].id == nodes[i].id
            && Step(r[i], dir) == was + Fresh(Brought(pairs, dir, nodes[i].id, Ids(nodes)), Elems(was))
  {
    hide IsIndex, Ids, Links, WithEdge, InRange, UniqueIds, Step, Fresh, Elems;
    IndexInRange(nodes, index);
    if pairs == [] {
      FreshNone(Elems(Step(nodes[i], dir)));
    } else {
      var init, last := pairs[..|pairs| - 1], pairs[|pairs| - 1];
      var mid := WithPairs(nodes, index, init);
      WithPairsKeeps(nodes, index, init);
      WithPairsOrder(nodes, index, init, dir, i);
      EdgeStep(mid, index, last, dir, i);
      var q := Brought(init, dir, nodes[i].id, Ids(nodes));
      assert q + [] == q;
      FreshSnoc(Step(nodes[i], dir), q, if dir == Up then last.0 else last.1);
    }
  }

  lemma FreshNone(seen: set<NodeId>)
    ensures Fresh([], seen) == []
  {
  }

  // ----- The first parent in the view -----

  /** The declared parents that exist and are not the concept itself, in order. */
  function KnownParents(parents: seq<string>, s: string, ids: set<NodeId>): seq<NodeId> {
    if parents == [] then []
    else
      (if ConceptId(parents[0]) in ids && parents[0] != s then [ConceptId(parents[0])] else [])
      + KnownParents(parents[1..], s, ids)
  }

  /** The same over every record of the concept. */
  function DeclaredParents(concepts: seq<ConceptView>, s: string, ids: set<NodeId>): seq<NodeId> {
    if concepts == [] then []
    else
      (if concepts[0].id == s then KnownParents(concepts[0].parentConcepts, s, ids) else [])
      + DeclaredParents(concepts[1..], s, ids)
  }

  lemma {:induction false} ParentsBrought(parents: seq<string>, child: string, s: string, ids: set<NodeId>)
    ensures Brought(ParentPairs(parents, child), Up, ConceptId(s), ids)
            == if child == s then KnownParents(parents, s, ids) else []
  {
    if parents != [] {
      var pairs := ParentPairs(parents, child);
      assert pairs == [(ConceptId(parents[0]), ConceptId(child))] + ParentPairs(parents[1..], child);
      BroughtConcat([pairs[0]], ParentPairs(parents[1..], child), Up, ConceptId(s), ids);
      ParentsBrought(parents[1..], child, s, ids);
      IdsInjective(child, s);
      IdsInjective(parents[0], s);
      assert [pairs[0]][..0] == [];
      hide ConceptId;
    }
  }

  lemma {:induction false} ConceptsBrought(concepts: seq<ConceptView>, s: string, ids: set<NodeId>)
    ensures Brought(ConceptPairs(concepts), Up, ConceptId(s), ids) == DeclaredParents(concepts, s, ids)
  {
    hide ConceptId, KnownParents, ParentPairs, Brought;
    if concepts == [] {
      NothingBrought(ConceptId(s), ids);
    } else {
      var init, c := concepts[..|concepts| - 1], concepts[|concepts| - 1];
      assert concepts == init + [c];
      ConceptsBrought(init, s, ids);
      BroughtConcat(ConceptPairs(init), ParentPairs(c.parentConcepts, c.id), Up, ConceptId(s), ids);
      ParentsBrought(c.parentConcepts, c.id, s, ids);
      DeclaredSnoc(init, c, s, ids);
    }
  }

  lemma NothingBrought(id: NodeId, ids: set<NodeId>)
    ensures Brought([], Up, id, ids) == []
  {
  }

  lemma {:induction false} DeclaredSnoc(concepts: seq<ConceptView>, c: ConceptView, s: string, ids: set<NodeId>)
    ensures DeclaredParents(concepts + [c], s, ids)
            == DeclaredParents(concepts, s, ids) + if c.id == s then KnownParents(c.parentConcepts, s, ids) else []
  {
    hide KnownParents;
    if concepts == [] {
      assert [c][1..] == [];
    } else {
      assert (concepts + [c])[1..] == concepts[1..] + [c];
      DeclaredSnoc(concepts[1..], c, s, ids);
    }
  }

  lemma {:induction false} AnchorsBringNone(anchors: seq<Anchor>, s: string, ids: set<NodeId>)
    ensures Brought(AnchorPairs(anchors), Up, ConceptId(s), ids) == []
  {
    if anchors != [] {
      var init, a := anchors[..|anchors| - 1], anchors[|anchors| - 1];
      AnchorsBringNone(init, s, ids);
      assert AnchorPairs(init) + [] == AnchorPairs(init);
      if a.parentAnchor.Some? {
        var p := (VocabId(a.parentAnchor.value), VocabId(a.identifier));
        IdsInjective(s, a.identifier);
        assert AnchorPairs(anchors)[..|AnchorPairs(init)|] == AnchorPairs(init);
      }
      hide ConceptId, VocabId;
    }
  }

  /** A concept's parents in the view are its declared ones that exist, each once,
      in the order declared; the first of them is its primary parent. */
  lemma ViewParents(concepts: seq<ConceptView>, anchors: seq<Anchor>, relations: seq<Relation>, i: nat, s: string)
    requires i < |View(concepts, anchors, relations).nodes|
    requires View(concepts, anchors, relations).nodes[i].id == ConceptId(s)
    ensures var ids := StoreIds(concepts, anchors);
            View(concepts, anchors, relations).nodes[i].parents == Fresh(DeclaredParents(concepts, s, ids), {})
  {
    var nodes := FirstOfEach(RecordNodes(concepts, anchors));
    var pairs := ConceptPairs(concepts) + AnchorPairs(anchors);
    ProjectedNodesOk(concepts, anchors);
    RecordsBare(concepts, anchors);
    FirstOfEachIs(RecordNodes(concepts, anchors));
    hide ConceptId, NodesOk, Links, Ids, FirstOfEach, RecordNodes, ConceptPairs, AnchorPairs, Positions, IsIndex,
         StoreIds, Fresh, DeclaredParents, WithPairs;
    assert nodes[i] in nodes;
    WithPairsOrder(nodes, Positions(nodes), pairs, Up, i);
    ConceptsBrought(concepts, s, StoreIds(concepts, anchors));
    AnchorsBringNone(anchors, s, StoreIds(concepts, anchors));
    BroughtConcat(ConceptPairs(concepts), AnchorPairs(anchors), Up, ConceptId(s), StoreIds(concepts, anchors));
    var declared := DeclaredParents(concepts, s, StoreIds(concepts, anchors));
    assert declared + [] == declared;
    assert nodes[i].parents == [] && Elems<NodeId>([]) == {};
    assert [] + Fresh(declared, {}) == Fresh(declared, {});
  }
}
