/** Folding an alias into a primary node: the in-place steps, and the proof that
    together they are the graph quotient identifying the two. */
module Merge {
  import opened Wrappers
  import opened Paths
  import opened Lists
  import opened LevelOrder
  import opened Hierarchy
  import opened EdgeTable
  import opened MergeLists

  // ----- The steps on the node table -----

  /** A primary without a definition takes over the alias's. */
  function TakeDefinition(p: HierNode, a: HierNode): HierNode {
    if p.definition.source == Missing && a.definition.source != Missing then p.(definition := a.definition) else p
  }

  function RepointNode(n: HierNode, alias: NodeId, primary: NodeId): HierNode {
    n.(parents := Repointed(n.parents, alias, primary), children := Repointed(n.children, alias, primary))
  }

  function RepointAll(nodes: seq<HierNode>, alias: NodeId, primary: NodeId): seq<HierNode> {
    seq(|nodes|, i requires 0 <= i < |nodes| => RepointNode(nodes[i], alias, primary))
  }

  /** `p` with the neighbours of `a` added and itself removed from its lists. */
  function AbsorbNode(p: HierNode, a: HierNode): HierNode {
    p.(parents := Without(Absorbed(p.parents, a.parents, p.id), p.id),
       children := Without(Absorbed(p.children, a.children, p.id), p.id))
  }

  function WithoutId(nodes: seq<HierNode>, id: NodeId): seq<HierNode> {
    if nodes == [] then []
    else
      var init, last := nodes[..|nodes| - 1], nodes[|nodes| - 1];
      if last.id == id then WithoutId(init, id) else WithoutId(init, id) + [last]
  }

  /** The table before the alias is dropped from it. */
  function FoldedNodes(nodes: seq<HierNode>, primary: NodeId, alias: NodeId): (r: seq<HierNode>)
    requires primary in Ids(nodes) && alias in Ids(nodes)
    ensures |r| == |nodes|
  {
    var p, a := Find(nodes, primary).value, Find(nodes, alias).value;
    var taken := nodes[p := TakeDefinition(nodes[p], nodes[a])];
    var repointed := RepointAll(taken, alias, primary);
    repointed[p := AbsorbNode(repointed[p], repointed[a])]
  }

  function MergedNodes(nodes: seq<HierNode>, primary: NodeId, alias: NodeId): seq<HierNode>
    requires primary in Ids(nodes) && alias in Ids(nodes)
  {
    WithoutId(FoldedNodes(nodes, primary, alias), alias)
  }

  // ----- The steps on the cross-references -----

  function RenamedXref(x: XRef, alias: NodeId, primary: NodeId): XRef {
    XRef(Rename(x.from, alias, primary), Rename(x.to, alias, primary), x.kind)
  }

  /** Renamed, self-references dropped. */
  function RepointedXrefs(xrefs: seq<XRef>, alias: NodeId, primary: NodeId): seq<XRef> {
    if xrefs == [] then []
    else
      var r := RepointedXrefs(xrefs[..|xrefs| - 1], alias, primary);
      var x := RenamedXref(xrefs[|xrefs| - 1], alias, primary);
      if x.from == x.to then r else r + [x]
  }

  /** Renamed, self-references and repetitions dropped, order kept. */
  function MergedXrefs(xrefs: seq<XRef>, alias: NodeId, primary: NodeId): seq<XRef> {
    Fresh(RepointedXrefs(xrefs, alias, primary), {})
  }

  /** The graph after a merge; unchanged when the two ids are equal or one is absent. */
  function Merged(g: HierGraph, primary: NodeId, alias: NodeId): HierGraph {
    if primary == alias || primary !in Ids(g.nodes) || alias !in Ids(g.nodes) then g
    else HierGraph(MergedNodes(g.nodes, primary, alias), MergedXrefs(g.xrefs, alias, primary))
  }

  // ----- The loops -----

  method RepointXrefs(xrefs: seq<XRef>, alias: NodeId, primary: NodeId) returns (r: seq<XRef>)
    ensures r == MergedXrefs(xrefs, alias, primary)
  {
    var renamed := xrefs;
    for i := 0 to |xrefs|
      invariant |renamed| == |xrefs|
      invariant forall j :: 0 <= j < |xrefs| ==>
                  renamed[j] == if j < i then RenamedXref(xrefs[j], alias, primary) else xrefs[j]
    {
      if renamed[i].from == alias {
        renamed := renamed[i := renamed[i].(from := primary)];
      }
      if renamed[i].to == alias {
        renamed := renamed[i := renamed[i].(to := primary)];
      }
    }
    var kept := [];
    for i := 0 to |renamed|
      invariant kept == RepointedXrefs(xrefs[..i], alias, primary)
    {
      assert xrefs[..i + 1][..i] == xrefs[..i];
      if renamed[i].from != renamed[i].to {
        kept := kept + [renamed[i]];
      }
    }
    assert xrefs[..|xrefs|] == xrefs;
    r := DedupXrefs(kept);
  }

  method DedupXrefs(xrefs: seq<XRef>) returns (r: seq<XRef>)
    ensures r == Fresh(xrefs, {})
  {
    var seen := {};
    r := [];
    for i := 0 to |xrefs|
      invariant r == Fresh(xrefs[..i], {})
      invariant seen == Elems(r)
    {
      assert xrefs[..i + 1][..i] == xrefs[..i];
      if xrefs[i] !in seen {
        seen := seen + {xrefs[i]};
        r := r + [xrefs[i]];
      }
    }
    assert xrefs[..|xrefs|] == xrefs;
  }

  method RetainOthers(nodes: seq<HierNode>, id: NodeId) returns (r: seq<HierNode>)
    ensures r == WithoutId(nodes, id)
  {
    r := [];
    for i := 0 to |nodes|
      invariant r == WithoutId(nodes[..i], id)
    {
      assert nodes[..i + 1][..i] == nodes[..i];
      if nodes[i].id != id {
        r := r + [nodes[i]];
      }
    }
    assert nodes[..|nodes|] == nodes;
  }

  /** Fold `alias` into `primary`, step by step. */
  method ApplyMerge(g: HierGraph, primary: NodeId, alias: NodeId) returns (r: HierGraph)
    ensures r == Merged(g, primary, alias)
  {
    hide Repointed, Absorbed, Without, WithoutId, MergedXrefs;
    if primary == alias {
      return g;
    }
    var p, a := Find(g.nodes, primary), Find(g.nodes, alias);
    if p.None? || a.None? {
      return g;
    }
    var pi, ai := p.value, a.value;
    var nodes := g.nodes;
    nodes := nodes[pi := TakeDefinition(nodes[pi], nodes[ai])];
    ghost var taken := nodes;
    var xrefs := RepointXrefs(g.xrefs, alias, primary);
    for i := 0 to |nodes|
      invariant |nodes| == |taken|
      invariant forall j :: 0 <= j < |nodes| ==>
                  nodes[j] == if j < i then RepointNode(taken[j], alias, primary) else taken[j]
    {
      var parents := Repoint(nodes[i].parents, alias, primary);
      var children := Repoint(nodes[i].children, alias, primary);
      nodes := nodes[i := nodes[i].(parents := parents, children := children)];
    }
    assert nodes == RepointAll(taken, alias, primary);
    var aliasNode := nodes[ai];
    var parents := Absorb(nodes[pi].parents, aliasNode.parents, primary);
    var children := Absorb(nodes[pi].children, aliasNode.children, primary);
    parents := Retain(parents, primary);
    children := Retain(children, primary);
    nodes := nodes[pi := nodes[pi].(parents := parents, children := children)];
    assert nodes == FoldedNodes(g.nodes, primary, alias);
    nodes := RetainOthers(nodes, alias);
    r := HierGraph(nodes, xrefs);
  }

  // ----- Dropping a node -----

  lemma {:induction false} WithoutIdHas(nodes: seq<HierNode>, id: NodeId, n: HierNode)
    ensures n in WithoutId(nodes, id) <==> n in nodes && n.id != id
  {
    if nodes != [] {
      var init, last := nodes[..|nodes| - 1], nodes[|nodes| - 1];
      assert nodes == init + [last];
      WithoutIdHas(init, id, n);
    }
  }

  lemma {:induction false} WithoutIdUnique(nodes: seq<HierNode>, id: NodeId)
    requires UniqueIds(nodes)
    ensures UniqueIds(WithoutId(nodes, id))
  {
    if nodes != [] {
      var init, last := nodes[..|nodes| - 1], nodes[|nodes| - 1];
      WithoutIdUnique(init, id);
      var r := WithoutId(init, id);
      hide WithoutId;
      forall i | 0 <= i < |r|
        ensures r[i].id != last.id
      {
        WithoutIdHas(init, id, r[i]);
      }
    }
  }

  lemma IdsHas(nodes: seq<HierNode>, x: NodeId)
    ensures x in Ids(nodes) <==> exists n :: n in nodes && n.id == x
  {
    if x in Ids(nodes) {
      var i :| 0 <= i < |nodes| && nodes[i].id == x;
      assert nodes[i] in nodes;
    }
  }

  lemma LinkHasNode(nodes: seq<HierNode>, dir: Dir, x: NodeId, y: NodeId)
    ensures (x, y) in Links(nodes, dir) <==> exists n :: n in nodes && n.id == x && y in Step(n, dir)
  {
    if (x, y) in Links(nodes, dir) {
      var i := LinkOwner(nodes, dir, (x, y));
      assert nodes[i] in nodes;
    }
    if n :| n in nodes && n.id == x && y in Step(n, dir) {
      var i :| 0 <= i < |nodes| && nodes[i] == n;
    }
  }

  lemma WithoutIdIds(nodes: seq<HierNode>, id: NodeId)
    ensures Ids(WithoutId(nodes, id)) == Ids(nodes) - {id}
  {
    var r := WithoutId(nodes, id);
    hide WithoutId, Ids;
    forall x
      ensures x in Ids(r) <==> x in Ids(nodes) && x != id
    {
      IdsHas(nodes, x);
      IdsHas(r, x);
      forall n
        ensures n in r <==> n in nodes && n.id != id
      {
        WithoutIdHas(nodes, id, n);
      }
    }
  }

  lemma WithoutIdLinks(nodes: seq<HierNode>, id: NodeId, dir: Dir, x: NodeId, y: NodeId)
    ensures (x, y) in Links(WithoutId(nodes, id), dir) <==> (x, y) in Links(nodes, dir) && x != id
  {
    hide WithoutId, Links, Step;
    var r := WithoutId(nodes, id);
    LinkHasNode(nodes, dir, x, y);
    LinkHasNode(r, dir, x, y);
    forall n
      ensures n in r <==> n in nodes && n.id != id
    {
      WithoutIdHas(nodes, id, n);
    }
  }

  // ----- The folded table, node by node -----

  /** The lists of node `i` once repointed and, for the primary, absorbed. */
  lemma FoldedStep(nodes: seq<HierNode>, primary: NodeId, alias: NodeId, dir: Dir, i: nat, y: NodeId)
    requires UniqueIds(nodes) && primary in Ids(nodes) && alias in Ids(nodes) && primary != alias
    requires i < |nodes|
    ensures var r := FoldedNodes(nodes, primary, alias);
            var a := Find(nodes, alias).value;
            var own := Repointed(Step(nodes[i], dir), alias, primary);
            r[i].id == nodes[i].id &&
            (y in Step(r[i], dir) <==>
             if nodes[i].id == primary then
               y != primary && (y in own || y in Repointed(Step(nodes[a], dir), alias, primary))
             else y in own)
  {
    var p, a := Find(nodes, primary).value, Find(nodes, alias).value;
    UniqueAt(nodes, p, i);
    hide Repointed, Absorbed, Without, Find, Ids, UniqueIds;
    if i == p {
      var own, other := Repointed(Step(nodes[p], dir), alias, primary), Repointed(Step(nodes[a], dir), alias, primary);
      AbsorbedHas(own, other, primary, y);
      WithoutHas(Absorbed(own, other, primary), primary, y);
    }
  }

  /** The image of one node's links under the renaming. */
  lemma RepointedLinks(nodes: seq<HierNode>, primary: NodeId, alias: NodeId, dir: Dir, i: nat, y: NodeId)
    requires UniqueIds(nodes) && i < |nodes|
    ensures y in Repointed(Step(nodes[i], dir), alias, primary) <==>
            exists v :: (nodes[i].id, v) in Links(nodes, dir) && Rename(v, alias, primary) == y
  {
    RepointedHas(Step(nodes[i], dir), alias, primary, y);
    forall v
      ensures (nodes[i].id, v) in Links(nodes, dir) <==> v in Step(nodes[i], dir)
    {
      LinksHas(nodes, dir, i, v);
    }
    hide Links, Step, Repointed;
  }

  lemma CollapseHas(e: set<(NodeId, NodeId)>, alias: NodeId, primary: NodeId, x: NodeId, y: NodeId)
    requires primary != alias
    ensures (x, y) in Collapse(e, alias, primary) <==>
            && x != y && x != alias
            && ((exists v :: (x, v) in e && Rename(v, alias, primary) == y)
                || (x == primary && exists v :: (alias, v) in e && Rename(v, alias, primary) == y))
  {
    var c := Collapse(e, alias, primary);
    if (x, y) in c {
      var p :| p in e && (x, y) == (Rename(p.0, alias, primary), Rename(p.1, alias, primary)) && x != y;
      assert (p.0, p.1) in e;
      if p.0 == alias {
        assert (alias, p.1) in e;
      }
    }
    if v :| (x, v) in e && Rename(v, alias, primary) == y && x != y && x != alias {
      assert (Rename((x, v).0, alias, primary), Rename((x, v).1, alias, primary)) in c;
    }
    if v :| (alias, v) in e && Rename(v, alias, primary) == y && x != y && x == primary {
      assert (Rename((alias, v).0, alias, primary), Rename((alias, v).1, alias, primary)) in c;
    }
  }

  /** One direction of the merged table is the quotient of that direction. */
  lemma MergedLink(nodes: seq<HierNode>, primary: NodeId, alias: NodeId, dir: Dir, x: NodeId, y: NodeId)
    requires UniqueIds(nodes) && primary in Ids(nodes) && alias in Ids(nodes) && primary != alias
    requires forall e :: e in Links(nodes, dir) ==> e.0 != e.1
    ensures (x, y) in Links(MergedNodes(nodes, primary, alias), dir) <==>
            (x, y) in Collapse(Links(nodes, dir), alias, primary)
  {
    var r := FoldedNodes(nodes, primary, alias);
    var a := Find(nodes, alias).value;
    WithoutIdLinks(r, alias, dir, x, y);
    CollapseHas(Links(nodes, dir), alias, primary, x, y);
    FoldedIds(nodes, primary, alias);
    if x in Ids(nodes) {
      var i :| 0 <= i < |nodes| && nodes[i].id == x;
      FoldedStep(nodes, primary, alias, dir, i, y);
      RepointedLinks(nodes, primary, alias, dir, i, y);
      RepointedLinks(nodes, primary, alias, dir, a, y);
      LinksHas(r, dir, i, y);
      hide Links, Ids, UniqueIds, FoldedNodes, Find, Repointed, Step, WithoutId, Collapse;
    } else {
      LinksOwned(r, dir, (x, y));
      forall v
        ensures (x, v) !in Links(nodes, dir)
      {
        LinksOwned(nodes, dir, (x, v));
      }
      hide Links, UniqueIds, FoldedNodes, Find, Repointed, Step, WithoutId, Collapse;
    }
  }

  lemma FoldedIds(nodes: seq<HierNode>, primary: NodeId, alias: NodeId)
    requires UniqueIds(nodes) && primary in Ids(nodes) && alias in Ids(nodes)
    ensures var r := FoldedNodes(nodes, primary, alias);
            Ids(r) == Ids(nodes) && UniqueIds(r)
  {
    SameIds(nodes, FoldedNodes(nodes, primary, alias));
  }

  // ----- The merge keeps the invariant and is the quotient -----

  lemma MergedLinks(nodes: seq<HierNode>, primary: NodeId, alias: NodeId, dir: Dir)
    requires UniqueIds(nodes) && primary in Ids(nodes) && alias in Ids(nodes) && primary != alias
    requires forall e :: e in Links(nodes, dir) ==> e.0 != e.1
    ensures Links(MergedNodes(nodes, primary, alias), dir) == Collapse(Links(nodes, dir), alias, primary)
  {
    hide MergedNodes, Links, Collapse, UniqueIds, Ids;
    var l, r := Links(MergedNodes(nodes, primary, alias), dir), Collapse(Links(nodes, dir), alias, primary);
    forall x, y
      ensures (x, y) in l <==> (x, y) in r
    {
      MergedLink(nodes, primary, alias, dir, x, y);
    }
    PairwiseEqual(l, r);
  }

  lemma MergedLists(nodes: seq<HierNode>, primary: NodeId, alias: NodeId, i: nat)
    requires NodesOk(nodes) && primary in Ids(nodes) && alias in Ids(nodes) && primary != alias
    requires i < |nodes|
    ensures var n := FoldedNodes(nodes, primary, alias)[i];
            NoDup(n.parents) && NoDup(n.children) && DefinitionOk(n.definition)
  {
    var p, a := Find(nodes, primary).value, Find(nodes, alias).value;
    hide Repointed, Absorbed, Without, Find, Ids, UniqueIds, NoDup, DefinitionOk, Links, Reversed;
    RepointedNoDup(nodes[i].parents, alias, primary);
    RepointedNoDup(nodes[i].children, alias, primary);
    if i == p {
      var ps, cs := Repointed(nodes[p].parents, alias, primary), Repointed(nodes[p].children, alias, primary);
      var eps, ecs := Repointed(nodes[a].parents, alias, primary), Repointed(nodes[a].children, alias, primary);
      AbsorbedNoDup(ps, eps, primary);
      AbsorbedNoDup(cs, ecs, primary);
      WithoutNoDup(Absorbed(ps, eps, primary), primary);
      WithoutNoDup(Absorbed(cs, ecs, primary), primary);
    }
  }

  lemma MergedIds(nodes: seq<HierNode>, primary: NodeId, alias: NodeId)
    requires UniqueIds(nodes) && primary in Ids(nodes) && alias in Ids(nodes)
    ensures var r := MergedNodes(nodes, primary, alias);
            Ids(r) == Ids(nodes) - {alias} && UniqueIds(r)
  {
    var f := FoldedNodes(nodes, primary, alias);
    FoldedIds(nodes, primary, alias);
    hide FoldedNodes, Ids, UniqueIds, WithoutId;
    WithoutIdIds(f, alias);
    WithoutIdUnique(f, alias);
  }

  /** The merge keeps the whole representation invariant of the node table. */
  lemma MergedNodesOk(nodes: seq<HierNode>, primary: NodeId, alias: NodeId)
    requires NodesOk(nodes) && primary in Ids(nodes) && alias in Ids(nodes) && primary != alias
    ensures var r := MergedNodes(nodes, primary, alias);
            && NodesOk(r) && Ids(r) == Ids(nodes) - {alias}
            && Links(r, Down) == Collapse(Links(nodes, Down), alias, primary)
  {
    var r, f := MergedNodes(nodes, primary, alias), FoldedNodes(nodes, primary, alias);
    var down := Links(nodes, Down);
    MergedIds(nodes, primary, alias);
    forall e | e in Links(nodes, Up)
      ensures e.0 != e.1
    {
      ReversedHas(down, e.0, e.1);
    }
    MergedLinks(nodes, primary, alias, Down);
    MergedLinks(nodes, primary, alias, Up);
    CollapseReversed(down, alias, primary);
    CollapseWithin(down, alias, primary, Ids(nodes));
    forall i | 0 <= i < |r|
      ensures NoDup(r[i].parents) && NoDup(r[i].children) && DefinitionOk(r[i].definition)
    {
      assert r[i] in r;
      WithoutIdHas(f, alias, r[i]);
      var j :| 0 <= j < |f| && f[j] == r[i];
      MergedLists(nodes, primary, alias, j);
    }
    hide Links, Ids, UniqueIds, Reversed, Collapse, MergedNodes, FoldedNodes, NoDup, DefinitionOk;
  }

  lemma CollapseWithin(e: set<(NodeId, NodeId)>, alias: NodeId, primary: NodeId, ids: set<NodeId>)
    requires primary in ids && primary != alias && forall p :: p in e ==> p.1 in ids
    ensures forall q :: q in Collapse(e, alias, primary) ==> q.0 != q.1 && q.1 in ids - {alias}
  {
  }

  // ----- Cross-references -----

  ghost function XrefSet(xrefs: seq<XRef>): set<XRef> {
    set x | x in xrefs
  }

  /** The cross-references with the two ids identified, self-references dropped. */
  ghost function XrefCollapse(xs: set<XRef>, alias: NodeId, primary: NodeId): set<XRef> {
    set x | x in xs && Rename(x.from, alias, primary) != Rename(x.to, alias, primary) :: RenamedXref(x, alias, primary)
  }

  lemma {:induction false} RepointedXrefsHas(xrefs: seq<XRef>, alias: NodeId, primary: NodeId, y: XRef)
    ensures y in RepointedXrefs(xrefs, alias, primary) <==>
            y.from != y.to && exists x :: x in xrefs && RenamedXref(x, alias, primary) == y
  {
    if xrefs != [] {
      var init, last := xrefs[..|xrefs| - 1], xrefs[|xrefs| - 1];
      RepointedXrefsHas(init, alias, primary, y);
      assert xrefs == init + [last];
      assert forall x :: x in xrefs <==> x in init || x == last;
    }
  }

  lemma MergedXrefsAre(xrefs: seq<XRef>, alias: NodeId, primary: NodeId, ids: set<NodeId>)
    requires XrefsOk(xrefs, ids) && primary in ids && primary != alias
    ensures XrefSet(MergedXrefs(xrefs, alias, primary)) == XrefCollapse(XrefSet(xrefs), alias, primary)
    ensures XrefsOk(MergedXrefs(xrefs, alias, primary), ids - {alias})
  {
    var q := RepointedXrefs(xrefs, alias, primary);
    var r := MergedXrefs(xrefs, alias, primary);
    FreshNoDup(q, {});
    forall y
      ensures y in r <==> y.from != y.to && exists x :: x in xrefs && RenamedXref(x, alias, primary) == y
    {
      FreshHas(q, {}, y);
      RepointedXrefsHas(xrefs, alias, primary, y);
    }
    hide Fresh, MergedXrefs, RepointedXrefs, NoDup;
    forall y
      ensures y in XrefSet(r) <==> y in XrefCollapse(XrefSet(xrefs), alias, primary)
    {
    }
  }

  // ----- Definitions -----

  /** The ids whose node carries a definition. */
  ghost function DefinedIds(nodes: seq<HierNode>): set<NodeId> {
    set i | 0 <= i < |nodes| && nodes[i].definition.source != Missing :: nodes[i].id
  }

  lemma DefinedHasNode(nodes: seq<HierNode>, x: NodeId)
    ensures x in DefinedIds(nodes) <==> exists n :: n in nodes && n.id == x && n.definition.source != Missing
  {
    if n :| n in nodes && n.id == x && n.definition.source != Missing {
      var i :| 0 <= i < |nodes| && nodes[i] == n;
    }
  }

  lemma DefinedAt(nodes: seq<HierNode>, i: nat)
    requires UniqueIds(nodes) && i < |nodes|
    ensures nodes[i].id in DefinedIds(nodes) <==> nodes[i].definition.source != Missing
  {
    if nodes[i].id in DefinedIds(nodes) {
      var j :| 0 <= j < |nodes| && nodes[j].definition.source != Missing && nodes[j].id == nodes[i].id;
      UniqueAt(nodes, i, j);
    }
  }

  lemma FoldedDefined(nodes: seq<HierNode>, primary: NodeId, alias: NodeId, x: NodeId)
    requires UniqueIds(nodes) && primary in Ids(nodes) && alias in Ids(nodes) && primary != alias
    ensures x in DefinedIds(FoldedNodes(nodes, primary, alias)) <==>
            x in DefinedIds(nodes) || (x == primary && alias in DefinedIds(nodes))
  {
    var p, a := Find(nodes, primary).value, Find(nodes, alias).value;
    var f := FoldedNodes(nodes, primary, alias);
    FoldedIds(nodes, primary, alias);
    DefinedAt(nodes, a);
    if x in Ids(nodes) {
      var i :| 0 <= i < |nodes| && nodes[i].id == x;
      assert f[i].id == x;
      UniqueAt(nodes, i, p);
      DefinedAt(nodes, i);
      DefinedAt(f, i);
      hide Ids, UniqueIds, Repointed, Absorbed, Without, DefinedIds;
    } else {
      assert x !in Ids(f);
      assert x !in DefinedIds(f) && x !in DefinedIds(nodes);
    }
  }

  /** No definition is lost: the primary is defined when either node was. */
  lemma MergedDefined(nodes: seq<HierNode>, primary: NodeId, alias: NodeId)
    requires UniqueIds(nodes) && primary in Ids(nodes) && alias in Ids(nodes) && primary != alias
    ensures DefinedIds(MergedNodes(nodes, primary, alias))
            == set x | x in DefinedIds(nodes) :: Rename(x, alias, primary)
  {
    var f, r := FoldedNodes(nodes, primary, alias), MergedNodes(nodes, primary, alias);
    forall x
      ensures x in DefinedIds(r) <==> x in (set z | z in DefinedIds(nodes) :: Rename(z, alias, primary))
    {
      FoldedDefined(nodes, primary, alias, x);
      DefinedHasNode(f, x);
      DefinedHasNode(r, x);
      forall n
        ensures n in r <==> n in f && n.id != alias
      {
        WithoutIdHas(f, alias, n);
      }
      hide DefinedIds, FoldedNodes, MergedNodes;
    }
  }

  // ----- A merge and reachability -----

  /** After folding `alias` into `primary`, what one surviving node reaches is
      exactly what it reached before together with, when it touches either of
      the two, everything below either; in both directions, cycles included. */
  lemma MergeReachability(g: HierGraph, primary: NodeId, alias: NodeId, x: NodeId, y: NodeId)
    requires WellFormed(g)
    requires primary in Ids(g.nodes) && alias in Ids(g.nodes) && primary != alias
    requires x != alias && y != alias
    ensures Reaches(Containment(Merged(g, primary, alias)), x, y) <==>
            ReachesThrough(Containment(g), alias, primary, x, y)
  {
    MergedNodesOk(g.nodes, primary, alias);
    CollapseReachability(Containment(g), alias, primary, x, y);
  }

  /** The primary's descendants become those of both nodes, and likewise its
      ancestors. */
  lemma MergedNeighbourhood(g: HierGraph, primary: NodeId, alias: NodeId, y: NodeId)
    requires WellFormed(g)
    requires primary in Ids(g.nodes) && alias in Ids(g.nodes) && primary != alias
    requires y != primary && y != alias
    ensures Reaches(Containment(Merged(g, primary, alias)), primary, y) <==>
            Reaches(Containment(g), primary, y) || Reaches(Containment(g), alias, y)
    ensures Reaches(Containment(Merged(g, primary, alias)), y, primary) <==>
            Reaches(Containment(g), y, primary) || Reaches(Containment(g), y, alias)
  {
    MergeReachability(g, primary, alias, primary, y);
    MergeReachability(g, primary, alias, y, primary);
    ReachesSelf(Containment(g), primary);
    hide Reaches, Containment, Merged;
  }
}
