/** What the applied overlay is: the projected and authored edges pushed through
    the in-order fold of the applicable merges. */
module OverlayLaws {
  import opened Wrappers
  import opened Paths
  import opened Hierarchy
  import opened EdgeTable
  import opened Merge
  import opened Overlay
  import opened Traverse

  // ----- The fold of the merges as a renaming -----

  /** The merge takes effect on a graph whose ids are `ids`. */
  predicate Applies(ids: set<NodeId>, m: NodeMerge) {
    !m.dangling && m.primary != m.alias && m.primary in ids && m.alias in ids
  }

  /** The ids left after the merges, in order. */
  function Alive(ids: set<NodeId>, merges: seq<NodeMerge>): set<NodeId> {
    if merges == [] then ids
    else
      var r, m := Alive(ids, merges[..|merges| - 1]), merges[|merges| - 1];
      if Applies(r, m) then r - {m.alias} else r
  }

  /** The id that finally stands for `x`. */
  function Rep(ids: set<NodeId>, merges: seq<NodeMerge>, x: NodeId): NodeId {
    if merges == [] then x
    else
      var init, m := merges[..|merges| - 1], merges[|merges| - 1];
      var y := Rep(ids, init, x);
      if Applies(Alive(ids, init), m) then Rename(y, m.alias, m.primary) else y
  }

  predicate AnyApplies(ids: set<NodeId>, merges: seq<NodeMerge>) {
    if merges == [] then false
    else
      var init, m := merges[..|merges| - 1], merges[|merges| - 1];
      AnyApplies(ids, init) || Applies(Alive(ids, init), m)
  }

  /** `Rep` is a retraction of the ids onto the surviving ones. */
  lemma {:induction false} RepRetracts(ids: set<NodeId>, merges: seq<NodeMerge>, x: NodeId)
    ensures x in ids ==> Rep(ids, merges, x) in Alive(ids, merges)
    ensures x in Alive(ids, merges) ==> x in ids && Rep(ids, merges, x) == x
  {
    if merges != [] {
      RepRetracts(ids, merges[..|merges| - 1], x);
    }
  }

  /** A relation with every point replaced by its representative, loops dropped. */
  ghost function Quotient(e: set<(NodeId, NodeId)>, ids: set<NodeId>, merges: seq<NodeMerge>): set<(NodeId, NodeId)> {
    set p | p in e && Rep(ids, merges, p.0) != Rep(ids, merges, p.1)
      :: (Rep(ids, merges, p.0), Rep(ids, merges, p.1))
  }

  lemma QuotientNone(e: set<(NodeId, NodeId)>, ids: set<NodeId>)
    requires forall p :: p in e ==> p.0 != p.1
    ensures Quotient(e, ids, []) == e
  {
    forall p
      ensures p in Quotient(e, ids, []) <==> p in e
    {
      assert (Rep(ids, [], p.0), Rep(ids, [], p.1)) == p;
    }
  }

  lemma QuotientStep(e: set<(NodeId, NodeId)>, ids: set<NodeId>, merges: seq<NodeMerge>, m: NodeMerge)
    requires m.primary != m.alias
    ensures Quotient(e, ids, merges + [m])
            == if Applies(Alive(ids, merges), m) then Collapse(Quotient(e, ids, merges), m.alias, m.primary)
               else Quotient(e, ids, merges)
  {
    assert (merges + [m])[..|merges|] == merges;
    forall x
      ensures Rep(ids, merges + [m], x)
              == if Applies(Alive(ids, merges), m) then Rename(Rep(ids, merges, x), m.alias, m.primary)
                 else Rep(ids, merges, x)
    {
    }
    hide Rep, Alive, Applies;
    var q, q' := Quotient(e, ids, merges), Quotient(e, ids, merges + [m]);
    if Applies(Alive(ids, merges), m) {
      forall p | p in e && Rep(ids, merges + [m], p.0) != Rep(ids, merges + [m], p.1)
        ensures (Rep(ids, merges + [m], p.0), Rep(ids, merges + [m], p.1)) in Collapse(q, m.alias, m.primary)
      {
        assert (Rep(ids, merges, p.0), Rep(ids, merges, p.1)) in q;
      }
      assert q' <= Collapse(q, m.alias, m.primary);
      forall z | z in Collapse(q, m.alias, m.primary)
        ensures z in q'
      {
        var p :| p in q && z == (Rename(p.0, m.alias, m.primary), Rename(p.1, m.alias, m.primary)) && z.0 != z.1;
        var s :| s in e && p == (Rep(ids, merges, s.0), Rep(ids, merges, s.1));
        assert z == (Rep(ids, merges + [m], s.0), Rep(ids, merges + [m], s.1));
      }
    }
  }

  /** No reachability between survivors is lost by the whole fold. */
  lemma {:induction false} QuotientKeepsReach(e: set<(NodeId, NodeId)>, ids: set<NodeId>, merges: seq<NodeMerge>,
                                              x: NodeId, y: NodeId, k: nat)
    requires Hops(e, x, y, k)
    ensures Reaches(Quotient(e, ids, merges), Rep(ids, merges, x), Rep(ids, merges, y))
    decreases k
  {
    var q := Quotient(e, ids, merges);
    if k == 0 {
      ReachesSelf(q, Rep(ids, merges, x));
    } else {
      var z := HopsLast(e, x, y, k);
      QuotientKeepsReach(e, ids, merges, x, z, k - 1);
      hide Rep, Reaches, Hops;
      var z', y' := Rep(ids, merges, z), Rep(ids, merges, y);
      if z' != y' {
        assert (Rep(ids, merges, (z, y).0), Rep(ids, merges, (z, y).1)) in q;
        ReachesEdge(q, z', y');
        ReachesTransitive(q, Rep(ids, merges, x), z', y');
      }
    }
  }

  /** The cross-references after the merges: renamed; and once any merge took
      effect every self-reference is gone, old ones included. */
  ghost function XrefQuotient(xs: set<XRef>, ids: set<NodeId>, merges: seq<NodeMerge>): set<XRef> {
    if !AnyApplies(ids, merges) then xs
    else
      set x | x in xs && Rep(ids, merges, x.from) != Rep(ids, merges, x.to)
        :: XRef(Rep(ids, merges, x.from), Rep(ids, merges, x.to), x.kind)
  }

  lemma {:induction false} RepUntouched(ids: set<NodeId>, merges: seq<NodeMerge>, x: NodeId)
    requires !AnyApplies(ids, merges)
    ensures Rep(ids, merges, x) == x
  {
    if merges != [] {
      RepUntouched(ids, merges[..|merges| - 1], x);
    }
  }

  ghost function RepXref(ids: set<NodeId>, merges: seq<NodeMerge>, x: XRef): XRef {
    XRef(Rep(ids, merges, x.from), Rep(ids, merges, x.to), x.kind)
  }

  lemma XrefQuotientHas(xs: set<XRef>, ids: set<NodeId>, merges: seq<NodeMerge>, y: XRef)
    ensures y in XrefQuotient(xs, ids, merges) <==>
            (AnyApplies(ids, merges) ==> y.from != y.to) && exists x :: x in xs && RepXref(ids, merges, x) == y
  {
    if !AnyApplies(ids, merges) {
      forall x
        ensures RepXref(ids, merges, x) == x
      {
        RepUntouched(ids, merges, x.from);
        RepUntouched(ids, merges, x.to);
      }
    }
    hide Rep, AnyApplies;
  }

  lemma XrefQuotientStep(xs: set<XRef>, ids: set<NodeId>, merges: seq<NodeMerge>, m: NodeMerge)
    ensures XrefQuotient(xs, ids, merges + [m])
            == if Applies(Alive(ids, merges), m) then XrefCollapse(XrefQuotient(xs, ids, merges), m.alias, m.primary)
               else XrefQuotient(xs, ids, merges)
  {
    assert (merges + [m])[..|merges|] == merges;
    forall x
      ensures RepXref(ids, merges + [m], x)
              == if Applies(Alive(ids, merges), m) then RenamedXref(RepXref(ids, merges, x), m.alias, m.primary)
                 else RepXref(ids, merges, x)
    {
    }
    assert AnyApplies(ids, merges + [m]) <==> AnyApplies(ids, merges) || Applies(Alive(ids, merges), m);
    hide RepXref, AnyApplies, Alive, Applies, XrefQuotient;
    forall y
      ensures y in XrefQuotient(xs, ids, merges + [m]) <==>
              if Applies(Alive(ids, merges), m) then
                y in XrefCollapse(XrefQuotient(xs, ids, merges), m.alias, m.primary)
              else y in XrefQuotient(xs, ids, merges)
    {
      XrefQuotientHas(xs, ids, merges + [m], y);
      XrefQuotientHas(xs, ids, merges, y);
      if Applies(Alive(ids, merges), m) {
        XrefStepHas(xs, ids, merges, m, y);
      }
    }
  }

  lemma XrefStepHas(xs: set<XRef>, ids: set<NodeId>, merges: seq<NodeMerge>, m: NodeMerge, y: XRef)
    ensures y in XrefCollapse(XrefQuotient(xs, ids, merges), m.alias, m.primary) <==>
            y.from != y.to && exists x :: x in xs && RenamedXref(RepXref(ids, merges, x), m.alias, m.primary) == y
  {
    hide RepXref, XrefQuotient;
    var q := XrefQuotient(xs, ids, merges);
    if y in XrefCollapse(q, m.alias, m.primary) {
      var z :| z in q && RenamedXref(z, m.alias, m.primary) == y && y.from != y.to;
      XrefQuotientHas(xs, ids, merges, z);
    }
    if x :| x in xs && RenamedXref(RepXref(ids, merges, x), m.alias, m.primary) == y && y.from != y.to {
      XrefQuotientHas(xs, ids, merges, RepXref(ids, merges, x));
    }
  }

  // ----- Definitions: the ladder -----

  /** The record carries a text the ladder can use. */
  predicate Usable(on: OverlayNode) {
    on.definition.Some? && !IsBlank(on.definition.value) && on.definitionSource in {DefSource.Authored, LlmDraft}
  }

  /** Each rung of the ladder: an authored text always wins; a draft only fills
      a gap; with neither, an inherited text stays and anything else is lost. */
  lemma OverrideLadder(n: HierNode, on: OverlayNode)
    requires DefinitionOk(n.definition)
    ensures var d := Overridden(n, on).definition;
            && DefinitionOk(d)
            && (Usable(on) && (on.definitionSource == DefSource.Authored || !IsInherited(n.definition))
                ==> d == Definition(on.definition.value, on.definitionSource))
            && (IsInherited(n.definition) && !(Usable(on) && on.definitionSource == DefSource.Authored)
                ==> d == n.definition)
            && (d.source == Missing <==> !Usable(on) && !IsInherited(n.definition))
  {
  }

  ghost predicate DistinctRecords(ons: seq<OverlayNode>) {
    forall i, j :: 0 <= i < j < |ons| ==> ons[i].id != ons[j].id
  }

  function RecordIds(ons: seq<OverlayNode>): set<NodeId> {
    set on | on in ons :: on.id
  }

  /** The record's text displaces an inherited one. */
  predicate Displaces(on: OverlayNode) {
    Usable(on) && on.definitionSource == DefSource.Authored
  }

  /** Some record displaces the inherited text of `x`. */
  predicate Displaced(ons: seq<OverlayNode>, x: NodeId) {
    exists on :: on in ons && on.id == x && Displaces(on)
  }

  /** The last record for `x` carries a usable text. */
  predicate LastUsable(ons: seq<OverlayNode>, x: NodeId) {
    exists i :: 0 <= i < |ons| && ons[i].id == x && Usable(ons[i]) && forall j :: i < j < |ons| ==> ons[j].id != x
  }

  lemma RecordSnoc(ons: seq<OverlayNode>, on: OverlayNode, x: NodeId)
    ensures x in RecordIds(ons + [on]) <==> x in RecordIds(ons) || x == on.id
    ensures Displaced(ons + [on], x) <==> Displaced(ons, x) || (x == on.id && Displaces(on))
    ensures LastUsable(ons + [on], x) <==> if x == on.id then Usable(on) else LastUsable(ons, x)
  {
    hide Usable, Displaces;
    LastSnoc(ons, on, x);
    hide LastUsable;
    assert forall o :: o in ons + [on] <==> o in ons || o == on;
  }

  lemma LastSnoc(ons: seq<OverlayNode>, on: OverlayNode, x: NodeId)
    ensures LastUsable(ons + [on], x) <==> if x == on.id then Usable(on) else LastUsable(ons, x)
  {
    hide Usable;
    var all, n := ons + [on], |ons|;
    assert all[n] == on;
    if x != on.id {
      assert forall i :: 0 <= i < n ==> all[i] == ons[i];
      if LastUsable(ons, x) {
        var i :| 0 <= i < n && ons[i].id == x && Usable(ons[i]) && forall j :: i < j < n ==> ons[j].id != x;
        assert all[i].id == x && Usable(all[i]) && forall j :: i < j < |all| ==> all[j].id != x;
      }
    }
  }

  // ----- Phase 1: records -----

  lemma BareNodeOk(nodes: seq<HierNode>, n: HierNode)
    requires NodesOk(nodes) && n.id !in Ids(nodes)
    requires n.parents == [] && n.children == [] && DefinitionOk(n.definition)
    ensures var r := nodes + [n];
            NodesOk(r) && Ids(r) == Ids(nodes) + {n.id} && Links(r, Down) == Links(nodes, Down)
  {
    var r := nodes + [n];
    IdsSnoc(nodes, n);
    assert UniqueIds(r) by {
      assert forall i :: 0 <= i < |nodes| ==> nodes[i].id in Ids(nodes);
    }
    forall dir: Dir
      ensures Links(r, dir) == Links(nodes, dir)
    {
      forall x, y
        ensures (x, y) in Links(r, dir) <==> (x, y) in Links(nodes, dir)
      {
        LinkHasNode(nodes, dir, x, y);
        LinkHasNode(r, dir, x, y);
      }
      PairwiseEqual(Links(r, dir), Links(nodes, dir));
    }
    hide Links, Ids, Reversed, UniqueIds, DefinitionOk;
  }

  lemma WithRecordKeeps(nodes: seq<HierNode>, on: OverlayNode)
    requires NodesOk(nodes)
    ensures var r := WithRecord(nodes, on);
            && NodesOk(r) && Ids(r) == Ids(nodes) + {on.id} && Links(r, Down) == Links(nodes, Down)
  {
    match Find(nodes, on.id)
    case Some(i) =>
      OverrideLadder(nodes[i], on);
      hide Ids, UniqueIds, Links, Reversed, DefinitionOk, IsInherited;
      SameLinksOk(nodes, WithRecord(nodes, on));
    case None =>
      hide Ids, UniqueIds, Links, Reversed;
      BareNodeOk(nodes, Introduced(on));
  }

  lemma {:induction false} WithRecordsKeeps(nodes: seq<HierNode>, ons: seq<OverlayNode>)
    requires NodesOk(nodes)
    ensures var r := WithRecords(nodes, ons);
            && NodesOk(r) && Ids(r) == Ids(nodes) + RecordIds(ons) && Links(r, Down) == Links(nodes, Down)
  {
    hide NodesOk, Ids, Links, WithRecord;
    if ons != [] {
      var init, last := ons[..|ons| - 1], ons[|ons| - 1];
      assert ons == init + [last];
      assert RecordIds(ons) == RecordIds(init) + {last.id};
      hide RecordIds;
      WithRecordsKeeps(nodes, init);
      WithRecordKeeps(WithRecords(nodes, init), last);
    }
  }

  ghost function InheritedIds(nodes: seq<HierNode>): set<NodeId> {
    set i | 0 <= i < |nodes| && IsInherited(nodes[i].definition) :: nodes[i].id
  }

  /** One record changes the definitions of its own id only: defined afterwards
      when the record is usable or an inherited text was there. */
  lemma WithRecordDefined(nodes: seq<HierNode>, on: OverlayNode, x: NodeId)
    requires NodesOk(nodes)
    ensures var r := WithRecord(nodes, on);
            && (x in DefinedIds(r) <==>
                if x == on.id then Usable(on) || x in InheritedIds(nodes) else x in DefinedIds(nodes))
            && (x in InheritedIds(r) <==> x in InheritedIds(nodes) && !(x == on.id && Displaces(on)))
  {
    var r := WithRecord(nodes, on);
    match Find(nodes, on.id)
    case Some(i) =>
      OverrideLadder(nodes[i], on);
      assert forall j :: 0 <= j < |nodes| ==> r[j].id == nodes[j].id && (j != i ==> r[j] == nodes[j]);
      if x == on.id {
        assert forall j :: 0 <= j < |nodes| && nodes[j].id == x ==> j == i;
      }
      hide WithRecord, Overridden, DefinitionOk, Ids, Links, Usable, IsInherited;
      OneNodeChanged(nodes, r, i, x);
    case None =>
      assert r == nodes + [Introduced(on)];
      assert x == on.id ==> x !in InheritedIds(nodes) && x !in DefinedIds(nodes);
      forall y: HierNode
        ensures y in r <==> y in nodes || y == Introduced(on)
      {
      }
      DefinedHasNode(nodes, x);
      DefinedHasNode(r, x);
      InheritedHasNode(nodes, x);
      InheritedHasNode(r, x);
      hide WithRecord, DefinedIds, InheritedIds, Links, Ids;
  }

  lemma InheritedHasNode(nodes: seq<HierNode>, x: NodeId)
    ensures x in InheritedIds(nodes) <==> exists n :: n in nodes && n.id == x && IsInherited(n.definition)
  {
    if n :| n in nodes && n.id == x && IsInherited(n.definition) {
      var i :| 0 <= i < |nodes| && nodes[i] == n;
    }
  }

  lemma OneNodeChanged(nodes: seq<HierNode>, r: seq<HierNode>, i: nat, x: NodeId)
    requires UniqueIds(nodes) && |r| == |nodes| && i < |nodes|
    requires forall j :: 0 <= j < |nodes| ==> r[j].id == nodes[j].id && (j != i ==> r[j] == nodes[j])
    ensures x == nodes[i].id ==> (x in DefinedIds(r) <==> r[i].definition.source != Missing)
    ensures x == nodes[i].id ==> (x in InheritedIds(nodes) <==> IsInherited(nodes[i].definition))
    ensures x == nodes[i].id ==> (x in InheritedIds(r) <==> IsInherited(r[i].definition))
    ensures x != nodes[i].id ==> (x in DefinedIds(r) <==> x in DefinedIds(nodes))
    ensures x != nodes[i].id ==> (x in InheritedIds(r) <==> x in InheritedIds(nodes))
  {
    hide IsInherited;
    if x == nodes[i].id {
      SameIds(nodes, r);
      DefinedAt(r, i);
      assert x in InheritedIds(nodes) ==>
          exists j :: 0 <= j < |nodes| && nodes[j].id == x && IsInherited(nodes[j].definition);
      assert x in InheritedIds(r) ==> exists j :: 0 <= j < |r| && r[j].id == x && IsInherited(r[j].definition);
    } else {
      DefinedHasNode(nodes, x);
      DefinedHasNode(r, x);
      InheritedHasNode(nodes, x);
      InheritedHasNode(r, x);
      forall n: HierNode | n.id == x
        ensures n in r <==> n in nodes
      {
        if n in r {
          var j :| 0 <= j < |r| && r[j] == n;
          assert nodes[j] == n;
        }
        if n in nodes {
          var j :| 0 <= j < |nodes| && nodes[j] == n;
          assert r[j] == n;
        }
      }
      hide DefinedIds, InheritedIds;
    }
  }

  /** What any list of records leaves defined: where the last record is usable, or
      where an inherited text was never displaced; ids without a record are as
      they were. */
  lemma {:induction false} WithRecordsDefined(nodes: seq<HierNode>, ons: seq<OverlayNode>, x: NodeId)
    requires NodesOk(nodes)
    ensures var r := WithRecords(nodes, ons);
            && (x in DefinedIds(r) <==>
                if x in RecordIds(ons) then LastUsable(ons, x) || (x in InheritedIds(nodes) && !Displaced(ons, x))
                else x in DefinedIds(nodes))
            && (x in InheritedIds(r) <==> x in InheritedIds(nodes) && !Displaced(ons, x))
  {
    hide NodesOk, DefinedIds, InheritedIds, WithRecord, Usable, Ids, Links, Displaced, LastUsable, Displaces, RecordIds;
    if ons != [] {
      var init, last := ons[..|ons| - 1], ons[|ons| - 1];
      WithRecordsDefined(nodes, init, x);
      WithRecordsKeeps(nodes, init);
      WithRecordDefined(WithRecords(nodes, init), last, x);
      RecordSnoc(init, last, x);
      DisplacesUsable(last);
      assert ons == init + [last];
    } else {
      NoRecords(x);
    }
  }

  lemma DisplacesUsable(on: OverlayNode)
    ensures Displaces(on) ==> Usable(on)
  {
  }

  lemma NoRecords(x: NodeId)
    ensures x !in RecordIds([]) && !Displaced([], x)
  {
  }

  /** A definition the stores gave `x` survives the records exactly when none of
      them displaces it or the last one for `x` brings a usable text. */
  lemma RecordsKeepDefinition(nodes: seq<HierNode>, ons: seq<OverlayNode>, x: NodeId)
    requires NodesOk(nodes) && Projected(nodes) && x in DefinedIds(nodes)
    ensures x in DefinedIds(WithRecords(nodes, ons)) <==> !Displaced(ons, x) || LastUsable(ons, x)
  {
    hide NodesOk, WithRecords;
    WithRecordsDefined(nodes, ons, x);
    ProjectedInherited(nodes, x);
  }

  /** One record per id never loses a definition. */
  lemma DistinctRecordsKeep(ons: seq<OverlayNode>, x: NodeId)
    requires DistinctRecords(ons) && Displaced(ons, x)
    ensures LastUsable(ons, x)
  {
    var on :| on in ons && on.id == x && Displaces(on);
    var i :| 0 <= i < |ons| && ons[i] == on;
  }

  lemma ProjectedInherited(nodes: seq<HierNode>, x: NodeId)
    requires Projected(nodes)
    ensures x in InheritedIds(nodes) <==> x in DefinedIds(nodes)
  {
  }

  // ----- Phase 2: edges -----

  /** The authored edges that take effect. */
  ghost function AuthoredEdges(ids: set<NodeId>, edges: seq<OverlayEdge>): set<(NodeId, NodeId)> {
    set e | e in edges && !e.dangling && e.parent != e.child && e.parent in ids && e.child in ids :: (e.parent, e.child)
  }

  lemma {:induction false} LivePairsHas(edges: seq<OverlayEdge>, p: (NodeId, NodeId))
    ensures p in LivePairs(edges) <==> exists e :: e in edges && !e.dangling && (e.parent, e.child) == p
  {
    if edges != [] {
      var init, last := edges[..|edges| - 1], edges[|edges| - 1];
      LivePairsHas(init, p);
      assert edges == init + [last];
      assert forall e :: e in edges <==> e in init || e == last;
    }
  }

  lemma AuthoredAreNew(ids: set<NodeId>, edges: seq<OverlayEdge>)
    ensures NewEdges(ids, LivePairs(edges)) == AuthoredEdges(ids, edges)
  {
    hide LivePairs;
    forall p
      ensures p in NewEdges(ids, LivePairs(edges)) <==> p in AuthoredEdges(ids, edges)
    {
      LivePairsHas(edges, p);
    }
  }

  lemma GrewDefined(nodes: seq<HierNode>, r: seq<HierNode>)
    requires |r| == |nodes|
    requires forall i :: 0 <= i < |nodes| ==> r[i].id == nodes[i].id && r[i].definition == nodes[i].definition
    ensures DefinedIds(r) == DefinedIds(nodes)
  {
    forall x
      ensures x in DefinedIds(r) <==> x in DefinedIds(nodes)
    {
      if x in DefinedIds(r) {
        var i :| 0 <= i < |r| && r[i].definition.source != Missing && r[i].id == x;
        assert nodes[i].id == x;
      }
      if x in DefinedIds(nodes) {
        var i :| 0 <= i < |nodes| && nodes[i].definition.source != Missing && nodes[i].id == x;
        assert r[i].id == x;
      }
    }
  }

  // ----- Phase 3: merges -----

  lemma MergedKeeps(g: HierGraph, m: NodeMerge)
    requires WellFormed(g)
    ensures var r := if m.dangling then g else Merged(g, m.primary, m.alias);
            && WellFormed(r)
            && (!Applies(Ids(g.nodes), m) ==> r == g)
            && (Applies(Ids(g.nodes), m) ==>
                  && Ids(r.nodes) == Ids(g.nodes) - {m.alias}
                  && Containment(r) == Collapse(Containment(g), m.alias, m.primary)
                  && XrefSet(r.xrefs) == XrefCollapse(XrefSet(g.xrefs), m.alias, m.primary)
                  && DefinedIds(r.nodes) == set x | x in DefinedIds(g.nodes) :: Rename(x, m.alias, m.primary))
  {
    if Applies(Ids(g.nodes), m) {
      MergedNodesOk(g.nodes, m.primary, m.alias);
      MergedXrefsAre(g.xrefs, m.alias, m.primary, Ids(g.nodes));
      MergedDefined(g.nodes, m.primary, m.alias);
      hide NodesOk, Ids, Links, DefinedIds, MergedNodes, MergedXrefs, XrefsOk, XrefSet, XrefCollapse, Collapse;
    }
  }

  ghost function RepImage(xs: set<NodeId>, ids: set<NodeId>, merges: seq<NodeMerge>): set<NodeId> {
    set x | x in xs :: Rep(ids, merges, x)
  }

  lemma RepImageStep(xs: set<NodeId>, ids: set<NodeId>, merges: seq<NodeMerge>, m: NodeMerge)
    ensures RepImage(xs, ids, merges + [m])
            == if Applies(Alive(ids, merges), m) then
                 set x | x in RepImage(xs, ids, merges) :: Rename(x, m.alias, m.primary)
               else RepImage(xs, ids, merges)
  {
    assert (merges + [m])[..|merges|] == merges;
    forall x
      ensures Rep(ids, merges + [m], x)
              == if Applies(Alive(ids, merges), m) then Rename(Rep(ids, merges, x), m.alias, m.primary)
                 else Rep(ids, merges, x)
    {
    }
    hide Rep, Alive, Applies;
    if Applies(Alive(ids, merges), m) {
      var r := set x | x in RepImage(xs, ids, merges) :: Rename(x, m.alias, m.primary);
      forall y | y in r
        ensures y in RepImage(xs, ids, merges + [m])
      {
        var z :| z in RepImage(xs, ids, merges) && y == Rename(z, m.alias, m.primary);
        var x :| x in xs && z == Rep(ids, merges, x);
        assert y == Rep(ids, merges + [m], x);
      }
      forall x | x in xs
        ensures Rep(ids, merges + [m], x) in r
      {
        assert Rep(ids, merges, x) in RepImage(xs, ids, merges);
      }
    }
  }

  lemma {:induction false} WithMergesKeeps(g: HierGraph, merges: seq<NodeMerge>)
    requires WellFormed(g)
    ensures var r, ids := WithMerges(g, merges), Ids(g.nodes);
            && WellFormed(r)
            && Ids(r.nodes) == Alive(ids, merges)
            && Containment(r) == Quotient(Containment(g), ids, merges)
            && XrefSet(r.xrefs) == XrefQuotient(XrefSet(g.xrefs), ids, merges)
            && DefinedIds(r.nodes) == RepImage(DefinedIds(g.nodes), ids, merges)
  {
    var ids, e, xs, ds := Ids(g.nodes), Containment(g), XrefSet(g.xrefs), DefinedIds(g.nodes);
    if merges == [] {
      QuotientNone(e, ids);
      assert RepImage(ds, ids, []) == ds by {
        assert forall x :: Rep(ids, [], x) == x;
      }
      hide Ids, Links, DefinedIds, XrefSet, WellFormed, Quotient, RepImage;
    } else {
      var init, last := merges[..|merges| - 1], merges[|merges| - 1];
      WithMergesKeeps(g, init);
      assert merges == init + [last];
      MergedKeeps(WithMerges(g, init), last);
      if last.primary != last.alias {
        QuotientStep(e, ids, init, last);
      } else {
        QuotientIdle(e, ids, init, last);
      }
      XrefQuotientStep(xs, ids, init, last);
      RepImageStep(ds, ids, init, last);
      hide Ids, Links, DefinedIds, XrefSet, WellFormed, Quotient, RepImage, XrefQuotient, Collapse, XrefCollapse,
          Merged, Applies;
    }
  }

  lemma QuotientIdle(e: set<(NodeId, NodeId)>, ids: set<NodeId>, merges: seq<NodeMerge>, m: NodeMerge)
    requires m.primary == m.alias
    ensures Quotient(e, ids, merges + [m]) == Quotient(e, ids, merges)
  {
    assert (merges + [m])[..|merges|] == merges;
    forall x
      ensures Rep(ids, merges + [m], x) == Rep(ids, merges, x)
    {
    }
    hide Rep;
  }

  // ----- The whole -----

  /** The containment edges before any merge: projected and authored. */
  ghost function LinkedEdges(g: HierGraph, overlay: HierarchyOverlay): set<(NodeId, NodeId)> {
    Containment(g) + AuthoredEdges(RecordedIds(g, overlay), overlay.edges)
  }

  function RecordedIds(g: HierGraph, overlay: HierarchyOverlay): set<NodeId> {
    Ids(g.nodes) + RecordIds(overlay.nodes)
  }

  /** Records and edges keep the invariant and add exactly what they declare. */
  lemma LinkedKeeps(g: HierGraph, overlay: HierarchyOverlay)
    requires WellFormed(g)
    ensures var h := Linked(g, overlay);
            && WellFormed(h) && h.xrefs == g.xrefs
            && Ids(h.nodes) == RecordedIds(g, overlay)
            && Containment(h) == LinkedEdges(g, overlay)
            && DefinedIds(h.nodes) == DefinedIds(WithRecords(g.nodes, overlay.nodes))
  {
    var recorded := WithRecords(g.nodes, overlay.nodes);
    var index, pairs := Positions(recorded), LivePairs(overlay.edges);
    WithRecordsKeeps(g.nodes, overlay.nodes);
    assert XrefsOk(g.xrefs, RecordedIds(g, overlay));
    hide NodesOk, Links, Ids, DefinedIds, RecordIds, XrefsOk, Positions, WithRecords, LivePairs, WithPairs;
    WithPairsKeeps(recorded, index, pairs);
    AuthoredAreNew(Ids(recorded), overlay.edges);
    GrewDefined(recorded, WithPairs(recorded, index, pairs));
  }

  /** The overlay theorem. The applied graph is well formed with correct leaf
      flags; its nodes are the surviving ids; its containment and its
      cross-references are the projected and authored ones pushed through the
      in-order fold of the applicable merges. */
  lemma OverlayIsQuotient(g: HierGraph, overlay: HierarchyOverlay)
    requires WellFormed(g)
    ensures var r, ids := Applied(g, overlay), RecordedIds(g, overlay);
            && WellFormed(r) && LeavesMarked(r.nodes)
            && Ids(r.nodes) == Alive(ids, overlay.merges)
            && Containment(r) == Quotient(LinkedEdges(g, overlay), ids, overlay.merges)
            && XrefSet(r.xrefs) == XrefQuotient(XrefSet(g.xrefs), ids, overlay.merges)
  {
    hide NodesOk, Links, Ids, XrefSet, DefinedIds, LeavesMarked, XrefsOk, WithLeaves,
         Linked, LinkedEdges, RecordedIds, WithMerges, Quotient, XrefQuotient, Alive;
    LinkedKeeps(g, overlay);
    WithMergesKeeps(Linked(g, overlay), overlay.merges);
    var merged := WithMerges(Linked(g, overlay), overlay.merges).nodes;
    WithLeavesKeeps(merged);
    GrewDefined(merged, WithLeaves(merged));
  }

  /** The ids a definition belongs to once the records are in. */
  ghost function RecordedDefinitions(g: HierGraph, overlay: HierarchyOverlay): set<NodeId> {
    set x | x in RecordedIds(g, overlay) &&
            if x in RecordIds(overlay.nodes) then
              LastUsable(overlay.nodes, x) || (x in InheritedIds(g.nodes) && !Displaced(overlay.nodes, x))
            else x in DefinedIds(g.nodes)
  }

  lemma DefinedIsNode(nodes: seq<HierNode>)
    ensures DefinedIds(nodes) <= Ids(nodes)
  {
  }

  /** Merges lose no definition: a surviving node is defined exactly when some
      node it stands for was defined once the records were in. */
  lemma OverlayDefinitions(g: HierGraph, overlay: HierarchyOverlay)
    requires WellFormed(g)
    ensures DefinedIds(Applied(g, overlay).nodes)
            == RepImage(RecordedDefinitions(g, overlay), RecordedIds(g, overlay), overlay.merges)
  {
    hide NodesOk, Links, Ids, XrefSet, DefinedIds, LeavesMarked, XrefsOk, WithLeaves, Displaced, LastUsable,
         Linked, LinkedEdges, RecordedIds, WithMerges, RepImage, RecordIds, WithRecords, InheritedIds;
    var recorded := WithRecords(g.nodes, overlay.nodes);
    LinkedKeeps(g, overlay);
    DefinedIsNode(Linked(g, overlay).nodes);
    forall x
      ensures x in DefinedIds(recorded) <==> x in RecordedDefinitions(g, overlay)
    {
      WithRecordsDefined(g.nodes, overlay.nodes, x);
    }
    assert DefinedIds(recorded) == RecordedDefinitions(g, overlay);
    WithMergesKeeps(Linked(g, overlay), overlay.merges);
    var merged := WithMerges(Linked(g, overlay), overlay.merges).nodes;
    WithLeavesKeeps(merged);
    GrewDefined(merged, WithLeaves(merged));
  }

  /** Reachability over the whole overlay: whatever was connected stays connected. */
  lemma OverlayKeepsReach(g: HierGraph, overlay: HierarchyOverlay, x: NodeId, y: NodeId)
    requires WellFormed(g) && Reaches(LinkedEdges(g, overlay), x, y)
    ensures var ids := RecordedIds(g, overlay);
            Reaches(Containment(Applied(g, overlay)), Rep(ids, overlay.merges, x), Rep(ids, overlay.merges, y))
  {
    OverlayIsQuotient(g, overlay);
    var k: nat :| Hops(LinkedEdges(g, overlay), x, y, k);
    QuotientKeepsReach(LinkedEdges(g, overlay), RecordedIds(g, overlay), overlay.merges, x, y, k);
  }

  /** The pairs of ids that one node stands for after the merges. */
  ghost function Identified(ids: set<NodeId>, merges: seq<NodeMerge>): set<(NodeId, NodeId)> {
    set a, b | a in ids && b in ids && Rep(ids, merges, a) == Rep(ids, merges, b) :: (a, b)
  }

  lemma QuotientIgnoresIdentified(e: set<(NodeId, NodeId)>, ids: set<NodeId>, merges: seq<NodeMerge>)
    ensures Quotient(e + Identified(ids, merges), ids, merges) == Quotient(e, ids, merges)
  {
    hide Rep;
  }

  lemma {:induction false} QuotientReachLifts(e: set<(NodeId, NodeId)>, ids: set<NodeId>, merges: seq<NodeMerge>,
                                              x: NodeId, y: NodeId, k: nat)
    requires forall p :: p in e ==> p.0 in ids && p.1 in ids
    requires x in ids && y in ids && Hops(Quotient(e, ids, merges), Rep(ids, merges, x), Rep(ids, merges, y), k)
    ensures Reaches(e + Identified(ids, merges), x, y)
    decreases k
  {
    var all := e + Identified(ids, merges);
    if k == 0 {
      assert (x, y) in all;
      ReachesEdge(all, x, y);
    } else {
      var w := HopsLast(Quotient(e, ids, merges), Rep(ids, merges, x), Rep(ids, merges, y), k);
      var p :| p in e && Rep(ids, merges, p.0) == w && Rep(ids, merges, p.1) == Rep(ids, merges, y);
      QuotientReachLifts(e, ids, merges, x, p.0, k - 1);
      assert (p.0, p.1) in all && (p.1, y) in all;
      hide Rep, Reaches, Hops, Quotient, Identified;
      ReachesEdge(all, p.0, p.1);
      ReachesEdge(all, p.1, y);
      ReachesTransitive(all, x, p.0, p.1);
      ReachesTransitive(all, x, p.1, y);
    }
  }

  lemma LinkedEdgesKnown(g: HierGraph, overlay: HierarchyOverlay)
    requires WellFormed(g)
    ensures forall p :: p in LinkedEdges(g, overlay) ==>
        p.0 in RecordedIds(g, overlay) && p.1 in RecordedIds(g, overlay)
  {
    LinkedKeeps(g, overlay);
    hide LinkedEdges, RecordedIds, Linked, Links, Ids, XrefsOk;
    forall p | p in LinkedEdges(g, overlay)
      ensures p.0 in RecordedIds(g, overlay)
    {
      LinksOwned(Linked(g, overlay).nodes, Down, p);
    }
  }

  /** Reachability over the whole overlay, exactly: between the nodes that stand
      for two ids there is a path when projected and authored edges connect the
      ids, where ids merged into one node count as connected both ways. */
  lemma OverlayReachability(g: HierGraph, overlay: HierarchyOverlay, x: NodeId, y: NodeId)
    requires WellFormed(g) && x in RecordedIds(g, overlay) && y in RecordedIds(g, overlay)
    ensures var ids, ms := RecordedIds(g, overlay), overlay.merges;
            Reaches(Containment(Applied(g, overlay)), Rep(ids, ms, x), Rep(ids, ms, y)) <==>
            Reaches(LinkedEdges(g, overlay) + Identified(ids, ms), x, y)
  {
    hide Rep, Hops, Quotient, Identified, LinkedEdges, RecordedIds, Applied, Links, WellFormed;
    OverlayIsQuotient(g, overlay);
    LinkedEdgesKnown(g, overlay);
    var ids, ms, e := RecordedIds(g, overlay), overlay.merges, LinkedEdges(g, overlay);
    QuotientIgnoresIdentified(e, ids, ms);
    if k: nat :| Hops(e + Identified(ids, ms), x, y, k) {
      QuotientKeepsReach(e + Identified(ids, ms), ids, ms, x, y, k);
    }
    if k: nat :| Hops(Quotient(e, ids, ms), Rep(ids, ms, x), Rep(ids, ms, y), k) {
      QuotientReachLifts(e, ids, ms, x, y, k);
    }
  }

  /** Two records for one id can lose a definition: an authored text followed by
      a label-only record leaves a node that had a description without one. */
  lemma TwoRecordsLoseDefinition()
    ensures var x := ConceptId("a");
            var n := HierNode(x, "A", Definition("alpha", InheritedConcept), NodeKind.Concept, [], [], None, true);
            var overlay := HierarchyOverlay(
              [OverlayNode(x, Some("beta"), DefSource.Authored, None),
               OverlayNode(x, None, DefSource.Authored, Some("B"))],
              [], []);
            && WellFormed(HierGraph([n], [])) && Projected([n])
            && Applied(HierGraph([n], []), overlay).nodes[..] != []
            && Applied(HierGraph([n], []), overlay).nodes[0].definition == MissingDefinition()
  {
    var x := ConceptId("a");
    var n := HierNode(x, "A", Definition("alpha", InheritedConcept), NodeKind.Concept, [], [], None, true);
    var r1 := OverlayNode(x, Some("beta"), DefSource.Authored, None);
    var r2 := OverlayNode(x, None, DefSource.Authored, Some("B"));
    assert !IsBlank("alpha") by { assert !IsWhitespace("alpha"[0]); }
    assert !IsBlank("beta") by { assert !IsWhitespace("beta"[0]); }
    assert !IsBlank("B") by { assert !IsWhitespace("B"[0]); }
    assert Links([n], Down) == {} && Links([n], Up) == {};
    assert [r1, r2][..1] == [r1] && [r1][..0] == [];
    assert Find([n], x) == Some(0) by { assert [n][0].id == x; }
    var n1 := Overridden(n, r1);
    assert WithRecords([n], [r1]) == [n1];
    assert Find([n1], x) == Some(0) by { assert [n1][0].id == x; }
    assert WithRecords([n], [r1, r2]) == [Overridden(n1, r2)];
  }

  /** The empty overlay returns the graph unchanged exactly when its leaf flags
      are already right, since those are always recomputed. */
  lemma EmptyOverlayIsIdentity(g: HierGraph)
    ensures Applied(g, HierarchyOverlay([], [], [])) == g <==> LeavesMarked(g.nodes)
  {
    var r := Applied(g, HierarchyOverlay([], [], []));
    assert r.nodes == WithLeaves(g.nodes) && r.xrefs == g.xrefs;
    if LeavesMarked(g.nodes) {
      assert WithLeaves(g.nodes) == g.nodes;
    } else {
      var i :| 0 <= i < |g.nodes| && g.nodes[i].isLeaf != (g.nodes[i].children == []);
      assert WithLeaves(g.nodes)[i] != g.nodes[i];
    }
  }

  /** The same statement about what the walks return: after a merge the primary's
      descendants are those of both nodes, the two themselves excepted. */
  lemma MergedWalk(g: HierGraph, primary: NodeId, alias: NodeId, ofPrimary: seq<NodeId>, ofAlias: seq<NodeId>,
                   after: seq<NodeId>, dir: Dir, y: NodeId)
    requires WellFormed(g)
    requires primary in Ids(g.nodes) && alias in Ids(g.nodes) && primary != alias
    requires ClosureFrom(DirAdjacency(g, dir), primary, ofPrimary)
    requires ClosureFrom(DirAdjacency(g, dir), alias, ofAlias)
    requires ClosureFrom(DirAdjacency(Merged(g, primary, alias), dir), primary, after)
    ensures y in after <==> (y in ofPrimary || y in ofAlias) && y != primary && y != alias
  {
    var r := Merged(g, primary, alias);
    MergedNodesOk(g.nodes, primary, alias);
    assert NodesOk(r.nodes);
    DirAdjacencyPairs(g, dir);
    DirAdjacencyPairs(r, dir);
    hide Merged, DirAdjacency, WellFormed, Collapse;
    if y == primary {
    } else if y == alias {
      if y in after {
        AliasUnreachable(r, dir, primary, alias);
      }
    } else {
      MergedDirReach(g, primary, alias, dir, y);
      hide NodesOk, Reaches, Links;
    }
  }

  lemma AliasUnreachable(r: HierGraph, dir: Dir, start: NodeId, alias: NodeId)
    requires NodesOk(r.nodes) && alias !in Ids(r.nodes) && start != alias
    ensures !Reaches(Links(r.nodes, dir), start, alias)
  {
    var e := Links(r.nodes, dir);
    if Reaches(e, start, alias) {
      var k: nat :| Hops(e, start, alias, k);
      var z := HopsLast(e, start, alias, k);
      if dir == Up {
        ReversedHas(Links(r.nodes, Down), z, alias);
        LinksOwned(r.nodes, Down, (alias, z));
      }
      assert false;
    }
  }

  lemma MergedDirReach(g: HierGraph, primary: NodeId, alias: NodeId, dir: Dir, y: NodeId)
    requires WellFormed(g)
    requires primary in Ids(g.nodes) && alias in Ids(g.nodes) && primary != alias
    requires y != primary && y != alias
    ensures Reaches(Links(Merged(g, primary, alias).nodes, dir), primary, y) <==>
            Reaches(Links(g.nodes, dir), primary, y) || Reaches(Links(g.nodes, dir), alias, y)
  {
    var r := Merged(g, primary, alias);
    MergedNeighbourhood(g, primary, alias, y);
    MergedNodesOk(g.nodes, primary, alias);
    if dir == Up {
      ReachesReversed(Containment(g), y, primary);
      ReachesReversed(Containment(g), y, alias);
      ReachesReversed(Containment(r), y, primary);
    }
    hide Links, Reaches;
  }

  // ----- What stays on a node -----

  /** The parts of a node that only a record of its own may change. */
  predicate SameFace(n: HierNode, r: HierNode) {
    n.id == r.id && n.nodeLabel == r.nodeLabel && n.kind == r.kind && n.embedding == r.embedding
  }

  /** Every node of `r` is a node of `nodes` as far as its face goes. */
  ghost predicate Derives(nodes: seq<HierNode>, r: seq<HierNode>) {
    forall m :: m in r ==> exists n :: n in nodes && SameFace(n, m)
  }

  lemma DerivesTransitive(a: seq<HierNode>, b: seq<HierNode>, c: seq<HierNode>)
    requires Derives(a, b) && Derives(b, c)
    ensures Derives(a, c)
  {
    forall m | m in c
      ensures exists n :: n in a && SameFace(n, m)
    {
      var k :| k in b && SameFace(k, m);
      var n :| n in a && SameFace(n, k);
      assert SameFace(n, m);
    }
  }

  lemma DerivesPointwise(nodes: seq<HierNode>, r: seq<HierNode>)
    requires |r| == |nodes| && forall i :: 0 <= i < |nodes| ==> SameFace(nodes[i], r[i])
    ensures Derives(nodes, r)
  {
    forall m | m in r
      ensures exists n :: n in nodes && SameFace(n, m)
    {
      var i :| 0 <= i < |r| && r[i] == m;
      assert nodes[i] in nodes;
    }
  }

  lemma MergedFaces(nodes: seq<HierNode>, primary: NodeId, alias: NodeId)
    requires primary in Ids(nodes) && alias in Ids(nodes)
    ensures Derives(nodes, MergedNodes(nodes, primary, alias))
  {
    var f, r := FoldedNodes(nodes, primary, alias), MergedNodes(nodes, primary, alias);
    forall i | 0 <= i < |nodes|
      ensures SameFace(nodes[i], f[i])
    {
    }
    DerivesPointwise(nodes, f);
    forall m | m in r
      ensures m in f
    {
      WithoutIdHas(f, alias, m);
    }
    hide FoldedNodes, MergedNodes, SameFace;
  }

  lemma {:induction false} MergesFaces(g: HierGraph, merges: seq<NodeMerge>)
    ensures Derives(g.nodes, WithMerges(g, merges).nodes)
  {
    hide Derives, MergedNodes, MergedXrefs, Ids;
    if merges == [] {
      DerivesSelf(g.nodes);
    } else {
      var h, m := WithMerges(g, merges[..|merges| - 1]), merges[|merges| - 1];
      MergesFaces(g, merges[..|merges| - 1]);
      if !m.dangling && m.primary != m.alias && m.primary in Ids(h.nodes) && m.alias in Ids(h.nodes) {
        MergedFaces(h.nodes, m.primary, m.alias);
        DerivesTransitive(g.nodes, h.nodes, MergedNodes(h.nodes, m.primary, m.alias));
      }
    }
  }

  lemma DerivesSelf(nodes: seq<HierNode>)
    ensures Derives(nodes, nodes)
  {
    assert forall n: HierNode :: SameFace(n, n);
  }

  /** Edges, merges and leaf flags never touch a label, a kind or an embedding:
      every node of the applied graph shows what the records left it with. */
  lemma OverlayKeepsFaces(g: HierGraph, overlay: HierarchyOverlay)
    requires WellFormed(g)
    ensures Derives(WithRecords(g.nodes, overlay.nodes), Applied(g, overlay).nodes)
  {
    hide NodesOk, WithRecords, Links, Ids, Positions, IsIndex, WithPairs, LivePairs, WithMerges, Derives, InRange;
    var recorded := WithRecords(g.nodes, overlay.nodes);
    var index, pairs := Positions(recorded), LivePairs(overlay.edges);
    var linked := Linked(g, overlay);
    var merged := WithMerges(linked, overlay.merges);
    WithRecordsKeeps(g.nodes, overlay.nodes);
    WithPairsKeeps(recorded, index, pairs);
    DerivesPointwise(recorded, linked.nodes);
    MergesFaces(linked, overlay.merges);
    DerivesPointwise(merged.nodes, WithLeaves(merged.nodes));
    DerivesTransitive(recorded, linked.nodes, merged.nodes);
    DerivesTransitive(recorded, merged.nodes, WithLeaves(merged.nodes));
  }

  /** A record relabels its own node when its label is more than whitespace, and
      no other node; kind and embedding of an existing node stay. */
  lemma RecordLabels(nodes: seq<HierNode>, on: OverlayNode, i: nat)
    requires UniqueIds(nodes) && i < |nodes|
    ensures var r := WithRecord(nodes, on);
            && i < |r| && r[i].id == nodes[i].id && r[i].kind == nodes[i].kind && r[i].embedding == nodes[i].embedding
            && r[i].parents == nodes[i].parents && r[i].children == nodes[i].children
            && (nodes[i].id != on.id ==> r[i] == nodes[i])
            && (nodes[i].id == on.id ==>
                  r[i].nodeLabel == if on.labelOverride.Some? && !IsBlank(on.labelOverride.value) then
                                      on.labelOverride.value
                                    else nodes[i].nodeLabel)
  {
    hide IsBlank, ResolveOverlayDefinition, Ids;
    if nodes[i].id == on.id {
      IdsHas(nodes, on.id);
      assert nodes[i] in nodes;
      UniqueAt(nodes, i, Find(nodes, on.id).value);
    }
  }
}
