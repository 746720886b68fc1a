/** Whose text a node of the applied graph shows: its own where the records left
    it one, else the text of a node merged into it. */
module DefinitionLaws {
  import opened Wrappers
  import opened Paths
  import opened Hierarchy
  import opened EdgeTable
  import opened Merge
  import opened Overlay
  import opened OverlayLaws

  function DefinitionOf(nodes: seq<HierNode>, x: NodeId): (r: Option<Definition>)
    ensures r.Some? <==> x in Ids(nodes)
  {
    match NodeAt(nodes, x)
    case Some(n) => Some(n.definition)
    case None => None
  }

  lemma DefinitionAt(nodes: seq<HierNode>, i: nat)
    requires UniqueIds(nodes) && i < |nodes|
    ensures DefinitionOf(nodes, nodes[i].id) == Some(nodes[i].definition)
    ensures nodes[i].id in DefinedIds(nodes) <==> nodes[i].definition.source != Missing
  {
    var id := nodes[i].id;
    assert id in Ids(nodes);
    UniqueAt(nodes, i, Find(nodes, id).value);
    DefinedAt(nodes, i);
  }

  lemma SameDefinitions(nodes: seq<HierNode>, r: seq<HierNode>, x: NodeId)
    requires UniqueIds(nodes) && |r| == |nodes|
    requires forall i :: 0 <= i < |nodes| ==> r[i].id == nodes[i].id && r[i].definition == nodes[i].definition
    ensures DefinitionOf(r, x) == DefinitionOf(nodes, x)
  {
    SameIds(nodes, r);
    if x in Ids(nodes) {
      var i :| 0 <= i < |nodes| && nodes[i].id == x;
      DefinitionAt(nodes, i);
      DefinitionAt(r, i);
    }
  }

  lemma DroppedDefinition(nodes: seq<HierNode>, id: NodeId, x: NodeId)
    requires UniqueIds(nodes)
    ensures DefinitionOf(WithoutId(nodes, id), x) == if x == id then None else DefinitionOf(nodes, x)
  {
    var r := WithoutId(nodes, id);
    WithoutIdIds(nodes, id);
    WithoutIdUnique(nodes, id);
    if x != id && x in Ids(nodes) {
      assert x in Ids(r);
      var i :| 0 <= i < |r| && r[i].id == x;
      WithoutIdHas(nodes, id, r[i]);
      var j :| 0 <= j < |nodes| && nodes[j] == r[i];
      DefinitionAt(r, i);
      DefinitionAt(nodes, j);
    }
  }

  /** One merge: the primary keeps a text of its own and takes over the alias's
      only to fill a gap; every other node keeps its definition. */
  lemma MergedDefinition(nodes: seq<HierNode>, primary: NodeId, alias: NodeId, x: NodeId)
    requires UniqueIds(nodes) && primary in Ids(nodes) && alias in Ids(nodes) && primary != alias
    ensures DefinitionOf(MergedNodes(nodes, primary, alias), x)
            == if x == alias then None
               else if x == primary && primary !in DefinedIds(nodes) && alias in DefinedIds(nodes) then
                 DefinitionOf(nodes, alias)
               else DefinitionOf(nodes, x)
  {
    var f := FoldedNodes(nodes, primary, alias);
    FoldedIds(nodes, primary, alias);
    DroppedDefinition(f, alias, x);
    var p, a := Find(nodes, primary).value, Find(nodes, alias).value;
    if x in Ids(nodes) {
      var i :| 0 <= i < |nodes| && nodes[i].id == x;
      assert f[i].id == x;
      assert f[i].definition == if i == p then TakeDefinition(nodes[p], nodes[a]).definition else nodes[i].definition;
      hide FoldedNodes, Ids, DefinedIds, DefinitionOf, UniqueIds;
      UniqueAt(nodes, i, p);
      DefinitionAt(f, i);
      DefinitionAt(nodes, i);
      DefinitionAt(nodes, a);
    }
  }

  /** Over a list of merges: a survivor that had a text keeps it, and every
      survivor shows the definition of some node it stands for. */
  lemma {:induction false} MergesDefinition(g: HierGraph, merges: seq<NodeMerge>, x: NodeId) returns (z: NodeId)
    requires WellFormed(g) && x in Ids(WithMerges(g, merges).nodes)
    ensures z in Ids(g.nodes) && Rep(Ids(g.nodes), merges, z) == x
    ensures DefinitionOf(WithMerges(g, merges).nodes, x) == DefinitionOf(g.nodes, z)
    ensures x in DefinedIds(g.nodes) ==> z == x
  {
    hide UniqueIds, Links, Reversed, XrefsOk, Ids, DefinedIds, DefinitionOf, MergedNodes, MergedXrefs,
         RepImage, Quotient, XrefQuotient;
    if merges == [] {
      z := x;
    } else {
      var ids := Ids(g.nodes);
      var init, m := merges[..|merges| - 1], merges[|merges| - 1];
      var h := WithMerges(g, init);
      WithMergesKeeps(g, init);
      WithMergesKeeps(g, merges);
      if Applies(Ids(h.nodes), m) {
        MergedDefinition(h.nodes, m.primary, m.alias, x);
        if x == m.primary && m.primary !in DefinedIds(h.nodes) && m.alias in DefinedIds(h.nodes) {
          z := MergesDefinition(g, init, m.alias);
          DefinedSurvives(g, init, x);
        } else {
          z := MergesDefinition(g, init, x);
        }
      } else {
        z := MergesDefinition(g, init, x);
      }
    }
  }

  lemma DefinedSurvives(g: HierGraph, merges: seq<NodeMerge>, x: NodeId)
    requires WellFormed(g) && x in Ids(WithMerges(g, merges).nodes)
    ensures x in DefinedIds(g.nodes) ==> x in DefinedIds(WithMerges(g, merges).nodes)
  {
    hide NodesOk, XrefsOk, DefinedIds, Ids, Quotient, XrefQuotient, WithMerges;
    WithMergesKeeps(g, merges);
    RepRetracts(Ids(g.nodes), merges, x);
  }

  /** Edges change no definition. */
  lemma LinkedDefinition(g: HierGraph, overlay: HierarchyOverlay, x: NodeId)
    requires WellFormed(g)
    ensures DefinitionOf(Linked(g, overlay).nodes, x) == DefinitionOf(WithRecords(g.nodes, overlay.nodes), x)
  {
    var recorded := WithRecords(g.nodes, overlay.nodes);
    WithRecordsKeeps(g.nodes, overlay.nodes);
    hide WithRecords, Links, UniqueIds, DefinitionOf, Ids, Positions, IsIndex, WithPairs, LivePairs, InRange;
    WithPairsKeeps(recorded, Positions(recorded), LivePairs(overlay.edges));
    SameDefinitions(recorded, Linked(g, overlay).nodes, x);
  }

  /** The leaf flags change no node's id or definition. */
  lemma AppliedDefinition(g: HierGraph, overlay: HierarchyOverlay, x: NodeId)
    requires WellFormed(WithMerges(Linked(g, overlay), overlay.merges))
    ensures DefinitionOf(Applied(g, overlay).nodes, x)
            == DefinitionOf(WithMerges(Linked(g, overlay), overlay.merges).nodes, x)
  {
    hide WithMerges, Linked, Links, UniqueIds, DefinitionOf, Ids, WithLeaves;
    var merged := WithMerges(Linked(g, overlay), overlay.merges).nodes;
    WithLeavesKeeps(merged);
    SameDefinitions(merged, WithLeaves(merged), x);
  }

  /** The whole overlay: a surviving node that the records left with a text shows
      exactly that text; any other shows the definition of a node it stands for. */
  lemma OverlayTexts(g: HierGraph, overlay: HierarchyOverlay, x: NodeId) returns (z: NodeId)
    requires WellFormed(g) && x in Ids(Applied(g, overlay).nodes)
    ensures z in RecordedIds(g, overlay) && Rep(RecordedIds(g, overlay), overlay.merges, z) == x
    ensures DefinitionOf(Applied(g, overlay).nodes, x) == DefinitionOf(WithRecords(g.nodes, overlay.nodes), z)
    ensures x in DefinedIds(WithRecords(g.nodes, overlay.nodes)) ==> z == x
  {
    hide *;
    LinkedKeeps(g, overlay);
    WithMergesKeeps(Linked(g, overlay), overlay.merges);
    AppliedDefinition(g, overlay, x);
    z := MergesDefinition(Linked(g, overlay), overlay.merges, x);
    LinkedDefinition(g, overlay, z);
  }
}
