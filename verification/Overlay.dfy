/** The authored overlay folded onto a projected graph: records, then edges, then
    merges, then the leaf flags. */
module Overlay {
  import opened Wrappers
  import opened Hierarchy
  import opened EdgeTable
  import opened Merge

  /** One record: an override of a node, or a node of its own. */
  datatype OverlayNode = OverlayNode(
    id: NodeId,
    definition: Option<string>,
    definitionSource: DefSource,
    labelOverride: Option<string>)

  datatype OverlayEdge = OverlayEdge(parent: NodeId, child: NodeId, dangling: bool)

  datatype NodeMerge = NodeMerge(primary: NodeId, alias: NodeId, dangling: bool)

  datatype HierarchyOverlay = HierarchyOverlay(nodes: seq<OverlayNode>, edges: seq<OverlayEdge>, merges: seq<NodeMerge>)

  // ----- Records -----

  /** The full ladder: authored, inherited, drafted, missing. */
  function ResolveOverlayDefinition(authored: Option<string>, authoredSource: DefSource,
                                    inherited: Option<string>, inheritedKind: DefSource): Definition
  {
    var authoredOk := authored.Some? && !IsBlank(authored.value);
    if authoredOk && authoredSource == DefSource.Authored then Definition(authored.value, DefSource.Authored)
    else if inherited.Some? && !IsBlank(inherited.value) then Definition(inherited.value, inheritedKind)
    else if authoredOk && authoredSource == LlmDraft then Definition(authored.value, LlmDraft)
    else MissingDefinition()
  }

  function InheritedOf(n: HierNode): (Option<string>, DefSource) {
    match n.definition.source
    case InheritedConcept => (Some(n.definition.text), n.definition.source)
    case InheritedAnchor => (Some(n.definition.text), n.definition.source)
    case _ => (None, n.definition.source)
  }

  function Overridden(n: HierNode, on: OverlayNode): HierNode {
    var (inherited, kind) := InheritedOf(n);
    var d := ResolveOverlayDefinition(on.definition, on.definitionSource, inherited, kind);
    var l := if on.labelOverride.Some? && !IsBlank(on.labelOverride.value) then on.labelOverride.value else n.nodeLabel;
    n.(definition := d, nodeLabel := l)
  }

  function DefaultAuthoredLabel(id: NodeId): string {
    match SplitId(id.raw)
    case Some((_, ordinal)) => "Node " + ordinal
    case None => id.raw
  }

  function Introduced(on: OverlayNode): HierNode {
    var d := ResolveOverlayDefinition(on.definition, on.definitionSource, None, Missing);
    var l := if on.labelOverride.Some? && !IsBlank(on.labelOverride.value) then on.labelOverride.value
             else DefaultAuthoredLabel(on.id);
    HierNode(on.id, l, d, NodeKind.Authored, [], [], None, true)
  }

  function WithRecord(nodes: seq<HierNode>, on: OverlayNode): seq<HierNode> {
    match Find(nodes, on.id)
    case Some(i) => nodes[i := Overridden(nodes[i], on)]
    case None => nodes + [Introduced(on)]
  }

  function WithRecords(nodes: seq<HierNode>, ons: seq<OverlayNode>): seq<HierNode> {
    if ons == [] then nodes
    else WithRecord(WithRecords(nodes, ons[..|ons| - 1]), ons[|ons| - 1])
  }

  // ----- Edges -----

  /** The endpoints of the edges not flagged dangling. */
  function LivePairs(edges: seq<OverlayEdge>): seq<(NodeId, NodeId)> {
    if edges == [] then []
    else
      var r, e := LivePairs(edges[..|edges| - 1]), edges[|edges| - 1];
      if e.dangling then r else r + [(e.parent, e.child)]
  }

  // ----- Merges -----

  function WithMerges(g: HierGraph, merges: seq<NodeMerge>): HierGraph {
    if merges == [] then g
    else
      var r, m := WithMerges(g, merges[..|merges| - 1]), merges[|merges| - 1];
      if m.dangling then r else Merged(r, m.primary, m.alias)
  }

  /** The graph after the records and the edges. */
  function Linked(g: HierGraph, overlay: HierarchyOverlay): HierGraph {
    var recorded := WithRecords(g.nodes, overlay.nodes);
    g.(nodes := WithPairs(recorded, Positions(recorded), LivePairs(overlay.edges)))
  }

  /** All four phases in order. */
  function Applied(g: HierGraph, overlay: HierarchyOverlay): HierGraph {
    var merged := WithMerges(Linked(g, overlay), overlay.merges);
    merged.(nodes := WithLeaves(merged.nodes))
  }

  /** Layer the overlay onto a graph. */
  method ApplyOverlay(g: HierGraph, overlay: HierarchyOverlay) returns (r: HierGraph)
    ensures r == Applied(g, overlay)
  {
    hide WithRecord, WithEdge, Merged, Positions, IsIndex;
    var nodes := g.nodes;
    for i := 0 to |overlay.nodes|
      invariant nodes == WithRecords(g.nodes, overlay.nodes[..i])
    {
      assert overlay.nodes[..i + 1][..i] == overlay.nodes[..i];
      nodes := ApplyRecord(nodes, overlay.nodes[i]);
    }
    assert overlay.nodes[..|overlay.nodes|] == overlay.nodes;
    ghost var recorded := nodes;
    var index := BuildIndex(nodes);
    for i := 0 to |overlay.edges|
      invariant |nodes| == |recorded| && nodes == WithPairs(recorded, index, LivePairs(overlay.edges[..i]))
    {
      var e := overlay.edges[i];
      assert overlay.edges[..i + 1][..i] == overlay.edges[..i];
      if !e.dangling {
        ghost var live := LivePairs(overlay.edges[..i]);
        assert (live + [(e.parent, e.child)])[..|live|] == live;
        nodes := AddContainment(nodes, index, e.parent, e.child);
      }
    }
    assert overlay.edges[..|overlay.edges|] == overlay.edges;
    var merged := g.(nodes := nodes);
    for i := 0 to |overlay.merges|
      invariant merged == WithMerges(g.(nodes := nodes), overlay.merges[..i])
    {
      var m := overlay.merges[i];
      assert overlay.merges[..i + 1][..i] == overlay.merges[..i];
      if !m.dangling {
        merged := ApplyMerge(merged, m.primary, m.alias);
      }
    }
    assert overlay.merges[..|overlay.merges|] == overlay.merges;
    nodes := MarkLeaves(merged.nodes);
    r := merged.(nodes := nodes);
  }

  /** One record: override the first node with its id, or append a new node. */
  method ApplyRecord(nodes: seq<HierNode>, on: OverlayNode) returns (r: seq<HierNode>)
    ensures r == WithRecord(nodes, on)
  {
    var at := Find(nodes, on.id);
    if at.Some? {
      var n := nodes[at.value];
      var (inherited, kind) := InheritedOf(n);
      n := n.(definition := ResolveOverlayDefinition(on.definition, on.definitionSource, inherited, kind));
      if on.labelOverride.Some? && !IsBlank(on.labelOverride.value) {
        n := n.(nodeLabel := on.labelOverride.value);
      }
      r := nodes[at.value := n];
    } else {
      var d := ResolveOverlayDefinition(on.definition, on.definitionSource, None, Missing);
      var l := DefaultAuthoredLabel(on.id);
      if on.labelOverride.Some? && !IsBlank(on.labelOverride.value) {
        l := on.labelOverride.value;
      }
      r := nodes + [HierNode(on.id, l, d, NodeKind.Authored, [], [], None, true)];
    }
  }
}
