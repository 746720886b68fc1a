/** The projection of the three flat stores into one id-linked graph. */
module Projection {
  import opened Wrappers
  import opened Paths
  import opened Lists
  import opened Hierarchy
  import opened EdgeTable

  /** The concept fields the projection reads. */
  datatype ConceptView = ConceptView(
    id: string,
    nodeLabel: string,
    description: string,
    parentConcepts: seq<string>,
    describedBy: seq<string>,
    centroid: Option<seq<real>>)

  /** The anchor fields the projection reads. */
  datatype Anchor = Anchor(identifier: string, description: string, parentAnchor: Option<string>)

  datatype NodeRef = ConceptRef(id: string) | VocabRef(identifier: string)

  datatype RelationKind = RelPositive | RelNegative | RelDependency

  datatype Relation = Relation(from: NodeRef, to: NodeRef, kind: RelationKind, dangling: bool)

  function NodeRefToId(r: NodeRef): NodeId {
    match r
    case ConceptRef(id) => ConceptId(id)
    case VocabRef(identifier) => VocabId(identifier)
  }

  function XrefKindOf(k: RelationKind): XRefKind {
    match k
    case RelPositive => Positive
    case RelNegative => Negative
    case RelDependency => Dependency
  }

  // ----- Nodes -----

  function ConceptNode(c: ConceptView): HierNode {
    HierNode(ConceptId(c.id), c.nodeLabel, Resolve(None, Some(c.description), InheritedConcept),
             NodeKind.Concept, [], [], c.centroid, true)
  }

  function VocabNode(a: Anchor): HierNode {
    HierNode(VocabId(a.identifier), a.identifier, Resolve(None, Some(a.description), InheritedAnchor),
             NodeKind.Vocab, [], [], None, true)
  }

  /** The records' nodes in store order: concepts first, then anchors. */
  function RecordNodes(concepts: seq<ConceptView>, anchors: seq<Anchor>): seq<HierNode> {
    seq(|concepts|, i requires 0 <= i < |concepts| => ConceptNode(concepts[i]))
    + seq(|anchors|, i requires 0 <= i < |anchors| => VocabNode(anchors[i]))
  }

  /** `records` with every node after the first of its id dropped. */
  function FirstOfEach(records: seq<HierNode>): seq<HierNode> {
    if records == [] then []
    else
      var r, last := FirstOfEach(records[..|records| - 1]), records[|records| - 1];
      if last.id in Ids(r) then r else r + [last]
  }

  // ----- Declared containment -----

  function ParentPairs(parents: seq<string>, child: string): seq<(NodeId, NodeId)> {
    seq(|parents|, i requires 0 <= i < |parents| => (ConceptId(parents[i]), ConceptId(child)))
  }

  function ConceptPairs(concepts: seq<ConceptView>): seq<(NodeId, NodeId)> {
    if concepts == [] then []
    else
      var c := concepts[|concepts| - 1];
      ConceptPairs(concepts[..|concepts| - 1]) + ParentPairs(c.parentConcepts, c.id)
  }

  function AnchorPairs(anchors: seq<Anchor>): seq<(NodeId, NodeId)> {
    if anchors == [] then []
    else
      var a := anchors[|anchors| - 1];
      AnchorPairs(anchors[..|anchors| - 1])
      + match a.parentAnchor
        case Some(p) => [(VocabId(p), VocabId(a.identifier))]
        case None => []
  }

  // ----- Declared cross-references -----

  function TermXrefs(concept: string, terms: seq<string>): seq<XRef> {
    seq(|terms|, i requires 0 <= i < |terms| => XRef(ConceptId(concept), VocabId(terms[i]), Names))
  }

  function NameXrefs(concepts: seq<ConceptView>): seq<XRef> {
    if concepts == [] then []
    else
      var c := concepts[|concepts| - 1];
      NameXrefs(concepts[..|concepts| - 1]) + TermXrefs(c.id, c.describedBy)
  }

  function RelationXrefs(relations: seq<Relation>): seq<XRef> {
    if relations == [] then []
    else
      var r := relations[|relations| - 1];
      RelationXrefs(relations[..|relations| - 1])
      + if r.dangling then [] else [XRef(NodeRefToId(r.from), NodeRefToId(r.to), XrefKindOf(r.kind))]
  }

  /** The cross-references in order, each pushed unless an endpoint is unknown or
      it is already there. */
  function Pushed(xrefs: seq<XRef>, ids: set<NodeId>): seq<XRef> {
    if xrefs == [] then []
    else
      var r, x := Pushed(xrefs[..|xrefs| - 1], ids), xrefs[|xrefs| - 1];
      if x.from in ids && x.to in ids && x !in r then r + [x] else r
  }

  // ----- The view -----

  function View(concepts: seq<ConceptView>, anchors: seq<Anchor>, relations: seq<Relation>): HierGraph {
    var nodes := FirstOfEach(RecordNodes(concepts, anchors));
    var linked := WithPairs(nodes, Positions(nodes), ConceptPairs(concepts) + AnchorPairs(anchors));
    HierGraph(WithLeaves(linked), Pushed(NameXrefs(concepts) + RelationXrefs(relations), Ids(nodes)))
  }

  /** Project the stores into one graph: nodes, containment, cross-references,
      leaf flags. */
  method BuildView(concepts: seq<ConceptView>, anchors: seq<Anchor>, relations: seq<Relation>) returns (g: HierGraph)
    ensures g == View(concepts, anchors, relations)
  {
    hide WithPairs, Positions, IsIndex, FirstOfEach, Ids, Pushed, InRange;
    var nodes, index := ProjectNodes(concepts, anchors);
    var linked := ProjectContainment(nodes, index, concepts, anchors);
    var xrefs := ProjectXrefs(index.Keys, concepts, relations);
    linked := MarkLeaves(linked);
    g := HierGraph(linked, xrefs);
  }

  /** Concepts first, then anchors; a later record with a taken id is skipped. */
  method ProjectNodes(concepts: seq<ConceptView>, anchors: seq<Anchor>)
      returns (nodes: seq<HierNode>, index: map<NodeId, nat>)
    ensures nodes == FirstOfEach(RecordNodes(concepts, anchors))
    ensures index == Positions(nodes) && index.Keys == Ids(nodes) && InRange(index, |nodes|)
  {
    nodes, index := ProjectConcepts(concepts);
    nodes, index := ProjectAnchors(concepts, anchors, nodes, index);
  }

  method ProjectConcepts(concepts: seq<ConceptView>) returns (nodes: seq<HierNode>, index: map<NodeId, nat>)
    ensures nodes == FirstOfEach(RecordNodes(concepts, [])) && index == Positions(nodes)
  {
    hide FirstOfEach, RecordNodes, Positions, Resolve, Ids;
    nodes, index := [], map[];
    NoRecords();
    for i := 0 to |concepts|
      invariant nodes == FirstOfEach(RecordNodes(concepts[..i], []))
      invariant index == Positions(nodes)
    {
      var c := concepts[i];
      var id := ConceptId(c.id);
      assert concepts[..i + 1] == concepts[..i] + [c];
      ConceptRecord(concepts[..i], c);
      FirstOfEachSnoc(RecordNodes(concepts[..i], []), ConceptNode(c));
      PositionsKeys(nodes);
      if id in index {
        continue;
      }
      var n := HierNode(id, c.nodeLabel, Resolve(None, Some(c.description), InheritedConcept), NodeKind.Concept,
                        [], [], c.centroid, true);
      PositionsSnoc(nodes, n);
      index := index[id := |nodes|];
      nodes := nodes + [n];
    }
    assert concepts[..|concepts|] == concepts;
  }

  method ProjectAnchors(concepts: seq<ConceptView>, anchors: seq<Anchor>, nodes0: seq<HierNode>,
                        index0: map<NodeId, nat>)
      returns (nodes: seq<HierNode>, index: map<NodeId, nat>)
    requires nodes0 == FirstOfEach(RecordNodes(concepts, [])) && index0 == Positions(nodes0)
    ensures nodes == FirstOfEach(RecordNodes(concepts, anchors)) && index == Positions(nodes)
  {
    hide FirstOfEach, RecordNodes, Positions, Resolve, Ids;
    nodes, index := nodes0, index0;
    for i := 0 to |anchors|
      invariant nodes == FirstOfEach(RecordNodes(concepts, anchors[..i]))
      invariant index == Positions(nodes)
    {
      var a := anchors[i];
      var id := VocabId(a.identifier);
      assert anchors[..i + 1] == anchors[..i] + [a];
      AnchorRecord(concepts, anchors[..i], a);
      FirstOfEachSnoc(RecordNodes(concepts, anchors[..i]), VocabNode(a));
      PositionsKeys(nodes);
      if id in index {
        continue;
      }
      var n := HierNode(id, a.identifier, Resolve(None, Some(a.description), InheritedAnchor), NodeKind.Vocab,
                        [], [], None, true);
      PositionsSnoc(nodes, n);
      index := index[id := |nodes|];
      nodes := nodes + [n];
    }
    assert anchors[..|anchors|] == anchors;
  }

  lemma PositionsKeys(nodes: seq<HierNode>)
    ensures Positions(nodes).Keys == Ids(nodes)
  {
  }

  lemma PositionsSnoc(nodes: seq<HierNode>, n: HierNode)
    ensures Positions(nodes + [n]) == Positions(nodes)[n.id := |nodes|]
  {
    assert (nodes + [n])[..|nodes|] == nodes;
  }

  lemma NoRecords()
    ensures FirstOfEach(RecordNodes([], [])) == [] && Positions([]) == map[]
  {
  }

  lemma ConceptRecord(concepts: seq<ConceptView>, c: ConceptView)
    ensures RecordNodes(concepts + [c], []) == RecordNodes(concepts, []) + [ConceptNode(c)]
  {
    hide ConceptNode, VocabNode;
  }

  lemma AnchorRecord(concepts: seq<ConceptView>, anchors: seq<Anchor>, a: Anchor)
    ensures RecordNodes(concepts, anchors + [a]) == RecordNodes(concepts, anchors) + [VocabNode(a)]
  {
    hide ConceptNode, VocabNode;
  }

  lemma FirstOfEachSnoc(records: seq<HierNode>, n: HierNode)
    ensures FirstOfEach(records + [n])
            == if n.id in Ids(FirstOfEach(records)) then FirstOfEach(records) else FirstOfEach(records) + [n]
  {
    assert (records + [n])[..|records|] == records;
  }

  /** Every declared parent of every record, concepts first. */
  method ProjectContainment(nodes: seq<HierNode>, index: map<NodeId, nat>, concepts: seq<ConceptView>,
                            anchors: seq<Anchor>)
      returns (r: seq<HierNode>)
    requires InRange(index, |nodes|)
    ensures r == WithPairs(nodes, index, ConceptPairs(concepts) + AnchorPairs(anchors))
  {
    hide WithPairs, InRange, WithEdge;
    r := nodes;
    NoPairs(nodes, index);
    for i := 0 to |concepts|
      invariant |r| == |nodes| && r == WithPairs(nodes, index, ConceptPairs(concepts[..i]))
    {
      var c := concepts[i];
      var child := ConceptId(c.id);
      ghost var done := ConceptPairs(concepts[..i]);
      assert done + ParentPairs(c.parentConcepts[..0], c.id) == done;
      for j := 0 to |c.parentConcepts|
        invariant |r| == |nodes| && r == WithPairs(nodes, index, done + ParentPairs(c.parentConcepts[..j], c.id))
      {
        var parent := ConceptId(c.parentConcepts[j]);
        r := AddContainment(r, index, parent, child);
        WithPairsSnoc(nodes, index, done + ParentPairs(c.parentConcepts[..j], c.id), (parent, child));
        assert done + ParentPairs(c.parentConcepts[..j], c.id) + [(parent, child)]
            == done + ParentPairs(c.parentConcepts[..j + 1], c.id);
      }
      assert c.parentConcepts[..|c.parentConcepts|] == c.parentConcepts;
      assert concepts[..i + 1][..i] == concepts[..i];
    }
    assert concepts[..|concepts|] == concepts;
    ghost var linked := ConceptPairs(concepts);
    assert linked + AnchorPairs(anchors[..0]) == linked;
    for i := 0 to |anchors|
      invariant |r| == |nodes| && r == WithPairs(nodes, index, linked + AnchorPairs(anchors[..i]))
    {
      var a := anchors[i];
      assert anchors[..i + 1][..i] == anchors[..i];
      if a.parentAnchor.Some? {
        var parent, child := VocabId(a.parentAnchor.value), VocabId(a.identifier);
        r := AddContainment(r, index, parent, child);
        WithPairsSnoc(nodes, index, linked + AnchorPairs(anchors[..i]), (parent, child));
        assert linked + AnchorPairs(anchors[..i]) + [(parent, child)] == linked + AnchorPairs(anchors[..i + 1]);
      } else {
        assert AnchorPairs(anchors[..i + 1]) == AnchorPairs(anchors[..i]);
      }
    }
    assert anchors[..|anchors|] == anchors;
  }

  lemma NoPairs(nodes: seq<HierNode>, index: map<NodeId, nat>)
    requires InRange(index, |nodes|)
    ensures WithPairs(nodes, index, []) == nodes
  {
  }

  lemma WithPairsSnoc(nodes: seq<HierNode>, index: map<NodeId, nat>, pairs: seq<(NodeId, NodeId)>, p: (NodeId, NodeId))
    requires InRange(index, |nodes|)
    ensures WithPairs(nodes, index, pairs + [p]) == WithEdge(WithPairs(nodes, index, pairs), index, p.0, p.1)
  {
    assert (pairs + [p])[..|pairs|] == pairs;
  }

  /** Push a cross-reference unless it is there. */
  method PushXref(xrefs: seq<XRef>, x: XRef) returns (r: seq<XRef>)
    ensures r == if x in xrefs then xrefs else xrefs + [x]
  {
    r := xrefs;
    if x !in xrefs {
      r := r + [x];
    }
  }

  /** The terms of every concept, then every live relation, as far as both
      endpoints are known. */
  method ProjectXrefs(ids: set<NodeId>, concepts: seq<ConceptView>, relations: seq<Relation>)
      returns (xrefs: seq<XRef>)
    ensures xrefs == Pushed(NameXrefs(concepts) + RelationXrefs(relations), ids)
  {
    xrefs := ProjectNames(ids, concepts);
    xrefs := ProjectRelations(ids, NameXrefs(concepts), relations, xrefs);
  }

  method ProjectNames(ids: set<NodeId>, concepts: seq<ConceptView>) returns (xrefs: seq<XRef>)
    ensures xrefs == Pushed(NameXrefs(concepts), ids)
  {
    hide Pushed, TermXrefs;
    xrefs := [];
    NothingPushed(ids);
    for i := 0 to |concepts|
      invariant xrefs == Pushed(NameXrefs(concepts[..i]), ids)
    {
      var c := concepts[i];
      var from := ConceptId(c.id);
      ghost var done := NameXrefs(concepts[..i]);
      TermsStart(c.id, c.describedBy);
      assert done + [] == done;
      for j := 0 to |c.describedBy|
        invariant xrefs == Pushed(done + TermXrefs(c.id, c.describedBy[..j]), ids)
      {
        var x := XRef(from, VocabId(c.describedBy[j]), Names);
        TermsGrow(c.id, c.describedBy, j);
        PushedSnoc(done + TermXrefs(c.id, c.describedBy[..j]), x, ids);
        assert done + TermXrefs(c.id, c.describedBy[..j]) + [x] == done + (TermXrefs(c.id, c.describedBy[..j]) + [x]);
        if x.from in ids && x.to in ids {
          xrefs := PushXref(xrefs, x);
        }
      }
      assert c.describedBy[..|c.describedBy|] == c.describedBy;
      assert concepts[..i + 1][..i] == concepts[..i];
    }
    assert concepts[..|concepts|] == concepts;
  }

  lemma TermsStart(concept: string, terms: seq<string>)
    ensures TermXrefs(concept, terms[..0]) == []
  {
  }

  lemma TermsGrow(concept: string, terms: seq<string>, j: nat)
    requires j < |terms|
    ensures TermXrefs(concept, terms[..j + 1])
            == TermXrefs(concept, terms[..j]) + [XRef(ConceptId(concept), VocabId(terms[j]), Names)]
  {
  }

  method ProjectRelations(ids: set<NodeId>, ghost names: seq<XRef>, relations: seq<Relation>, pushed: seq<XRef>)
      returns (xrefs: seq<XRef>)
    requires pushed == Pushed(names, ids)
    ensures xrefs == Pushed(names + RelationXrefs(relations), ids)
  {
    hide Pushed, NodeRefToId, XrefKindOf;
    xrefs := pushed;
    assert names + RelationXrefs(relations[..0]) == names;
    for i := 0 to |relations|
      invariant xrefs == Pushed(names + RelationXrefs(relations[..i]), ids)
    {
      var r := relations[i];
      ghost var done := RelationXrefs(relations[..i]);
      assert relations[..i + 1][..i] == relations[..i];
      if r.dangling {
        assert RelationXrefs(relations[..i + 1]) == done;
        continue;
      }
      var x := XRef(NodeRefToId(r.from), NodeRefToId(r.to), XrefKindOf(r.kind));
      PushedSnoc(names + done, x, ids);
      assert names + done + [x] == names + (done + [x]);
      if x.from in ids && x.to in ids {
        xrefs := PushXref(xrefs, x);
      }
    }
    assert relations[..|relations|] == relations;
  }

  lemma NothingPushed(ids: set<NodeId>)
    ensures Pushed([], ids) == []
  {
  }

  lemma PushedSnoc(xrefs: seq<XRef>, x: XRef, ids: set<NodeId>)
    ensures var r := Pushed(xrefs, ids);
            Pushed(xrefs + [x], ids) == if x.from in ids && x.to in ids && x !in r then r + [x] else r
  {
    assert (xrefs + [x])[..|xrefs|] == xrefs;
  }

  // ----- What the stores declare -----

  ghost function ConceptIds(concepts: seq<ConceptView>): set<NodeId> {
    set c | c in concepts :: ConceptId(c.id)
  }

  ghost function VocabIds(anchors: seq<Anchor>): set<NodeId> {
    set a | a in anchors :: VocabId(a.identifier)
  }

  /** `parent` contains `child` by some record's word. */
  ghost predicate Declares(concepts: seq<ConceptView>, anchors: seq<Anchor>, parent: NodeId, child: NodeId) {
    || (exists c, p :: c in concepts && p in c.parentConcepts && parent == ConceptId(p) && child == ConceptId(c.id))
    || (exists a :: a in anchors && a.parentAnchor.Some? && parent == VocabId(a.parentAnchor.value)
                    && child == VocabId(a.identifier))
  }

  /** The id is that of the record the reference names. */
  predicate Refers(r: NodeRef, id: NodeId) {
    || (r.ConceptRef? && id == ConceptId(r.id))
    || (r.VocabRef? && id == VocabId(r.identifier))
  }

  /** The cross-reference is of the relation's own sort. */
  predicate Sorted(k: RelationKind, kind: XRefKind) {
    && (kind == Positive <==> k == RelPositive)
    && (kind == Negative <==> k == RelNegative)
    && (kind == Dependency <==> k == RelDependency)
  }

  /** Some record or live relation links the two ids. */
  ghost predicate DeclaresXref(concepts: seq<ConceptView>, relations: seq<Relation>, x: XRef) {
    || (exists c, t :: c in concepts && t in c.describedBy && x == XRef(ConceptId(c.id), VocabId(t), Names))
    || (exists r :: r in relations && !r.dangling && Refers(r.from, x.from) && Refers(r.to, x.to)
                    && Sorted(r.kind, x.kind))
  }

  lemma {:induction false} ConceptPairsHas(concepts: seq<ConceptView>, q: (NodeId, NodeId))
    ensures q in ConceptPairs(concepts) <==>
            exists c, p :: c in concepts && p in c.parentConcepts && q == (ConceptId(p), ConceptId(c.id))
  {
    if concepts != [] {
      var init, last := concepts[..|concepts| - 1], concepts[|concepts| - 1];
      ConceptPairsHas(init, q);
      ParentPairsHas(last, q);
      assert concepts == init + [last];
      assert forall c :: c in concepts <==> c in init || c == last;
      hide ParentPairs, ConceptId;
    }
  }

  lemma ParentPairsHas(c: ConceptView, q: (NodeId, NodeId))
    ensures q in ParentPairs(c.parentConcepts, c.id) <==>
            exists p :: p in c.parentConcepts && q == (ConceptId(p), ConceptId(c.id))
  {
    hide ConceptId;
    var ps := ParentPairs(c.parentConcepts, c.id);
    forall p | p in c.parentConcepts && q == (ConceptId(p), ConceptId(c.id))
      ensures q in ps
    {
      var i :| 0 <= i < |c.parentConcepts| && c.parentConcepts[i] == p;
      assert ps[i] == q;
    }
  }

  lemma {:induction false} AnchorPairsHas(anchors: seq<Anchor>, q: (NodeId, NodeId))
    ensures q in AnchorPairs(anchors) <==>
            exists a :: a in anchors && a.parentAnchor.Some?
                && q == (VocabId(a.parentAnchor.value), VocabId(a.identifier))
  {
    hide VocabId;
    if anchors != [] {
      var init, last := anchors[..|anchors| - 1], anchors[|anchors| - 1];
      AnchorPairsHas(init, q);
      assert anchors == init + [last];
      assert forall a :: a in anchors <==> a in init || a == last;
    }
  }

  lemma {:induction false} NameXrefsHas(concepts: seq<ConceptView>, x: XRef)
    ensures x in NameXrefs(concepts) <==>
            exists c, t :: c in concepts && t in c.describedBy && x == XRef(ConceptId(c.id), VocabId(t), Names)
  {
    hide ConceptId, VocabId;
    if concepts != [] {
      var init, last := concepts[..|concepts| - 1], concepts[|concepts| - 1];
      NameXrefsHas(init, x);
      var ts := TermXrefs(last.id, last.describedBy);
      forall t | t in last.describedBy && x == XRef(ConceptId(last.id), VocabId(t), Names)
        ensures x in ts
      {
        var i :| 0 <= i < |last.describedBy| && last.describedBy[i] == t;
        assert ts[i] == x;
      }
      assert concepts == init + [last];
      assert forall c :: c in concepts <==> c in init || c == last;
    }
  }

  lemma {:induction false} RelationXrefsHas(relations: seq<Relation>, x: XRef)
    ensures x in RelationXrefs(relations) <==>
            exists r :: r in relations && !r.dangling
                && x == XRef(NodeRefToId(r.from), NodeRefToId(r.to), XrefKindOf(r.kind))
  {
    hide NodeRefToId, XrefKindOf;
    if relations != [] {
      var init, last := relations[..|relations| - 1], relations[|relations| - 1];
      RelationXrefsHas(init, x);
      assert relations == init + [last];
      assert forall r :: r in relations <==> r in init || r == last;
    }
  }

  lemma {:induction false} PushedHas(xrefs: seq<XRef>, ids: set<NodeId>, x: XRef)
    ensures x in Pushed(xrefs, ids) <==> x in xrefs && x.from in ids && x.to in ids
  {
    if xrefs != [] {
      var init, last := xrefs[..|xrefs| - 1], xrefs[|xrefs| - 1];
      PushedHas(init, ids, x);
      assert xrefs == init + [last];
    }
  }

  lemma {:induction false} PushedNoDup(xrefs: seq<XRef>, ids: set<NodeId>)
    ensures NoDup(Pushed(xrefs, ids))
  {
    if xrefs != [] {
      PushedNoDup(xrefs[..|xrefs| - 1], ids);
    }
  }

  // ----- The view is the declared graph -----

  lemma ResolvedOk(description: string, kind: DefSource)
    requires kind == InheritedConcept || kind == InheritedAnchor
    ensures var d := Resolve(None, Some(description), kind);
            && DefinitionOk(d)
            && (d.source == Missing <==> IsBlank(description))
            && (d.source != Missing ==> d == Definition(description, kind))
  {
  }

  /** A projected record before any edge: no links, a good inherited definition. */
  predicate Bare(n: HierNode) {
    && n.parents == [] && n.children == [] && DefinitionOk(n.definition)
    && n.definition.source in {InheritedConcept, InheritedAnchor, Missing}
  }

  lemma RecordsBare(concepts: seq<ConceptView>, anchors: seq<Anchor>)
    ensures forall n :: n in RecordNodes(concepts, anchors) ==> Bare(n)
    ensures Ids(RecordNodes(concepts, anchors)) == ConceptIds(concepts) + VocabIds(anchors)
  {
    var records := RecordNodes(concepts, anchors);
    forall i | 0 <= i < |records|
      ensures Bare(records[i])
      ensures records[i].id in ConceptIds(concepts) + VocabIds(anchors)
    {
      if i < |concepts| {
        assert concepts[i] in concepts;
        ResolvedOk(concepts[i].description, InheritedConcept);
      } else {
        assert anchors[i - |concepts|] in anchors;
        ResolvedOk(anchors[i - |concepts|].description, InheritedAnchor);
      }
    }
    hide ConceptId, VocabId, Resolve, Bare;
    forall c | c in concepts
      ensures ConceptId(c.id) in Ids(records)
    {
      var i :| 0 <= i < |concepts| && concepts[i] == c;
      assert records[i].id == ConceptId(c.id);
    }
    forall a | a in anchors
      ensures VocabId(a.identifier) in Ids(records)
    {
      var i :| 0 <= i < |anchors| && anchors[i] == a;
      assert records[|concepts| + i].id == VocabId(a.identifier);
    }
    assert forall x :: x in Ids(records) ==> x in ConceptIds(concepts) + VocabIds(anchors);
  }

  lemma {:induction false} FirstOfEachIs(records: seq<HierNode>)
    ensures UniqueIds(FirstOfEach(records))
    ensures Ids(FirstOfEach(records)) == Ids(records)
    ensures forall n :: n in FirstOfEach(records) ==> n in records
  {
    if records != [] {
      var init, last := records[..|records| - 1], records[|records| - 1];
      FirstOfEachIs(init);
      var r := FirstOfEach(init);
      IdsSnoc(init, last);
      IdsSnoc(r, last);
      assert records == init + [last];
      assert last.id in Ids(r) ==> Ids(r) + {last.id} == Ids(r);
      assert forall i :: 0 <= i < |r| ==> r[i].id in Ids(r);
      hide Ids;
    }
  }

  /** The first record of every id is the one projected. */
  lemma {:induction false} FirstRecordWins(records: seq<HierNode>, i: nat)
    requires i < |records| && forall j :: 0 <= j < i ==> records[j].id != records[i].id
    ensures records[i] in FirstOfEach(records)
  {
    var init, last := records[..|records| - 1], records[|records| - 1];
    if i < |init| {
      FirstRecordWins(init, i);
    } else {
      FirstOfEachIs(init);
      assert last.id !in Ids(init);
    }
  }

  lemma BareTableOk(nodes: seq<HierNode>)
    requires UniqueIds(nodes) && forall n :: n in nodes ==> Bare(n)
    ensures NodesOk(nodes) && Links(nodes, Down) == {}
  {
    forall i | 0 <= i < |nodes|
      ensures Bare(nodes[i])
    {
      assert nodes[i] in nodes;
    }
    assert Links(nodes, Up) == {} && Links(nodes, Down) == {};
    assert Reversed<NodeId>({}) == {};
  }

  /** The ids of the projection: one node per distinct record. */
  ghost function StoreIds(concepts: seq<ConceptView>, anchors: seq<Anchor>): set<NodeId> {
    ConceptIds(concepts) + VocabIds(anchors)
  }

  lemma ProjectedNodesOk(concepts: seq<ConceptView>, anchors: seq<Anchor>)
    ensures var nodes := FirstOfEach(RecordNodes(concepts, anchors));
            NodesOk(nodes) && Links(nodes, Down) == {} && Ids(nodes) == StoreIds(concepts, anchors)
  {
    var records := RecordNodes(concepts, anchors);
    RecordsBare(concepts, anchors);
    FirstOfEachIs(records);
    hide RecordNodes, FirstOfEach, Ids, UniqueIds, Bare;
    BareTableOk(FirstOfEach(records));
  }

  /** The projection theorem: the view is well formed with correct leaf flags,
      has one node per distinct record, and its edges are exactly the declared
      ones whose endpoints exist, self-containment dropped. */
  lemma ViewIsDeclaredGraph(concepts: seq<ConceptView>, anchors: seq<Anchor>, relations: seq<Relation>)
    ensures var g, ids := View(concepts, anchors, relations), StoreIds(concepts, anchors);
            && WellFormed(g) && LeavesMarked(g.nodes) && Ids(g.nodes) == ids
            && (forall p, c :: (p, c) in Containment(g) <==>
                  p != c && p in ids && c in ids && Declares(concepts, anchors, p, c))
            && (forall x :: x in g.xrefs <==>
                  x.from in ids && x.to in ids && DeclaresXref(concepts, relations, x))
  {
    var g, ids := View(concepts, anchors, relations), StoreIds(concepts, anchors);
    var nodes := FirstOfEach(RecordNodes(concepts, anchors));
    var pairs := ConceptPairs(concepts) + AnchorPairs(anchors);
    var xrefs := NameXrefs(concepts) + RelationXrefs(relations);
    ProjectedNodesOk(concepts, anchors);
    hide NodesOk, Links, Ids, LeavesMarked, FirstOfEach, RecordNodes, StoreIds, Positions, IsIndex, WithPairs,
        WithLeaves,
         ConceptPairs, AnchorPairs, NameXrefs, RelationXrefs, Pushed, Declares, DeclaresXref, NoDup, OnlyLinksGrew;
    IndexInRange(nodes, Positions(nodes));
    WithPairsKeeps(nodes, Positions(nodes), pairs);
    WithLeavesKeeps(WithPairs(nodes, Positions(nodes), pairs));
    forall p, c
      ensures (p, c) in Containment(g) <==> p != c && p in ids && c in ids && Declares(concepts, anchors, p, c)
    {
      DeclaredPairs(concepts, anchors, p, c);
    }
    PushedNoDup(xrefs, ids);
    forall x
      ensures x in g.xrefs <==> x.from in ids && x.to in ids && DeclaresXref(concepts, relations, x)
    {
      PushedHas(xrefs, ids, x);
      DeclaredXrefs(concepts, relations, x);
    }
  }

  lemma DeclaredPairs(concepts: seq<ConceptView>, anchors: seq<Anchor>, p: NodeId, c: NodeId)
    ensures (p, c) in ConceptPairs(concepts) + AnchorPairs(anchors) <==> Declares(concepts, anchors, p, c)
  {
    hide ConceptId, VocabId, ConceptPairs, AnchorPairs;
    ConceptPairsHas(concepts, (p, c));
    AnchorPairsHas(anchors, (p, c));
  }

  lemma DeclaredXrefs(concepts: seq<ConceptView>, relations: seq<Relation>, x: XRef)
    ensures x in NameXrefs(concepts) + RelationXrefs(relations) <==> DeclaresXref(concepts, relations, x)
  {
    hide ConceptId, VocabId, NameXrefs, RelationXrefs;
    NameXrefsHas(concepts, x);
    RelationXrefsHas(relations, x);
    forall r: Relation
      ensures x == XRef(NodeRefToId(r.from), NodeRefToId(r.to), XrefKindOf(r.kind)) <==>
              Refers(r.from, x.from) && Refers(r.to, x.to) && Sorted(r.kind, x.kind)
    {
    }
  }

  /** The parts of a node no edge and no leaf flag touches. */
  predicate SameRecord(n: HierNode, r: HierNode) {
    n.id == r.id && n.nodeLabel == r.nodeLabel && n.definition == r.definition && n.kind == r.kind
        && n.embedding == r.embedding
  }

  /** The nodes of the view are the first records of their ids, in store order. */
  lemma ViewKeepsRecords(concepts: seq<ConceptView>, anchors: seq<Anchor>, relations: seq<Relation>)
    ensures var g, firsts := View(concepts, anchors, relations), FirstOfEach(RecordNodes(concepts, anchors));
            && |g.nodes| == |firsts|
            && (forall i :: 0 <= i < |firsts| ==> SameRecord(g.nodes[i], firsts[i]))
            && Projected(g.nodes)
  {
    var records := RecordNodes(concepts, anchors);
    var firsts, g := FirstOfEach(records), View(concepts, anchors, relations);
    var pairs := ConceptPairs(concepts) + AnchorPairs(anchors);
    ProjectedNodesOk(concepts, anchors);
    RecordsBare(concepts, anchors);
    FirstOfEachIs(records);
    hide NodesOk, Links, Ids, StoreIds, FirstOfEach, RecordNodes, Positions, IsIndex, WithPairs, ConceptPairs,
        AnchorPairs, Pushed;
    IndexInRange(firsts, Positions(firsts));
    WithPairsKeeps(firsts, Positions(firsts), pairs);
    forall i | 0 <= i < |firsts|
      ensures SameRecord(g.nodes[i], firsts[i]) && Bare(firsts[i])
    {
      assert firsts[i] in firsts;
    }
  }

  /** What a projected record shows: its description, or nothing when blank. */
  predicate Shows(d: Definition, description: string, source: DefSource) {
    if IsBlank(description) then d == MissingDefinition() else d == Definition(description, source)
  }

  lemma NodeOfRecord(concepts: seq<ConceptView>, anchors: seq<Anchor>, relations: seq<Relation>, i: nat)
    returns (n: HierNode)
    requires var records := RecordNodes(concepts, anchors);
             i < |records| && forall j :: 0 <= j < i ==> records[j].id != records[i].id
    ensures n in View(concepts, anchors, relations).nodes && SameRecord(n, RecordNodes(concepts, anchors)[i])
  {
    hide RecordNodes, FirstOfEach;
    FirstRecordWins(RecordNodes(concepts, anchors), i);
    ViewKeepsRecords(concepts, anchors, relations);
    var firsts := FirstOfEach(RecordNodes(concepts, anchors));
    var p :| 0 <= p < |firsts| && firsts[p] == RecordNodes(concepts, anchors)[i];
    n := View(concepts, anchors, relations).nodes[p];
  }

  /** The first concept with an id is shown by its own label, description and
      centroid. */
  lemma ConceptShown(concepts: seq<ConceptView>, anchors: seq<Anchor>, relations: seq<Relation>, i: nat)
    returns (n: HierNode)
    requires i < |concepts| && forall j :: 0 <= j < i ==> concepts[j].id != concepts[i].id
    ensures n in View(concepts, anchors, relations).nodes
    ensures var c := concepts[i];
            && n.id == ConceptId(c.id) && n.nodeLabel == c.nodeLabel && n.kind == NodeKind.Concept
            && n.embedding == c.centroid && Shows(n.definition, c.description, InheritedConcept)
  {
    forall j | 0 <= j < i
      ensures ConceptId(concepts[j].id) != ConceptId(concepts[i].id)
    {
      IdsInjective(concepts[j].id, concepts[i].id);
    }
    hide ConceptId, VocabId, View;
    n := NodeOfRecord(concepts, anchors, relations, i);
  }

  /** The first anchor with an identifier is shown by it, by its description, and
      without an embedding. */
  lemma AnchorShown(concepts: seq<ConceptView>, anchors: seq<Anchor>, relations: seq<Relation>, i: nat)
    returns (n: HierNode)
    requires i < |anchors| && forall j :: 0 <= j < i ==> anchors[j].identifier != anchors[i].identifier
    ensures n in View(concepts, anchors, relations).nodes
    ensures var a := anchors[i];
            && n.id == VocabId(a.identifier) && n.nodeLabel == a.identifier && n.kind == NodeKind.Vocab
            && n.embedding == None && Shows(n.definition, a.description, InheritedAnchor)
  {
    var records := RecordNodes(concepts, anchors);
    forall j | 0 <= j < |concepts| + i
      ensures records[j].id != VocabId(anchors[i].identifier)
    {
      if j < |concepts| {
        IdsInjective(concepts[j].id, anchors[i].identifier);
      } else {
        IdsInjective(anchors[j - |concepts|].identifier, anchors[i].identifier);
      }
    }
    hide ConceptId, VocabId, View;
    n := NodeOfRecord(concepts, anchors, relations, |concepts| + i);
  }

  /** Containment never crosses the two stores: a concept is contained in
      concepts only, a vocabulary term in vocabulary terms only. */
  lemma StoresStayApart(concepts: seq<ConceptView>, anchors: seq<Anchor>, relations: seq<Relation>, a: string,
                        b: string)
    ensures (ConceptId(a), VocabId(b)) !in Containment(View(concepts, anchors, relations))
    ensures (VocabId(a), ConceptId(b)) !in Containment(View(concepts, anchors, relations))
  {
    ViewIsDeclaredGraph(concepts, anchors, relations);
    forall s: string, t: string
      ensures ConceptId(s) != VocabId(t)
    {
      IdsInjective(s, t);
    }
    hide ConceptId, VocabId, View, StoreIds, WellFormed, LeavesMarked, Links, Ids;
  }
}
