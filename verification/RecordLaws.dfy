/** What the overlay's records make of a node: one of their own, or a new label
    and text for a node that was there. */
module RecordLaws {
  import opened Wrappers
  import opened Hierarchy
  import opened EdgeTable
  import opened Merge
  import opened Overlay
  import opened OverlayLaws
  import opened DefinitionLaws

  // ----- Labels -----

  /** The record's label is shown. */
  predicate Relabels(on: OverlayNode) {
    on.labelOverride.Some? && !IsBlank(on.labelOverride.value)
  }

  /** The label of an authored node without one of its own: "Node " and what
      follows the first colon of the id, or the id itself. */
  ghost predicate DefaultLabelOf(id: NodeId, l: string) {
    if ':' in id.raw then
      exists prefix, rest :: id.raw == prefix + ":" + rest && ':' !in prefix && l == "Node " + rest
    else l == id.raw
  }

  lemma DefaultLabel(id: NodeId)
    ensures DefaultLabelOf(id, DefaultAuthoredLabel(id))
  {
    SplitIdIs(id.raw);
    hide SplitId;
  }

  /** A record for an unknown id appends one node, and this is the node. */
  lemma RecordIntroduces(nodes: seq<HierNode>, on: OverlayNode)
    requires on.id !in Ids(nodes)
    ensures var r := WithRecord(nodes, on);
            && |r| == |nodes| + 1 && r[..|nodes|] == nodes
            && var n := r[|nodes|];
               && n.id == on.id && n.kind == NodeKind.Authored && n.embedding == None
               && n.parents == [] && n.children == []
               && (if Relabels(on) then n.nodeLabel == on.labelOverride.value else DefaultLabelOf(on.id, n.nodeLabel))
               && n.definition == (if Usable(on) then Definition(on.definition.value, on.definitionSource)
                                   else MissingDefinition())
  {
    DefaultLabel(on.id);
    hide DefaultLabelOf, DefaultAuthoredLabel, IsBlank;
  }

  /** The label the last relabelling record for `x` gives. */
  function LastLabel(ons: seq<OverlayNode>, x: NodeId): Option<string> {
    if ons == [] then None
    else
      var last := ons[|ons| - 1];
      if last.id == x && Relabels(last) then last.labelOverride else LastLabel(ons[..|ons| - 1], x)
  }

  lemma {:induction false} LastLabelIs(ons: seq<OverlayNode>, x: NodeId)
    ensures LastLabel(ons, x).None? <==> forall on :: on in ons && on.id == x ==> !Relabels(on)
    ensures LastLabel(ons, x).Some? ==>
              exists i :: 0 <= i < |ons| && ons[i].id == x && Relabels(ons[i])
                          && ons[i].labelOverride == LastLabel(ons, x)
                          && forall j :: i < j < |ons| && ons[j].id == x ==> !Relabels(ons[j])
  {
    if ons != [] {
      var init, last := ons[..|ons| - 1], ons[|ons| - 1];
      LastLabelIs(init, x);
      hide Relabels;
      assert ons == init + [last];
      assert forall on :: on in ons <==> on in init || on == last;
      if last.id == x && Relabels(last) {
        assert ons[|ons| - 1] == last;
      } else if LastLabel(ons, x).Some? {
        var i :| 0 <= i < |init| && init[i].id == x && Relabels(init[i]) && init[i].labelOverride == LastLabel(init, x)
                 && forall j :: i < j < |init| && init[j].id == x ==> !Relabels(init[j]);
        assert ons[i] == init[i];
        assert forall j :: i < j < |ons| && ons[j].id == x ==> !Relabels(ons[j]);
      }
    }
  }

  // ----- One record -----

  lemma RecordElsewhere(nodes: seq<HierNode>, on: OverlayNode, x: NodeId)
    requires NodesOk(nodes) && x != on.id
    ensures NodeAt(WithRecord(nodes, on), x) == NodeAt(nodes, x)
  {
    var r := WithRecord(nodes, on);
    WithRecordKeeps(nodes, on);
    if x in Ids(nodes) {
      var n := NodeAt(nodes, x).value;
      var i :| 0 <= i < |nodes| && nodes[i] == n;
      assert r[i] == n;
      NodeAtHas(r, n);
    }
  }

  lemma RecordHere(nodes: seq<HierNode>, on: OverlayNode)
    requires NodesOk(nodes)
    ensures var r, was := NodeAt(WithRecord(nodes, on), on.id), NodeAt(nodes, on.id);
            && r.Some?
            && r.value == if was.Some? then Overridden(was.value, on) else Introduced(on)
  {
    var r := WithRecord(nodes, on);
    WithRecordKeeps(nodes, on);
    hide Introduced, Overridden, NodesOk, Ids, Links;
    match Find(nodes, on.id)
    case Some(i) =>
      OverriddenId(nodes[i], on);
      assert r[i] == Overridden(nodes[i], on);
      NodeAtHas(r, r[i]);
    case None =>
      IntroducedId(on);
      assert r[|nodes|] == Introduced(on);
      NodeAtHas(r, r[|nodes|]);
  }

  lemma OverriddenId(n: HierNode, on: OverlayNode)
    ensures Overridden(n, on).id == n.id
  {
  }

  lemma IntroducedId(on: OverlayNode)
    ensures Introduced(on).id == on.id
  {
  }

  // ----- All records -----

  /** `n` has kind and embedding of the node that was there, or is an authored one;
      it shows the given label, else the label of that node, else the default. */
  ghost predicate Faced(was: Option<HierNode>, given: Option<string>, x: NodeId, n: HierNode) {
    && (was.Some? ==> n.kind == was.value.kind && n.embedding == was.value.embedding)
    && (was.None? ==> n.kind == NodeKind.Authored && n.embedding == None)
    && match given
       case Some(l) => n.nodeLabel == l
       case None => if was.Some? then n.nodeLabel == was.value.nodeLabel else DefaultLabelOf(x, n.nodeLabel)
  }

  /** The node a list of records leaves for `x`. */
  lemma {:induction false} RecordedFace(nodes: seq<HierNode>, ons: seq<OverlayNode>, x: NodeId)
    requires NodesOk(nodes) && x in Ids(nodes) + RecordIds(ons)
    ensures x in Ids(WithRecords(nodes, ons))
    ensures Faced(NodeAt(nodes, x), LastLabel(ons, x), x, NodeAt(WithRecords(nodes, ons), x).value)
  {
    hide NodesOk, Ids, WithRecord, NodeAt, Relabels, Faced, RecordIds, Links;
    WithRecordsKeeps(nodes, ons);
    if ons == [] {
      NoRecords(x);
      FacedSelf(nodes, x);
    } else {
      var init, last := ons[..|ons| - 1], ons[|ons| - 1];
      var mid := WithRecords(nodes, init);
      assert ons == init + [last];
      RecordSnoc(init, last, x);
      WithRecordsKeeps(nodes, init);
      if x in Ids(nodes) + RecordIds(init) {
        RecordedFace(nodes, init, x);
      } else {
        NoRecordNoLabel(init, x);
      }
      if last.id == x {
        FaceHere(mid, last);
        FacedTwice(NodeAt(nodes, x), LastLabel(init, x), last, NodeAt(mid, x), NodeAt(WithRecord(mid, last), x).value);
      } else {
        RecordElsewhere(mid, last, x);
      }
    }
  }

  lemma FacedSelf(nodes: seq<HierNode>, x: NodeId)
    requires x in Ids(nodes)
    ensures Faced(NodeAt(nodes, x), None, x, NodeAt(nodes, x).value)
  {
  }

  lemma FacedTwice(was: Option<HierNode>, given: Option<string>, on: OverlayNode, mid: Option<HierNode>, n: HierNode)
    requires Faced(mid, if Relabels(on) then on.labelOverride else None, on.id, n)
    requires mid.Some? ==> Faced(was, given, on.id, mid.value)
    requires mid.None? ==> was.None? && given.None?
    ensures Faced(was, if Relabels(on) then on.labelOverride else given, on.id, n)
  {
  }

  lemma NoRecordNoLabel(ons: seq<OverlayNode>, x: NodeId)
    requires x !in RecordIds(ons)
    ensures LastLabel(ons, x).None?
  {
    LastLabelIs(ons, x);
  }

  lemma FaceHere(nodes: seq<HierNode>, on: OverlayNode)
    requires NodesOk(nodes)
    ensures var r := NodeAt(WithRecord(nodes, on), on.id);
            r.Some? && Faced(NodeAt(nodes, on.id), if Relabels(on) then on.labelOverride else None, on.id, r.value)
  {
    RecordHere(nodes, on);
    DefaultLabel(on.id);
    hide NodeAt, DefaultLabelOf, DefaultAuthoredLabel, IsBlank, NodesOk, WithRecord;
  }

  /** Which text a list of records leaves for `x`, by the last record for it: that
      record's own, unless it is a draft under an inherited text never displaced;
      the inherited text while nothing displaced it; otherwise none. */
  lemma {:induction false} RecordedText(nodes: seq<HierNode>, ons: seq<OverlayNode>, i: nat)
    requires NodesOk(nodes) && i < |ons| && forall j :: i < j < |ons| ==> ons[j].id != ons[i].id
    ensures var x, on := ons[i].id, ons[i];
            var kept := x in InheritedIds(nodes) && !Displaced(ons, x);
            DefinitionOf(WithRecords(nodes, ons), x)
            == if kept then DefinitionOf(nodes, x)
               else if Usable(on) then Some(Definition(on.definition.value, on.definitionSource))
               else Some(MissingDefinition())
    decreases |ons|
  {
    var x := ons[i].id;
    var init, last := ons[..|ons| - 1], ons[|ons| - 1];
    var mid := WithRecords(nodes, init);
    assert ons == init + [last];
    hide NodesOk, Ids, WithRecord, DefinitionOf, Usable, Displaces, Displaced, InheritedIds, RecordIds;
    WithRecordsKeeps(nodes, init);
    RecordSnoc(init, last, x);
    if i < |init| {
      RecordedText(nodes, init, i);
      DefinitionElsewhere(mid, last, x);
    } else {
      WithRecordsDefined(nodes, init, x);
      TextHere(mid, last);
      InheritedText(nodes, init, x);
    }
  }

  lemma DefinitionElsewhere(nodes: seq<HierNode>, on: OverlayNode, x: NodeId)
    requires NodesOk(nodes) && x != on.id
    ensures DefinitionOf(WithRecord(nodes, on), x) == DefinitionOf(nodes, x)
  {
    hide NodesOk, WithRecord, NodeAt;
    RecordElsewhere(nodes, on, x);
  }

  lemma InheritedAt(nodes: seq<HierNode>, x: NodeId)
    requires UniqueIds(nodes)
    ensures x in InheritedIds(nodes) <==> DefinitionOf(nodes, x).Some? && IsInherited(DefinitionOf(nodes, x).value)
  {
    InheritedHasNode(nodes, x);
    forall n | n in nodes && n.id == x
      ensures NodeAt(nodes, x) == Some(n)
    {
      NodeAtHas(nodes, n);
    }
    hide NodeAt, InheritedIds, UniqueIds;
  }

  lemma TextHere(nodes: seq<HierNode>, on: OverlayNode)
    requires NodesOk(nodes)
    ensures DefinitionOf(WithRecord(nodes, on), on.id)
            == if on.id in InheritedIds(nodes) && !Displaces(on) then DefinitionOf(nodes, on.id)
               else if Usable(on) then Some(Definition(on.definition.value, on.definitionSource))
               else Some(MissingDefinition())
  {
    RecordHere(nodes, on);
    InheritedAt(nodes, on.id);
    var was := NodeAt(nodes, on.id);
    if was.Some? {
      var i :| 0 <= i < |nodes| && nodes[i] == was.value;
      OverrideLadder(was.value, on);
    }
    hide NodesOk, WithRecord, NodeAt, InheritedIds, Ids, IsBlank, DefaultAuthoredLabel;
  }

  /** While nothing displaces it, an inherited text stays what it was. */
  lemma {:induction false} InheritedText(nodes: seq<HierNode>, ons: seq<OverlayNode>, x: NodeId)
    requires NodesOk(nodes)
    ensures x in InheritedIds(nodes) && !Displaced(ons, x) ==>
              DefinitionOf(WithRecords(nodes, ons), x) == DefinitionOf(nodes, x)
  {
    hide NodesOk, WithRecord, DefinitionOf, Displaces, Displaced, InheritedIds, RecordIds, Usable;
    if ons != [] {
      var init, last := ons[..|ons| - 1], ons[|ons| - 1];
      assert ons == init + [last];
      RecordSnoc(init, last, x);
      WithRecordsKeeps(nodes, init);
      InheritedText(nodes, init, x);
      WithRecordsDefined(nodes, init, x);
      if last.id == x {
        TextHere(WithRecords(nodes, init), last);
      } else {
        DefinitionElsewhere(WithRecords(nodes, init), last, x);
      }
    }
  }

  // ----- The applied graph -----

  /** Label, kind and embedding of every node of the applied graph: those of the
      projected node, or of an authored one, under the last label given. */
  lemma AppliedFace(g: HierGraph, overlay: HierarchyOverlay, x: NodeId)
    requires WellFormed(g) && x in Ids(Applied(g, overlay).nodes)
    ensures Faced(NodeAt(g.nodes, x), LastLabel(overlay.nodes, x), x, NodeAt(Applied(g, overlay).nodes, x).value)
  {
    hide Applied, WithRecords, NodeAt, Ids, DefaultLabelOf, LastLabel, Links, RecordIds, Alive, UniqueIds;
    OverlayIsQuotient(g, overlay);
    RepRetracts(RecordedIds(g, overlay), overlay.merges, x);
    RecordedFace(g.nodes, overlay.nodes, x);
    OverlayKeepsFaces(g, overlay);
    WithRecordsKeeps(g.nodes, overlay.nodes);
    var recorded := WithRecords(g.nodes, overlay.nodes);
    var n := NodeAt(Applied(g, overlay).nodes, x).value;
    var m :| m in recorded && SameFace(m, n);
    NodeAtHas(recorded, m);
  }

  /** A surviving node that a usable last record describes shows exactly that
      record's text, unless it is a draft under an inherited one. */
  lemma AppliedText(g: HierGraph, overlay: HierarchyOverlay, i: nat)
    requires WellFormed(g) && i < |overlay.nodes|
    requires forall j :: i < j < |overlay.nodes| ==> overlay.nodes[j].id != overlay.nodes[i].id
    requires overlay.nodes[i].id in Ids(Applied(g, overlay).nodes) && Usable(overlay.nodes[i])
    ensures var x, on := overlay.nodes[i].id, overlay.nodes[i];
            DefinitionOf(Applied(g, overlay).nodes, x)
            == if x in InheritedIds(g.nodes) && !Displaced(overlay.nodes, x) then DefinitionOf(g.nodes, x)
               else Some(Definition(on.definition.value, on.definitionSource))
  {
    hide Applied, WithRecords, DefinitionOf, Ids, Links, Usable, Displaced, InheritedIds, XrefsOk, NodesOk;
    var x := overlay.nodes[i].id;
    RecordedText(g.nodes, overlay.nodes, i);
    WithRecordsDefined(g.nodes, overlay.nodes, x);
    LastIsUsable(overlay.nodes, i);
    var z := OverlayTexts(g, overlay, x);
  }

  lemma LastIsUsable(ons: seq<OverlayNode>, i: nat)
    requires i < |ons| && Usable(ons[i]) && forall j :: i < j < |ons| ==> ons[j].id != ons[i].id
    ensures LastUsable(ons, ons[i].id) && ons[i].id in RecordIds(ons)
  {
    assert ons[i] in ons;
  }
}
