/** The projected node model: a flat, id-linked node table whose containment
    edges are stored on both endpoints, plus typed cross-references. */
module Hierarchy {
  import opened Wrappers
  import opened Paths
  import opened Lists
  import opened LevelOrder

  datatype NodeId = NodeId(raw: string)

  datatype NodeKind = Concept | Vocab | Authored

  datatype DefSource = Authored | InheritedAnchor | InheritedConcept | LlmDraft | Missing

  datatype Definition = Definition(text: string, source: DefSource)

  datatype HierNode = HierNode(
    id: NodeId,
    nodeLabel: string,
    definition: Definition,
    kind: NodeKind,
    parents: seq<NodeId>,
    children: seq<NodeId>,
    embedding: Option<seq<real>>,
    isLeaf: bool)

  datatype XRefKind = Names | Positive | Negative | Dependency

  datatype XRef = XRef(from: NodeId, to: NodeId, kind: XRefKind)

  datatype HierGraph = HierGraph(nodes: seq<HierNode>, xrefs: seq<XRef>)

  /** Which of the two link lists of a node a walk follows. */
  datatype Dir = Up | Down

  function Step(n: HierNode, dir: Dir): seq<NodeId> {
    match dir
    case Up => n.parents
    case Down => n.children
  }

  // ----- Ids -----

  function ConceptId(id: string): NodeId {
    NodeId("concept:" + id)
  }

  function VocabId(identifier: string): NodeId {
    NodeId("vocab:" + identifier)
  }

  /** Ids built from different records never clash. */
  lemma IdsInjective(a: string, b: string)
    ensures ConceptId(a) == ConceptId(b) ==> a == b
    ensures VocabId(a) == VocabId(b) ==> a == b
    ensures ConceptId(a) != VocabId(b)
  {
    assert ConceptId(a).raw[8..] == a && ConceptId(b).raw[8..] == b;
    assert VocabId(a).raw[6..] == a && VocabId(b).raw[6..] == b;
    assert ConceptId(a).raw[0] != VocabId(b).raw[0];
  }

  /** The prefix and the source id, split at the first colon. */
  function SplitId(s: string): Option<(string, string)> {
    if s == [] then None
    else if s[0] == ':' then Some(([], s[1..]))
    else
      match SplitId(s[1..])
      case None => None
      case Some(p) => Some(([s[0]] + p.0, p.1))
  }

  lemma {:induction false} SplitsAtColon(prefix: string, rest: string)
    requires ':' !in prefix
    ensures SplitId(prefix + ":" + rest) == Some((prefix, rest))
  {
    var s := prefix + ":" + rest;
    if prefix == [] {
      assert s[1..] == rest;
    } else {
      SplitsAtColon(prefix[1..], rest);
      assert s[1..] == prefix[1..] + ":" + rest;
      assert [prefix[0]] + prefix[1..] == prefix;
    }
  }

  lemma {:induction false} SplitIdIs(s: string)
    ensures SplitId(s).None? <==> ':' !in s
    ensures SplitId(s).Some? ==> var (prefix, rest) := SplitId(s).value; ':' !in prefix && s == prefix + ":" + rest
  {
    if s != [] && s[0] != ':' {
      SplitIdIs(s[1..]);
      assert s == [s[0]] + s[1..];
    }
  }

  /** The wire form round-trips, whatever colons the source id has of its own. */
  lemma IdsSplit(s: string)
    ensures SplitId(ConceptId(s).raw) == Some(("concept", s))
    ensures SplitId(VocabId(s).raw) == Some(("vocab", s))
  {
    SplitsAtColon("concept", s);
    SplitsAtColon("vocab", s);
    assert "concept" + ":" == "concept:" && "vocab" + ":" == "vocab:";
  }

  // ----- Definitions -----

  /** The Unicode White_Space property, which string trimming removes. */
  predicate IsWhitespace(c: char) {
    var n := c as int;
    || 0x09 <= n <= 0x0D || n == 0x20 || n == 0x85 || n == 0xA0 || n == 0x1680
    || 0x2000 <= n <= 0x200A || n == 0x2028 || n == 0x2029 || n == 0x202F
    || n == 0x205F || n == 0x3000
  }

  /** Nothing is left once surrounding whitespace is trimmed. */
  predicate IsBlank(s: string) {
    forall i :: 0 <= i < |s| ==> IsWhitespace(s[i])
  }

  /** The characters string trimming removes, one by one. */
  lemma WhitespaceIs(c: char)
    ensures IsWhitespace(c) <==>
            c in {'\U{0009}', '\U{000A}', '\U{000B}', '\U{000C}', '\U{000D}', '\U{0020}', '\U{0085}', '\U{00A0}',
                  '\U{1680}', '\U{2000}', '\U{2001}', '\U{2002}', '\U{2003}', '\U{2004}', '\U{2005}', '\U{2006}',
                  '\U{2007}', '\U{2008}', '\U{2009}', '\U{200A}', '\U{2028}', '\U{2029}', '\U{202F}', '\U{205F}',
                  '\U{3000}'}
  {
  }

  function TrimmedStart(s: string): string {
    if s != [] && IsWhitespace(s[0]) then TrimmedStart(s[1..]) else s
  }

  function Trimmed(s: string): string {
    if s != [] && IsWhitespace(s[|s| - 1]) then Trimmed(s[..|s| - 1]) else TrimmedStart(s)
  }

  /** A text is blank exactly when trimming both ends leaves nothing. */
  lemma {:induction false} BlankTrims(s: string)
    ensures IsBlank(s) <==> Trimmed(s) == ""
  {
    if s != [] && IsWhitespace(s[|s| - 1]) {
      BlankTrims(s[..|s| - 1]);
    } else {
      BlankTrimsStart(s);
    }
  }

  lemma {:induction false} BlankTrimsStart(s: string)
    ensures IsBlank(s) <==> TrimmedStart(s) == ""
  {
    if s != [] && IsWhitespace(s[0]) {
      BlankTrimsStart(s[1..]);
      assert forall i :: 0 < i < |s| ==> s[i] == s[1..][i - 1];
    }
  }

  function MissingDefinition(): Definition {
    Definition("", Missing)
  }

  /** The text is empty exactly when the definition is flagged missing, and a
      definition that is present is more than whitespace. */
  predicate DefinitionOk(d: Definition) {
    if d.source == Missing then d.text == "" else !IsBlank(d.text)
  }

  /** The projection's ladder: an authored text, else the inherited one. */
  function Resolve(authored: Option<string>, inherited: Option<string>, inheritedKind: DefSource): Definition {
    if authored.Some? && !IsBlank(authored.value) then Definition(authored.value, DefSource.Authored)
    else if inherited.Some? && !IsBlank(inherited.value) then Definition(inherited.value, inheritedKind)
    else MissingDefinition()
  }

  /** Which text a definition shows: an authored one that is more than
      whitespace, else an inherited one that is, else none. */
  lemma ResolveLadder(authored: Option<string>, inherited: Option<string>, inheritedKind: DefSource)
    ensures var d := Resolve(authored, inherited, inheritedKind);
            && (forall s :: authored == Some(s) && !IsBlank(s) ==> d.text == s && d.source == DefSource.Authored)
            && ((authored.None? || IsBlank(authored.value)) ==>
                  && (forall s :: inherited == Some(s) && !IsBlank(s) ==> d.text == s && d.source == inheritedKind)
                  && ((inherited.None? || IsBlank(inherited.value)) ==> d.text == "" && d.source == Missing))
  {
  }

  // ----- The node table as a graph -----

  ghost predicate UniqueIds(nodes: seq<HierNode>) {
    forall i, j :: 0 <= i < j < |nodes| ==> nodes[i].id != nodes[j].id
  }

  function Ids(nodes: seq<HierNode>): set<NodeId> {
    set i | 0 <= i < |nodes| :: nodes[i].id
  }

  /** The links the lists of one direction record, as (owner, listed id). */
  ghost function Links(nodes: seq<HierNode>, dir: Dir): set<(NodeId, NodeId)> {
    set i, y | 0 <= i < |nodes| && y in Step(nodes[i], dir) :: (nodes[i].id, y)
  }

  /** Containment as a relation: (parent, child). */
  ghost function Containment(g: HierGraph): set<(NodeId, NodeId)> {
    Links(g.nodes, Down)
  }

  /** The representation invariant of the node table. */
  ghost predicate NodesOk(nodes: seq<HierNode>) {
    && UniqueIds(nodes)
    && (forall i :: 0 <= i < |nodes| ==> NoDup(nodes[i].parents) && NoDup(nodes[i].children))
    && Links(nodes, Up) == Reversed(Links(nodes, Down))
    && (forall e :: e in Links(nodes, Down) ==> e.0 != e.1 && e.1 in Ids(nodes))
    && (forall i :: 0 <= i < |nodes| ==> DefinitionOk(nodes[i].definition))
  }

  ghost predicate XrefsOk(xrefs: seq<XRef>, ids: set<NodeId>) {
    && NoDup(xrefs)
    && forall x :: x in xrefs ==> x.from in ids && x.to in ids
  }

  ghost predicate WellFormed(g: HierGraph) {
    NodesOk(g.nodes) && XrefsOk(g.xrefs, Ids(g.nodes))
  }

  ghost predicate LeavesMarked(nodes: seq<HierNode>) {
    forall i :: 0 <= i < |nodes| ==> (nodes[i].isLeaf <==> nodes[i].children == [])
  }

  lemma LinksHas(nodes: seq<HierNode>, dir: Dir, i: nat, y: NodeId)
    requires UniqueIds(nodes) && i < |nodes|
    ensures (nodes[i].id, y) in Links(nodes, dir) <==> y in Step(nodes[i], dir)
  {
    if (nodes[i].id, y) in Links(nodes, dir) {
      var j, z :| 0 <= j < |nodes| && z in Step(nodes[j], dir) && (nodes[j].id, z) == (nodes[i].id, y);
      assert j == i;
    }
  }

  lemma LinkOwner(nodes: seq<HierNode>, dir: Dir, e: (NodeId, NodeId)) returns (i: nat)
    requires e in Links(nodes, dir)
    ensures i < |nodes| && nodes[i].id == e.0 && e.1 in Step(nodes[i], dir)
  {
    var j, y :| 0 <= j < |nodes| && y in Step(nodes[j], dir) && (nodes[j].id, y) == e;
    i := j;
  }

  predicate IsInherited(d: Definition) {
    d.source == InheritedConcept || d.source == InheritedAnchor
  }

  /** Every definition of the table is a projected one: inherited or missing. */
  predicate Projected(nodes: seq<HierNode>) {
    forall i :: 0 <= i < |nodes| ==> IsInherited(nodes[i].definition) || nodes[i].definition.source == Missing
  }

  // ----- Indexing by id -----

  predicate InRange(index: map<NodeId, nat>, n: nat) {
    forall x :: x in index ==> index[x] < n
  }

  /** `index` maps every id to the last node that carries it. */
  ghost predicate IsIndex(nodes: seq<HierNode>, index: map<NodeId, nat>) {
    && index.Keys == Ids(nodes)
    && InRange(index, |nodes|)
    && (forall x :: x in index ==> nodes[index[x]].id == x)
    && (forall x, j :: x in index && index[x] < j < |nodes| ==> nodes[j].id != x)
  }

  lemma IdsSnoc(nodes: seq<HierNode>, n: HierNode)
    ensures Ids(nodes + [n]) == Ids(nodes) + {n.id}
  {
    var all := nodes + [n];
    forall x
      ensures x in Ids(all) <==> x in Ids(nodes) || x == n.id
    {
      if x in Ids(nodes) {
        var i :| 0 <= i < |nodes| && nodes[i].id == x;
        assert all[i].id == x;
      }
      assert all[|nodes|].id == n.id;
    }
  }

  lemma IndexSnoc(nodes: seq<HierNode>, index: map<NodeId, nat>, n: HierNode)
    requires IsIndex(nodes, index)
    ensures IsIndex(nodes + [n], index[n.id := |nodes|])
  {
    IdsSnoc(nodes, n);
    var all, m := nodes + [n], index[n.id := |nodes|];
    assert m.Keys == Ids(all);
    forall x | x in m
      ensures m[x] < |all| && all[m[x]].id == x
      ensures forall j :: m[x] < j < |all| ==> all[j].id != x
    {
    }
  }

  /** The index a fresh id-to-position table holds; a later duplicate wins. */
  function Positions(nodes: seq<HierNode>): (index: map<NodeId, nat>)
    ensures IsIndex(nodes, index)
  {
    if nodes == [] then map[]
    else
      var init, last := nodes[..|nodes| - 1], nodes[|nodes| - 1];
      assert nodes == init + [last];
      IndexSnoc(init, Positions(init), last);
      Positions(init)[last.id := |init|]
  }

  /** Build the id-to-position table in one pass. */
  method BuildIndex(nodes: seq<HierNode>) returns (index: map<NodeId, nat>)
    ensures index == Positions(nodes)
    ensures InRange(index, |nodes|)
  {
    index := map[];
    for i := 0 to |nodes|
      invariant index == Positions(nodes[..i])
    {
      assert nodes[..i + 1][..i] == nodes[..i];
      index := index[nodes[i].id := i];
    }
    assert nodes[..|nodes|] == nodes;
  }

  /** The first node carrying `id`, as a linear scan finds it. */
  function Find(nodes: seq<HierNode>, id: NodeId): (r: Option<nat>)
    ensures r.None? <==> id !in Ids(nodes)
    ensures r.Some? ==> r.value < |nodes| && nodes[r.value].id == id
    ensures r.Some? ==> forall j :: 0 <= j < r.value ==> nodes[j].id != id
  {
    if nodes == [] then None
    else
      var init, last := nodes[..|nodes| - 1], nodes[|nodes| - 1];
      assert nodes == init + [last];
      IdsSnoc(init, last);
      var r := Find(init, id);
      if r.Some? then r
      else if last.id == id then Some(|init|)
      else None
  }

  /** The first node carrying `id`. */
  function NodeAt(nodes: seq<HierNode>, id: NodeId): (r: Option<HierNode>)
    ensures r.Some? <==> id in Ids(nodes)
    ensures r.Some? ==> r.value in nodes && r.value.id == id
  {
    match Find(nodes, id)
    case Some(i) => Some(nodes[i])
    case None => None
  }

  lemma NodeAtHas(nodes: seq<HierNode>, n: HierNode)
    requires UniqueIds(nodes) && n in nodes
    ensures NodeAt(nodes, n.id) == Some(n)
  {
    var i :| 0 <= i < |nodes| && nodes[i] == n;
    assert n.id in Ids(nodes);
  }

  // ----- Adjacency -----

  /** The neighbour table of one containment direction. */
  function DirAdjacency(g: HierGraph, dir: Dir): map<NodeId, seq<NodeId>> {
    var index := Positions(g.nodes);
    map x | x in index :: Step(g.nodes[index[x]], dir)
  }

  /** With unique ids the neighbour table is the link relation itself. */
  lemma DirAdjacencyPairs(g: HierGraph, dir: Dir)
    requires UniqueIds(g.nodes)
    ensures Pairs(DirAdjacency(g, dir)) == Links(g.nodes, dir)
  {
    var adj, index := DirAdjacency(g, dir), Positions(g.nodes);
    forall e | e in Links(g.nodes, dir)
      ensures e in Pairs(adj)
    {
      var i := LinkOwner(g.nodes, dir, e);
      assert e.0 in index && index[e.0] == i;
      PairsHas(adj, e.0, e.1);
    }
    forall e | e in Pairs(adj)
      ensures e in Links(g.nodes, dir)
    {
      PairsHas(adj, e.0, e.1);
      LinksHas(g.nodes, dir, index[e.0], e.1);
    }
  }
}
