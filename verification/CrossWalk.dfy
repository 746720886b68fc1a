/** The hop-bounded cross-reference walk: breadth-first reach over containment
    and the selected cross-reference kinds, both ways. */
module CrossWalk {
  import opened Paths
  import opened Lists
  import opened LevelOrder
  import opened Hierarchy

  /** A node met by the walk and its hop distance. */
  datatype Reached = Reached(id: NodeId, hops: nat)

  datatype WalkOptions = WalkOptions(followContainment: bool, followXrefs: seq<XRefKind>, maxHops: nat)

  // ----- The neighbour table -----

  /** Every neighbour the node table lists for `x`, in table order. */
  function TableNeighbours(nodes: seq<HierNode>, x: NodeId): seq<NodeId> {
    if nodes == [] then []
    else
      var n := nodes[|nodes| - 1];
      TableNeighbours(nodes[..|nodes| - 1], x) + if n.id == x then n.parents + n.children else []
  }

  /** The other endpoint of every selected cross-reference touching `x`. */
  function XrefNeighbours(xrefs: seq<XRef>, kinds: seq<XRefKind>, x: NodeId): seq<NodeId> {
    if xrefs == [] then []
    else
      var r := xrefs[|xrefs| - 1];
      XrefNeighbours(xrefs[..|xrefs| - 1], kinds, x)
      + (if r.kind in kinds && r.from == x then [r.to] else [])
      + (if r.kind in kinds && r.to == x then [r.from] else [])
  }

  /** The ids that get an entry in the neighbour table. */
  function WalkKeys(nodes: seq<HierNode>, xrefs: seq<XRef>, kinds: seq<XRefKind>): set<NodeId> {
    Ids(nodes)
    + (set r | r in xrefs && r.kind in kinds :: r.from)
    + (set r | r in xrefs && r.kind in kinds :: r.to)
  }

  function WalkTable(nodes: seq<HierNode>, xrefs: seq<XRef>, kinds: seq<XRefKind>): map<NodeId, seq<NodeId>> {
    map x | x in WalkKeys(nodes, xrefs, kinds) :: TableNeighbours(nodes, x) + XrefNeighbours(xrefs, kinds, x)
  }

  /** The neighbour table of a walk; the hop cap plays no part in it. */
  function WalkAdjacency(g: HierGraph, opts: WalkOptions): map<NodeId, seq<NodeId>> {
    WalkTable(if opts.followContainment then g.nodes else [], g.xrefs, opts.followXrefs)
  }

  /** `adj` with `ys` appended to the entry of `x`, which is created if absent. */
  function Extended(adj: map<NodeId, seq<NodeId>>, x: NodeId, ys: seq<NodeId>): map<NodeId, seq<NodeId>> {
    adj[x := Succ(adj, x) + ys]
  }

  lemma {:induction false} NoTableNeighbours(nodes: seq<HierNode>, x: NodeId)
    requires x !in Ids(nodes)
    ensures TableNeighbours(nodes, x) == []
  {
    if nodes != [] {
      var init, last := nodes[..|nodes| - 1], nodes[|nodes| - 1];
      assert nodes == init + [last];
      IdsSnoc(init, last);
      NoTableNeighbours(init, x);
    }
  }

  lemma {:induction false} NoXrefNeighbours(xrefs: seq<XRef>, kinds: seq<XRefKind>, x: NodeId)
    requires forall r :: r in xrefs && r.kind in kinds ==> r.from != x && r.to != x
    ensures XrefNeighbours(xrefs, kinds, x) == []
  {
    if xrefs != [] {
      NoXrefNeighbours(xrefs[..|xrefs| - 1], kinds, x);
    }
  }

  lemma TableSucc(nodes: seq<HierNode>, xrefs: seq<XRef>, kinds: seq<XRefKind>, x: NodeId)
    ensures Succ(WalkTable(nodes, xrefs, kinds), x) == TableNeighbours(nodes, x) + XrefNeighbours(xrefs, kinds, x)
  {
    hide TableNeighbours, XrefNeighbours, Ids;
    if x !in WalkKeys(nodes, xrefs, kinds) {
      NoTableNeighbours(nodes, x);
      NoXrefNeighbours(xrefs, kinds, x);
    }
  }

  lemma KeysGrowByNode(nodes: seq<HierNode>, n: HierNode, kinds: seq<XRefKind>)
    ensures WalkKeys(nodes + [n], [], kinds) == WalkKeys(nodes, [], kinds) + {n.id}
  {
    IdsSnoc(nodes, n);
    hide Ids;
  }

  lemma TableGrowsByNode(nodes: seq<HierNode>, n: HierNode, kinds: seq<XRefKind>)
    ensures Extended(WalkTable(nodes, [], kinds), n.id, n.parents + n.children) == WalkTable(nodes + [n], [], kinds)
  {
    hide WalkKeys;
    KeysGrowByNode(nodes, n, kinds);
    var t, t' := WalkTable(nodes, [], kinds), WalkTable(nodes + [n], [], kinds);
    var e := Extended(t, n.id, n.parents + n.children);
    assert (nodes + [n])[..|nodes|] == nodes;
    assert e.Keys == t'.Keys;
    forall x | x in t'
      ensures e[x] == t'[x]
    {
      TableSucc(nodes, [], kinds, x);
    }
  }

  lemma KeysGrowByXref(nodes: seq<HierNode>, xrefs: seq<XRef>, r: XRef, kinds: seq<XRefKind>)
    ensures WalkKeys(nodes, xrefs + [r], kinds)
            == WalkKeys(nodes, xrefs, kinds) + if r.kind in kinds then {r.from, r.to} else {}
  {
    hide Ids;
    assert forall q :: q in xrefs + [r] <==> q in xrefs || q == r;
  }

  lemma XrefNeighboursGrow(xrefs: seq<XRef>, r: XRef, kinds: seq<XRefKind>, x: NodeId)
    ensures XrefNeighbours(xrefs + [r], kinds, x)
            == XrefNeighbours(xrefs, kinds, x)
               + (if r.kind in kinds && r.from == x then [r.to] else [])
               + (if r.kind in kinds && r.to == x then [r.from] else [])
  {
    assert (xrefs + [r])[..|xrefs|] == xrefs;
  }

  lemma TableGrowsByXref(nodes: seq<HierNode>, xrefs: seq<XRef>, r: XRef, kinds: seq<XRefKind>)
    ensures var t := WalkTable(nodes, xrefs, kinds);
            WalkTable(nodes, xrefs + [r], kinds)
            == if r.kind in kinds then Extended(Extended(t, r.from, [r.to]), r.to, [r.from]) else t
  {
    hide TableNeighbours, XrefNeighbours, WalkKeys;
    var t, t' := WalkTable(nodes, xrefs, kinds), WalkTable(nodes, xrefs + [r], kinds);
    var e := if r.kind in kinds then Extended(Extended(t, r.from, [r.to]), r.to, [r.from]) else t;
    KeysGrowByXref(nodes, xrefs, r, kinds);
    assert t'.Keys == e.Keys;
    forall x | x in t'
      ensures t'[x] == e[x]
    {
      TableSucc(nodes, xrefs, kinds, x);
      XrefNeighboursGrow(xrefs, r, kinds, x);
    }
  }

  /** Build the undirected neighbour table the walk traverses. */
  method CombinedAdjacency(g: HierGraph, opts: WalkOptions) returns (adj: map<NodeId, seq<NodeId>>)
    ensures adj == WalkAdjacency(g, opts)
  {
    hide WalkTable;
    var kinds := opts.followXrefs;
    ghost var nodes := if opts.followContainment then g.nodes else [];
    adj := map[];
    EmptyTable(kinds);
    if opts.followContainment {
      for i := 0 to |g.nodes|
        invariant adj == WalkTable(g.nodes[..i], [], kinds)
      {
        var n := g.nodes[i];
        TableGrowsByNode(g.nodes[..i], n, kinds);
        assert g.nodes[..i + 1] == g.nodes[..i] + [n];
        var entry := if n.id in adj then adj[n.id] else [];
        entry := entry + n.parents;
        entry := entry + n.children;
        assert entry == Succ(adj, n.id) + (n.parents + n.children);
        adj := adj[n.id := entry];
      }
      assert g.nodes[..|g.nodes|] == g.nodes;
    }
    for j := 0 to |g.xrefs|
      invariant adj == WalkTable(nodes, g.xrefs[..j], kinds)
    {
      var x := g.xrefs[j];
      TableGrowsByXref(nodes, g.xrefs[..j], x, kinds);
      assert g.xrefs[..j + 1] == g.xrefs[..j] + [x];
      if x.kind in kinds {
        adj := adj[x.from := (if x.from in adj then adj[x.from] else []) + [x.to]];
        adj := adj[x.to := (if x.to in adj then adj[x.to] else []) + [x.from]];
      }
    }
    assert g.xrefs[..|g.xrefs|] == g.xrefs;
  }

  lemma EmptyTable(kinds: seq<XRefKind>)
    ensures WalkTable([], [], kinds) == map[]
  {
  }

  // ----- The relation the table stands for -----

  lemma {:induction false} TableNeighboursHas(nodes: seq<HierNode>, x: NodeId, y: NodeId)
    ensures y in TableNeighbours(nodes, x) <==> (x, y) in Links(nodes, Up) || (x, y) in Links(nodes, Down)
  {
    if nodes != [] {
      var init, last := nodes[..|nodes| - 1], nodes[|nodes| - 1];
      TableNeighboursHas(init, x, y);
      assert nodes == init + [last];
      LinksSnoc(init, last, Up, x, y);
      LinksSnoc(init, last, Down, x, y);
    }
  }

  lemma LinksSnoc(nodes: seq<HierNode>, n: HierNode, dir: Dir, x: NodeId, y: NodeId)
    ensures (x, y) in Links(nodes + [n], dir) <==> (x, y) in Links(nodes, dir) || (x == n.id && y in Step(n, dir))
  {
    var all := nodes + [n];
    if (x, y) in Links(nodes, dir) {
      var i := LinkOwner(nodes, dir, (x, y));
      assert all[i] == nodes[i];
    }
    if x == n.id && y in Step(n, dir) {
      assert all[|nodes|] == n;
    }
    if (x, y) in Links(all, dir) {
      var i := LinkOwner(all, dir, (x, y));
      if i < |nodes| {
        assert nodes[i] == all[i];
      }
    }
  }

  /** With unique ids the table lists a node's parents, then its children. */
  lemma {:induction false} NeighboursInOrder(nodes: seq<HierNode>, n: HierNode)
    requires UniqueIds(nodes) && n in nodes
    ensures TableNeighbours(nodes, n.id) == n.parents + n.children
  {
    var init, last := nodes[..|nodes| - 1], nodes[|nodes| - 1];
    assert nodes == init + [last];
    if n in init {
      NeighboursInOrder(init, n);
      var i :| 0 <= i < |init| && init[i] == n;
      assert nodes[i] == n;
    } else {
      forall i | 0 <= i < |init|
        ensures init[i].id != n.id
      {
        assert nodes[i].id != last.id;
      }
      NoTableNeighbours(init, n.id);
    }
  }

  ghost predicate XrefBetween(xrefs: seq<XRef>, kinds: seq<XRefKind>, x: NodeId, y: NodeId) {
    exists r :: r in xrefs && r.kind in kinds && ((r.from == x && r.to == y) || (r.to == x && r.from == y))
  }

  lemma {:induction false} XrefNeighboursHas(xrefs: seq<XRef>, kinds: seq<XRefKind>, x: NodeId, y: NodeId)
    ensures y in XrefNeighbours(xrefs, kinds, x) <==> XrefBetween(xrefs, kinds, x, y)
  {
    if xrefs != [] {
      var init, last := xrefs[..|xrefs| - 1], xrefs[|xrefs| - 1];
      XrefNeighboursHas(init, kinds, x, y);
      assert xrefs == init + [last];
      assert forall r :: r in xrefs <==> r in init || r == last;
    }
  }

  /** The edges the walk may cross, read off the graph. */
  lemma WalkPairs(g: HierGraph, opts: WalkOptions, x: NodeId, y: NodeId)
    ensures (x, y) in Pairs(WalkAdjacency(g, opts)) <==>
            || (opts.followContainment && ((x, y) in Links(g.nodes, Up) || (x, y) in Links(g.nodes, Down)))
            || XrefBetween(g.xrefs, opts.followXrefs, x, y)
  {
    var nodes := if opts.followContainment then g.nodes else [];
    hide WalkTable, Pairs, Succ, TableNeighbours, XrefNeighbours;
    PairsHas(WalkAdjacency(g, opts), x, y);
    TableSucc(nodes, g.xrefs, opts.followXrefs, x);
    TableNeighboursHas(nodes, x, y);
    XrefNeighboursHas(g.xrefs, opts.followXrefs, x, y);
  }

  lemma WalkRelationSymmetric(g: HierGraph, opts: WalkOptions)
    requires WellFormed(g)
    ensures Reversed(Pairs(WalkAdjacency(g, opts))) == Pairs(WalkAdjacency(g, opts))
  {
    hide WalkAdjacency, Pairs, Links, Reversed;
    var e := Pairs(WalkAdjacency(g, opts));
    forall x, y
      ensures (x, y) in e <==> (y, x) in e
    {
      WalkPairs(g, opts, x, y);
      WalkPairs(g, opts, y, x);
      ReversedHas(Links(g.nodes, Down), x, y);
      ReversedHas(Links(g.nodes, Down), y, x);
    }
    forall p
      ensures p in Reversed(e) <==> p in e
    {
      ReversedHas(e, p.0, p.1);
      assert p == (p.0, p.1);
    }
  }

  // ----- The walk -----

  /** `xs`, all at `hops`. */
  function Tag(xs: seq<NodeId>, hops: nat): seq<Reached> {
    seq(|xs|, i requires 0 <= i < |xs| => Reached(xs[i], hops))
  }

  /** Levels 1 to `cap`, each node with its level. */
  function Spread(adj: map<NodeId, seq<NodeId>>, start: NodeId, cap: nat): seq<Reached> {
    if cap == 0 then [] else Spread(adj, start, cap - 1) + Tag(Level(adj, start, cap), cap)
  }

  /** What the walk returns. */
  function Walk(g: HierGraph, start: NodeId, opts: WalkOptions): seq<Reached> {
    Spread(WalkAdjacency(g, opts), start, opts.maxHops)
  }

  /** Queue every neighbour not met before, one hop further out. */
  method Discover(neighbours: seq<NodeId>, hops: nat, visited0: set<NodeId>)
      returns (found: seq<Reached>, visited: set<NodeId>)
    ensures found == Tag(Fresh(neighbours, visited0), hops)
    ensures visited == visited0 + Elems(Fresh(neighbours, visited0))
  {
    found, visited := [], visited0;
    for j := 0 to |neighbours|
      invariant found == Tag(Fresh(neighbours[..j], visited0), hops)
      invariant visited == visited0 + Elems(Fresh(neighbours[..j], visited0))
    {
      var ne := neighbours[j];
      assert neighbours[..j + 1][..j] == neighbours[..j];
      if ne !in visited {
        visited := visited + {ne};
        found := found + [Reached(ne, hops)];
      }
    }
    assert neighbours[..|neighbours|] == neighbours;
  }

  /** The part of the next level found after `i` points of this one. */
  ghost function Found(adj: map<NodeId, seq<NodeId>>, start: NodeId, k: nat, i: nat): seq<NodeId>
    requires i <= |Level(adj, start, k)|
  {
    Fresh(Flat(adj, Level(adj, start, k)[..i]), Seen(adj, start, k))
  }

  /** The queue is the rest of level `k` and then what was found of the next
      level; what was found is also out, and marked. */
  ghost predicate MidLevel(done: seq<Reached>, rest: seq<NodeId>, found: seq<NodeId>, seen: set<NodeId>, k: nat,
                           queue: seq<Reached>, visited: set<NodeId>, out: seq<Reached>)
  {
    && queue == Tag(rest, k) + Tag(found, k + 1)
    && out == done + Tag(found, k + 1)
    && visited == seen + Elems(found)
  }

  /** The loop invariant: `i` points of level `k` are done; beyond the cap
      nothing more is queued. */
  ghost predicate Spreading(adj: map<NodeId, seq<NodeId>>, start: NodeId, cap: nat, k: nat, i: nat,
                            queue: seq<Reached>, visited: set<NodeId>, out: seq<Reached>)
  {
    && k <= cap && i <= |Level(adj, start, k)|
    && if k == cap then
         queue == Tag(Level(adj, start, k)[i..], k) && out == Spread(adj, start, k)
       else
         MidLevel(Spread(adj, start, k), Level(adj, start, k)[i..], Found(adj, start, k, i), Seen(adj, start, k), k,
                  queue, visited, out)
  }

  lemma MidLevelVisit(done: seq<Reached>, level: seq<NodeId>, i: nat, found: seq<NodeId>, seen: set<NodeId>, k: nat,
                      queue: seq<Reached>, visited: set<NodeId>, out: seq<Reached>, more: seq<NodeId>)
    requires i < |level| && MidLevel(done, level[i..], found, seen, k, queue, visited, out)
    ensures queue != [] && queue[0] == Reached(level[i], k)
    ensures MidLevel(done, level[i + 1..], found + more, seen, k,
                     queue[1..] + Tag(more, k + 1), visited + Elems(more), out + Tag(more, k + 1))
  {
    TagConcat(found, more, k + 1);
    TagFront(level, i, k);
    ElemsConcat(found, more);
    hide Tag, Elems;
    var rest, next, extra := Tag(level[i + 1..], k), Tag(found, k + 1), Tag(more, k + 1);
    assert queue == [Reached(level[i], k)] + rest + next;
    assert queue[1..] + extra == rest + (next + extra);
    assert out + extra == done + (next + extra);
  }

  lemma MidLevelEnd(done: seq<Reached>, next: seq<NodeId>, seen: set<NodeId>, k: nat,
                    queue: seq<Reached>, visited: set<NodeId>, out: seq<Reached>)
    requires MidLevel(done, [], next, seen, k, queue, visited, out)
    ensures queue == Tag(next, k + 1) && out == done + Tag(next, k + 1)
    ensures MidLevel(done + Tag(next, k + 1), next, [], seen + Elems(next), k + 1, queue, visited, out)
  {
  }

  lemma SpreadStarts(adj: map<NodeId, seq<NodeId>>, start: NodeId, cap: nat)
    ensures Spreading(adj, start, cap, 0, 0, [Reached(start, 0)], {start}, [])
  {
    assert Level(adj, start, 0)[..0] == [];
    assert Found(adj, start, 0, 0) == [];
    assert Tag([start], 0) == [Reached(start, 0)];
  }

  lemma FoundAtEnds(adj: map<NodeId, seq<NodeId>>, start: NodeId, k: nat)
    ensures Found(adj, start, k, |Level(adj, start, k)|) == Level(adj, start, k + 1)
    ensures Found(adj, start, k, 0) == []
  {
    var level := Level(adj, start, k);
    assert level[..|level|] == level;
    assert level[..0] == [];
  }

  lemma SpreadNextLevel(adj: map<NodeId, seq<NodeId>>, start: NodeId, cap: nat, k: nat,
                        queue: seq<Reached>, visited: set<NodeId>, out: seq<Reached>)
    requires k < cap
    requires Spreading(adj, start, cap, k, |Level(adj, start, k)|, queue, visited, out)
    ensures Spreading(adj, start, cap, k + 1, 0, queue, visited, out)
  {
    var level, next := Level(adj, start, k), Level(adj, start, k + 1);
    FoundAtEnds(adj, start, k);
    FoundAtEnds(adj, start, k + 1);
    assert level[|level|..] == [] && next[0..] == next;
    MidLevelEnd(Spread(adj, start, k), next, Seen(adj, start, k), k, queue, visited, out);
    assert Spread(adj, start, k + 1) == Spread(adj, start, k) + Tag(next, k + 1);
    assert Seen(adj, start, k + 1) == Seen(adj, start, k) + Elems(next);
    hide Level, Found, Seen, Spread, Tag, MidLevel;
  }

  lemma SpreadStep(adj: map<NodeId, seq<NodeId>>, start: NodeId, k: nat, i: nat)
    requires i < |Level(adj, start, k)|
    ensures var x := Level(adj, start, k)[i];
            var more := Fresh(Succ(adj, x), Seen(adj, start, k) + Elems(Found(adj, start, k, i)));
            Found(adj, start, k, i + 1) == Found(adj, start, k, i) + more
  {
    var level, seen := Level(adj, start, k), Seen(adj, start, k);
    hide Level, Seen, Fresh, Flat, Succ;
    var before := Flat(adj, level[..i]);
    FlatSnoc(adj, level, i);
    FreshAppend(before, Succ(adj, level[i]), seen);
    SeenPlusFresh(before, seen);
  }

  lemma TagFront(xs: seq<NodeId>, i: nat, hops: nat)
    requires i < |xs|
    ensures Tag(xs[i..], hops) == [Reached(xs[i], hops)] + Tag(xs[i + 1..], hops)
  {
  }

  lemma ElemsConcat(xs: seq<NodeId>, ys: seq<NodeId>)
    ensures Elems(xs + ys) == Elems(xs) + Elems(ys)
  {
  }

  lemma TagConcat(xs: seq<NodeId>, ys: seq<NodeId>, hops: nat)
    ensures Tag(xs + ys, hops) == Tag(xs, hops) + Tag(ys, hops)
  {
  }

  lemma SpreadVisit(adj: map<NodeId, seq<NodeId>>, start: NodeId, cap: nat, k: nat, i: nat,
                    queue: seq<Reached>, visited: set<NodeId>, out: seq<Reached>)
    requires k < cap && i < |Level(adj, start, k)|
    requires Spreading(adj, start, cap, k, i, queue, visited, out)
    ensures queue != [] && queue[0] == Reached(Level(adj, start, k)[i], k)
    ensures var more := Fresh(Succ(adj, queue[0].id), visited);
            Spreading(adj, start, cap, k, i + 1,
                      queue[1..] + Tag(more, k + 1), visited + Elems(more), out + Tag(more, k + 1))
  {
    hide Level, Seen, Fresh, Succ, Found, Spread, Tag, Elems, MidLevel;
    var level, found := Level(adj, start, k), Found(adj, start, k, i);
    var more := Fresh(Succ(adj, level[i]), visited);
    SpreadStep(adj, start, k, i);
    MarkedAre(Spread(adj, start, k), level[i..], found, Seen(adj, start, k), k, queue, visited, out);
    MidLevelVisit(Spread(adj, start, k), level, i, found, Seen(adj, start, k), k, queue, visited, out, more);
  }

  lemma MarkedAre(done: seq<Reached>, rest: seq<NodeId>, found: seq<NodeId>, seen: set<NodeId>, k: nat,
                  queue: seq<Reached>, visited: set<NodeId>, out: seq<Reached>)
    requires MidLevel(done, rest, found, seen, k, queue, visited, out)
    ensures visited == seen + Elems(found)
  {
  }

  lemma SpreadCapped(adj: map<NodeId, seq<NodeId>>, start: NodeId, cap: nat, i: nat,
                     queue: seq<Reached>, visited: set<NodeId>, out: seq<Reached>)
    requires queue != []
    requires Spreading(adj, start, cap, cap, i, queue, visited, out)
    ensures queue[0].hops == cap
    ensures Spreading(adj, start, cap, cap, i + 1, queue[1..], visited, out)
  {
    hide Level, Found, Seen, Spread;
    var level := Level(adj, start, cap);
    assert Tag(level[i..], cap)[1..] == Tag(level[i + 1..], cap);
  }

  lemma {:induction false} SpreadEnds(adj: map<NodeId, seq<NodeId>>, start: NodeId, j: nat, k: nat)
    requires j <= k && Level(adj, start, j + 1) == []
    ensures Spread(adj, start, k) == Spread(adj, start, j)
  {
    if j < k {
      EmptyLevelStays(adj, start, j, k);
      SpreadEnds(adj, start, j, k - 1);
      hide Level;
    }
  }

  lemma SpreadDone(adj: map<NodeId, seq<NodeId>>, start: NodeId, cap: nat, k: nat, i: nat,
                   visited: set<NodeId>, out: seq<Reached>)
    requires Spreading(adj, start, cap, k, i, [], visited, out)
    ensures out == Spread(adj, start, cap)
  {
    if k < cap {
      var level := Level(adj, start, k);
      assert |level[i..]| == 0 && |Found(adj, start, k, i)| == 0;
      assert level[..i] == level;
      assert Level(adj, start, k + 1) == [];
      hide Level, Found, Seen, Spread;
      SpreadEnds(adj, start, k, cap);
    }
  }

  /** The cross-reference walk: every node at distance 1 to `maxHops`, once, with
      its exact distance. */
  method CrossReferenceWalk(g: HierGraph, start: NodeId, opts: WalkOptions) returns (out: seq<Reached>)
    ensures out == Walk(g, start, opts)
  {
    hide Spreading, Level, Fresh, Elems, Tag, Spread;
    var adj := CombinedAdjacency(g, opts);
    var cap := opts.maxHops;
    out := [];
    var visited := {start};
    var queue := [Reached(start, 0)];
    ghost var k, i := 0, 0;
    SpreadStarts(adj, start, cap);
    while queue != []
      invariant k <= cap && i <= |Level(adj, start, k)|
      invariant Spreading(adj, start, cap, k, i, queue, visited, out)
      decreases cap - k, |Level(adj, start, k)| - i
    {
      SpreadBounds(adj, start, cap, k, i, queue, visited, out);
      if k < cap && i == |Level(adj, start, k)| {
        SpreadNextLevel(adj, start, cap, k, queue, visited, out);
        k, i := k + 1, 0;
        SpreadBounds(adj, start, cap, k, i, queue, visited, out);
      }
      var cur := queue[0];
      if k == cap {
        SpreadCapped(adj, start, cap, i, queue, visited, out);
      } else {
        SpreadVisit(adj, start, cap, k, i, queue, visited, out);
      }
      queue := queue[1..];
      if cur.hops < cap {
        var neighbours := if cur.id in adj then adj[cur.id] else [];
        var found;
        found, visited := Discover(neighbours, cur.hops + 1, visited);
        out := out + found;
        queue := queue + found;
      }
      i := i + 1;
    }
    SpreadDone(adj, start, cap, k, i, visited, out);
  }

  lemma SpreadBounds(adj: map<NodeId, seq<NodeId>>, start: NodeId, cap: nat, k: nat, i: nat,
                     queue: seq<Reached>, visited: set<NodeId>, out: seq<Reached>)
    requires Spreading(adj, start, cap, k, i, queue, visited, out) && queue != []
    ensures k <= cap && i <= |Level(adj, start, k)|
    ensures k == cap || i == 0 ==> i < |Level(adj, start, k)|
  {
    hide Level, Seen, Spread;
    if i == 0 && k < cap {
      assert Level(adj, start, k)[..0] == [];
      assert Found(adj, start, k, 0) == [];
    }
  }

  // ----- What the walk returns -----

  lemma {:induction false} SpreadIsUpto(adj: map<NodeId, seq<NodeId>>, start: NodeId, cap: nat)
    ensures |Spread(adj, start, cap)| == |Upto(adj, start, cap)|
    ensures forall i :: 0 <= i < |Upto(adj, start, cap)| ==> Spread(adj, start, cap)[i].id == Upto(adj, start, cap)[i]
  {
    hide Level;
    if cap > 0 {
      SpreadIsUpto(adj, start, cap - 1);
    }
  }

  lemma {:induction false} SpreadHas(adj: map<NodeId, seq<NodeId>>, start: NodeId, cap: nat, y: NodeId, k: nat)
    ensures Reached(y, k) in Spread(adj, start, cap) <==> 1 <= k <= cap && y in Level(adj, start, k)
  {
    hide Level;
    if cap > 0 {
      SpreadHas(adj, start, cap - 1, y, k);
      TagHas(Level(adj, start, cap), cap, y, k);
      hide Tag;
    }
  }

  lemma TagHas(xs: seq<NodeId>, hops: nat, y: NodeId, k: nat)
    ensures Reached(y, k) in Tag(xs, hops) <==> k == hops && y in xs
  {
    var t := Tag(xs, hops);
    if y in xs {
      var i :| 0 <= i < |xs| && xs[i] == y;
      assert t[i] == Reached(y, hops);
    }
  }

  lemma {:induction false} SpreadSorted(adj: map<NodeId, seq<NodeId>>, start: NodeId, cap: nat)
    ensures forall i :: 0 <= i < |Spread(adj, start, cap)| ==> Spread(adj, start, cap)[i].hops <= cap
    ensures forall i, j :: 0 <= i < j < |Spread(adj, start, cap)| ==>
              Spread(adj, start, cap)[i].hops <= Spread(adj, start, cap)[j].hops
  {
    hide Level;
    if cap > 0 {
      SpreadSorted(adj, start, cap - 1);
    }
  }

  lemma {:induction false} SpreadPrefix(adj: map<NodeId, seq<NodeId>>, start: NodeId, j: nat, k: nat)
    requires j <= k
    ensures Spread(adj, start, j) <= Spread(adj, start, k)
  {
    hide Level;
    if j < k {
      SpreadPrefix(adj, start, j, k - 1);
    }
  }

  /** The walk returns exactly the nodes at true shortest distance 1 to the cap,
      each with that distance and once, in order of distance. */
  lemma WalkIsExact(g: HierGraph, start: NodeId, opts: WalkOptions)
    ensures forall y, k: nat :: Reached(y, k) in Walk(g, start, opts) <==>
              1 <= k <= opts.maxHops && IsDistance(Pairs(WalkAdjacency(g, opts)), start, y, k)
    ensures forall i, j :: 0 <= i < j < |Walk(g, start, opts)| ==>
              && Walk(g, start, opts)[i].id != Walk(g, start, opts)[j].id
              && Walk(g, start, opts)[i].hops <= Walk(g, start, opts)[j].hops
    ensures forall i :: 0 <= i < |Walk(g, start, opts)| ==> Walk(g, start, opts)[i].id != start
  {
    hide Spread, Upto, Level, Pairs, IsDistance, WalkAdjacency;
    var adj, cap := WalkAdjacency(g, opts), opts.maxHops;
    forall y, k: nat
      ensures Reached(y, k) in Walk(g, start, opts) <==> 1 <= k <= cap && IsDistance(Pairs(adj), start, y, k)
    {
      SpreadHas(adj, start, cap, y, k);
      LevelIsDistance(adj, start, k, y);
    }
    SpreadIsUpto(adj, start, cap);
    UptoNoDup(adj, start, cap);
    SpreadSorted(adj, start, cap);
    var ids := Upto(adj, start, cap);
    assert forall i :: 0 <= i < |ids| ==> ids[i] in ids;
  }

  /** Structural reach is mutual: each of two nodes meets the other, at the same
      distance. */
  lemma WalkIsSymmetric(g: HierGraph, x: NodeId, y: NodeId, opts: WalkOptions, k: nat)
    requires WellFormed(g)
    ensures Reached(y, k) in Walk(g, x, opts) <==> Reached(x, k) in Walk(g, y, opts)
  {
    hide Walk, Pairs, IsDistance, WalkAdjacency, WellFormed;
    WalkIsExact(g, x, opts);
    WalkIsExact(g, y, opts);
    WalkRelationSymmetric(g, opts);
    DistanceSymmetric(Pairs(WalkAdjacency(g, opts)), x, y, k);
  }

  /** Raising the hop cap only extends the result. */
  lemma WalkCapExtends(g: HierGraph, start: NodeId, opts: WalkOptions, cap: nat)
    requires opts.maxHops <= cap
    ensures Walk(g, start, opts) <= Walk(g, start, opts.(maxHops := cap))
  {
    hide WalkTable, Spread;
    SpreadPrefix(WalkAdjacency(g, opts), start, opts.maxHops, cap);
  }
}
