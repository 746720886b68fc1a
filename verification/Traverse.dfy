/** The traversals over a hierarchy graph. Every walk is a loop over a mutable
    queue; each is proved against walks and distances in the link relation, on
    every graph, cyclic or malformed. */
module Traverse {
  import opened Wrappers
  import opened Paths
  import opened Lists
  import opened LevelOrder
  import opened Hierarchy

  // ----- Containment walks -----

  /** Everything the walk from `start` can ever put in its queue. */
  ghost function Universe(adj: map<NodeId, seq<NodeId>>, start: NodeId): set<NodeId> {
    (set x, y | x in adj && y in adj[x] :: y) + {start}
  }

  lemma SuccInUniverse(adj: map<NodeId, seq<NodeId>>, start: NodeId, x: NodeId, y: NodeId)
    requires y in Succ(adj, x)
    ensures y in Universe(adj, start)
  {
  }

  lemma DirSucc(g: HierGraph, dir: Dir, x: NodeId)
    ensures var index := Positions(g.nodes);
            Succ(DirAdjacency(g, dir), x) == if x in index then Step(g.nodes[index[x]], dir) else []
  {
  }

  /** The neighbours worth queueing: those not visited yet. */
  method Unvisited(next: seq<NodeId>, visited: set<NodeId>) returns (pushed: seq<NodeId>)
    ensures FilteredBy(next, pushed, visited)
    ensures forall x :: x in pushed ==> x in next
  {
    pushed := [];
    for j := 0 to |next|
      invariant FilteredBy(next[..j], pushed, visited)
      invariant forall x :: x in pushed ==> x in next
    {
      assert next[..j + 1][..j] == next[..j];
      if next[j] !in visited {
        pushed := pushed + [next[j]];
        assert pushed[..|pushed| - 1] + [next[j]] == pushed;
      }
    }
    assert next[..|next|] == next;
  }

  /** `out` lists exactly what can be reached from `start`, the start excepted:
      once each, nearest first, and in the order of the distance levels. */
  ghost predicate ClosureFrom(adj: map<NodeId, seq<NodeId>>, start: NodeId, out: seq<NodeId>) {
    && NoDup(out)
    && (forall y :: y in out <==> y != start && Reaches(Pairs(adj), start, y))
    && (forall i, j, a: nat, b: nat ::
          && 0 <= i < j < |out|
          && IsDistance(Pairs(adj), start, out[i], a)
          && IsDistance(Pairs(adj), start, out[j], b)
          ==> a <= b)
    && (forall m: nat :: m >= |out| ==> Upto(adj, start, m) == out)
  }

  lemma DrainStart(adj: map<NodeId, seq<NodeId>>, start: NodeId)
    ensures Draining(adj, Level(adj, start, 1), Seen(adj, start, 0), Seen(adj, start, 1), 0, Succ(adj, start), {start})
  {
    var level := Level(adj, start, 1);
    assert Flat(adj, [start]) == Succ(adj, start) by {
      assert [start][..0] == [];
    }
    assert level == Fresh(Succ(adj, start), {start});
    hide Level, Fresh, Succ;
    assert level[..0] == [] && level[0..] == level;
    assert Fresh(Flat(adj, level[..0]), Seen(adj, start, 1)) == [] by {
      FreshNothing(Seen(adj, start, 1));
    }
  }

  lemma FreshNothing(seen: set<NodeId>)
    ensures Fresh([], seen) == []
  {
  }

  lemma ClosureOfUpto(adj: map<NodeId, seq<NodeId>>, start: NodeId, k: nat)
    requires Level(adj, start, k + 1) == []
    ensures ClosureFrom(adj, start, Upto(adj, start, k))
  {
    hide Level, Upto, Pairs, IsDistance, NoDup, Reaches;
    var out := Upto(adj, start, k);
    UptoNoDup(adj, start, k);
    forall y
      ensures y in out <==> y != start && Reaches(Pairs(adj), start, y)
    {
      UptoIsClosure(adj, start, k, y);
    }
    forall i, j, a: nat, b: nat |
        && 0 <= i < j < |out|
        && IsDistance(Pairs(adj), start, out[i], a)
        && IsDistance(Pairs(adj), start, out[j], b)
      ensures a <= b
    {
      UptoNearestFirst(adj, start, k, i, j, a, b);
    }
    forall m: nat | m >= |out|
      ensures Upto(adj, start, m) == out
    {
      UptoStable(adj, start, k, m);
    }
  }

  /** The loop invariant of the containment walk: level `k` is being drained and
      its first `i` points are out. */
  ghost predicate Walking(adj: map<NodeId, seq<NodeId>>, start: NodeId, k: nat, i: nat,
                          queue: seq<NodeId>, visited: set<NodeId>, out: seq<NodeId>)
  {
    && k >= 1
    && Draining(adj, Level(adj, start, k), Seen(adj, start, k - 1), Seen(adj, start, k), i, queue, visited)
    && out == Upto(adj, start, k - 1) + Level(adj, start, k)[..i]
  }

  lemma WalkSkip(adj: map<NodeId, seq<NodeId>>, start: NodeId, k: nat, i: nat,
                 queue: seq<NodeId>, visited: set<NodeId>, out: seq<NodeId>)
    requires Walking(adj, start, k, i, queue, visited, out)
    requires queue != [] && queue[0] in visited
    ensures Walking(adj, start, k, i, queue[1..], visited, out)
  {
    hide Draining, Level, Seen, Upto;
    DrainSkip(adj, Level(adj, start, k), Seen(adj, start, k - 1), Seen(adj, start, k), i, queue, visited);
  }

  lemma WalkAdvance(adj: map<NodeId, seq<NodeId>>, start: NodeId, k: nat,
                    queue: seq<NodeId>, visited: set<NodeId>, out: seq<NodeId>)
    requires Walking(adj, start, k, |Level(adj, start, k)|, queue, visited, out)
    ensures Walking(adj, start, k + 1, 0, queue, visited, out)
  {
    var level := Level(adj, start, k);
    assert level[..|level|] == level;
    DrainNext(adj, level, Seen(adj, start, k - 1), Seen(adj, start, k), queue, visited);
    assert out == Upto(adj, start, k);
    hide Draining, Upto;
    assert Level(adj, start, k + 1)[..0] == [];
  }

  lemma WalkVisit(adj: map<NodeId, seq<NodeId>>, start: NodeId, k: nat, i: nat,
                  queue: seq<NodeId>, visited: set<NodeId>, out: seq<NodeId>, pushed: seq<NodeId>)
    requires Walking(adj, start, k, i, queue, visited, out) && i < |Level(adj, start, k)|
    requires queue != [] && queue[0] !in visited
    requires FilteredBy(Succ(adj, queue[0]), pushed, visited + {queue[0]})
    ensures Walking(adj, start, k, i + 1, queue[1..] + pushed, visited + {queue[0]}, out + [queue[0]])
  {
    hide Draining, Level, Seen, Upto, FilteredBy, Succ;
    var level := Level(adj, start, k);
    DrainVisit(adj, level, Seen(adj, start, k - 1), Seen(adj, start, k), i, queue, visited, pushed);
    assert level[..i + 1] == level[..i] + [queue[0]];
  }

  lemma WalkInLevel(adj: map<NodeId, seq<NodeId>>, start: NodeId, k: nat, i: nat,
                    queue: seq<NodeId>, visited: set<NodeId>, out: seq<NodeId>)
    requires Walking(adj, start, k, i, queue, visited, out)
    ensures i <= |Level(adj, start, k)|
  {
  }

  lemma QueueNonEmpty(adj: map<NodeId, seq<NodeId>>, start: NodeId, k: nat,
                      queue: seq<NodeId>, visited: set<NodeId>, out: seq<NodeId>)
    requires Walking(adj, start, k, 0, queue, visited, out)
    requires queue != [] && queue[0] !in visited
    ensures Level(adj, start, k) != []
  {
    assert queue == [queue[0]] + queue[1..];
    FreshFront(queue[0], queue[1..], visited);
  }

  lemma DrainDone(adj: map<NodeId, seq<NodeId>>, start: NodeId, k: nat, i: nat, visited: set<NodeId>, out: seq<NodeId>)
    requires Walking(adj, start, k, i, [], visited, out)
    ensures ClosureFrom(adj, start, out)
  {
    var level := Level(adj, start, k);
    FreshNothing(visited);
    assert level[i..] == [] && level[..i] == level;
    assert out == Upto(adj, start, k) && Level(adj, start, k + 1) == [];
    ClosureOfUpto(adj, start, k);
  }

  lemma WalkStart(adj: map<NodeId, seq<NodeId>>, start: NodeId)
    ensures Walking(adj, start, 1, 0, Succ(adj, start), {start}, [])
  {
    DrainStart(adj, start);
    assert Level(adj, start, 1)[..0] == [];
  }

  /** Breadth-first containment walk in one direction, cycle-safe, excluding the
      start: the exact transitive closure on every graph. */
  method WalkContainment(g: HierGraph, start: NodeId, dir: Dir) returns (out: seq<NodeId>)
    ensures ClosureFrom(DirAdjacency(g, dir), start, out)
  {
    hide Walking, ClosureFrom, FilteredBy, Level, Positions, DirAdjacency, IsIndex, Universe, Succ;
    ghost var adj := DirAdjacency(g, dir);
    var index := BuildIndex(g.nodes);
    out := [];
    var visited := {start};
    var queue := [];
    if start in index {
      queue := Step(g.nodes[index[start]], dir);
    }
    DirSucc(g, dir, start);
    WalkStart(adj, start);
    ghost var k, i := 1, 0;
    forall x, y | y in Succ(adj, x)
      ensures y in Universe(adj, start)
    {
      SuccInUniverse(adj, start, x, y);
    }
    while queue != []
      invariant Walking(adj, start, k, i, queue, visited, out)
      invariant forall x :: x in queue ==> x in Universe(adj, start)
      decreases Universe(adj, start) - visited, |queue|
    {
      var cur := queue[0];
      if cur in visited {
        WalkSkip(adj, start, k, i, queue, visited, out);
        queue := queue[1..];
        continue;
      }
      WalkInLevel(adj, start, k, i, queue, visited, out);
      if i == |Level(adj, start, k)| {
        WalkAdvance(adj, start, k, queue, visited, out);
        k, i := k + 1, 0;
        QueueNonEmpty(adj, start, k, queue, visited, out);
      }
      out := out + [cur];
      var next := [];
      if cur in index {
        next := Step(g.nodes[index[cur]], dir);
      }
      DirSucc(g, dir, cur);
      var pushed := Unvisited(next, visited + {cur});
      WalkVisit(adj, start, k, i, queue, visited, out[..|out| - 1], pushed);
      queue, visited := queue[1..] + pushed, visited + {cur};
      i := i + 1;
    }
    DrainDone(adj, start, k, i, visited, out);
  }

  /** The ancestors of `start`: on a well-formed graph, everything that reaches it. */
  method Ancestors(g: HierGraph, start: NodeId) returns (out: seq<NodeId>)
    ensures ClosureFrom(DirAdjacency(g, Up), start, out)
    ensures WellFormed(g) ==> forall y :: y in out <==> y != start && Reaches(Containment(g), y, start)
  {
    out := WalkContainment(g, start, Up);
    if WellFormed(g) {
      forall y
        ensures y in out <==> y != start && Reaches(Containment(g), y, start)
      {
        AncestorsAreReaching(g, start, y, out);
      }
    }
  }

  /** The descendants of `start`: on a well-formed graph, everything it reaches. */
  method Descendants(g: HierGraph, start: NodeId) returns (out: seq<NodeId>)
    ensures ClosureFrom(DirAdjacency(g, Down), start, out)
    ensures WellFormed(g) ==> forall y :: y in out <==> y != start && Reaches(Containment(g), start, y)
  {
    out := WalkContainment(g, start, Down);
    if WellFormed(g) {
      DirAdjacencyPairs(g, Down);
    }
  }

  lemma AncestorsAreReaching(g: HierGraph, start: NodeId, y: NodeId, out: seq<NodeId>)
    requires WellFormed(g) && ClosureFrom(DirAdjacency(g, Up), start, out)
    ensures y in out <==> y != start && Reaches(Containment(g), y, start)
  {
    hide Reaches;
    DirAdjacencyPairs(g, Up);
    ReachesReversed(Containment(g), y, start);
  }

  /** The two directions agree: `y` is an ancestor of `x` exactly when `x` is a
      descendant of `y`. */
  lemma AncestorDescendantDual(g: HierGraph, x: NodeId, y: NodeId, above: seq<NodeId>, below: seq<NodeId>)
    requires WellFormed(g)
    requires ClosureFrom(DirAdjacency(g, Up), x, above)
    requires ClosureFrom(DirAdjacency(g, Down), y, below)
    ensures y in above <==> x in below
  {
    hide Reaches;
    AncestorsAreReaching(g, x, y, above);
    DirAdjacencyPairs(g, Down);
  }

  // ----- The primary ancestor chain -----

  /** `chain` follows first-listed parents from `start` without repetition. */
  ghost predicate FirstParents(up: map<NodeId, seq<NodeId>>, start: NodeId, chain: seq<NodeId>) {
    && NoDup(chain)
    && (chain != [] ==> chain[0] == start)
    && (forall i :: 0 <= i < |chain| ==> chain[i] in up)
    && (forall i :: 0 <= i < |chain| - 1 ==> Succ(up, chain[i]) != [] && chain[i + 1] == Succ(up, chain[i])[0])
  }

  /** The id the chain continues with, if any. */
  function NextOf(up: map<NodeId, seq<NodeId>>, start: NodeId, chain: seq<NodeId>): Option<NodeId> {
    if chain == [] then Some(start)
    else
      var parents := Succ(up, chain[|chain| - 1]);
      if parents == [] then None else Some(parents[0])
  }

  /** The whole chain: it stops at a root, at an unknown id, or just before a repeat. */
  ghost predicate PrimaryChain(g: HierGraph, start: NodeId, chain: seq<NodeId>) {
    var up := DirAdjacency(g, Up);
    && FirstParents(up, start, chain)
    && var next := NextOf(up, start, chain);
       next.None? || next.value !in up || next.value in chain
  }

  lemma ChainGrows(up: map<NodeId, seq<NodeId>>, start: NodeId, chain: seq<NodeId>, cur: NodeId)
    requires FirstParents(up, start, chain) && NextOf(up, start, chain) == Some(cur)
    requires cur in up && cur !in chain
    ensures FirstParents(up, start, chain + [cur])
    ensures NextOf(up, start, chain + [cur]) == if Succ(up, cur) == [] then None else Some(Succ(up, cur)[0])
  {
    hide Succ;
  }

  /** The deterministic primary path up from `start`. */
  method AncestorChain(g: HierGraph, start: NodeId) returns (chain: seq<NodeId>)
    ensures PrimaryChain(g, start, chain)
    ensures forall i :: 0 < i < |chain| ==> chain[i] != start && Reaches(Pairs(DirAdjacency(g, Up)), start, chain[i])
  {
    hide Positions, IsIndex, Pairs, Reaches, FirstParents, NextOf, Succ;
    ghost var up := DirAdjacency(g, Up);
    var index := BuildIndex(g.nodes);
    chain := [];
    var visited := {};
    var cur := start;
    ChainStarts(up, start);
    while cur in index
      invariant visited == Elems(chain) && visited <= index.Keys
      invariant FirstParents(up, start, chain) && NextOf(up, start, chain) == Some(cur)
      decreases index.Keys - visited
    {
      if cur in visited {
        break;
      }
      DirSucc(g, Up, cur);
      ChainGrows(up, start, chain, cur);
      visited := visited + {cur};
      chain := chain + [cur];
      var parents := g.nodes[index[cur]].parents;
      if parents == [] {
        break;
      }
      cur := parents[0];
    }
    assert up.Keys == index.Keys;
    ChainWithinAncestors(g, start, chain);
  }

  lemma ChainStarts(up: map<NodeId, seq<NodeId>>, start: NodeId)
    ensures FirstParents(up, start, []) && NextOf(up, start, []) == Some(start)
  {
  }

  lemma ChainWithinAncestors(g: HierGraph, start: NodeId, chain: seq<NodeId>)
    requires PrimaryChain(g, start, chain)
    ensures forall i :: 0 < i < |chain| ==> chain[i] != start && Reaches(Pairs(DirAdjacency(g, Up)), start, chain[i])
  {
    hide Pairs, Positions, Reaches, DirAdjacency;
    var up := DirAdjacency(g, Up);
    for n := 0 to |chain|
      invariant forall i :: 0 <= i < n ==> Reaches(Pairs(up), start, chain[i])
    {
      if n == 0 {
        ReachesSelf(Pairs(up), start);
      } else {
        PairsHas(up, chain[n - 1], chain[n]);
        ReachesEdge(Pairs(up), chain[n - 1], chain[n]);
        ReachesTransitive(Pairs(up), start, chain[n - 1], chain[n]);
      }
    }
  }
}
