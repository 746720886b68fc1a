/** Breadth-first order as mathematics: the levels around a start point, each
    listed in discovery order. Both walks of the traversal module are proved to
    produce this order, so one theory serves two queue disciplines. */
module LevelOrder {
  import opened Lists
  import opened Paths

  /** The listed neighbours of `x`; none when `x` has no entry. */
  function Succ<T>(adj: map<T, seq<T>>, x: T): seq<T> {
    if x in adj then adj[x] else []
  }

  /** The edges an adjacency table stands for. */
  ghost function Pairs<T(!new)>(adj: map<T, seq<T>>): set<(T, T)> {
    set x, y | x in adj && y in adj[x] :: (x, y)
  }

  /** All neighbour lists of `xs`, one after the other. */
  function Flat<T>(adj: map<T, seq<T>>, xs: seq<T>): seq<T> {
    if xs == [] then [] else Flat(adj, xs[..|xs| - 1]) + Succ(adj, xs[|xs| - 1])
  }

  /** The first occurrences in `q` of values outside `seen`, in order. */
  function Fresh<T(==)>(q: seq<T>, seen: set<T>): seq<T> {
    if q == [] then []
    else
      var f := Fresh(q[..|q| - 1], seen);
      var last := q[|q| - 1];
      if last in seen || last in f then f else f + [last]
  }

  /** The points first met at distance `k`, in discovery order. */
  function Level<T(==)>(adj: map<T, seq<T>>, s: T, k: nat): seq<T>
    decreases k, 0
  {
    if k == 0 then [s] else Fresh(Flat(adj, Level(adj, s, k - 1)), Seen(adj, s, k - 1))
  }

  /** The points met at distance at most `k`. */
  function Seen<T(==)>(adj: map<T, seq<T>>, s: T, k: nat): set<T>
    decreases k, 1
  {
    if k == 0 then {s} else Seen(adj, s, k - 1) + Elems(Level(adj, s, k))
  }

  /** Levels 1 to `k`, concatenated. */
  function Upto<T(==)>(adj: map<T, seq<T>>, s: T, k: nat): seq<T> {
    if k == 0 then [] else Upto(adj, s, k - 1) + Level(adj, s, k)
  }

  // ----- Fresh -----

  lemma {:induction false} FreshHas<T>(q: seq<T>, seen: set<T>, x: T)
    ensures x in Fresh(q, seen) <==> x in q && x !in seen
  {
    if q != [] {
      FreshHas(q[..|q| - 1], seen, x);
      assert q == q[..|q| - 1] + [q[|q| - 1]];
    }
  }

  lemma {:induction false} FreshNoDup<T>(q: seq<T>, seen: set<T>)
    ensures NoDup(Fresh(q, seen))
  {
    if q != [] {
      FreshNoDup(q[..|q| - 1], seen);
    }
  }

  lemma {:induction false} FreshAppend<T>(q: seq<T>, r: seq<T>, seen: set<T>)
    ensures Fresh(q + r, seen) == Fresh(q, seen) + Fresh(r, seen + Elems(q))
  {
    if r == [] {
      assert q + r == q;
    } else {
      var init, last := r[..|r| - 1], r[|r| - 1];
      FreshAppend(q, init, seen);
      assert (q + r)[..|q + r| - 1] == q + init;
      FreshHas(q, seen, last);
      var f, g := Fresh(q, seen), Fresh(init, seen + Elems(q));
      assert last in f + g <==> last in f || last in g;
      assert (f + g) + [last] == f + (g + [last]);
    }
  }

  /** Values already seen may be left out of the queue. */
  lemma {:induction false} FreshIgnoresSeen<T>(q: seq<T>, r: seq<T>, seen: set<T>, more: set<T>)
    requires FilteredBy(q, r, seen) && seen <= more
    ensures Fresh(r, more) == Fresh(q, more)
  {
    if q != [] {
      var init, last := q[..|q| - 1], q[|q| - 1];
      FreshIgnoresSeen(init, if last in seen then r else r[..|r| - 1], seen, more);
    }
  }

  lemma FreshSingle<T>(x: T, seen: set<T>)
    ensures Fresh([x], seen) == if x in seen then [] else [x]
    ensures Elems([x]) == {x}
  {
    assert [x][..0] == [];
  }

  lemma FreshFront<T>(x: T, q: seq<T>, seen: set<T>)
    ensures Fresh([x] + q, seen) == if x in seen then Fresh(q, seen) else [x] + Fresh(q, seen + {x})
  {
    FreshAppend([x], q, seen);
    FreshSingle(x, seen);
    if x in seen {
      assert seen + {x} == seen;
    }
  }

  /** Adding what is fresh in `q` to `seen` is adding all of `q`. */
  lemma SeenPlusFresh<T>(q: seq<T>, seen: set<T>)
    ensures seen + Elems(Fresh(q, seen)) == seen + Elems(q)
  {
    var f := Fresh(q, seen);
    forall x
      ensures x in f <==> x in q && x !in seen
    {
      FreshHas(q, seen, x);
    }
    assert forall x :: x in Elems(f) <==> x in f;
    assert forall x :: x in Elems(q) <==> x in q;
  }

  /** `r` is `q` with the values of `seen` left out. */
  ghost predicate FilteredBy<T>(q: seq<T>, r: seq<T>, seen: set<T>) {
    if q == [] then r == []
    else
      var init, last := q[..|q| - 1], q[|q| - 1];
      if last in seen then FilteredBy(init, r, seen)
      else r != [] && r[|r| - 1] == last && FilteredBy(init, r[..|r| - 1], seen)
  }

  // ----- Flat -----

  lemma FlatSnoc<T>(adj: map<T, seq<T>>, xs: seq<T>, i: nat)
    requires i < |xs|
    ensures Flat(adj, xs[..i + 1]) == Flat(adj, xs[..i]) + Succ(adj, xs[i])
  {
    assert xs[..i + 1][..i] == xs[..i];
  }

  lemma {:induction false} FlatHas<T>(adj: map<T, seq<T>>, xs: seq<T>, y: T)
    ensures y in Flat(adj, xs) <==> exists x :: x in xs && y in Succ(adj, x)
  {
    if xs != [] {
      var init, last := xs[..|xs| - 1], xs[|xs| - 1];
      FlatHas(adj, init, y);
      assert xs == init + [last];
    }
  }

  lemma PairsHas<T(!new)>(adj: map<T, seq<T>>, x: T, y: T)
    ensures (x, y) in Pairs(adj) <==> y in Succ(adj, x)
  {
  }

  // ----- Levels are distance classes -----

  lemma LevelUnseen<T>(adj: map<T, seq<T>>, s: T, k: nat, y: T)
    requires k > 0 && y in Level(adj, s, k)
    ensures y !in Seen(adj, s, k - 1)
  {
    FreshHas(Flat(adj, Level(adj, s, k - 1)), Seen(adj, s, k - 1), y);
  }

  lemma LevelParent<T>(adj: map<T, seq<T>>, s: T, k: nat, y: T) returns (x: T)
    requires k > 0 && y in Level(adj, s, k)
    ensures x in Level(adj, s, k - 1) && y in Succ(adj, x)
  {
    FreshHas(Flat(adj, Level(adj, s, k - 1)), Seen(adj, s, k - 1), y);
    FlatHas(adj, Level(adj, s, k - 1), y);
    x :| x in Level(adj, s, k - 1) && y in Succ(adj, x);
  }

  lemma LevelMeets<T>(adj: map<T, seq<T>>, s: T, k: nat, x: T, y: T)
    requires x in Level(adj, s, k) && y in Succ(adj, x)
    ensures y in Seen(adj, s, k) || y in Level(adj, s, k + 1)
  {
    FreshHas(Flat(adj, Level(adj, s, k)), Seen(adj, s, k), y);
    FlatHas(adj, Level(adj, s, k), y);
  }

  lemma SeenHas<T>(adj: map<T, seq<T>>, s: T, k: nat, y: T)
    requires k > 0
    ensures y in Seen(adj, s, k) <==> y in Seen(adj, s, k - 1) || y in Level(adj, s, k)
  {
  }

  /** Everything one edge beyond `Seen(k)` is in `Seen(k + 1)`. */
  lemma {:induction false} SeenClosed<T>(adj: map<T, seq<T>>, s: T, k: nat, x: T, y: T)
    requires x in Seen(adj, s, k) && y in Succ(adj, x)
    ensures y in Seen(adj, s, k + 1)
  {
    hide Level, Seen;
    var j := SeenAtLevel(adj, s, k, x);
    LevelMeets(adj, s, j, x, y);
    SeenHas(adj, s, j + 1, y);
    SeenGrows(adj, s, j + 1, k + 1, y);
  }

  lemma {:induction false} LevelReached<T(!new)>(adj: map<T, seq<T>>, s: T, k: nat, y: T)
    requires y in Level(adj, s, k)
    ensures Hops(Pairs(adj), s, y, k)
  {
    if k > 0 {
      hide Level, Pairs, Succ, Hops;
      var x := LevelParent(adj, s, k, y);
      LevelReached(adj, s, k - 1, x);
      PairsHas(adj, x, y);
      HopsExtend(Pairs(adj), s, x, y, k - 1);
    }
  }

  lemma {:induction false} SeenAtLevel<T>(adj: map<T, seq<T>>, s: T, k: nat, y: T) returns (j: nat)
    requires y in Seen(adj, s, k)
    ensures j <= k && y in Level(adj, s, j)
  {
    if y in Level(adj, s, k) {
      j := k;
    } else {
      SeenHas(adj, s, k, y);
      j := SeenAtLevel(adj, s, k - 1, y);
    }
  }

  lemma {:induction false} SeenGrows<T>(adj: map<T, seq<T>>, s: T, j: nat, k: nat, y: T)
    requires j <= k && y in Seen(adj, s, j)
    ensures y in Seen(adj, s, k)
  {
    hide Seen;
    if j < k {
      SeenGrows(adj, s, j, k - 1, y);
      SeenHas(adj, s, k, y);
    }
  }

  lemma {:induction false} ReachedSeen<T(!new)>(adj: map<T, seq<T>>, s: T, k: nat, y: T)
    requires Hops(Pairs(adj), s, y, k)
    ensures y in Seen(adj, s, k)
  {
    if k > 0 {
      hide Level, Pairs, Hops;
      var z := HopsLast(Pairs(adj), s, y, k);
      ReachedSeen(adj, s, k - 1, z);
      PairsHas(adj, z, y);
      SeenClosed(adj, s, k - 1, z, y);
    }
  }

  lemma LevelNotNearer<T(!new)>(adj: map<T, seq<T>>, s: T, k: nat, y: T, i: nat)
    requires y in Level(adj, s, k) && i < k
    ensures !Hops(Pairs(adj), s, y, i)
  {
    hide Level, Seen, Hops, Pairs;
    if Hops(Pairs(adj), s, y, i) {
      ReachedSeen(adj, s, i, y);
      SeenGrows(adj, s, i, k - 1, y);
      LevelUnseen(adj, s, k, y);
      assert false;
    }
  }

  lemma DistanceInLevel<T(!new)>(adj: map<T, seq<T>>, s: T, k: nat, y: T)
    requires IsDistance(Pairs(adj), s, y, k)
    ensures y in Level(adj, s, k)
  {
    hide Level, Seen, Pairs;
    ReachedSeen(adj, s, k, y);
    var j := SeenAtLevel(adj, s, k, y);
    LevelReached(adj, s, j, y);
  }

  /** Level `k` is exactly the set of points at distance `k`. */
  lemma LevelIsDistance<T(!new)>(adj: map<T, seq<T>>, s: T, k: nat, y: T)
    ensures y in Level(adj, s, k) <==> IsDistance(Pairs(adj), s, y, k)
  {
    if y in Level(adj, s, k) {
      LevelReached(adj, s, k, y);
      forall i: nat | i < k
        ensures !Hops(Pairs(adj), s, y, i)
      {
        LevelNotNearer(adj, s, k, y, i);
      }
    } else if IsDistance(Pairs(adj), s, y, k) {
      DistanceInLevel(adj, s, k, y);
    }
  }

  lemma DistanceUnique<T(!new)>(e: set<(T, T)>, x: T, y: T, j: nat, k: nat)
    requires IsDistance(e, x, y, j) && IsDistance(e, x, y, k)
    ensures j == k
  {
  }

  lemma {:induction false} ReachesHasDistance<T(!new)>(e: set<(T, T)>, x: T, y: T, k: nat) returns (d: nat)
    requires Hops(e, x, y, k)
    ensures d <= k && IsDistance(e, x, y, d)
  {
    if j: nat :| j < k && Hops(e, x, y, j) {
      d := ReachesHasDistance(e, x, y, j);
    } else {
      d := k;
    }
  }

  // ----- The concatenated order -----

  lemma {:induction false} UptoHas<T>(adj: map<T, seq<T>>, s: T, k: nat, x: T)
    ensures x in Seen(adj, s, k) <==> x in Upto(adj, s, k) || x == s
  {
    hide Level;
    if k > 0 {
      UptoHas(adj, s, k - 1, x);
      SeenHas(adj, s, k, x);
    }
  }

  lemma {:induction false} UptoNoDup<T>(adj: map<T, seq<T>>, s: T, k: nat)
    ensures s !in Upto(adj, s, k) && NoDup(Upto(adj, s, k))
  {
    if k > 0 {
      UptoNoDup(adj, s, k - 1);
      hide Seen, NoDup;
      var a, b := Upto(adj, s, k - 1), Level(adj, s, k);
      FreshNoDup(Flat(adj, Level(adj, s, k - 1)), Seen(adj, s, k - 1));
      forall x | x in b
        ensures x != s && x !in a
      {
        LevelUnseen(adj, s, k, x);
        UptoHas(adj, s, k - 1, x);
      }
      NoDupConcat(a, b);
    }
  }

  /** Once a level is empty every later one is, so the order stops growing. */
  lemma {:induction false} EmptyLevelStays<T>(adj: map<T, seq<T>>, s: T, j: nat, k: nat)
    requires j < k && Level(adj, s, j + 1) == []
    ensures Level(adj, s, k) == [] && Upto(adj, s, k) == Upto(adj, s, j)
  {
    if k > j + 1 {
      EmptyLevelStays(adj, s, j, k - 1);
      assert Flat(adj, Level(adj, s, k - 1)) == [];
    }
  }

  /** A longer horizon only extends the order. */
  lemma {:induction false} UptoPrefix<T>(adj: map<T, seq<T>>, s: T, j: nat, k: nat)
    requires j <= k
    ensures Upto(adj, s, j) <= Upto(adj, s, k)
  {
    hide Level;
    if j < k {
      UptoPrefix(adj, s, j, k - 1);
    }
  }

  lemma {:induction false} UptoLong<T>(adj: map<T, seq<T>>, s: T, k: nat)
    requires Level(adj, s, k) != []
    ensures |Upto(adj, s, k)| >= k
  {
    if k > 0 {
      UptoLong(adj, s, k - 1);
    }
  }

  /** A finished order is the order of every horizon at least its own length. */
  lemma UptoStable<T>(adj: map<T, seq<T>>, s: T, k: nat, m: nat)
    requires Level(adj, s, k + 1) == [] && m >= |Upto(adj, s, k)|
    ensures Upto(adj, s, m) == Upto(adj, s, k)
  {
    hide Upto, Level;
    if k < m {
      EmptyLevelStays(adj, s, k, m);
    } else if m < k {
      if Level(adj, s, m + 1) == [] {
        EmptyLevelStays(adj, s, m, k);
      } else {
        UptoLong(adj, s, m + 1);
        UptoPrefix(adj, s, m + 1, k);
        assert false;
      }
    }
  }

  /** Where position `i` of the order sits among the levels. */
  lemma {:induction false} UptoAt<T>(adj: map<T, seq<T>>, s: T, k: nat, i: nat) returns (d: nat)
    requires i < |Upto(adj, s, k)|
    ensures 1 <= d <= k && Upto(adj, s, k)[i] in Level(adj, s, d)
    ensures |Upto(adj, s, d - 1)| <= i < |Upto(adj, s, d)|
  {
    hide Level, Seen;
    if i < |Upto(adj, s, k - 1)| {
      d := UptoAt(adj, s, k - 1, i);
    } else {
      d := k;
    }
  }

  lemma UptoAtDistance<T(!new)>(adj: map<T, seq<T>>, s: T, k: nat, i: nat, a: nat)
    requires i < |Upto(adj, s, k)| && IsDistance(Pairs(adj), s, Upto(adj, s, k)[i], a)
    ensures 1 <= a && |Upto(adj, s, a - 1)| <= i < |Upto(adj, s, a)|
  {
    hide Level, Upto, Pairs, Hops, IsDistance;
    var d := UptoAt(adj, s, k, i);
    var y := Upto(adj, s, k)[i];
    LevelIsDistance(adj, s, d, y);
    DistanceUnique(Pairs(adj), s, y, d, a);
  }

  lemma UptoIndexOrder<T>(adj: map<T, seq<T>>, s: T, i: nat, j: nat, a: nat, b: nat)
    requires i < j && 1 <= a && |Upto(adj, s, a - 1)| <= i && j < |Upto(adj, s, b)|
    ensures a <= b
  {
    hide Upto;
    if b < a {
      UptoPrefix(adj, s, b, a - 1);
      assert false;
    }
  }

  /** Nearest first: distance never decreases along the order. */
  lemma UptoNearestFirst<T(!new)>(adj: map<T, seq<T>>, s: T, k: nat, i: nat, j: nat, a: nat, b: nat)
    requires i < j < |Upto(adj, s, k)|
    requires IsDistance(Pairs(adj), s, Upto(adj, s, k)[i], a)
    requires IsDistance(Pairs(adj), s, Upto(adj, s, k)[j], b)
    ensures a <= b
  {
    hide Level, Upto, Pairs, Hops, IsDistance;
    UptoAtDistance(adj, s, k, i, a);
    UptoAtDistance(adj, s, k, j, b);
    UptoIndexOrder(adj, s, i, j, a, b);
  }

  /** A finished order lists exactly what can be reached, the start excepted. */
  lemma UptoIsClosure<T(!new)>(adj: map<T, seq<T>>, s: T, k: nat, y: T)
    requires Level(adj, s, k + 1) == []
    ensures y in Upto(adj, s, k) <==> y != s && Reaches(Pairs(adj), s, y)
  {
    hide Level, Upto, Seen, Pairs, Hops;
    UptoHas(adj, s, k, y);
    UptoNoDup(adj, s, k);
    if y in Upto(adj, s, k) {
      var j := SeenAtLevel(adj, s, k, y);
      LevelReached(adj, s, j, y);
    } else if y != s && Reaches(Pairs(adj), s, y) {
      var d: nat :| Hops(Pairs(adj), s, y, d);
      ReachedSeen(adj, s, d, y);
      UptoHas(adj, s, d, y);
      if k < d {
        EmptyLevelStays(adj, s, k, d);
      } else {
        UptoPrefix(adj, s, d, k);
      }
      assert false;
    }
  }

  // ----- One level being drained -----

  /** A queue that may repeat ids, read modulo what was already visited: the
      rest of the level, then the part of the next level found so far. */
  ghost predicate Draining<T>(adj: map<T, seq<T>>, level: seq<T>, before: set<T>, now: set<T>,
                              i: nat, queue: seq<T>, visited: set<T>)
  {
    && i <= |level|
    && now == before + Elems(level)
    && visited == before + Elems(level[..i])
    && Fresh(queue, visited) == level[i..] + Fresh(Flat(adj, level[..i]), now)
  }

  lemma DrainSkip<T>(adj: map<T, seq<T>>, level: seq<T>, before: set<T>, now: set<T>,
                     i: nat, queue: seq<T>, visited: set<T>)
    requires Draining(adj, level, before, now, i, queue, visited)
    requires queue != [] && queue[0] in visited
    ensures Draining(adj, level, before, now, i, queue[1..], visited)
  {
    assert queue == [queue[0]] + queue[1..];
    FreshFront(queue[0], queue[1..], visited);
  }

  lemma DrainFront<T>(adj: map<T, seq<T>>, level: seq<T>, before: set<T>, now: set<T>,
                      i: nat, queue: seq<T>, visited: set<T>)
    requires Draining(adj, level, before, now, i, queue, visited) && i < |level|
    requires queue != [] && queue[0] !in visited
    ensures queue[0] == level[i]
    ensures Fresh(queue[1..], visited + {queue[0]}) == level[i + 1..] + Fresh(Flat(adj, level[..i]), now)
  {
    hide Fresh, Flat;
    assert queue == [queue[0]] + queue[1..];
    FreshFront(queue[0], queue[1..], visited);
    var f := Fresh(queue, visited);
    assert f[0] == level[i];
    assert f[1..] == level[i + 1..] + Fresh(Flat(adj, level[..i]), now);
  }

  lemma DrainVisit<T>(adj: map<T, seq<T>>, level: seq<T>, before: set<T>, now: set<T>,
                      i: nat, queue: seq<T>, visited: set<T>, pushed: seq<T>)
    requires Draining(adj, level, before, now, i, queue, visited) && i < |level|
    requires queue != [] && queue[0] !in visited
    requires FilteredBy(Succ(adj, queue[0]), pushed, visited + {queue[0]})
    ensures queue[0] == level[i]
    ensures Draining(adj, level, before, now, i + 1, queue[1..] + pushed, visited + {queue[0]})
  {
    hide Fresh, Flat, Succ;
    DrainFront(adj, level, before, now, i, queue, visited);
    var x, rest, found := queue[0], queue[1..], Flat(adj, level[..i]);
    var v := visited + {x};
    assert v == before + Elems(level[..i + 1]) by {
      assert level[..i + 1] == level[..i] + [x];
    }
    DrainSets(level, before, now, i, rest, v, found);
    calc {
      Fresh(rest + pushed, v);
      { FreshAppend(rest, pushed, v); }
      Fresh(rest, v) + Fresh(pushed, v + Elems(rest));
      { FreshIgnoresSeen(Succ(adj, x), pushed, v, v + Elems(rest)); }
      (level[i + 1..] + Fresh(found, now)) + Fresh(Succ(adj, x), now + Elems(found));
      level[i + 1..] + (Fresh(found, now) + Fresh(Succ(adj, x), now + Elems(found)));
      { FreshAppend(found, Succ(adj, x), now); }
      level[i + 1..] + Fresh(found + Succ(adj, x), now);
      { FlatSnoc(adj, level, i); }
      level[i + 1..] + Fresh(Flat(adj, level[..i + 1]), now);
    }
  }

  lemma DrainSets<T>(level: seq<T>, before: set<T>, now: set<T>, i: nat, rest: seq<T>, v: set<T>, found: seq<T>)
    requires i < |level| && now == before + Elems(level) && v == before + Elems(level[..i + 1])
    requires Fresh(rest, v) == level[i + 1..] + Fresh(found, now)
    ensures v + Elems(rest) == now + Elems(found)
  {
    SeenPlusFresh(rest, v);
    SeenPlusFresh(found, now);
    assert level == level[..i + 1] + level[i + 1..];
    forall y
      ensures y in v + Elems(rest) <==> y in now + Elems(found)
    {
      assert y in Fresh(rest, v) <==> y in level[i + 1..] || y in Fresh(found, now);
    }
  }

  /** A drained level hands over to the next one. */
  lemma DrainNext<T>(adj: map<T, seq<T>>, level: seq<T>, before: set<T>, now: set<T>,
                     queue: seq<T>, visited: set<T>)
    requires Draining(adj, level, before, now, |level|, queue, visited)
    ensures var next := Fresh(Flat(adj, level), now);
            Draining(adj, next, now, now + Elems(next), 0, queue, visited)
  {
    var next := Fresh(Flat(adj, level), now);
    assert level[..|level|] == level;
    assert next[..0] == [] && next[0..] == next;
    assert Fresh(Flat(adj, next[..0]), now + Elems(next)) == [];
  }
}
