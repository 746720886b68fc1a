/** Walks, reachability and distance in a finite binary relation, and what
    identifying two points does to reachability. This is the reference the
    queue-driven walks and the merge are measured against. */
module Paths {

  /** `y` can be reached from `x` by a walk of exactly `k` edges of `e`. */
  ghost predicate Hops<T(!new)>(e: set<(T, T)>, x: T, y: T, k: nat)
    decreases k
  {
    if k == 0 then x == y
    else exists z :: Hops(e, x, z, k - 1) && (z, y) in e
  }

  /** `y` lies in the reflexive-transitive closure of `x`. */
  ghost predicate Reaches<T(!new)>(e: set<(T, T)>, x: T, y: T) {
    exists k: nat :: Hops(e, x, y, k)
  }

  /** The shortest walk from `x` to `y` has exactly `k` edges. */
  ghost predicate IsDistance<T(!new)>(e: set<(T, T)>, x: T, y: T, k: nat) {
    Hops(e, x, y, k) && forall j: nat :: j < k ==> !Hops(e, x, y, j)
  }

  ghost function Reversed<T(!new)>(e: set<(T, T)>): set<(T, T)> {
    set p | p in e :: (p.1, p.0)
  }

  lemma ReversedHas<T(!new)>(e: set<(T, T)>, x: T, y: T)
    ensures (x, y) in Reversed(e) <==> (y, x) in e
  {
    if (y, x) in e {
      assert ((y, x).1, (y, x).0) == (x, y);
    }
  }

  lemma {:induction false} HopsConcat<T(!new)>(e: set<(T, T)>, x: T, y: T, z: T, j: nat, k: nat)
    requires Hops(e, x, y, j) && Hops(e, y, z, k)
    ensures Hops(e, x, z, j + k)
    decreases k
  {
    if k > 0 {
      var w :| Hops(e, y, w, k - 1) && (w, z) in e;
      HopsConcat(e, x, y, w, j, k - 1);
      assert Hops(e, x, w, j + k - 1);
    }
  }

  lemma HopsExtend<T(!new)>(e: set<(T, T)>, x: T, y: T, z: T, k: nat)
    requires Hops(e, x, y, k) && (y, z) in e
    ensures Hops(e, x, z, k + 1)
  {
  }

  lemma HopsLast<T(!new)>(e: set<(T, T)>, x: T, z: T, k: nat) returns (y: T)
    requires k > 0 && Hops(e, x, z, k)
    ensures Hops(e, x, y, k - 1) && (y, z) in e
  {
    y :| Hops(e, x, y, k - 1) && (y, z) in e;
  }

  lemma ReachesTransitive<T(!new)>(e: set<(T, T)>, x: T, y: T, z: T)
    requires Reaches(e, x, y) && Reaches(e, y, z)
    ensures Reaches(e, x, z)
  {
    var j: nat :| Hops(e, x, y, j);
    var k: nat :| Hops(e, y, z, k);
    HopsConcat(e, x, y, z, j, k);
  }

  lemma ReachesSelf<T(!new)>(e: set<(T, T)>, x: T)
    ensures Reaches(e, x, x)
  {
    assert Hops(e, x, x, 0);
  }

  lemma ReachesEdge<T(!new)>(e: set<(T, T)>, x: T, y: T)
    requires (x, y) in e
    ensures Reaches(e, x, y)
  {
    assert Hops(e, x, x, 0);
    assert Hops(e, x, y, 1);
  }

  /** A walk read backwards is a walk of the same length in the reversed relation. */
  lemma {:induction false} HopsReversed<T(!new)>(e: set<(T, T)>, x: T, y: T, k: nat)
    requires Hops(e, x, y, k)
    ensures Hops(Reversed(e), y, x, k)
    decreases k
  {
    if k > 0 {
      var z :| Hops(e, x, z, k - 1) && (z, y) in e;
      HopsReversed(e, x, z, k - 1);
      ReversedHas(e, y, z);
      var r := Reversed(e);
      assert Hops(r, y, y, 0);
      assert Hops(r, y, z, 1);
      HopsConcat(r, y, z, x, 1, k - 1);
    }
  }

  lemma ReversedTwice<T(!new)>(e: set<(T, T)>)
    ensures Reversed(Reversed(e)) == e
  {
    forall p | p in Reversed(Reversed(e)) || p in e
      ensures p in Reversed(Reversed(e)) && p in e
    {
      ReversedHas(e, p.1, p.0);
      ReversedHas(Reversed(e), p.0, p.1);
    }
  }

  lemma ReachesReversed<T(!new)>(e: set<(T, T)>, x: T, y: T)
    ensures Reaches(Reversed(e), y, x) <==> Reaches(e, x, y)
  {
    if Reaches(e, x, y) {
      var k: nat :| Hops(e, x, y, k);
      HopsReversed(e, x, y, k);
    }
    if Reaches(Reversed(e), y, x) {
      var k: nat :| Hops(Reversed(e), y, x, k);
      HopsReversed(Reversed(e), y, x, k);
      ReversedTwice(e);
    }
  }

  /** In a symmetric relation distance is symmetric. */
  lemma DistanceSymmetric<T(!new)>(e: set<(T, T)>, x: T, y: T, k: nat)
    requires Reversed(e) == e
    ensures IsDistance(e, x, y, k) <==> IsDistance(e, y, x, k)
  {
    forall j: nat
      ensures Hops(e, x, y, j) <==> Hops(e, y, x, j)
    {
      if Hops(e, x, y, j) { HopsReversed(e, x, y, j); }
      if Hops(e, y, x, j) { HopsReversed(e, y, x, j); }
    }
  }

  // ----- Identifying two points -----

  function Rename<T(==)>(x: T, alias: T, primary: T): T {
    if x == alias then primary else x
  }

  /** The relation with `alias` identified with `primary`, self-loops dropped. */
  ghost function Collapse<T(!new)>(e: set<(T, T)>, alias: T, primary: T): set<(T, T)> {
    set p | p in e && Rename(p.0, alias, primary) != Rename(p.1, alias, primary)
      :: (Rename(p.0, alias, primary), Rename(p.1, alias, primary))
  }

  lemma CollapseReversed<T(!new)>(e: set<(T, T)>, alias: T, primary: T)
    ensures Collapse(Reversed(e), alias, primary) == Reversed(Collapse(e, alias, primary))
  {
    var l, r := Collapse(Reversed(e), alias, primary), Reversed(Collapse(e, alias, primary));
    forall q | q in l
      ensures q in r
    {
      var p :| p in Reversed(e) && q == (Rename(p.0, alias, primary), Rename(p.1, alias, primary)) && q.0 != q.1;
      ReversedHas(e, p.0, p.1);
      assert (q.1, q.0) in Collapse(e, alias, primary) by { assert (p.1, p.0) in e; }
      ReversedHas(Collapse(e, alias, primary), q.0, q.1);
    }
    forall q | q in r
      ensures q in l
    {
      ReversedHas(Collapse(e, alias, primary), q.0, q.1);
      var p :| p in e && (q.1, q.0) == (Rename(p.0, alias, primary), Rename(p.1, alias, primary)) && q.0 != q.1;
      ReversedHas(e, p.1, p.0);
      assert (p.1, p.0) in Reversed(e);
    }
  }

  /** Every old walk survives the identification. */
  lemma {:induction false} CollapseKeepsHops<T(!new)>(e: set<(T, T)>, alias: T, primary: T, x: T, y: T, k: nat)
    requires Hops(e, x, y, k)
    ensures Reaches(Collapse(e, alias, primary), Rename(x, alias, primary), Rename(y, alias, primary))
    decreases k
  {
    var c := Collapse(e, alias, primary);
    var x', y' := Rename(x, alias, primary), Rename(y, alias, primary);
    if k == 0 {
      ReachesSelf(c, x');
    } else {
      var z :| Hops(e, x, z, k - 1) && (z, y) in e;
      var z' := Rename(z, alias, primary);
      CollapseKeepsHops(e, alias, primary, x, z, k - 1);
      if z' != y' {
        assert (Rename((z, y).0, alias, primary), Rename((z, y).1, alias, primary)) in c;
        ReachesEdge(c, z', y');
        ReachesTransitive(c, x', z', y');
      }
    }
  }

  /** `x` reaches one of the two points that are about to be identified. */
  ghost predicate Touches<T(!new)>(e: set<(T, T)>, alias: T, primary: T, x: T) {
    Reaches(e, x, primary) || Reaches(e, x, alias)
  }

  /** What `x` can reach once the two points are one: what it reached before,
      and everything below either point when it touches them. */
  ghost predicate ReachesThrough<T(!new)>(e: set<(T, T)>, alias: T, primary: T, x: T, y: T) {
    if y == primary then Touches(e, alias, primary, x)
    else
      || Reaches(e, x, y)
      || (Touches(e, alias, primary, x) && (Reaches(e, primary, y) || Reaches(e, alias, y)))
  }

  lemma {:induction false} CollapseAddsNothing<T(!new)>(e: set<(T, T)>, alias: T, primary: T, x: T, y: T, k: nat)
    requires primary != alias && x != alias && y != alias
    requires Hops(Collapse(e, alias, primary), x, y, k)
    ensures ReachesThrough(e, alias, primary, x, y)
    decreases k
  {
    if k == 0 {
      ReachesSelf(e, x);
    } else {
      var c := Collapse(e, alias, primary);
      var z :| Hops(c, x, z, k - 1) && (z, y) in c;
      var p :| p in e && (z, y) == (Rename(p.0, alias, primary), Rename(p.1, alias, primary)) && z != y;
      var (u, v) := p;
      CollapseAddsNothing(e, alias, primary, x, z, k - 1);
      ReachesEdge(e, u, v);
      assert y != primary ==> v == y;
      assert z != primary ==> u == z;
      forall w | Reaches(e, w, u)
        ensures Reaches(e, w, v)
      {
        ReachesTransitive(e, w, u, v);
      }
    }
  }

  /** The identification theorem: reachability between surviving points is
      exactly what the two points together had, on cyclic relations too. */
  lemma CollapseReachability<T(!new)>(e: set<(T, T)>, alias: T, primary: T, x: T, y: T)
    requires primary != alias && x != alias && y != alias
    ensures Reaches(Collapse(e, alias, primary), x, y) <==> ReachesThrough(e, alias, primary, x, y)
  {
    var c := Collapse(e, alias, primary);
    forall a, b | Reaches(e, a, b)
      ensures Reaches(c, Rename(a, alias, primary), Rename(b, alias, primary))
    {
      var k: nat :| Hops(e, a, b, k);
      CollapseKeepsHops(e, alias, primary, a, b, k);
    }
    if Reaches(c, x, y) {
      var k: nat :| Hops(c, x, y, k);
      CollapseAddsNothing(e, alias, primary, x, y, k);
    }
    if ReachesThrough(e, alias, primary, x, y) {
      if Touches(e, alias, primary, x) {
        assert Reaches(c, x, primary);
        if Reaches(e, primary, y) || Reaches(e, alias, y) {
          ReachesTransitive(c, x, primary, y);
        }
      }
    }
  }
}
