/** The in-place list edits a merge makes: renaming an id, keeping its first
    occurrence, absorbing a second list, dropping an id. */
module MergeLists {
  import opened Paths
  import opened Lists
  import opened Hierarchy

  function Renamed(list: seq<NodeId>, from: NodeId, to: NodeId): seq<NodeId> {
    seq(|list|, i requires 0 <= i < |list| => Rename(list[i], from, to))
  }

  /** `list` with only the first occurrence of `x` kept. */
  function KeepFirst(list: seq<NodeId>, x: NodeId): seq<NodeId> {
    if list == [] then []
    else
      var init, last := list[..|list| - 1], list[|list| - 1];
      if last == x && x in init then KeepFirst(init, x) else KeepFirst(init, x) + [last]
  }

  /** `list` with `from` replaced by `to`, which is then listed at most once. */
  function Repointed(list: seq<NodeId>, from: NodeId, to: NodeId): seq<NodeId> {
    KeepFirst(Renamed(list, from, to), to)
  }

  function Without(list: seq<NodeId>, x: NodeId): seq<NodeId> {
    if list == [] then []
    else
      var init, last := list[..|list| - 1], list[|list| - 1];
      if last == x then Without(init, x) else Without(init, x) + [last]
  }

  /** `list` extended by the new ids of `extra`, `self` excepted. */
  function Absorbed(list: seq<NodeId>, extra: seq<NodeId>, self: NodeId): seq<NodeId> {
    if extra == [] then list
    else
      var r := Absorbed(list, extra[..|extra| - 1], self);
      var last := extra[|extra| - 1];
      if last != self && last !in r then r + [last] else r
  }

  // ----- The loops -----

  method Repoint(list: seq<NodeId>, from: NodeId, to: NodeId) returns (r: seq<NodeId>)
    ensures r == Repointed(list, from, to)
  {
    var renamed := list;
    for i := 0 to |list|
      invariant |renamed| == |list|
      invariant forall j :: 0 <= j < |list| ==> renamed[j] == if j < i then Rename(list[j], from, to) else list[j]
    {
      if renamed[i] == from {
        renamed := renamed[i := to];
      }
    }
    assert renamed == Renamed(list, from, to);
    r := [];
    var seen := false;
    for i := 0 to |renamed|
      invariant r == KeepFirst(renamed[..i], to)
      invariant seen <==> to in renamed[..i]
    {
      var id := renamed[i];
      assert renamed[..i + 1][..i] == renamed[..i];
      if id == to {
        if !seen {
          r := r + [id];
        }
        seen := true;
      } else {
        r := r + [id];
      }
    }
    assert renamed[..|renamed|] == renamed;
  }

  method Retain(list: seq<NodeId>, x: NodeId) returns (r: seq<NodeId>)
    ensures r == Without(list, x)
  {
    r := [];
    for i := 0 to |list|
      invariant r == Without(list[..i], x)
    {
      assert list[..i + 1][..i] == list[..i];
      if list[i] != x {
        r := r + [list[i]];
      }
    }
    assert list[..|list|] == list;
  }

  method Absorb(list: seq<NodeId>, extra: seq<NodeId>, self: NodeId) returns (r: seq<NodeId>)
    ensures r == Absorbed(list, extra, self)
  {
    r := list;
    for i := 0 to |extra|
      invariant r == Absorbed(list, extra[..i], self)
    {
      assert extra[..i + 1][..i] == extra[..i];
      if extra[i] != self && extra[i] !in r {
        r := r + [extra[i]];
      }
    }
    assert extra[..|extra|] == extra;
  }

  // ----- What the edited lists hold -----

  lemma RenamedHas(list: seq<NodeId>, from: NodeId, to: NodeId, y: NodeId)
    ensures y in Renamed(list, from, to) <==> exists v :: v in list && Rename(v, from, to) == y
  {
    var r := Renamed(list, from, to);
    forall v | v in list && Rename(v, from, to) == y
      ensures y in r
    {
      var i :| 0 <= i < |list| && list[i] == v;
      assert r[i] == y;
    }
  }

  lemma {:induction false} KeepFirstHas(list: seq<NodeId>, x: NodeId, y: NodeId)
    ensures y in KeepFirst(list, x) <==> y in list
  {
    if list != [] {
      var init, last := list[..|list| - 1], list[|list| - 1];
      assert list == init + [last];
      KeepFirstHas(init, x, y);
    }
  }

  lemma {:induction false} KeepFirstNoDup(list: seq<NodeId>, x: NodeId)
    requires forall i, j :: 0 <= i < j < |list| && list[i] == list[j] ==> list[i] == x
    ensures NoDup(KeepFirst(list, x))
  {
    if list != [] {
      var init, last := list[..|list| - 1], list[|list| - 1];
      KeepFirstNoDup(init, x);
      KeepFirstHas(init, x, last);
      hide KeepFirst;
      if last in init {
        var i :| 0 <= i < |init| && init[i] == last;
        assert list[i] == list[|list| - 1];
      }
    }
  }

  lemma RepointedHas(list: seq<NodeId>, from: NodeId, to: NodeId, y: NodeId)
    ensures y in Repointed(list, from, to) <==> exists v :: v in list && Rename(v, from, to) == y
  {
    RenamedHas(list, from, to, y);
    KeepFirstHas(Renamed(list, from, to), to, y);
    hide Renamed, KeepFirst;
  }

  lemma RepointedNoDup(list: seq<NodeId>, from: NodeId, to: NodeId)
    requires NoDup(list)
    ensures NoDup(Repointed(list, from, to))
  {
    var r := Renamed(list, from, to);
    KeepFirstNoDup(r, to);
  }

  lemma {:induction false} WithoutHas(list: seq<NodeId>, x: NodeId, y: NodeId)
    ensures y in Without(list, x) <==> y in list && y != x
  {
    if list != [] {
      var init, last := list[..|list| - 1], list[|list| - 1];
      assert list == init + [last];
      WithoutHas(init, x, y);
    }
  }

  lemma {:induction false} WithoutNoDup(list: seq<NodeId>, x: NodeId)
    requires NoDup(list)
    ensures NoDup(Without(list, x))
  {
    if list != [] {
      var init, last := list[..|list| - 1], list[|list| - 1];
      WithoutNoDup(init, x);
      WithoutHas(init, x, last);
    }
  }

  lemma {:induction false} AbsorbedHas(list: seq<NodeId>, extra: seq<NodeId>, self: NodeId, y: NodeId)
    ensures y in Absorbed(list, extra, self) <==> y in list || (y in extra && y != self)
  {
    if extra != [] {
      var init, last := extra[..|extra| - 1], extra[|extra| - 1];
      assert extra == init + [last];
      AbsorbedHas(list, init, self, y);
    }
  }

  lemma {:induction false} AbsorbedNoDup(list: seq<NodeId>, extra: seq<NodeId>, self: NodeId)
    requires NoDup(list)
    ensures NoDup(Absorbed(list, extra, self))
  {
    if extra != [] {
      AbsorbedNoDup(list, extra[..|extra| - 1], self);
    }
  }
}
