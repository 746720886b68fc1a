/** Content-hash duplicate grouping behind a size pre-filter, against naive
    grouping of all readable files by size and hash. */
module Dedup {
  import opened Lists
  import opened Wrappers

  datatype FileStat = FileStat(path: string, mtime: int, size: nat)

  datatype DuplicateGroup = DuplicateGroup(hash: string, size: nat, paths: seq<string>)

  const U64_MAX: nat := 0xFFFF_FFFF_FFFF_FFFF

  /** Bytes saved by keeping one copy; the product saturates. */
  function ReclaimableBytes(g: DuplicateGroup): nat {
    var copies := if |g.paths| == 0 then 0 else |g.paths| - 1;
    var bytes := g.size * copies;
    if bytes > U64_MAX then U64_MAX else bytes
  }

  /** The bytes all paths of a group take together. */
  function TotalBytes(paths: seq<string>, size: nat): nat {
    if paths == [] then 0 else size + TotalBytes(paths[1..], size)
  }

  lemma {:induction false} TotalIs(paths: seq<string>, size: nat)
    ensures TotalBytes(paths, size) == size * |paths|
  {
    if paths != [] {
      TotalIs(paths[1..], size);
      assert size * |paths| == size + size * (|paths| - 1);
    }
  }

  /** What a group frees: all it takes but one copy, as far as 64 bits can say. */
  lemma ReclaimableIs(g: DuplicateGroup)
    requires g.paths != []
    ensures var freed := TotalBytes(g.paths, g.size) - g.size;
            ReclaimableBytes(g) == if freed <= 0xFFFF_FFFF_FFFF_FFFF then freed else 0xFFFF_FFFF_FFFF_FFFF
  {
    TotalIs(g.paths, g.size);
    assert g.size * |g.paths| == g.size + g.size * (|g.paths| - 1);
  }

  // ----- Naive grouping -----

  /** The paths of every readable file with this size and hash, in input order. */
  function ClassOf(files: seq<FileStat>, hash: string -> Option<string>, size: nat, h: string): seq<string> {
    if files == [] then []
    else
      var r, f := ClassOf(files[..|files| - 1], hash, size, h), files[|files| - 1];
      if f.size == size && hash(f.path) == Some(h) then r + [f.path] else r
  }

  function OfSize(files: seq<FileStat>, size: nat): seq<FileStat> {
    if files == [] then []
    else
      var r, f := OfSize(files[..|files| - 1], size), files[|files| - 1];
      if f.size == size then r + [f] else r
  }

  /** A class can be read off its own size bucket. */
  lemma {:induction false} BucketHoldsClass(files: seq<FileStat>, hash: string -> Option<string>, size: nat, h: string)
    ensures ClassOf(OfSize(files, size), hash, size, h) == ClassOf(files, hash, size, h)
  {
    if files != [] {
      var init, f := files[..|files| - 1], files[|files| - 1];
      BucketHoldsClass(init, hash, size, h);
      var bucket := OfSize(init, size);
      if f.size == size {
        assert (bucket + [f])[..|bucket|] == bucket;
      }
    }
  }

  lemma {:induction false} ClassNoLarger(files: seq<FileStat>, hash: string -> Option<string>, size: nat, h: string)
    ensures |ClassOf(files, hash, size, h)| <= |files|
  {
    if files != [] {
      ClassNoLarger(files[..|files| - 1], hash, size, h);
    }
  }

  lemma {:induction false} OfSizeAll(files: seq<FileStat>, size: nat)
    ensures forall f :: f in OfSize(files, size) ==> f.size == size
    ensures OfSize(files, size) == [] <==> forall f :: f in files ==> f.size != size
  {
    if files != [] {
      var init, f := files[..|files| - 1], files[|files| - 1];
      OfSizeAll(init, size);
      assert files == init + [f];
    }
  }

  /** Members keep the input order: the class of a list is that of its first part
      followed by that of the rest. */
  lemma {:induction false} ClassConcat(a: seq<FileStat>, b: seq<FileStat>, hash: string -> Option<string>, size: nat,
                                       h: string)
    ensures ClassOf(a + b, hash, size, h) == ClassOf(a, hash, size, h) + ClassOf(b, hash, size, h)
  {
    if b == [] {
      assert a + b == a;
    } else {
      assert (a + b)[..|a + b| - 1] == a + b[..|b| - 1];
      ClassConcat(a, b[..|b| - 1], hash, size, h);
    }
  }

  // ----- Sorting -----

  ghost predicate SortedDown(groups: seq<DuplicateGroup>) {
    forall i, j :: 0 <= i < j < |groups| ==> ReclaimableBytes(groups[i]) >= ReclaimableBytes(groups[j])
  }

  /** `g` put behind every group that saves at least as much. */
  function Inserted(groups: seq<DuplicateGroup>, g: DuplicateGroup): seq<DuplicateGroup> {
    if groups == [] then [g]
    else if ReclaimableBytes(groups[|groups| - 1]) >= ReclaimableBytes(g) then groups + [g]
    else Inserted(groups[..|groups| - 1], g) + [groups[|groups| - 1]]
  }

  /** Stable sort by reclaimable bytes, most first. */
  function SortedByReclaimable(groups: seq<DuplicateGroup>): seq<DuplicateGroup> {
    if groups == [] then [] else Inserted(SortedByReclaimable(groups[..|groups| - 1]), groups[|groups| - 1])
  }

  lemma {:induction false} InsertedIs(groups: seq<DuplicateGroup>, g: DuplicateGroup)
    requires SortedDown(groups)
    ensures SortedDown(Inserted(groups, g))
    ensures multiset(Inserted(groups, g)) == multiset(groups) + multiset{g}
  {
    hide ReclaimableBytes;
    if groups != [] {
      var init, last := groups[..|groups| - 1], groups[|groups| - 1];
      assert groups == init + [last];
      if ReclaimableBytes(last) < ReclaimableBytes(g) {
        InsertedIs(init, g);
        var r := Inserted(init, g);
        forall i | 0 <= i < |r|
          ensures ReclaimableBytes(r[i]) >= ReclaimableBytes(last)
        {
          assert r[i] in multiset(r);
          if r[i] != g {
            assert r[i] in multiset(init);
          }
        }
      }
    }
  }

  lemma {:induction false} SortIs(groups: seq<DuplicateGroup>)
    ensures SortedDown(SortedByReclaimable(groups))
    ensures multiset(SortedByReclaimable(groups)) == multiset(groups)
  {
    hide SortedDown, Inserted;
    if groups == [] {
      NothingSorted();
    } else {
      var init, last := groups[..|groups| - 1], groups[|groups| - 1];
      SortIs(init);
      InsertedIs(SortedByReclaimable(init), last);
      assert groups == init + [last];
    }
  }

  lemma NothingSorted()
    ensures SortedDown([])
  {
  }

  // ----- The grouper -----

  /** The files of each size, in input order; no entry for a size nobody has. */
  ghost predicate SizeBuckets(bySize: map<nat, seq<FileStat>>, files: seq<FileStat>) {
    && (forall size :: size in bySize ==> bySize[size] == OfSize(files, size) && bySize[size] != [])
    && (forall size :: size !in bySize ==> OfSize(files, size) == [])
  }

  method BucketBySize(files: seq<FileStat>) returns (bySize: map<nat, seq<FileStat>>)
    ensures SizeBuckets(bySize, files)
  {
    bySize := map[];
    for i := 0 to |files|
      invariant SizeBuckets(bySize, files[..i])
    {
      var f := files[i];
      assert files[..i + 1][..i] == files[..i];
      bySize := bySize[f.size := (if f.size in bySize then bySize[f.size] else []) + [f]];
    }
    assert files[..|files|] == files;
  }

  /** `byHash` holds exactly the non-empty classes `paths` describes, and `order`
      lists its keys once each. */
  ghost predicate Holds(byHash: map<(nat, string), seq<string>>, order: seq<(nat, string)>,
                        paths: (nat, string) -> seq<string>)
  {
    && (forall k :: k in byHash <==> paths(k.0, k.1) != [])
    && (forall k :: k in byHash ==> byHash[k] == paths(k.0, k.1))
    && (forall k :: k in order <==> k in byHash)
    && (forall i, j :: 0 <= i < j < |order| ==> order[i] != order[j])
  }

  /** What the classes are once the sizes of `done` have been read; a size only
      one file has is never read. */
  ghost function Classes(files: seq<FileStat>, hash: string -> Option<string>, done: set<nat>)
    : (nat, string) -> seq<string>
  {
    (size: nat, h: string) =>
      if size in done && |OfSize(files, size)| >= 2 then ClassOf(files, hash, size, h) else []
  }

  /** The same halfway through one bucket. */
  ghost function Partial(base: (nat, string) -> seq<string>, bucket: seq<FileStat>, hash: string -> Option<string>,
                         cur: nat)
    : (nat, string) -> seq<string>
  {
    (size: nat, h: string) => if size == cur then ClassOf(bucket, hash, size, h) else base(size, h)
  }

  /** Read one bucket of files that share a size. */
  method HashBucket(bucket: seq<FileStat>, hash: string -> Option<string>, size: nat,
                    byHash0: map<(nat, string), seq<string>>, order0: seq<(nat, string)>,
                    ghost base: (nat, string) -> seq<string>)
    returns (byHash: map<(nat, string), seq<string>>, order: seq<(nat, string)>)
    requires forall f :: f in bucket ==> f.size == size
    requires Holds(byHash0, order0, base) && forall h :: base(size, h) == []
    ensures Holds(byHash, order, Partial(base, bucket, hash, size))
  {
    byHash, order := byHash0, order0;
    assert forall h :: ClassOf([], hash, size, h) == [];
    HoldsSame(byHash, order, base, Partial(base, [], hash, size));
    for i := 0 to |bucket|
      invariant Holds(byHash, order, Partial(base, bucket[..i], hash, size))
    {
      var f := bucket[i];
      assert bucket[..i + 1][..i] == bucket[..i];
      var before := Partial(base, bucket[..i], hash, size);
      var h := hash(f.path);
      if h.None? {
        assert forall k :: ClassOf(bucket[..i + 1], hash, size, k) == ClassOf(bucket[..i], hash, size, k);
        HoldsSame(byHash, order, before, Partial(base, bucket[..i + 1], hash, size));
        continue;
      }
      var key := (size, h.value);
      HoldsPush(byHash, order, before, Partial(base, bucket[..i + 1], hash, size), key, f.path);
      if key !in byHash {
        order := order + [key];
      }
      byHash := byHash[key := (if key in byHash then byHash[key] else []) + [f.path]];
    }
    assert bucket[..|bucket|] == bucket;
  }

  lemma HoldsSame(byHash: map<(nat, string), seq<string>>, order: seq<(nat, string)>,
                  a: (nat, string) -> seq<string>, b: (nat, string) -> seq<string>)
    requires Holds(byHash, order, a) && forall s: nat, h :: a(s, h) == b(s, h)
    ensures Holds(byHash, order, b)
  {
  }

  lemma HoldsPush(byHash: map<(nat, string), seq<string>>, order: seq<(nat, string)>,
                  a: (nat, string) -> seq<string>, b: (nat, string) -> seq<string>, key: (nat, string), path: string)
    requires Holds(byHash, order, a)
    requires forall s: nat, h :: b(s, h) == if (s, h) == key then a(s, h) + [path] else a(s, h)
    ensures Holds(byHash[key := (if key in byHash then byHash[key] else []) + [path]],
                  if key in byHash then order else order + [key], b)
  {
    assert a(key.0, key.1) == if key in byHash then byHash[key] else [];
  }

  lemma BucketDone(files: seq<FileStat>, hash: string -> Option<string>, size: nat, done: set<nat>)
    requires |OfSize(files, size)| >= 2
    ensures forall s: nat, h ::
              Partial(Classes(files, hash, done), OfSize(files, size), hash, size)(s, h)
              == Classes(files, hash, done + {size})(s, h)
  {
    forall h
      ensures ClassOf(OfSize(files, size), hash, size, h) == ClassOf(files, hash, size, h)
    {
      BucketHoldsClass(files, hash, size, h);
    }
    hide ClassOf, OfSize;
  }

  /** Turn the keys, in order, into groups; a class of one is not a group. */
  method Collect(byHash: map<(nat, string), seq<string>>, order: seq<(nat, string)>)
      returns (groups: seq<DuplicateGroup>)
    requires NoDup(order) && forall k :: k in order <==> k in byHash
    ensures NoDup(groups)
    ensures forall g :: g in groups <==>
              (g.size, g.hash) in byHash && g.paths == byHash[(g.size, g.hash)] && |g.paths| >= 2
  {
    groups := [];
    var left := byHash;
    for i := 0 to |order|
      invariant forall j :: i <= j < |order| ==> order[j] in left && left[order[j]] == byHash[order[j]]
      invariant NoDup(groups)
      invariant forall g :: g in groups <==>
                  (g.size, g.hash) in order[..i] && g.paths == byHash[(g.size, g.hash)] && |g.paths| >= 2
    {
      var key := order[i];
      assert order[..i + 1] == order[..i] + [key];
      assert key !in order[..i];
      var paths := left[key];
      left := left - {key};
      if |paths| < 2 {
        continue;
      }
      groups := groups + [DuplicateGroup(key.1, key.0, paths)];
    }
    assert order[..|order|] == order;
  }

  lemma {:induction false} CountAtMostOne<T>(s: seq<T>, x: T)
    requires NoDup(s)
    ensures multiset(s)[x] <= 1
  {
    if s != [] {
      var init, last := s[..|s| - 1], s[|s| - 1];
      assert s == init + [last];
      CountAtMostOne(init, x);
      assert last !in init;
    }
  }

  /** A rearrangement of distinct things is distinct. */
  lemma RearrangedNoDup<T>(a: seq<T>, b: seq<T>)
    requires NoDup(a) && multiset(a) == multiset(b)
    ensures NoDup(b)
  {
    forall i, j | 0 <= i < j < |b|
      ensures b[i] != b[j]
    {
      CountAtMostOne(a, b[j]);
      if b[i] == b[j] {
        CountTwice(b, i, j);
      }
    }
  }

  lemma CountTwice<T>(s: seq<T>, i: nat, j: nat)
    requires i < j < |s| && s[i] == s[j]
    ensures multiset(s)[s[j]] >= 2
  {
    var l, r := s[..j], s[j..];
    assert s == l + r;
    assert l[i] in multiset(l) && r[0] in multiset(r);
  }

  lemma SameMembers<T>(a: seq<T>, b: seq<T>)
    requires multiset(a) == multiset(b)
    ensures forall x :: x in a <==> x in b
  {
    assert forall x :: x in a <==> x in multiset(a);
    assert forall x :: x in b <==> x in multiset(b);
  }

  /** With every size read, only classes of a size one file has are missing, and
      those have one member. */
  lemma AllClasses(files: seq<FileStat>, hash: string -> Option<string>, done: set<nat>, size: nat, h: string)
    requires forall z :: z !in done ==> OfSize(files, z) == []
    ensures |ClassOf(files, hash, size, h)| >= 2 ==>
              Classes(files, hash, done)(size, h) == ClassOf(files, hash, size, h)
    ensures Classes(files, hash, done)(size, h) in {[], ClassOf(files, hash, size, h)}
  {
    BucketHoldsClass(files, hash, size, h);
    ClassNoLarger(OfSize(files, size), hash, size, h);
  }

  /** `groups` are exactly the naive classes with at least two members, once each. */
  ghost predicate IsGrouping(files: seq<FileStat>, hash: string -> Option<string>, groups: seq<DuplicateGroup>) {
    && NoDup(groups)
    && forall g :: g in groups <==> |g.paths| >= 2 && g.paths == ClassOf(files, hash, g.size, g.hash)
  }

  /** The groups: exactly the naive classes with at least two members, each once,
      input order kept inside, biggest savings first, whatever order the size
      table is iterated in. */
  method GroupFileStats(files: seq<FileStat>, hash: string -> Option<string>) returns (groups: seq<DuplicateGroup>)
    ensures IsGrouping(files, hash, groups)
    ensures SortedDown(groups)
  {
    hide ClassOf, OfSize, Partial, Classes;
    var bySize := BucketBySize(files);
    var byHash: map<(nat, string), seq<string>>, order: seq<(nat, string)> := map[], [];
    var todo := bySize.Keys;
    ghost var done: set<nat> := {};
    NothingRead(files, hash);
    while todo != {}
      invariant done + todo == bySize.Keys && done !! todo
      invariant Holds(byHash, order, Classes(files, hash, done))
      decreases todo
    {
      var size :| size in todo;
      var bucket := bySize[size];
      ghost var before, after := Classes(files, hash, done), Classes(files, hash, done + {size});
      ClassesGrow(files, hash, done, size);
      if |bucket| < 2 {
        HoldsSame(byHash, order, before, after);
      } else {
        OfSizeAll(files, size);
        byHash, order := HashBucket(bucket, hash, size, byHash, order, before);
        BucketDone(files, hash, size, done);
        HoldsSame(byHash, order, Partial(before, bucket, hash, size), after);
      }
      todo, done := todo - {size}, done + {size};
    }
    groups := Collect(byHash, order);
    forall g
      ensures g in groups <==> |g.paths| >= 2 && g.paths == ClassOf(files, hash, g.size, g.hash)
    {
      AllClasses(files, hash, done, g.size, g.hash);
    }
    SortIs(groups);
    RearrangedNoDup(groups, SortedByReclaimable(groups));
    SameMembers(groups, SortedByReclaimable(groups));
    groups := SortedByReclaimable(groups);
  }

  lemma NothingRead(files: seq<FileStat>, hash: string -> Option<string>)
    ensures Holds(map[], [], Classes(files, hash, {}))
  {
  }

  lemma ClassesGrow(files: seq<FileStat>, hash: string -> Option<string>, done: set<nat>, size: nat)
    requires size !in done
    ensures forall h :: Classes(files, hash, done)(size, h) == []
    ensures |OfSize(files, size)| < 2 ==>
              forall s: nat, h :: Classes(files, hash, done)(s, h) == Classes(files, hash, done + {size})(s, h)
  {
    hide ClassOf, OfSize;
  }

  /** Groups have different keys, so no readable file falls in two of them. */
  lemma GroupsApart(files: seq<FileStat>, hash: string -> Option<string>, groups: seq<DuplicateGroup>, i: nat, j: nat)
    requires IsGrouping(files, hash, groups) && i < j < |groups|
    ensures (groups[i].size, groups[i].hash) != (groups[j].size, groups[j].hash)
  {
    assert groups[i] in groups && groups[j] in groups;
  }

  predicate InClass(f: FileStat, hash: string -> Option<string>, size: nat, h: string) {
    f.size == size && hash(f.path) == Some(h)
  }

  ghost predicate Alone(files: seq<FileStat>, hash: string -> Option<string>, i: nat, size: nat, h: string) {
    forall j :: 0 <= j < |files| && j != i ==> !InClass(files[j], hash, size, h)
  }

  lemma {:induction false} ClassSizes(files: seq<FileStat>, hash: string -> Option<string>, size: nat, h: string)
    ensures ClassOf(files, hash, size, h) == [] <==> Alone(files, hash, |files|, size, h)
    ensures |ClassOf(files, hash, size, h)| <= 1 <==> exists i: nat :: Alone(files, hash, i, size, h)
  {
    if files == [] {
      assert Alone(files, hash, 0, size, h);
    } else {
      var n := |files| - 1;
      var init, f := files[..n], files[n];
      ClassSizes(init, hash, size, h);
      var r := ClassOf(init, hash, size, h);
      if r == [] {
        assert Alone(files, hash, n, size, h);
      } else if InClass(f, hash, size, h) {
        var j :| 0 <= j < n && InClass(init[j], hash, size, h);
        forall i: nat
          ensures !Alone(files, hash, i, size, h)
        {
          assert InClass(files[j], hash, size, h) && InClass(files[n], hash, size, h);
        }
      } else if i: nat :| Alone(init, hash, i, size, h) {
        var k := if i < n then i else n + 1;
        assert Alone(files, hash, k, size, h);
      } else if i: nat :| Alone(files, hash, i, size, h) {
        assert Alone(init, hash, i, size, h);
      }
    }
  }

  /** A readable file is put in a group exactly when some other file of the input
      has its size and its hash. */
  lemma GroupedIffShared(files: seq<FileStat>, hash: string -> Option<string>, groups: seq<DuplicateGroup>, i: nat,
                         h: string)
    requires IsGrouping(files, hash, groups) && i < |files| && hash(files[i].path) == Some(h)
    ensures (exists g :: g in groups && g.size == files[i].size && g.hash == h) <==>
            exists j :: 0 <= j < |files| && j != i && InClass(files[j], hash, files[i].size, h)
  {
    var size := files[i].size;
    ClassSizes(files, hash, size, h);
    var paths := ClassOf(files, hash, size, h);
    if j :| 0 <= j < |files| && j != i && InClass(files[j], hash, size, h) {
      forall k: nat
        ensures !Alone(files, hash, k, size, h)
      {
        assert InClass(files[i], hash, size, h);
      }
      assert DuplicateGroup(h, size, paths) in groups;
    } else {
      assert Alone(files, hash, i, size, h);
    }
  }
}
