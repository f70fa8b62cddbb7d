/** The shape of trees that are built from resources and spliced, as merging and compacting need it. */
module BuiltShape {
  import opened Names
  import opened Topology
  import opened Merge
  import opened DeadCode
  import opened Splice
  import opened Compact
  import opened MergeSplice
  import opened LinkBuild
  import opened Restore

  // ----- order -----

  ghost predicate OrderedTree(t: Tree)
  {
    Ordered(t.children) && forall c | c in t.children :: OrderedTree(c)
  }

  /** No two siblings anywhere share a name. */
  ghost predicate DistinctTree(t: Tree)
  {
    (forall i, j | 0 <= i < j < |t.children| :: t.children[i].name != t.children[j].name) &&
    forall c | c in t.children :: DistinctTree(c)
  }

  lemma {:induction false} OrderedDistinctSorted(t: Tree)
    requires OrderedTree(t) && DistinctTree(t)
    ensures SortedTree(t)
  {
    forall i, j | 0 <= i < j < |t.children| ensures Less(t.children[i].name, t.children[j].name) {
      CompareTrichotomy(t.children[i].name, t.children[j].name);
    }
    forall c | c in t.children ensures SortedTree(c) {
      OrderedDistinctSorted(c);
    }
  }

  lemma {:induction false} AddedAllOrdered(done: seq<Tree>, rest: seq<Tree>)
    requires Ordered(done)
    ensures Ordered(AddedAll(done, rest))
    decreases rest
  {
    if rest != [] {
      InsertKeepsOrdered(done, rest[0]);
      AddedAllOrdered(Insert(done, rest[0]), rest[1..]);
    }
  }

  lemma {:induction false} BuiltOrdered(ls: Levels, o: Resource, level: nat)
    requires level < BASE_LEVELS && Built(ls, o, level).Some?
    ensures OrderedTree(Built(ls, o, level).value)
    decreases BASE_LEVELS - level, 0
  {
    var ts := BuiltAll(ls, References(o), level + 1).value;
    AllBuiltOrdered(ls, References(o), level + 1);
    AddedAllOrdered([], ts);
    AddedAllIn([], ts);
  }

  lemma {:induction false} AllBuiltOrdered(ls: Levels, rs: seq<Reference>, level: nat)
    requires level <= BASE_LEVELS && BuiltAll(ls, rs, level).Some?
    ensures forall t | t in BuiltAll(ls, rs, level).value :: OrderedTree(t)
    decreases BASE_LEVELS - level, 1 + |rs|
  {
    if rs != [] {
      BuiltOrdered(ls, ls[level][rs[0].name], level);
      AllBuiltOrdered(ls, rs[1..], level);
    }
  }

  // ----- links and actions -----

  lemma {:induction false} PlainAt(t: Tree, p: Path)
    requires Plain(t) == t && At(t, p).Some?
    ensures Plain(At(t, p).value) == At(t, p).value
    decreases |p|
  {
    if p != [] {
      var c := Child(t.children, p[0]).value;
      var i :| 0 <= i < |t.children| && t.children[i] == c;
      assert Plain(t).children[i] == Plain(c);
      PlainAt(c, p[1..]);
    }
  }

  /** Trees without links and actions have no selectors and nothing to delete. */
  lemma PlainStripped(t: Tree)
    requires Plain(t) == t
    ensures SelectorsStripped(t) && NothingDeleted(t)
  {
    forall p: Path | At(t, p).Some?
      ensures At(t, p).value.action != Delete
      ensures At(t, p).value.spec.ScopeSpec? ==> At(t, p).value.spec.collections == None
    {
      PlainAt(t, p);
    }
  }

  // ----- levels -----

  /** What a well-formed tree of each level is. */
  ghost predicate ShapeOk(level: nat, t: Tree)
  {
    if level == 0 then BucketOk(t) else if level == 1 then ScopeOk(t) else level == 2 && CollectionOk(t)
  }

  lemma PlainChild(t: Tree, i: nat)
    requires Plain(t) == t && i < |t.children|
    ensures Plain(t.children[i]) == t.children[i]
  {
    assert Plain(t).children[i] == Plain(t.children[i]);
  }

  lemma CollectionShape(t: Tree)
    requires Layered(t, 2)
    ensures CollectionOk(t)
  {}

  lemma ScopeShape(t: Tree)
    requires Layered(t, 1) && Nameable(t) && Plain(t) == t
    ensures ScopeOk(t)
  {
    forall c | c in t.children ensures CollectionOk(c) {
      CollectionShape(c);
    }
  }

  lemma BucketShape(t: Tree)
    requires Layered(t, 0) && Nameable(t) && Plain(t) == t && Sorted(t.children)
    ensures BucketOk(t) && (t.spec.MemcachedBucketSpec? ==> t.children == [])
  {
    forall c | c in t.children ensures ScopeOk(c) {
      var i :| 0 <= i < |t.children| && t.children[i] == c;
      PlainChild(t, i);
      ScopeShape(c);
    }
  }

  lemma LevelShape(t: Tree, level: nat)
    requires level < BASE_LEVELS && Layered(t, level) && Nameable(t) && Plain(t) == t && Sorted(t.children)
    ensures ShapeOk(level, t)
  {
    if level == 0 {
      BucketShape(t);
    } else if level == 1 {
      ScopeShape(t);
    } else {
      CollectionShape(t);
    }
  }

  // ----- built roots -----

  lemma {:induction false} FiledFiling(objects: seq<Resource>)
    requires forall o | o in objects :: o.name != ""
    ensures Filing(Filed(objects))
  {
    if objects != [] {
      FiledFiling(objects[..|objects| - 1]);
      PutFiling(Filed(objects[..|objects| - 1]), objects[|objects| - 1]);
    }
  }

  lemma PutFiling(ls: Levels, o: Resource)
    requires Filing(ls) && o.name != ""
    ensures Filing(Put(ls, o))
  {
    forall l, n | 0 <= l < BASE_LEVELS && n in Put(ls, o)[l] ensures FiledAs(Put(ls, o)[l][n], l, n) {
      assert n in ls[l] ==> FiledAs(ls[l][n], l, n);
    }
  }

  /** The tree is what building the objects from the level on gives, for some order of the roots. */
  ghost predicate BuiltFrom(objects: seq<Resource>, level: nat, t: Tree)
  {
    level < BASE_LEVELS && t.spec == RootSpec && t.action == Unset &&
    exists order :: BuiltInOrder(objects, level, t.children, order)
  }

  ghost predicate BuiltInOrder(objects: seq<Resource>, level: nat, kids: seq<Tree>, order: seq<string>)
    requires level < BASE_LEVELS
  {
    var b := BuiltAll(Filed(objects), ByName(order), level);
    b.Some? && kids == AddedAll([], b.value)
  }

  /** Every tree that building makes from resources, if no two siblings share a name, is sorted, has the shape of
      its level and neither selectors nor deletions. */
  lemma BuiltRootShape(objects: seq<Resource>, level: nat, t: Tree)
    requires BuiltFrom(objects, level, t) && DistinctTree(t) && forall o | o in objects :: o.name != ""
    ensures SortedTree(t) && (forall k | k in t.children :: ShapeOk(level, k)) && (level == 0 ==> RootOk(t))
    ensures SelectorsStripped(t) && NothingDeleted(t)
    ensures level == 0 ==> forall b | b in t.children && b.spec.MemcachedBucketSpec? :: b.children == []
  {
    var order :| BuiltInOrder(objects, level, t.children, order);
    var ls, refs := Filed(objects), ByName(order);
    var ts := BuiltAll(ls, refs, level).value;
    FiledFiling(objects);
    AllBuiltQualify(ls, refs, level);
    AllBuiltOrdered(ls, refs, level);
    AddedAllOrdered([], ts);
    AddedAllIn([], ts);
    hide Filed, BuiltAll, AddedAll, Filing;
    assert OrderedTree(t);
    OrderedDistinctSorted(t);
    KidsShape(t, level);
  }

  lemma KidsShape(t: Tree, level: nat)
    requires level < BASE_LEVELS && SortedTree(t) && t.spec == RootSpec && t.action == Unset
    requires forall k | k in t.children :: Layered(k, level) && Nameable(k) && Plain(k) == k
    ensures (forall k | k in t.children :: ShapeOk(level, k)) && (level == 0 ==> RootOk(t))
    ensures SelectorsStripped(t) && NothingDeleted(t)
    ensures level == 0 ==> forall b | b in t.children && b.spec.MemcachedBucketSpec? :: b.children == []
  {
    forall k | k in t.children
      ensures ShapeOk(level, k) && (level == 0 && k.spec.MemcachedBucketSpec? ==> k.children == [])
    {
      LevelShape(k, level);
      if level == 0 {
        BucketShape(k);
      }
    }
    assert Plain(t).children == t.children;
    PlainStripped(t);
  }

  // ----- splicing -----

  lemma {:induction false} ReplaceChildIn(ts: seq<Tree>, name: string, t: Tree)
    ensures forall x | x in ReplaceChild(ts, name, t) :: x == t || x in ts
  {
    if ts != [] && ts[0].name != name {
      ReplaceChildIn(ts[1..], name, t);
    }
  }

  lemma ScopeSpliced(s: Tree, kids: seq<Tree>)
    requires ScopeOk(s) && forall k | k in kids :: CollectionOk(k)
    ensures ScopeOk(s.(children := kids))
  {}

  lemma BucketSpliced(b: Tree, elements: Path, kids: seq<Tree>)
    requires BucketOk(b) && |elements| <= 1 && Sorted(kids) && forall k | k in kids :: ShapeOk(1 + |elements|, k)
    requires SpliceTree(b, elements, kids).Some?
    ensures BucketOk(SpliceTree(b, elements, kids).value)
  {
    if elements != [] {
      var s := Child(b.children, elements[0]).value;
      var d := SpliceTree(s, elements[1..], kids).value;
      assert elements[1..] == [];
      ScopeSpliced(s, kids);
      ReplaceChildIn(b.children, elements[0], d);
      ReplaceChildSorted(b.children, elements[0], d);
    }
  }

  /** Splicing children of the level the path leads to into a topology gives a topology. */
  lemma SpliceKeepsRoot(c: Tree, elements: Path, kids: seq<Tree>)
    requires RootOk(c) && |elements| < BASE_LEVELS && Sorted(kids) && forall k | k in kids :: ShapeOk(|elements|, k)
    requires SpliceTree(c, elements, kids).Some?
    ensures RootOk(SpliceTree(c, elements, kids).value)
  {
    if elements != [] {
      var b := Child(c.children, elements[0]).value;
      BucketSpliced(b, elements[1..], kids);
      ReplaceChildIn(c.children, elements[0], SpliceTree(b, elements[1..], kids).value);
    }
  }

  // ----- the restore of what was built -----

  /** End to end, from resources: if the current topology and the save were built from resources, the restore's
      groups stand for exactly the wanted paths and specifications, provided that compaction succeeds, no bucket is
      confusable and no two siblings share a name. */
  lemma RestoreOfBuilt(live: seq<Resource>, saved: seq<Resource>, c: Tree, q: Tree, elements: Path, s: Strategy, p: Path)
    requires BuiltFrom(live, 0, c) && DistinctTree(c) && forall o | o in live :: o.name != ""
    requires |elements| < BASE_LEVELS && BuiltFrom(saved, |elements|, q) && DistinctTree(q) && forall o | o in saved :: o.name != ""
    requires Spliced(c, q, elements).Some?
    requires Compactable(Pruned(MergeTrees(c, Spliced(c, q, elements).value, s)))
    requires forall b | b in Pruned(MergeTrees(c, Spliced(c, q, elements).value, s)).children :: !Confusable(b)
    ensures var r := Spliced(c, q, elements).value;
            SpecAt(Expanded(Result(c, r, s)), p) == if Implied(c, r, s, p) then None else Wanted(c, r, s, p)
  {
    BuiltRootShape(live, 0, c);
    BuiltRootShape(saved, |elements|, q);
    SpliceKeepsRoot(c, elements, q.children);
    SpliceSorted(c, elements, q.children);
    hide SpliceTree, BuiltFrom, DistinctTree, RootOk, SortedTree;
    RestoreStandsFor(c, Spliced(c, q, elements).value, s, p);
  }
}
