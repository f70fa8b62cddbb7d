/** A restore from stored resources to new resources: build, splice, merge, compact and link. */
module RestoreResources {
  import opened Names
  import opened Topology
  import opened Merge
  import opened DeadCode
  import opened Splice
  import opened Compact
  import opened TreeNodes
  import opened MergeSplice
  import opened LinkBuild
  import opened BuildNodes
  import opened LinkNodes
  import opened Restore
  import opened BuiltShape
  import opened ResourceMeaning

  // ----- what linked resources stand for -----

  function AllMeant(rs: seq<Resource>, tops: seq<Resource>, depth: nat): seq<Tree>
  {
    if tops == [] then [] else Meant(rs, tops[0], depth) + AllMeant(rs, tops[1..], depth)
  }

  /** The topology the operator reads from resources, given those of its buckets. */
  function Read(rs: seq<Resource>, tops: seq<Resource>): Tree
  {
    Tree("", RootSpec, Unset, AllMeant(rs, tops, 2))
  }

  lemma {:induction false} AllMeantAsDescribed(rs: seq<Resource>, tops: seq<Resource>, ts: seq<Tree>, depth: nat)
    requires UniqueResources(rs) && |tops| == |ts|
    requires forall i | 0 <= i < |ts| :: Describes(rs, tops[i], ts[i]) && Describable(ts[i], depth)
    ensures AllMeant(rs, tops, depth) == AllExpanded(ts)
  {
    if ts != [] {
      MeantAsDescribed(rs, tops[0], ts[0], depth);
      AllMeantAsDescribed(rs, tops[1..], ts[1..], depth);
      assert ts == [ts[0]] + ts[1..];
      AllExpandedConcat([ts[0]], ts[1..]);
    }
  }

  lemma SameSpecs(a: Tree, b: Tree, p: Path)
    requires a.spec == b.spec && a.children == b.children
    ensures SpecAt(a, p) == SpecAt(b, p)
  {}

  // ----- the restore -----

  /** Building the resources, in whatever order, never gives two siblings one name. */
  ghost predicate NamesDiffer(objects: seq<Resource>, level: nat)
  {
    (forall o | o in objects :: o.name != "") && forall t | BuiltFrom(objects, level, t) :: DistinctTree(t)
  }

  /** What is left to compact when the save has been spliced and merged into the current tree. */
  function Remaining(c: Tree, q: Tree, elements: Path, s: Strategy): Tree
    requires Spliced(c, q, elements).Some?
  {
    Pruned(MergeTrees(c, Spliced(c, q, elements).value, s))
  }

  /** No bucket loses anything in compaction, and none has scopes that it cannot refer to. */
  predicate Expressible(t: Tree)
  {
    forall b | b in t.children :: !Confusable(b) && NoStrayScopes(b)
  }

  /** The resources are read as exactly the wanted paths and specifications. */
  ghost predicate ReadAsWanted(rs: seq<Resource>, tops: seq<Resource>, c: Tree, q: Tree, elements: Path, s: Strategy)
    requires Spliced(c, q, elements).Some?
  {
    forall p: Path :: SpecAt(Read(rs, tops), p) == WantedAt(c, q, elements, s, p)
  }

  ghost function WantedAt(c: Tree, q: Tree, elements: Path, s: Strategy, p: Path): Option<Spec>
    requires Spliced(c, q, elements).Some?
  {
    var r := Spliced(c, q, elements).value;
    if Implied(c, r, s, p) then None else Wanted(c, r, s, p)
  }

  /** A memcached bucket is left with scopes exactly when the merge strategy lays it over a bucket of its name, or a
      save is spliced in below it, and there is a scope which is not implied. */
  lemma StrayScopesIff(c: Tree, q: Tree, elements: Path, s: Strategy, name: string)
    requires SortedTree(c) && Sorted(q.children) && (forall k | k in q.children :: SortedTree(k))
    requires Spliced(c, q, elements).Some? && forall b | b in c.children :: NoStrayScopes(b)
    requires elements == [] ==> forall b | b in q.children :: NoStrayScopes(b)
    ensures var left := Child(Remaining(c, q, elements, s).children, name);
            var had, asked := Child(c.children, name), Child(q.children, name);
            left.Some? && !NoStrayScopes(left.value) <==>
              (elements == [name] && had.Some? && had.value.spec.MemcachedBucketSpec? && HasLasting(q.children)) ||
              (elements == [] && s.MergeStrategy? && asked.Some? && asked.value.spec.MemcachedBucketSpec? &&
               had.Some? && HasLasting(had.value.children))
  {
    var r := Spliced(c, q, elements).value;
    SpliceSorted(c, elements, q.children);
    SplicedChild(c, q.children, elements, name);
    hide MergeTrees, Pruned, SortedTree, SpliceTree, HasLasting;
    NothingLasts();
    StrayScopesAt(c, r, s, name);
  }

  lemma NothingLasts()
    ensures !HasLasting([])
  {}

  /** What a splice makes of the bucket of a name, if no memcached bucket has scopes. */
  lemma SplicedChild(c: Tree, kids: seq<Tree>, elements: Path, name: string)
    requires SpliceTree(c, elements, kids).Some? && forall b | b in c.children :: NoStrayScopes(b)
    ensures var had, asked := Child(c.children, name), Child(SpliceTree(c, elements, kids).value.children, name);
            if elements == [] then asked == Child(kids, name)
            else if elements == [name] then had.Some? && asked == Some(had.value.(children := kids))
            else asked.Some? && asked.value.spec.MemcachedBucketSpec? ==> asked == had
  {
    if elements != [] {
      var b := Child(c.children, elements[0]).value;
      var d := SpliceTree(b, elements[1..], kids).value;
      SpliceAt(b, elements[1..], kids, []);
      ReplaceChildChild(c.children, elements[0], d, name);
      if |elements| == 1 {
        assert elements[1..] == [] && elements == [elements[0]];
      }
    }
  }

  /** Laying a memcached bucket over one with two empty scopes is refused under the merge strategy. */
  lemma MergedMemcachedRefused()
    ensures var c := Tree("/", RootSpec, Unset, [Tree("m", BucketSpec("q"), Unset, [EmptyScope("s1"), EmptyScope("s2")])]);
            var q := Tree("/", RootSpec, Unset, [Tree("m", MemcachedBucketSpec("q"), Unset, [])]);
            !Compactable(Remaining(c, q, [], MergeStrategy))
  {
    var s1, s2 := EmptyScope("s1"), EmptyScope("s2");
    var had, asked := Tree("m", BucketSpec("q"), Unset, [s1, s2]), Tree("m", MemcachedBucketSpec("q"), Unset, []);
    var b := Tree("m", MemcachedBucketSpec("q"), Update, [s1, s2]);
    MemcachedScopesRefused(b);
    hide Compactable, RootOk;
    OnlyCurrent(had.children, MergeStrategy);
    var c, q := Tree("/", RootSpec, Unset, [had]), Tree("/", RootSpec, Unset, [asked]);
    assert WithAction(s1, Retain) == s1 && WithAction(s2, Retain) == s2;
    var marked := AllWithAction([s1, s2], Retain);
    assert marked[0] == s1 && marked[1] == s2 && marked == [s1, s2];
    assert MergeTrees(had, asked, MergeStrategy) == b;
    CompareTrichotomy("m", "m");
    assert [had][1..] == [] && [asked][1..] == [] && AllWithAction([], Create) == [];
    assert MergeChildren([], [], MergeStrategy) == [];
    assert MergeChildren([had], [asked], MergeStrategy) == [b] + [];
    assert MergeTrees(c, q, MergeStrategy) == Tree("/", RootSpec, Retain, [b]);
    PrunedSame(b, s1, s2);
  }

  lemma PrunedSame(b: Tree, s1: Tree, s2: Tree)
    requires b.children == [s1, s2] && s1.children == [] && s2.children == [] && !Dead(b) && !Dead(s1) && !Dead(s2)
    ensures Pruned(Tree("/", RootSpec, Retain, [b])) == Tree("/", RootSpec, Retain, [b])
  {
    assert [s1, s2][1..] == [s2] && [s2][1..] == [] && [b][1..] == [];
    assert Live([b]) == [b] && Live([s2]) == [s2] && Live([s1, s2]) == [s1, s2];
    assert Pruned(s1) == s1 && Pruned(s2) == s2;
    assert Pruned(b) == b;
  }

  /** The tree left over has names throughout. */
  lemma RemainingNamed(live: seq<Resource>, saved: seq<Resource>, c: Tree, q: Tree, elements: Path, s: Strategy)
    requires BuiltFrom(live, 0, c) && forall o | o in live :: o.name != ""
    requires |elements| < BASE_LEVELS && BuiltFrom(saved, |elements|, q) && forall o | o in saved :: o.name != ""
    requires Spliced(c, q, elements).Some?
    ensures NamedBelow(Remaining(c, q, elements, s))
  {
    BuiltNamed(live, 0, c);
    BuiltNamed(saved, |elements|, q);
    hide BuiltFrom, Pruned, MergeTrees;
    SplicedNamed(c, elements, q.children);
    MergedNamed(c, Spliced(c, q, elements).value, s);
    PrunedNamed(MergeTrees(c, Spliced(c, q, elements).value, s));
  }

  lemma BuiltNamed(objects: seq<Resource>, level: nat, t: Tree)
    requires BuiltFrom(objects, level, t) && forall o | o in objects :: o.name != ""
    ensures NamedBelow(t)
  {
    var order :| BuiltInOrder(objects, level, t.children, order);
    var ls, refs := Filed(objects), ByName(order);
    var ts := BuiltAll(ls, refs, level).value;
    FiledFiling(objects);
    AllBuiltQualify(ls, refs, level);
    AddedAllIn([], ts);
    forall k | k in t.children ensures NamedTree(k) {
      NameableNamed(k);
    }
  }

  /** What is left over has the shape of a topology. */
  lemma RemainingShape(live: seq<Resource>, saved: seq<Resource>, c: Tree, q: Tree, elements: Path, s: Strategy)
    requires BuiltFrom(live, 0, c) && NamesDiffer(live, 0)
    requires |elements| < BASE_LEVELS && BuiltFrom(saved, |elements|, q) && NamesDiffer(saved, |elements|)
    requires Spliced(c, q, elements).Some?
    ensures RootOk(Remaining(c, q, elements, s)) && NamedBelow(Remaining(c, q, elements, s))
  {
    RemainingNamed(live, saved, c, q, elements, s);
    BuiltRootShape(live, 0, c);
    BuiltRootShape(saved, |elements|, q);
    hide BuiltFrom, Pruned, MergeTrees, RootOk, SortedTree, SpliceTree;
    SpliceKeepsRoot(c, elements, q.children);
    SpliceSorted(c, elements, q.children);
    RootsMerge(c, Spliced(c, q, elements).value, s);
    PrunedRoot(MergeTrees(c, Spliced(c, q, elements).value, s));
  }

  /** Resources linked from the outcome are read as what was wanted. */
  lemma LinkedReadAsWanted(live: seq<Resource>, saved: seq<Resource>, c: Tree, q: Tree, elements: Path, s: Strategy,
                           rs: seq<Resource>, tops: seq<Resource>)
    requires BuiltFrom(live, 0, c) && NamesDiffer(live, 0)
    requires |elements| < BASE_LEVELS && BuiltFrom(saved, |elements|, q) && NamesDiffer(saved, |elements|)
    requires Spliced(c, q, elements).Some?
    requires Compactable(Remaining(c, q, elements, s)) && Expressible(Remaining(c, q, elements, s))
    requires UniqueResources(rs)
    requires var kids := Compacted(Remaining(c, q, elements, s)).children;
             |tops| == |kids| && forall i | 0 <= i < |kids| :: Describes(rs, tops[i], kids[i])
    ensures ReadAsWanted(rs, tops, c, q, elements, s)
  {
    hide BuiltFrom, Pruned, MergeTrees, Compactable, Compacted, Describes, UniqueResources, Confusable, SpliceTree;
    var m := Remaining(c, q, elements, s);
    RemainingShape(live, saved, c, q, elements, s);
    RootStays(m);
    CompactedLinkable(m);
    AllMeantAsDescribed(rs, tops, Compacted(m).children, 2);
    forall p: Path ensures SpecAt(Read(rs, tops), p) == WantedAt(c, q, elements, s, p) {
      hide DistinctTree, AllMeant, SpecAt, Implied, Wanted;
      SameSpecs(Read(rs, tops), Expanded(Compacted(m)), p);
      RestoreOfBuilt(live, saved, c, q, elements, s, p);
    }
  }

  /** Restores a save over the current topology, both built from resources. It fails exactly when the path leads
      nowhere or a group is asked for that does not exist, never in linking. The resources it ends with resolve
      each other, and unless a bucket is confusable or has scopes it cannot refer to they are read as exactly the
      wanted topology. */
  method RestoreAndLink(current: Node, requested: Node, elements: Path, s: Strategy, generate: nat -> string,
                        ghost live: seq<Resource>, ghost saved: seq<Resource>)
    returns (r: Option<seq<Resource>>, ghost tops: seq<Resource>)
    requires current.Valid() && requested.Valid() && forall i, j :: i != j ==> generate(i) != generate(j)
    requires BuiltFrom(live, 0, current.tree) && NamesDiffer(live, 0)
    requires |elements| < BASE_LEVELS && BuiltFrom(saved, |elements|, requested.tree) && NamesDiffer(saved, |elements|)
    ensures r.Some? <==>
              Spliced(current.tree, requested.tree, elements).Some? &&
              Compactable(Remaining(current.tree, requested.tree, elements, s))
    ensures r.Some? ==> Resolved(r.value) && forall o | o in r.value :: o.spec.IsBucket() <==> o in tops
    ensures r.Some? && Expressible(Remaining(current.tree, requested.tree, elements, s)) ==>
              ReadAsWanted(r.value, tops, current.tree, requested.tree, elements, s)
  {
    ghost var c, q := current.tree, requested.tree;
    BuiltRootShape(live, 0, c);
    BuiltRootShape(saved, |elements|, q);
    hide BuiltFrom, Pruned, MergeTrees, RootOk, SortedTree, Compactable, Compacted, Describes, Expressible, ReadAsWanted, DistinctTree;
    var restored := RestoreTopology(current, requested, elements, s);
    tops := [];
    if restored.None? {
      return None, tops;
    }
    RemainingShape(live, saved, c, q, elements, s);
    CompactedLinkable(Remaining(c, q, elements, s));
    r, tops := Link(restored.value, generate);
    if Expressible(Remaining(c, q, elements, s)) {
      LinkedReadAsWanted(live, saved, c, q, elements, s, r.value, tops);
    }
  }

  /** Why building a tree can fail. */
  ghost predicate Unbuildable(objects: seq<Resource>, level: nat, save: bool)
  {
    !AllLevelled(objects) || BaseLevel(objects, save) != level || level >= BASE_LEVELS ||
    exists n :: n in Filed(objects)[level] && Built(Filed(objects), Filed(objects)[level][n], level).None?
  }

  /** The whole command, from the resources of the cluster and those of the save to the new ones. */
  method RestoreFromResources(live: seq<Resource>, saved: seq<Resource>, path: string, elements: Path, s: Strategy,
                              generate: nat -> string)
    returns (r: Option<seq<Resource>>, ghost tops: seq<Resource>, ghost built: Option<(Tree, Tree)>)
    requires forall i, j :: i != j ==> generate(i) != generate(j)
    requires NamesDiffer(live, 0) && (|elements| < BASE_LEVELS ==> NamesDiffer(saved, |elements|))
    ensures built.None? ==> r.None? && (Unbuildable(live, 0, false) || Unbuildable(saved, |elements|, true))
    ensures built.Some? ==>
              var (c, q) := built.value;
              BuiltFrom(live, 0, c) && |elements| < BASE_LEVELS && BuiltFrom(saved, |elements|, q) &&
              (r.Some? <==> Spliced(c, q, elements).Some? && Compactable(Remaining(c, q, elements, s))) &&
              (r.Some? ==> Resolved(r.value) && forall o | o in r.value :: o.spec.IsBucket() <==> o in tops) &&
              (r.Some? && Expressible(Remaining(c, q, elements, s)) ==> ReadAsWanted(r.value, tops, c, q, elements, s))
  {
    hide Filed, BuiltAll, Built, AddedAll, Remaining, Compactable, Resolved, Expressible, ReadAsWanted, DistinctTree;
    r, tops, built := None, [], None;
    var current, order := Build(live, "/", 0, false);
    if current.None? {
      return;
    }
    assert BuiltInOrder(live, 0, current.value.tree.children, order);
    var requested, at := Build(saved, path, |elements|, true);
    if requested.None? {
      return;
    }
    assert BuiltInOrder(saved, |elements|, requested.value.tree.children, at);
    built := Some((current.value.tree, requested.value.tree));
    r, tops := RestoreAndLink(current.value, requested.value, elements, s, generate, live, saved);
  }
}
