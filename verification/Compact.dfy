/** Compacting equal siblings into group resources, as a function on trees, and what the groups mean. */
module Compact {
  import opened Names
  import opened Topology
  import opened Merge

  // ----- equality as the compaction sees it -----

  /** Deep equality compares specifications and descendants; node names take no part in it. */
  predicate DeepEqual(a: Tree, b: Tree)
  {
    a.spec == b.spec && AllDeepEqual(a.children, b.children)
  }

  predicate AllDeepEqual(xs: seq<Tree>, ys: seq<Tree>)
  {
    |xs| == |ys| && forall i | 0 <= i < |xs| :: DeepEqual(xs[i], ys[i])
  }

  /** Siblings that may share one resource: each is like the first. */
  predicate Mergeable(ts: seq<Tree>)
    requires ts != []
  {
    forall i | 1 <= i < |ts| :: ts[0].spec == ts[i].spec && AllDeepEqual(ts[0].children, ts[i].children)
  }

  // ----- compaction, bottom up -----

  function NamesOf(ts: seq<Tree>): (r: seq<string>)
    ensures |r| == |ts|
  {
    seq(|ts|, i requires 0 <= i < |ts| => ts[i].name)
  }

  predicate Shares(t: Tree)
  {
    |t.children| >= 2 && Mergeable(t.children)
  }

  /** Sharing that has no group resource to express it. */
  predicate Ungroupable(t: Tree)
  {
    Shares(t) &&
    match t.spec
    case ScopeSpec(_, _) => !t.children[0].spec.CollectionSpec?
    case BucketSpec(_) => false
    case EphemeralBucketSpec(_) => false
    case _ => true
  }

  /** The specification of the group that stands for the node's children. */
  function GroupSpec(t: Tree): Spec
    requires Shares(t) && !Ungroupable(t)
  {
    if t.spec.ScopeSpec?
    then CollectionGroupSpec(NamesOf(t.children), t.children[0].spec.settings)
    else ScopeGroupSpec(NamesOf(t.children))
  }

  /** The node with its children replaced by a group where they can share one. */
  function Grouped(t: Tree): Tree
  {
    if Shares(t) && !Ungroupable(t)
    then t.(children := [Tree(Join(NamesOf(t.children), ", "), GroupSpec(t), Unset, t.children[0].children)])
    else t
  }

  function Compacted(t: Tree): Tree
  {
    Grouped(t.(children := seq(|t.children|, i requires 0 <= i < |t.children| => Compacted(t.children[i]))))
  }

  function AllCompacted(ts: seq<Tree>): (r: seq<Tree>)
    ensures |r| == |ts|
  {
    seq(|ts|, i requires 0 <= i < |ts| => Compacted(ts[i]))
  }

  /** Compaction succeeds when no node anywhere asks for a group that does not exist. */
  predicate Compactable(t: Tree)
  {
    (forall c | c in t.children :: Compactable(c)) &&
    !Ungroupable(t.(children := AllCompacted(t.children)))
  }

  // ----- what a compacted tree stands for -----

  /** The specification every member of a group has. */
  function MemberSpec(group: Spec): Spec
    requires group.IsGroup()
  {
    if group.ScopeGroupSpec? then ScopeSpec(false, None) else CollectionSpec(group.groupSettings)
  }

  function MemberNames(group: Spec): seq<string>
    requires group.IsGroup()
  {
    if group.ScopeGroupSpec? then group.scopeNames else group.collectionNames
  }

  /** The tree with every group written out as its members, all with the group's children. */
  function Expanded(t: Tree): Tree
    decreases t, 1
  {
    Tree(t.name, t.spec, Unset, AllExpanded(t.children))
  }

  function AllExpanded(ts: seq<Tree>): seq<Tree>
    decreases ts, 0
  {
    if ts == [] then []
    else (if ts[0].spec.IsGroup()
          then Members(MemberNames(ts[0].spec), MemberSpec(ts[0].spec), AllExpanded(ts[0].children))
          else [Expanded(ts[0])]) + AllExpanded(ts[1..])
  }

  function Members(names: seq<string>, spec: Spec, kids: seq<Tree>): (r: seq<Tree>)
    ensures |r| == |names|
  {
    seq(|names|, i requires 0 <= i < |names| => Tree(names[i], spec, Unset, kids))
  }

  /** What a tree says once the merge actions are forgotten. */
  function Meaning(t: Tree): Tree
  {
    WithAction(t, Unset)
  }

  // ----- the shape of a topology -----

  ghost predicate CollectionOk(t: Tree)
  {
    t.spec.CollectionSpec? && t.children == []
  }

  ghost predicate ScopeOk(t: Tree)
  {
    t.spec.ScopeSpec? && t.spec.collections == None && (t.spec.defaultScope ==> t.name == DEFAULT_NAME) &&
    forall c | c in t.children :: CollectionOk(c)
  }

  ghost predicate BucketOk(t: Tree)
  {
    t.spec.IsBucket() && Sorted(t.children) && forall c | c in t.children :: ScopeOk(c)
  }

  /** Buckets hold scopes, scopes hold collections, siblings have distinct names and only the default
      scope carries the default name: what building a tree from resources yields, see BuiltShape. */
  ghost predicate RootOk(t: Tree)
  {
    t.spec.RootSpec? && forall c | c in t.children :: BucketOk(c)
  }

  // ----- when scopes are mistaken for each other -----

  /** The scope's collections collapse into one group of their own. */
  predicate CollectionsCollapse(s: Tree)
  {
    |s.children| >= 2 && forall i | 1 <= i < |s.children| :: s.children[i].spec == s.children[0].spec
  }

  /** Two scopes with equal settings, position by position, whatever the collections are called. */
  predicate LookAlike(a: Tree, b: Tree)
  {
    a.spec == b.spec && |a.children| == |b.children| &&
    forall i | 0 <= i < |a.children| :: a.children[i].spec == b.children[i].spec
  }

  /** A bucket of look-alike scopes whose collections differ in name and do not collapse into a group
      that would record the names. */
  predicate Confusable(b: Tree)
  {
    (b.spec.BucketSpec? || b.spec.EphemeralBucketSpec?) && |b.children| >= 2 &&
    (forall i | 1 <= i < |b.children| :: LookAlike(b.children[0], b.children[i])) &&
    !CollectionsCollapse(b.children[0]) &&
    exists i | 1 <= i < |b.children| :: NamesOf(b.children[i].children) != NamesOf(b.children[0].children)
  }

  // ----- proofs -----

  lemma CompactedUnfold(t: Tree)
    ensures Compacted(t) == Grouped(t.(children := AllCompacted(t.children)))
  {
    assert seq(|t.children|, i requires 0 <= i < |t.children| => Compacted(t.children[i])) == AllCompacted(t.children);
  }

  lemma {:induction false} PlainExpanded(ts: seq<Tree>)
    requires forall t | t in ts :: !t.spec.IsGroup()
    ensures |AllExpanded(ts)| == |ts|
    ensures forall i | 0 <= i < |ts| :: AllExpanded(ts)[i] == Expanded(ts[i])
  {
    if ts != [] {
      PlainExpanded(ts[1..]);
    }
  }

  lemma GroupExpanded(g: Tree)
    requires g.spec.IsGroup()
    ensures AllExpanded([g]) == Members(MemberNames(g.spec), MemberSpec(g.spec), AllExpanded(g.children))
  {
    assert [g][1..] == [];
    assert AllExpanded([g][1..]) == [];
  }

  lemma MeaningOfCollection(c: Tree)
    requires CollectionOk(c)
    ensures Meaning(c) == Tree(c.name, c.spec, Unset, [])
  {
    assert Meaning(c).children == [];
  }

  lemma CollectionUnchanged(t: Tree)
    requires CollectionOk(t)
    ensures Compacted(t) == t && Expanded(t) == Meaning(t)
  {
    CompactedUnfold(t);
    assert AllCompacted(t.children) == [];
  }

  lemma CollectionsUnchanged(s: Tree)
    requires ScopeOk(s)
    ensures AllCompacted(s.children) == s.children
    ensures Compacted(s) == Grouped(s)
    ensures Shares(s) <==> CollectionsCollapse(s)
  {
    forall i | 0 <= i < |s.children| ensures Compacted(s.children[i]) == s.children[i] {
      assert s.children[i] in s.children;
      CollectionUnchanged(s.children[i]);
    }
    CompactedUnfold(s);
    assert AllCompacted(s.children) == s.children;
    forall i, j | 0 <= i < |s.children| && 0 <= j < |s.children|
      ensures AllDeepEqual(s.children[i].children, s.children[j].children)
    {
      assert s.children[i] in s.children && s.children[j] in s.children;
    }
  }

  /** Compacting a single scope never changes what it stands for. */
  lemma ScopeMeaning(s: Tree)
    requires ScopeOk(s)
    ensures AllExpanded(Compacted(s).children) == Meaning(s).children
    ensures Compacted(s).name == s.name && Compacted(s).spec == s.spec
    ensures Expanded(Compacted(s)) == Meaning(s)
  {
    CollectionsUnchanged(s);
    var cs := s.children;
    forall i | 0 <= i < |cs| ensures CollectionOk(cs[i]) && Expanded(cs[i]) == Meaning(cs[i]) {
      assert cs[i] in cs;
      CollectionUnchanged(cs[i]);
    }
    if Shares(s) {
      var g := Grouped(s).children[0];
      GroupExpanded(g);
      assert AllExpanded(g.children) == [];
      assert AllExpanded([g]) == Meaning(s).children;
    } else {
      PlainExpanded(cs);
      assert AllExpanded(cs) == Meaning(s).children;
    }
  }

  lemma CollectionsAreLeaves(s: Tree)
    requires ScopeOk(s)
    ensures forall i | 0 <= i < |s.children| :: CollectionOk(s.children[i])
  {
    forall i | 0 <= i < |s.children| ensures CollectionOk(s.children[i]) {
      assert s.children[i] in s.children;
    }
  }

  /** Lists of plain collections are deeply equal when their settings are. */
  lemma PlainListsCompared(a: Tree, b: Tree)
    requires ScopeOk(a) && ScopeOk(b)
    ensures AllDeepEqual(a.children, b.children) <==>
            |a.children| == |b.children| && forall i | 0 <= i < |a.children| :: a.children[i].spec == b.children[i].spec
  {
    CollectionsAreLeaves(a);
    CollectionsAreLeaves(b);
    forall i | 0 <= i < |a.children| && i < |b.children|
      ensures DeepEqual(a.children[i], b.children[i]) <==> a.children[i].spec == b.children[i].spec
    {}
  }

  /** Two collection groups are equal when they list the same names with the same settings. */
  lemma GroupListsCompared(a: Tree, b: Tree)
    requires ScopeOk(a) && ScopeOk(b) && Shares(a) && Shares(b)
    requires !Ungroupable(a) && !Ungroupable(b)
    ensures AllDeepEqual(Grouped(a).children, Grouped(b).children) <==>
            NamesOf(a.children) == NamesOf(b.children) && a.children[0].spec == b.children[0].spec
  {
    CollectionsAreLeaves(a);
    CollectionsAreLeaves(b);
    var x, y := Grouped(a).children, Grouped(b).children;
    assert AllDeepEqual(x[0].children, y[0].children);
    assert AllDeepEqual(x, y) <==> x[0].spec == y[0].spec;
  }

  lemma LookAlikeCollapse(a: Tree, b: Tree)
    requires LookAlike(a, b)
    ensures CollectionsCollapse(a) <==> CollectionsCollapse(b)
  {
    if |a.children| >= 2 {
      assert a.children[0].spec == b.children[0].spec;
      forall i | 1 <= i < |a.children| ensures a.children[i].spec == b.children[i].spec {}
    }
  }

  lemma SameNamesCollapse(a: Tree, b: Tree)
    requires CollectionsCollapse(a) && CollectionsCollapse(b)
    requires NamesOf(a.children) == NamesOf(b.children) && a.children[0].spec == b.children[0].spec
    ensures |a.children| == |b.children| && forall i | 0 <= i < |a.children| :: a.children[i].spec == b.children[i].spec
  {
    assert |NamesOf(a.children)| == |NamesOf(b.children)|;
    forall i | 0 <= i < |a.children| ensures a.children[i].spec == b.children[i].spec {
      assert i == 0 || a.children[i].spec == a.children[0].spec;
      assert i == 0 || b.children[i].spec == b.children[0].spec;
    }
  }

  /** How the compaction compares two scopes once their collections are compacted. */
  lemma ScopesCompared(a: Tree, b: Tree)
    requires ScopeOk(a) && ScopeOk(b)
    ensures a.spec == b.spec && AllDeepEqual(Compacted(a).children, Compacted(b).children) <==>
            LookAlike(a, b) && (CollectionsCollapse(a) ==> NamesOf(a.children) == NamesOf(b.children))
  {
    CollectionsUnchanged(a);
    CollectionsUnchanged(b);
    CollectionsAreLeaves(a);
    CollectionsAreLeaves(b);
    if CollectionsCollapse(a) && CollectionsCollapse(b) {
      GroupListsCompared(a, b);
      if NamesOf(a.children) == NamesOf(b.children) && a.children[0].spec == b.children[0].spec {
        SameNamesCollapse(a, b);
      }
    } else if CollectionsCollapse(a) || CollectionsCollapse(b) {
      if LookAlike(a, b) {
        LookAlikeCollapse(a, b);
      }
      var x, y := Compacted(a).children, Compacted(b).children;
      assert |x| == 1 && |y| == 1 ==> !DeepEqual(x[0], y[0]);
    } else {
      PlainListsCompared(a, b);
    }
  }

  lemma AllScopesMeaning(b: Tree)
    requires BucketOk(b)
    ensures forall i | 0 <= i < |b.children| ::
              ScopeOk(b.children[i]) && Expanded(Compacted(b.children[i])) == Meaning(b.children[i])
    ensures forall s | s in AllCompacted(b.children) :: !s.spec.IsGroup()
  {
    forall i | 0 <= i < |b.children|
      ensures ScopeOk(b.children[i]) && Expanded(Compacted(b.children[i])) == Meaning(b.children[i])
      ensures !Compacted(b.children[i]).spec.IsGroup()
    {
      assert b.children[i] in b.children;
      ScopeMeaning(b.children[i]);
    }
  }

  /** When the compaction groups a bucket's scopes. */
  lemma BucketShares(b: Tree)
    requires BucketOk(b)
    ensures Shares(b.(children := AllCompacted(b.children))) <==>
            |b.children| >= 2 &&
            (forall i | 1 <= i < |b.children| :: LookAlike(b.children[0], b.children[i])) &&
            (CollectionsCollapse(b.children[0]) ==>
               forall i | 1 <= i < |b.children| :: NamesOf(b.children[0].children) == NamesOf(b.children[i].children))
  {
    var bs, cs := b.children, AllCompacted(b.children);
    AllScopesMeaning(b);
    if |bs| >= 2 {
      forall i | 1 <= i < |bs|
        ensures cs[0].spec == cs[i].spec && AllDeepEqual(cs[0].children, cs[i].children) <==>
                LookAlike(bs[0], bs[i]) && (CollectionsCollapse(bs[0]) ==> NamesOf(bs[0].children) == NamesOf(bs[i].children))
      {
        ScopeMeaning(bs[0]);
        ScopeMeaning(bs[i]);
        ScopesCompared(bs[0], bs[i]);
      }
    }
  }

  /** Scopes with equal specifications and different names cannot both be the default scope. */
  lemma SharedScopesAreNotDefault(b: Tree)
    requires BucketOk(b) && |b.children| >= 2 && LookAlike(b.children[0], b.children[1])
    ensures b.children[0].spec == ScopeSpec(false, None)
  {
    var x, y := b.children[0], b.children[1];
    assert x in b.children && y in b.children;
    if x.spec.defaultScope {
      LessIrreflexive(x.name);
    }
  }

  /** Same settings, same names: same collections. */
  lemma SameCollections(a: Tree, b: Tree)
    requires ScopeOk(a) && ScopeOk(b) && LookAlike(a, b)
    ensures Meaning(a).children == Meaning(b).children <==> NamesOf(a.children) == NamesOf(b.children)
  {
    var x, y := Meaning(a).children, Meaning(b).children;
    CollectionsAreLeaves(a);
    CollectionsAreLeaves(b);
    forall i | 0 <= i < |a.children|
      ensures x[i] == y[i] <==> NamesOf(a.children)[i] == NamesOf(b.children)[i]
    {
      MeaningOfCollection(a.children[i]);
      MeaningOfCollection(b.children[i]);
    }
    if x == y {
      forall i | 0 <= i < |a.children| ensures NamesOf(a.children)[i] == NamesOf(b.children)[i] {
        assert x[i] == y[i];
      }
    }
    if NamesOf(a.children) == NamesOf(b.children) {
      forall i | 0 <= i < |a.children| ensures x[i] == y[i] {
        assert NamesOf(a.children)[i] == NamesOf(b.children)[i];
      }
    }
  }

  /** Grouping a bucket's scopes keeps their meaning exactly when all collection names agree. */
  lemma GroupedScopes(b: Tree)
    requires BucketOk(b) && (b.spec.BucketSpec? || b.spec.EphemeralBucketSpec?)
    requires Shares(b.(children := AllCompacted(b.children)))
    ensures Expanded(Compacted(b)) == Meaning(b) <==>
            forall i | 1 <= i < |b.children| :: NamesOf(b.children[i].children) == NamesOf(b.children[0].children)
  {
    hide AllDeepEqual, Join;
    var bs, cs := b.children, AllCompacted(b.children);
    AllScopesMeaning(b);
    BucketShares(b);
    SharedScopesAreNotDefault(b);
    var t := b.(children := cs);
    CompactedUnfold(b);
    var g := Grouped(t).children[0];
    GroupExpanded(g);
    ScopeMeaning(bs[0]);
    var kids := Meaning(bs[0]).children;
    assert Expanded(Compacted(b)).children == Members(NamesOf(cs), ScopeSpec(false, None), kids);
    var got, want := Expanded(Compacted(b)).children, Meaning(b).children;
    forall i | 0 <= i < |bs|
      ensures got[i] == want[i] <==> (i == 0 || NamesOf(bs[i].children) == NamesOf(bs[0].children))
    {
      ScopeMeaning(bs[i]);
      assert want[i] == Meaning(bs[i]);
      if i > 0 {
        SameCollections(bs[0], bs[i]);
      }
    }
    if got == want {
      forall i | 1 <= i < |bs| ensures NamesOf(bs[i].children) == NamesOf(bs[0].children) {
        assert got[i] == want[i];
      }
    }
  }

  /** Compacting a bucket keeps its meaning exactly when the bucket is not confusable. */
  lemma BucketMeaning(b: Tree)
    requires BucketOk(b) && !Ungroupable(b.(children := AllCompacted(b.children)))
    ensures Expanded(Compacted(b)) == Meaning(b) <==> !Confusable(b)
    ensures !Compacted(b).spec.IsGroup()
  {
    var t := b.(children := AllCompacted(b.children));
    CompactedUnfold(b);
    BucketShares(b);
    if Shares(t) {
      GroupedScopes(b);
    } else {
      AllScopesMeaning(b);
      PlainExpanded(t.children);
      assert AllExpanded(t.children) == Meaning(b).children;
    }
  }

  /** The root has no group resource to offer, so success means its buckets were left apart. */
  lemma RootStays(t: Tree)
    requires t.spec.RootSpec? && Compactable(t)
    ensures Compacted(t) == t.(children := AllCompacted(t.children))
  {
    hide AllDeepEqual, Mergeable;
    CompactedUnfold(t);
  }

  lemma BucketsMeaning(t: Tree)
    requires RootOk(t) && Compactable(t)
    ensures forall i | 0 <= i < |t.children| ::
              (Expanded(Compacted(t.children[i])) == Meaning(t.children[i]) <==> !Confusable(t.children[i])) &&
              !Compacted(t.children[i]).spec.IsGroup()
  {
    hide Confusable, Expanded, Compacted, Meaning, AllDeepEqual, Mergeable;
    forall i | 0 <= i < |t.children|
      ensures Expanded(Compacted(t.children[i])) == Meaning(t.children[i]) <==> !Confusable(t.children[i])
      ensures !Compacted(t.children[i]).spec.IsGroup()
    {
      assert t.children[i] in t.children;
      BucketMeaning(t.children[i]);
    }
  }

  /** Whenever compaction succeeds, writing its groups out gives back exactly the buckets, scopes and
      collections it was given if and only if no bucket is confusable. */
  lemma CompactionMeaning(t: Tree)
    requires RootOk(t) && Compactable(t)
    ensures Expanded(Compacted(t)) == Meaning(t) <==> forall b | b in t.children :: !Confusable(b)
  {
    RootStays(t);
    BucketsMeaning(t);
    hide Confusable, Compacted, Compactable, RootOk;
    PlainExpanded(AllCompacted(t.children));
    SameIfNoneConfusable(t.children, AllExpanded(AllCompacted(t.children)), Meaning(t).children);
  }

  lemma SameIfNoneConfusable(bs: seq<Tree>, got: seq<Tree>, want: seq<Tree>)
    requires |bs| == |got| == |want|
    requires forall i | 0 <= i < |bs| :: got[i] == want[i] <==> !Confusable(bs[i])
    ensures got == want <==> forall b | b in bs :: !Confusable(b)
  {
    hide Confusable;
    if got == want {
      forall b | b in bs ensures !Confusable(b) {
        var i :| 0 <= i < |bs| && bs[i] == b;
        assert got[i] == want[i];
      }
    }
    if forall b | b in bs :: !Confusable(b) {
      assert forall i | 0 <= i < |bs| :: bs[i] in bs;
    }
  }

  function PlainCollection(name: string): Tree
  {
    Tree(name, CollectionSpec(CollectionSettings(None, None)), Create, [])
  }

  function OneCollectionScope(name: string, collection: string): Tree
  {
    Tree(name, ScopeSpec(false, None), Create, [PlainCollection(collection)])
  }

  lemma OneCollectionScopeUnchanged(name: string, collection: string)
    ensures var s := OneCollectionScope(name, collection);
            ScopeOk(s) && Compactable(s) && !CollectionsCollapse(s) &&
            Compacted(s) == s && NamesOf(s.children) == [collection] &&
            Meaning(s) == Tree(name, s.spec, Unset, [Meaning(PlainCollection(collection))])
  {
    var c, s := PlainCollection(collection), OneCollectionScope(name, collection);
    CollectionsUnchanged(s);
    assert Compactable(c);
    assert NamesOf(s.children) == [c.name];
    assert Meaning(s).children == [Meaning(c)];
  }

  /** A bucket of two scopes with one collection each, named differently, is confusable, and is grouped. */
  lemma SwappedBucket(b: Tree)
    requires b == Tree("b", BucketSpec("couchstore"), Create, [OneCollectionScope("s1", "x"), OneCollectionScope("s2", "y")])
    ensures BucketOk(b) && Compactable(b) && Confusable(b)
    ensures var kids := [Meaning(PlainCollection("x"))];
            Expanded(Compacted(b)).children == [Tree("s1", ScopeSpec(false, None), Unset, kids), Tree("s2", ScopeSpec(false, None), Unset, kids)]
  {
    hide AllDeepEqual, Join;
    var s1, s2 := b.children[0], b.children[1];
    OneCollectionScopeUnchanged("s1", "x");
    OneCollectionScopeUnchanged("s2", "y");
    assert Less("s1", "s2") by { assert "s1"[1..] == "1" && "s2"[1..] == "2"; }
    assert ["x"][0] != ["y"][0];
    assert LookAlike(s1, s2);
    var cs := AllCompacted(b.children);
    assert cs == b.children;
    CompactedUnfold(b);
    BucketShares(b);
    var g := Grouped(b).children[0];
    GroupExpanded(g);
    ScopeMeaning(s1);
    assert NamesOf(cs) == ["s1", "s2"];
  }

  lemma OnlyBucket(t: Tree, b: Tree)
    requires BucketOk(b) && Compactable(b) && t == Tree("/", RootSpec, Retain, [b])
    ensures RootOk(t) && Compactable(t)
    ensures Expanded(Compacted(t)).children == [Expanded(Compacted(b))]
    ensures Meaning(t).children == [Meaning(b)]
  {
    CompactedUnfold(t);
    CompactedUnfold(b);
    assert AllCompacted(t.children) == [Compacted(b)];
    PlainExpanded([Compacted(b)]);
  }

  /** The smallest confusion: two scopes with one collection each, called differently. After compaction
      the second scope has lost its own collection and gained the first scope's. */
  lemma CollectionSwapped()
    ensures var b := Tree("b", BucketSpec("couchstore"), Create, [OneCollectionScope("s1", "x"), OneCollectionScope("s2", "y")]);
            var t := Tree("/", RootSpec, Retain, [b]);
            RootOk(t) && Compactable(t) && Confusable(b) &&
            At(Meaning(t), ["b", "s2", "y"]).Some? &&
            At(Expanded(Compacted(t)), ["b", "s2", "y"]).None? &&
            At(Expanded(Compacted(t)), ["b", "s2", "x"]).Some?
  {
    var b := Tree("b", BucketSpec("couchstore"), Create, [OneCollectionScope("s1", "x"), OneCollectionScope("s2", "y")]);
    var t := Tree("/", RootSpec, Retain, [b]);
    SwappedBucket(b);
    OnlyBucket(t, b);
    SwappedLookups(Expanded(Compacted(t)), Expanded(Compacted(b)), Meaning(PlainCollection("x")));
    OneCollectionScopeUnchanged("s2", "y");
    var m := Meaning(b);
    assert m.children[0].name == "s1" && m.children[1] == Meaning(b.children[1]);
    LookupTwo(Meaning(t), m, "b", "s2", "y");
  }

  lemma SwappedLookups(t: Tree, b: Tree, x: Tree)
    requires t.children == [b] && b.name == "b" && x.name == "x"
    requires b.children == [Tree("s1", ScopeSpec(false, None), Unset, [x]), Tree("s2", ScopeSpec(false, None), Unset, [x])]
    ensures At(t, ["b", "s2", "y"]).None? && At(t, ["b", "s2", "x"]).Some?
  {
    assert "s1"[1] != "s2"[1] && "x"[0] != "y"[0];
    LookupTwo(t, b, "b", "s2", "y");
    LookupTwo(t, b, "b", "s2", "x");
  }

  /** Looking a collection up in the second scope of the only bucket. */
  lemma LookupTwo(t: Tree, b: Tree, bucket: string, scope: string, collection: string)
    requires t.children == [b] && b.name == bucket && |b.children| == 2
    requires b.children[0].name != scope && b.children[1].name == scope
    ensures At(t, [bucket, scope, collection]) == Child(b.children[1].children, collection)
  {
    var p: Path := [bucket, scope, collection];
    assert p[1..] == [scope, collection] && p[1..][1..] == [collection] && p[1..][1..][1..] == [];
    assert Child(b.children, scope) == Child(b.children[1..], scope) == Some(b.children[1]);
    assert At(b, p[1..]) == At(b.children[1], p[1..][1..]);
    var c := Child(b.children[1].children, collection);
    if c.Some? {
      assert At(c.value, []) == c;
    }
  }

  lemma ScopeCompactable(s: Tree)
    requires ScopeOk(s)
    ensures Compactable(s)
  {
    forall i | 0 <= i < |s.children| ensures Compactable(s.children[i]) && AllCompacted(s.children)[i].spec.CollectionSpec? {
      assert s.children[i] in s.children;
      CollectionUnchanged(s.children[i]);
    }
  }

  /** Nothing fails below a bucket, and a bucket itself fails only where it shares scopes it has no group for. */
  lemma BucketCompactable(b: Tree)
    requires BucketOk(b)
    ensures Compactable(b) <==> !Ungroupable(b.(children := AllCompacted(b.children)))
  {
    forall s | s in b.children ensures Compactable(s) {
      ScopeCompactable(s);
    }
  }

  /** Scopes the compaction takes for equal: look-alikes, of one set of collection names if the collections
      collapse into a group that records the names. */
  predicate ScopesAlike(a: Tree, b: Tree)
  {
    LookAlike(a, b) && (CollectionsCollapse(a) ==> NamesOf(a.children) == NamesOf(b.children))
  }

  predicate ScopesCollapse(b: Tree)
  {
    |b.children| >= 2 && forall i | 1 <= i < |b.children| :: ScopesAlike(b.children[0], b.children[i])
  }

  /** Buckets the compaction takes for equal: of equal settings, with scopes that are alike position by position,
      of one set of scope names if the scopes collapse into a group that records the names. */
  predicate BucketsAlike(a: Tree, b: Tree)
  {
    a.spec == b.spec && |a.children| == |b.children| &&
    (forall i | 0 <= i < |a.children| :: ScopesAlike(a.children[i], b.children[i])) &&
    (ScopesCollapse(a) ==> NamesOf(a.children) == NamesOf(b.children))
  }

  lemma AlikeTransitive(a: Tree, b: Tree, c: Tree)
    requires ScopesAlike(a, b)
    ensures ScopesAlike(b, a)
    ensures ScopesAlike(b, c) ==> ScopesAlike(a, c)
  {
    LookAlikeCollapse(a, b);
  }

  /** Buckets alike collapse alike. */
  lemma AlikeCollapse(a: Tree, b: Tree)
    requires |a.children| == |b.children| && forall i | 0 <= i < |a.children| :: ScopesAlike(a.children[i], b.children[i])
    requires ScopesCollapse(a)
    ensures ScopesCollapse(b)
  {
    var x, y := a.children, b.children;
    hide ScopesAlike;
    forall i | 1 <= i < |y| ensures ScopesAlike(y[0], y[i]) {
      AlikeTransitive(x[0], y[0], x[i]);
      AlikeTransitive(y[0], x[0], x[i]);
      AlikeTransitive(x[0], x[i], y[i]);
      AlikeTransitive(y[0], x[0], y[i]);
    }
  }

  /** A memcached bucket with scopes that are all taken for equal: there is no group to put them in. */
  predicate Refused(b: Tree)
  {
    b.spec.MemcachedBucketSpec? && ScopesCollapse(b)
  }

  lemma CollapseExactly(b: Tree)
    requires BucketOk(b)
    ensures var t := b.(children := AllCompacted(b.children));
            (Shares(t) <==> ScopesCollapse(b)) && (Ungroupable(t) <==> Refused(b))
    ensures Compacted(b).spec == b.spec
  {
    BucketShares(b);
    CompactedUnfold(b);
  }

  /** How the compaction compares two buckets once they are compacted. */
  lemma BucketsCompared(a: Tree, b: Tree)
    requires BucketOk(a) && BucketOk(b) && !Refused(a) && !Refused(b)
    ensures a.spec == b.spec && AllDeepEqual(Compacted(a).children, Compacted(b).children) <==> BucketsAlike(a, b)
  {
    CollapseExactly(a);
    CollapseExactly(b);
    CompactedUnfold(a);
    CompactedUnfold(b);
    ScopesComparedAll(a, b);
    hide Compacted, ScopesAlike, Mergeable, BucketOk;
    var cs, ds := AllCompacted(a.children), AllCompacted(b.children);
    if ScopesCollapse(a) && ScopesCollapse(b) {
      GroupsCompared(a, b);
    } else if ScopesCollapse(a) || ScopesCollapse(b) {
      if BucketsAlike(a, b) {
        forall i | 0 <= i < |b.children| ensures ScopesAlike(b.children[i], a.children[i]) {
          AlikeTransitive(a.children[i], b.children[i], a.children[i]);
        }
        if ScopesCollapse(a) { AlikeCollapse(a, b); } else { AlikeCollapse(b, a); }
        assert false;
      }
      var x, y := Compacted(a).children, Compacted(b).children;
      assert |x| == 1 && |y| == 1 ==> !DeepEqual(x[0], y[0]);
    }
  }

  lemma ScopesComparedAll(a: Tree, b: Tree)
    requires BucketOk(a) && BucketOk(b)
    ensures forall i, j | 0 <= i < |a.children| && 0 <= j < |b.children| ::
              DeepEqual(AllCompacted(a.children)[i], AllCompacted(b.children)[j]) <==> ScopesAlike(a.children[i], b.children[j])
    ensures forall i | 0 <= i < |a.children| ::
              AllCompacted(a.children)[i].spec == a.children[i].spec && a.children[i].spec.ScopeSpec?
    ensures forall i | 0 <= i < |b.children| ::
              AllCompacted(b.children)[i].spec == b.children[i].spec && b.children[i].spec.ScopeSpec?
    ensures NamesOf(AllCompacted(a.children)) == NamesOf(a.children) && NamesOf(AllCompacted(b.children)) == NamesOf(b.children)
  {
    AllScopesMeaning(a);
    AllScopesMeaning(b);
    forall i | 0 <= i < |a.children|
      ensures Compacted(a.children[i]).spec == a.children[i].spec && Compacted(a.children[i]).name == a.children[i].name
    {
      ScopeMeaning(a.children[i]);
    }
    forall j | 0 <= j < |b.children|
      ensures Compacted(b.children[j]).spec == b.children[j].spec && Compacted(b.children[j]).name == b.children[j].name
    {
      ScopeMeaning(b.children[j]);
    }
    forall i, j | 0 <= i < |a.children| && 0 <= j < |b.children|
      ensures DeepEqual(Compacted(a.children[i]), Compacted(b.children[j])) <==> ScopesAlike(a.children[i], b.children[j])
    {
      ScopesCompared(a.children[i], b.children[j]);
    }
  }

  /** Two buckets whose scopes collapse are equal when the groups list the same names for the same scope. */
  lemma GroupsCompared(a: Tree, b: Tree)
    requires ScopesCollapse(a) && ScopesCollapse(b)
    requires Shares(a.(children := AllCompacted(a.children))) && !Ungroupable(a.(children := AllCompacted(a.children)))
    requires Shares(b.(children := AllCompacted(b.children))) && !Ungroupable(b.(children := AllCompacted(b.children)))
    requires BucketOk(a) && BucketOk(b)
    ensures a.spec == b.spec && AllDeepEqual(Compacted(a).children, Compacted(b).children) <==> BucketsAlike(a, b)
  {
    ScopesComparedAll(a, b);
    CompactedUnfold(a);
    CompactedUnfold(b);
    SharedScopesAreNotDefault(a);
    SharedScopesAreNotDefault(b);
    var c, d := AllCompacted(a.children)[0], AllCompacted(b.children)[0];
    var x, y := Compacted(a).children, Compacted(b).children;
    var p, q := a.children[0], b.children[0];
    assert DeepEqual(c, d) <==> AllDeepEqual(c.children, d.children);
    assert AllDeepEqual(x, y) <==> NamesOf(a.children) == NamesOf(b.children) && ScopesAlike(p, q) by {
      hide ScopesAlike, Compacted;
      assert x[0].children == c.children && y[0].children == d.children;
      assert AllDeepEqual(x, y) <==> DeepEqual(x[0], y[0]);
    }
    if NamesOf(a.children) == NamesOf(b.children) && ScopesAlike(p, q) {
      hide ScopesAlike;
      assert |NamesOf(a.children)| == |NamesOf(b.children)|;
      forall i | 0 <= i < |a.children| ensures ScopesAlike(a.children[i], b.children[i]) {
        if i > 0 {
          AlikeTransitive(p, a.children[i], q);
          AlikeTransitive(a.children[i], p, q);
          AlikeTransitive(p, q, b.children[i]);
          AlikeTransitive(a.children[i], p, b.children[i]);
        }
      }
    }
  }

  /** There is neither a group of buckets nor one of a memcached bucket's scopes: compaction fails if and only if
      there are two or more buckets and all of them are taken for equal, or some memcached bucket has two or more
      scopes and all of them are. */
  lemma RefusedIff(t: Tree)
    requires RootOk(t)
    ensures !Compactable(t) <==>
            (exists b :: b in t.children && Refused(b)) ||
            (|t.children| >= 2 && forall i | 1 <= i < |t.children| :: BucketsAlike(t.children[0], t.children[i]))
  {
    var compacted := AllCompacted(t.children);
    assert t.spec == RootSpec;
    forall b | b in t.children ensures BucketOk(b) && (Compactable(b) <==> !Refused(b)) {
      BucketCompactable(b);
      CollapseExactly(b);
    }
    hide BucketsAlike, AllDeepEqual, Compacted, BucketOk, Refused;
    if |t.children| >= 2 && forall b | b in t.children :: !Refused(b) {
      var first := t.children[0];
      forall i | 1 <= i < |t.children|
        ensures compacted[0].spec == compacted[i].spec && AllDeepEqual(compacted[0].children, compacted[i].children) <==>
                BucketsAlike(first, t.children[i])
      {
        assert first in t.children && t.children[i] in t.children;
        CollapseExactly(first);
        CollapseExactly(t.children[i]);
        BucketsCompared(first, t.children[i]);
      }
    }
  }

  /** One memcached bucket with two empty scopes is enough. */
  lemma MemcachedScopesRefused(b: Tree)
    requires b == Tree("m", MemcachedBucketSpec("q"), Update, [EmptyScope("s1"), EmptyScope("s2")])
    ensures var t := Tree("/", RootSpec, Retain, [b]); RootOk(t) && !Compactable(t)
  {
    var s1, s2 := EmptyScope("s1"), EmptyScope("s2");
    assert Less("s1", "s2") by { assert "s1"[1..] == "1" && "s2"[1..] == "2"; }
    assert ScopeOk(s1) && ScopeOk(s2) && b.children[0] == s1 && b.children[1] == s2;
    assert NamesOf(s1.children) == NamesOf(s2.children);
    assert ScopesAlike(s1, s2) && Refused(b);
    var t := Tree("/", RootSpec, Retain, [b]);
    assert b in t.children;
    RefusedIff(t);
  }

  function EmptyScope(name: string): Tree
  {
    Tree(name, ScopeSpec(false, None), Retain, [])
  }

  /** Two buckets with equal settings and no scopes are enough. */
  lemma EqualBucketsRefused(t: Tree)
    requires t.spec.RootSpec? && |t.children| >= 2
    requires forall b | b in t.children :: b.spec == t.children[0].spec && b.children == []
    ensures !Compactable(t)
  {
    forall i | 0 <= i < |t.children|
      ensures Compacted(t.children[i]).spec == t.children[0].spec && Compacted(t.children[i]).children == []
    {
      assert t.children[i] in t.children;
    }
    assert Shares(t.(children := AllCompacted(t.children)));
  }
}
