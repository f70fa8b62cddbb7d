/** What linked resources stand for, groups included, when references are followed and groups written out as the
    operator does. */
module ResourceMeaning {
  import opened Names
  import opened Topology
  import opened Merge
  import opened DeadCode
  import opened Splice
  import opened Compact
  import opened LinkBuild
  import opened LinkNodes
  import opened Restore
  import opened BuiltShape

  // ----- reading resources -----

  function FindByName(rs: seq<Resource>, name: string): (r: Option<Resource>)
    ensures r.Some? ==> r.value in rs && r.value.name == name
    ensures r.None? ==> forall o | o in rs :: o.name != name
  {
    if rs == [] then None else if rs[0].name == name then Some(rs[0]) else FindByName(rs[1..], name)
  }

  lemma {:induction false} FindUniqueName(rs: seq<Resource>, o: Resource)
    requires UniqueResources(rs) && o in rs
    ensures FindByName(rs, o.name) == Some(o)
  {
    if rs[0] != o {
      assert o in rs[1..];
      var i :| 0 < i < |rs| && rs[i] == o;
      FindUniqueName(rs[1..], o);
    }
  }

  /** Whether the operator sees to the children of the resource. */
  predicate Manages(o: Resource)
  {
    o.selection.Some? && o.selection.value.managed &&
    (o.spec.ScopeSpec? ==> o.spec.collections.Some? && o.spec.collections.value.managed)
  }

  /** The default collection, where the default scope is to keep it. */
  function Preserved(o: Resource): seq<Tree>
  {
    if Manages(o) && o.spec.ScopeSpec? && o.spec.defaultScope && o.spec.collections.value.preserveDefault
    then [Tree(DEFAULT_NAME, CollectionSpec(CollectionSettings(None, None)), Unset, [])] else []
  }

  /** The siblings a resource stands for: a group for its members, each with everything the group refers to, any
      other for itself. References are followed some levels deep. */
  function Meant(rs: seq<Resource>, o: Resource, depth: nat): seq<Tree>
    decreases depth, 0
  {
    var kids := (if depth > 0 && Manages(o) then MeantAll(rs, o.selection.value.references, depth - 1) else []) + Preserved(o);
    if o.spec.IsGroup() then Members(MemberNames(o.spec), MemberSpec(o.spec), kids)
    else [Tree(CouchbaseName(o), Stripped(o.spec), Unset, kids)]
  }

  function MeantAll(rs: seq<Resource>, refs: seq<Reference>, depth: nat): seq<Tree>
    decreases depth, 1 + |refs|
  {
    if refs == [] then []
    else (match FindByName(rs, refs[0].name) case None => [] case Some(c) => Meant(rs, c, depth)) + MeantAll(rs, refs[1..], depth)
  }

  // ----- trees that resources can describe -----

  /** A tree no deeper than that, whose links and names its resources can carry. */
  ghost predicate Describable(t: Tree, depth: nat)
  {
    Stripped(t.spec) == t.spec && (!Links(t.spec) ==> t.children == []) && (t.children == [] || depth > 0) &&
    (!t.spec.IsGroup() ==> t.name != "" && (t.spec.ScopeSpec? && t.spec.defaultScope ==> t.name == DEFAULT_NAME)) &&
    forall c | c in t.children :: depth > 0 && Describable(c, depth - 1)
  }

  lemma {:induction false} AllExpandedConcat(a: seq<Tree>, b: seq<Tree>)
    ensures AllExpanded(a + b) == AllExpanded(a) + AllExpanded(b)
    decreases a
  {
    if a == [] {
      assert a + b == b;
    } else {
      assert (a + b)[1..] == a[1..] + b;
      AllExpandedConcat(a[1..], b);
    }
  }

  /** What was linked from a tree stands for the tree with its groups written out. */
  lemma {:induction false} MeantAsDescribed(rs: seq<Resource>, o: Resource, t: Tree, depth: nat)
    requires UniqueResources(rs) && Describes(rs, o, t) && Describable(t, depth)
    ensures Meant(rs, o, depth) == AllExpanded([t])
    decreases depth, 0
  {
    var kids := if depth > 0 && Manages(o) then MeantAll(rs, o.selection.value.references, depth - 1) else [];
    assert Preserved(o) == [] && kids + [] == kids;
    if Links(t.spec) {
      if depth > 0 {
        MeantAllAsDescribed(rs, o.selection.value.references, t.children, depth - 1);
      }
    }
    assert kids == AllExpanded(t.children);
    assert [t][1..] == [];
    hide MeantAll, Describes, Describable;
  }

  lemma {:induction false} MeantAllAsDescribed(rs: seq<Resource>, refs: seq<Reference>, ts: seq<Tree>, depth: nat)
    requires UniqueResources(rs) && |refs| == |ts| && forall t | t in ts :: Describable(t, depth)
    requires forall i | 0 <= i < |ts| :: exists c :: c in rs && c.name == refs[i].name && Describes(rs, c, ts[i])
    ensures MeantAll(rs, refs, depth) == AllExpanded(ts)
    decreases depth, 1 + |refs|
  {
    if refs != [] {
      var c :| c in rs && c.name == refs[0].name && Describes(rs, c, ts[0]);
      FindUniqueName(rs, c);
      MeantAsDescribed(rs, c, ts[0], depth);
      forall i | 0 <= i < |ts[1..]| ensures exists c :: c in rs && c.name == refs[1..][i].name && Describes(rs, c, ts[1..][i]) {
        assert ts[1..][i] == ts[i + 1] && refs[1..][i] == refs[i + 1];
      }
      MeantAllAsDescribed(rs, refs[1..], ts[1..], depth);
      assert ts == [ts[0]] + ts[1..];
      AllExpandedConcat([ts[0]], ts[1..]);
    }
  }

  // ----- compacted topologies -----

  lemma CollectionDescribable(c: Tree)
    requires CollectionOk(c) && c.name != ""
    ensures Compacted(c) == c && Linkable(c) && Describable(c, 0)
  {
    CollectionUnchanged(c);
  }

  /** No name anywhere is empty. */
  ghost predicate NamedTree(t: Tree)
  {
    t.name != "" && forall c | c in t.children :: NamedTree(c)
  }

  /** The bucket is not a memcached bucket with scopes, to which it cannot refer. */
  predicate NoStrayScopes(b: Tree)
  {
    b.spec.MemcachedBucketSpec? ==> b.children == []
  }

  lemma ScopeDescribable(s: Tree)
    requires ScopeOk(s) && NamedTree(s)
    ensures var d := Compacted(s);
            Linkable(d) && Describable(d, 1) && d.name == s.name && d.spec == s.spec && d.spec.ScopeSpec?
  {
    CollectionsUnchanged(s);
    forall i | 0 <= i < |s.children|
      ensures s.children[i].spec.CollectionSpec? && Linkable(s.children[i]) && Describable(s.children[i], 0)
    {
      assert s.children[i] in s.children;
      CollectionDescribable(s.children[i]);
    }
    hide Mergeable, Compacted;
    if Shares(s) {
      var g := Grouped(s).children[0];
      assert s.children[0] in s.children;
      assert g.children == [] && Describable(g, 0) && Linkable(g);
      assert Grouped(s).children == [g];
    }
  }

  /** A compacted bucket can be linked, and described unless it is a memcached bucket with scopes. */
  lemma BucketDescribable(b: Tree)
    requires BucketOk(b) && NamedTree(b)
    ensures Linkable(Compacted(b))
    ensures NoStrayScopes(b) ==> Describable(Compacted(b), 2)
    ensures Compacted(b).spec.IsBucket() && forall c | c in Compacted(b).children :: Bucketless(c)
  {
    var kids := AllCompacted(b.children);
    forall i | 0 <= i < |kids|
      ensures Linkable(kids[i]) && Describable(kids[i], 1) && kids[i].spec.ScopeSpec? && Bucketless(kids[i])
    {
      assert b.children[i] in b.children;
      ScopeDescribable(b.children[i]);
      ScopeBucketless(b.children[i]);
    }
    CompactedUnfold(b);
    GroupedDescribable(b.(children := kids));
  }

  lemma ScopeBucketless(s: Tree)
    requires ScopeOk(s)
    ensures Bucketless(Compacted(s))
  {
    CollectionsUnchanged(s);
    hide Mergeable, Compacted;
    if Shares(s) {
      assert s.children[0] in s.children;
      assert Grouped(s).children[0].children == [];
    }
  }

  lemma GroupedDescribable(b: Tree)
    requires b.spec.IsBucket() && b.name != ""
    requires forall i | 0 <= i < |b.children| ::
               Linkable(b.children[i]) && Describable(b.children[i], 1) && b.children[i].spec.ScopeSpec? && Bucketless(b.children[i])
    ensures Linkable(Grouped(b))
    ensures NoStrayScopes(b) ==> Describable(Grouped(b), 2)
    ensures forall c | c in Grouped(b).children :: Bucketless(c)
  {
    hide Mergeable;
    if Shares(b) && !Ungroupable(b) {
      var g := Grouped(b).children[0];
      var first := b.children[0];
      assert Linkable(first) && Describable(first, 1) && Bucketless(first);
      assert Linkable(g) && Describable(g, 1) && Bucketless(g);
    }
  }

  /** Whatever compaction makes of a topology can be linked, and what is linked can be described unless some
      memcached bucket has been given scopes. */
  lemma CompactedLinkable(t: Tree)
    requires RootOk(t) && Compactable(t) && forall b | b in t.children :: NamedTree(b)
    ensures Linkable(Compacted(t)) && BucketsOnTop(Compacted(t))
    ensures (forall b | b in t.children :: NoStrayScopes(b)) ==>
              forall i | 0 <= i < |Compacted(t).children| :: Describable(Compacted(t).children[i], 2)
  {
    RootStays(t);
    hide Compactable;
    assert Compacted(t).children == AllCompacted(t.children);
    forall i | 0 <= i < |t.children|
      ensures Linkable(AllCompacted(t.children)[i])
      ensures AllCompacted(t.children)[i].spec.IsBucket()
      ensures forall c | c in AllCompacted(t.children)[i].children :: Bucketless(c)
      ensures NoStrayScopes(t.children[i]) ==> Describable(AllCompacted(t.children)[i], 2)
    {
      assert t.children[i] in t.children;
      BucketDescribable(t.children[i]);
    }
  }

  // ----- scopes that no resource refers to -----

  /** A memcached bucket refers to no scopes, so those below one are written but never read. */
  lemma StrayScopesUnread(rs: seq<Resource>, o: Resource, t: Tree, depth: nat)
    requires Describes(rs, o, t) && t.spec.MemcachedBucketSpec? && t.name != ""
    requires forall c | c in t.children :: !c.spec.IsGroup()
    ensures Meant(rs, o, depth) == AllExpanded([t]) <==> t.children == []
  {
    PlainExpanded(t.children);
    assert [t][1..] == [];
    assert Meant(rs, o, depth)[0].children == [];
    assert AllExpanded([t])[0].children == AllExpanded(t.children);
  }

  lemma {:induction false} LiveEmpty(ts: seq<Tree>)
    ensures Live(ts) == [] <==> forall t | t in ts :: Dead(t)
  {
    if ts != [] {
      LiveEmpty(ts[1..]);
      assert ts == [ts[0]] + ts[1..];
    }
  }

  ghost predicate HasLasting(ts: seq<Tree>)
  {
    exists t :: t in ts && !t.spec.CanBeImplied()
  }

  /** Which memcached bucket is left with scopes, if only one side has any to give it. */
  lemma StrayScopesAt(c: Tree, r: Tree, s: Strategy, name: string)
    requires SortedTree(c) && SortedTree(r) && forall b | b in c.children :: NoStrayScopes(b)
    requires var had, asked := Child(c.children, name), Child(r.children, name);
             asked.Some? && asked.value.spec.MemcachedBucketSpec? ==>
               asked.value.children == [] || (had.Some? && had.value.children == [])
    ensures var left := Child(Pruned(MergeTrees(c, r, s)).children, name);
            var had, asked := Child(c.children, name), Child(r.children, name);
            left.Some? && !NoStrayScopes(left.value) <==>
              asked.Some? && asked.value.spec.MemcachedBucketSpec? &&
              (HasLasting(asked.value.children) || (s.MergeStrategy? && had.Some? && HasLasting(had.value.children)))
  {
    var m := MergeTrees(c, r, s);
    var had, asked := Child(c.children, name), Child(r.children, name);
    MergeChildrenChild(c.children, r.children, s, name);
    MergeSorted(c, r, s);
    LiveChild(m.children, name);
    assert Pruned(m).children == AllPruned(Live(m.children));
    AllPrunedChild(Live(m.children), name);
    if had.Some? && asked.Some? && asked.value.spec.MemcachedBucketSpec? {
      StrayScopesBetween(had.value, asked.value, s);
    } else if asked.Some? && had.None? && asked.value.spec.MemcachedBucketSpec? {
      assert asked.value.children == [];
      assert WithAction(asked.value, Create).children == [];
    } else if had.Some? && asked.None? && had.value.spec.MemcachedBucketSpec? {
      assert had.value.children == [];
      assert WithAction(had.value, s.MergeAction()).children == [];
    }
  }

  lemma StrayScopesBetween(a: Tree, b: Tree, s: Strategy)
    requires a.children == [] || b.children == []
    ensures Live(MergeTrees(a, b, s).children) != [] <==>
            HasLasting(b.children) || (s.MergeStrategy? && HasLasting(a.children))
  {
    LiveEmpty(MergeTrees(a, b, s).children);
    OnlyCurrent(a.children, s);
    MarkedDead(a.children, s.MergeAction());
    MarkedDead(b.children, Create);
  }

  lemma OnlyCurrent(cs: seq<Tree>, s: Strategy)
    ensures MergeChildren(cs, [], s) == AllWithAction(cs, s.MergeAction())
  {
    if cs == [] {
      assert AllWithAction([], Create) == AllWithAction([], s.MergeAction());
    }
  }

  lemma MarkedDead(ts: seq<Tree>, a: Action)
    ensures (forall t | t in AllWithAction(ts, a) :: Dead(t)) <==> ts == [] || a == Delete || !HasLasting(ts)
  {
    var marked := AllWithAction(ts, a);
    forall i | 0 <= i < |ts| ensures marked[i].spec == ts[i].spec && marked[i].action == a {}
    if a != Delete && forall t | t in marked :: Dead(t) {
      forall t | t in ts ensures t.spec.CanBeImplied() {
        var i :| 0 <= i < |ts| && ts[i] == t;
        assert marked[i] in marked;
      }
    }
  }

  // ----- names survive every step -----

  lemma {:induction false} NameableNamed(t: Tree)
    requires Nameable(t)
    ensures NamedTree(t)
  {
    forall c | c in t.children ensures NamedTree(c) {
      NameableNamed(c);
    }
  }

  lemma {:induction false} MarkedNamed(t: Tree, a: Action)
    requires NamedTree(t)
    ensures NamedTree(WithAction(t, a))
  {
    forall i | 0 <= i < |t.children| ensures NamedTree(WithAction(t.children[i], a)) {
      assert t.children[i] in t.children;
      MarkedNamed(t.children[i], a);
    }
  }

  /** Every tree below has names throughout. */
  ghost predicate NamedBelow(t: Tree)
  {
    forall c | c in t.children :: NamedTree(c)
  }

  lemma {:induction false} MergedNamed(c: Tree, r: Tree, s: Strategy)
    requires NamedBelow(c) && NamedBelow(r)
    ensures NamedBelow(MergeTrees(c, r, s))
    decreases r
  {
    forall t | t in MergeTrees(c, r, s).children ensures NamedTree(t) {
      MergeChildrenFrom(c.children, r.children, s, t);
      if a, b :| a in c.children && b in r.children && a.name == b.name && t == MergeTrees(a, b, s) {
        MergedNamed(a, b, s);
      } else if b :| b in r.children && t == WithAction(b, Create) {
        MarkedNamed(b, Create);
      } else {
        var a :| a in c.children && t == WithAction(a, s.MergeAction());
        MarkedNamed(a, s.MergeAction());
      }
    }
  }

  lemma {:induction false} PrunedNamed(t: Tree)
    requires NamedBelow(t)
    ensures NamedBelow(Pruned(t))
  {
    var live := Live(t.children);
    forall i | 0 <= i < |live| ensures NamedTree(Pruned(live[i])) {
      assert live[i] in t.children;
      PrunedNamed(live[i]);
    }
  }

  lemma {:induction false} SplicedNamed(t: Tree, elements: Path, kids: seq<Tree>)
    requires NamedBelow(t) && SpliceTree(t, elements, kids).Some? && forall k | k in kids :: NamedTree(k)
    ensures NamedBelow(SpliceTree(t, elements, kids).value)
    decreases |elements|
  {
    if elements != [] {
      var c := Child(t.children, elements[0]).value;
      SplicedNamed(c, elements[1..], kids);
      SpliceAt(c, elements[1..], kids, []);
      ReplaceChildIn(t.children, elements[0], SpliceTree(c, elements[1..], kids).value);
    }
  }
}
