/** Dropping the nodes a merge decided to delete, and what a restore is left with. */
module DeadCode {
  import opened Names
  import opened Topology
  import opened Merge

  /** A node the pass drops: marked for deletion, or a scope the operator would imply. */
  predicate Dead(t: Tree)
  {
    t.action == Delete || t.spec.CanBeImplied()
  }

  /** What is not marked for deletion stays unless it is the default scope and says nothing about its collections, or
      that they are not managed, or that the default collection is all there is to be. */
  lemma StaysExactly(t: Tree)
    requires t.action != Delete
    ensures !Dead(t) <==>
            t.spec.ScopeSpec? && t.spec.defaultScope ==>
              t.spec.collections.Some? && t.spec.collections.value.managed &&
              (t.spec.collections.value.selects || !t.spec.collections.value.preserveDefault)
  {}

  function Live(ts: seq<Tree>): (r: seq<Tree>)
    ensures forall t | t in r :: t in ts && !Dead(t)
  {
    if ts == [] then []
    else if Dead(ts[0]) then Live(ts[1..])
    else [ts[0]] + Live(ts[1..])
  }

  /** The tree without its dead nodes, the root always staying. */
  function Pruned(t: Tree): Tree
  {
    var live := Live(t.children);
    t.(children := seq(|live|, i requires 0 <= i < |live| => assert live[i] in t.children; Pruned(live[i])))
  }

  function AllPruned(ts: seq<Tree>): (r: seq<Tree>)
    ensures |r| == |ts|
  {
    seq(|ts|, i requires 0 <= i < |ts| => Pruned(ts[i]))
  }

  // ----- lookups after the pass -----

  lemma {:induction false} LiveChild(ts: seq<Tree>, name: string)
    requires Sorted(ts)
    ensures Child(Live(ts), name) ==
            (match Child(ts, name) case None => None case Some(t) => if Dead(t) then None else Some(t))
  {
    if ts != [] {
      SortedTail(ts);
      LiveChild(ts[1..], name);
    }
  }

  lemma {:induction false} AllPrunedChild(ts: seq<Tree>, name: string)
    ensures Child(AllPruned(ts), name) ==
            (match Child(ts, name) case None => None case Some(t) => Some(Pruned(t)))
  {
    if ts != [] {
      assert AllPruned(ts)[1..] == AllPruned(ts[1..]);
      AllPrunedChild(ts[1..], name);
    }
  }

  /** A path survives when no node on it, the root aside, is dropped. */
  ghost predicate Survives(t: Tree, p: Path)
  {
    forall k | 0 < k <= |p| :: At(t, p[..k]).Some? && !Dead(At(t, p[..k]).value)
  }

  lemma {:induction false} SurvivesStep(t: Tree, p: Path, c: Tree)
    requires p != [] && Child(t.children, p[0]) == Some(c)
    ensures Survives(t, p) <==> !Dead(c) && Survives(c, p[1..])
  {
    forall k | 0 < k <= |p| ensures At(t, p[..k]) == At(c, p[1..][..k - 1]) {
      assert p[..k][1..] == p[1..][..k - 1];
    }
    if Survives(t, p) {
      assert At(t, p[..1]) == At(c, []);
      forall k | 0 < k <= |p[1..]| ensures At(c, p[1..][..k]).Some? && !Dead(At(c, p[1..][..k]).value) {
        assert At(t, p[..k + 1]) == At(c, p[1..][..k]);
      }
    }
    if !Dead(c) && Survives(c, p[1..]) {
      forall k | 0 < k <= |p| ensures At(t, p[..k]).Some? && !Dead(At(t, p[..k]).value) {
        if k > 1 {
          assert At(c, p[1..][..k - 1]).Some?;
        }
      }
    }
  }

  /** The pass keeps exactly the surviving paths, with their specifications untouched. */
  lemma {:induction false} PrunedAt(t: Tree, p: Path)
    requires SortedTree(t)
    ensures SpecAt(Pruned(t), p) == if Survives(t, p) then SpecAt(t, p) else None
    decreases |p|
  {
    if p != [] {
      LiveChild(t.children, p[0]);
      assert Pruned(t).children == AllPruned(Live(t.children));
      AllPrunedChild(Live(t.children), p[0]);
      match Child(t.children, p[0])
      case None =>
        assert At(t, p[..1]) == None;
      case Some(c) =>
        SurvivesStep(t, p, c);
        if !Dead(c) {
          PrunedAt(c, p[1..]);
        }
    }
  }

  /** Filtering one more sibling. */
  lemma {:induction false} LiveGrows(ts: seq<Tree>, i: nat)
    requires i < |ts|
    ensures Live(ts[..i + 1]) == Live(ts[..i]) + (if Dead(ts[i]) then [] else [ts[i]])
  {
    hide Dead;
    var shorter, longer := ts[..i], ts[..i + 1];
    if i == 0 {
      assert longer[1..] == [];
    } else {
      var rest := ts[1..];
      assert longer[1..] == rest[..i] && shorter[1..] == rest[..i - 1];
      LiveGrows(rest, i - 1);
    }
  }

  lemma {:induction false} LiveOrdered(ts: seq<Tree>)
    requires Ordered(ts)
    ensures Ordered(Live(ts))
  {
    if ts != [] {
      LiveOrdered(ts[1..]);
      forall t | t in Live(ts[1..]) ensures !Less(t.name, ts[0].name) {
        var j :| 0 < j < |ts| && ts[j] == t;
      }
    }
  }

  lemma {:induction false} LiveSorted(ts: seq<Tree>)
    requires Sorted(ts)
    ensures Sorted(Live(ts))
  {
    if ts != [] {
      SortedTail(ts);
      LiveSorted(ts[1..]);
      if !Dead(ts[0]) {
        SortedCons(ts[0], Live(ts[1..]));
      }
    }
  }

  lemma {:induction false} PrunedSorted(t: Tree)
    requires SortedTree(t)
    ensures SortedTree(Pruned(t))
  {
    LiveSorted(t.children);
    forall c | c in Live(t.children) ensures SortedTree(Pruned(c)) {
      PrunedSorted(c);
    }
  }

  // ----- what a restore is left with -----

  /** The specification a restore should leave at a path before implied scopes are considered. */
  function Wanted(c: Tree, r: Tree, s: Strategy, p: Path): Option<Spec>
  {
    if SpecAt(r, p).Some? then SpecAt(r, p)
    else if s.MergeStrategy? then SpecAt(c, p)
    else None
  }

  /** Some scope on the way to the path is one the operator would imply. */
  ghost predicate Implied(c: Tree, r: Tree, s: Strategy, p: Path)
  {
    exists k | 0 < k <= |p| :: Wanted(c, r, s, p[..k]).Some? && Wanted(c, r, s, p[..k]).value.CanBeImplied()
  }

  lemma {:induction false} AtPrefix(t: Tree, p: Path, k: nat)
    requires k <= |p| && At(t, p).Some?
    ensures At(t, p[..k]).Some?
    decreases |p|
  {
    if k > 0 {
      assert p[..k][1..] == p[1..][..k - 1];
      AtPrefix(Child(t.children, p[0]).value, p[1..], k - 1);
    }
  }

  /** After merging and dropping dead nodes, a replacing restore leaves exactly the requested tree and a
      merging one the requested tree laid over the current one, in both cases without the scopes the
      operator would imply and whatever lies below them. */
  lemma {:induction false} RestoreLeaves(c: Tree, r: Tree, s: Strategy, p: Path)
    requires SortedTree(c) && SortedTree(r)
    ensures SpecAt(Pruned(MergeTrees(c, r, s)), p) == if Implied(c, r, s, p) then None else Wanted(c, r, s, p)
  {
    hide MergeTrees, SortedTree, Pruned;
    var m := MergeTrees(c, r, s);
    MergeSorted(c, r, s);
    PrunedAt(m, p);
    MergeDecides(c, r, s, p);
    forall k | 0 < k <= |p|
      ensures Decision(m, p[..k]) == Verdict(SpecAt(c, p[..k]), SpecAt(r, p[..k]), s)
    {
      MergeDecides(c, r, s, p[..k]);
    }
    assert p[..|p|] == p;
    if Survives(m, p) {
      forall k | 0 < k <= |p| ensures Wanted(c, r, s, p[..k]).Some? && !Wanted(c, r, s, p[..k]).value.CanBeImplied() {
        assert Decision(m, p[..k]).Some?;
      }
    } else {
      var k :| 0 < k <= |p| && !(At(m, p[..k]).Some? && !Dead(At(m, p[..k]).value));
      if At(c, p).Some? { AtPrefix(c, p, k); }
      if At(r, p).Some? { AtPrefix(r, p, k); }
    }
  }

  /** A merging restore loses no current path unless an implied scope lies on it. */
  lemma {:induction false} MergeLosesNothing(c: Tree, r: Tree, p: Path)
    requires SortedTree(c) && SortedTree(r)
    requires At(c, p).Some?
    ensures At(Pruned(MergeTrees(c, r, MergeStrategy)), p).Some? <==> !Implied(c, r, MergeStrategy, p)
  {
    RestoreLeaves(c, r, MergeStrategy, p);
  }

  // ----- implied scopes that are not empty -----

  /** Building a tree strips the collection selector from every scope, so this holds of built trees, as BuiltShape
      proves. */
  ghost predicate SelectorsStripped(t: Tree)
  {
    forall p: Path | At(t, p).Some? && At(t, p).value.spec.ScopeSpec? :: At(t, p).value.spec.collections == None
  }

  ghost predicate NothingDeleted(t: Tree)
  {
    forall p: Path | At(t, p).Some? :: At(t, p).value.action != Delete
  }

  /** A scope that really adds nothing: the default scope without collections. */
  predicate EmptyDefaultScope(t: Tree)
  {
    t.spec.ScopeSpec? && t.spec.defaultScope && t.children == []
  }

  predicate DefaultScopeInUse(t: Tree)
  {
    t.spec.ScopeSpec? && t.spec.defaultScope && t.children != []
  }

  ghost predicate NoDefaultScopeInUse(t: Tree)
  {
    forall p: Path | p != [] && At(t, p).Some? :: !DefaultScopeInUse(At(t, p).value)
  }

  /** The pass drops nothing but empty default scopes. */
  ghost predicate DropsOnlyEmptyDefaults(t: Tree)
  {
    forall p: Path | At(t, p).Some? && At(Pruned(t), p).None? :: EmptyDefaultScope(At(t, p).value)
  }

  lemma {:induction false} PathBelow(t: Tree, p: Path, n: Tree, c: Tree)
    requires At(t, p) == Some(n) && Child(n.children, c.name) == Some(c)
    ensures At(t, p + [c.name]) == Some(c)
    decreases |p|
  {
    if p != [] {
      assert (p + [c.name])[1..] == p[1..] + [c.name];
      PathBelow(Child(t.children, p[0]).value, p[1..], n, c);
    }
  }

  lemma {:induction false} SubtreeSorted(t: Tree, p: Path)
    requires SortedTree(t) && At(t, p).Some?
    ensures SortedTree(At(t, p).value)
    decreases |p|
  {
    if p != [] {
      SubtreeSorted(Child(t.children, p[0]).value, p[1..]);
    }
  }

  /** Dropping implied scopes is lossless exactly when no default scope below the root holds collections:
      the test for "can be implied" looks at a selector that building has already stripped, so a default
      scope goes together with every collection in it. */
  lemma {:induction false} DropsOnlyEmptyDefaultsIff(t: Tree)
    requires SortedTree(t) && SelectorsStripped(t) && NothingDeleted(t)
    ensures DropsOnlyEmptyDefaults(t) <==> NoDefaultScopeInUse(t)
  {
    if !NoDefaultScopeInUse(t) {
      var p: Path :| p != [] && At(t, p).Some? && DefaultScopeInUse(At(t, p).value);
      var n := At(t, p).value;
      assert p[..|p|] == p;
      assert Dead(n) && !Survives(t, p);
      PrunedAt(t, p);
      assert At(Pruned(t), p).None? && !EmptyDefaultScope(At(t, p).value);
      assert !DropsOnlyEmptyDefaults(t);
    } else {
      forall p: Path | At(t, p).Some? && At(Pruned(t), p).None? ensures EmptyDefaultScope(At(t, p).value) {
        PrunedAt(t, p);
        assert !Survives(t, p);
        var k :| 0 < k <= |p| && !(At(t, p[..k]).Some? && !Dead(At(t, p[..k]).value));
        AtPrefix(t, p, k);
        var n := At(t, p[..k]).value;
        assert Dead(n) && n.children == [];
        AtSplit(t, p, k);
        assert p[k..] == [];
        assert p[..k] == p;
      }
    }
  }

  lemma {:induction false} AtSplit(t: Tree, p: Path, k: nat)
    requires k <= |p| && At(t, p).Some?
    ensures At(t, p[..k]).Some? && At(At(t, p[..k]).value, p[k..]) == At(t, p)
    decreases |p|
  {
    if k > 0 {
      assert p[..k][1..] == p[1..][..k - 1];
      assert p[1..][k - 1..] == p[k..];
      AtSplit(Child(t.children, p[0]).value, p[1..], k - 1);
    } else {
      assert p[0..] == p;
    }
  }

  /** The smallest loss: a requested collection in the default scope disappears from a restore. */
  lemma DefaultScopeCollectionLost()
    ensures var x := Tree("x", CollectionSpec(CollectionSettings(None, None)), Unset, []);
            var d := Tree(DEFAULT_NAME, ScopeSpec(true, None), Unset, [x]);
            var b := Tree("b", BucketSpec("couchstore"), Unset, [d]);
            var t := Tree("/", RootSpec, Unset, [b]);
            SortedTree(t) && At(t, ["b", DEFAULT_NAME, "x"]) == Some(x) &&
            At(Pruned(MergeTrees(t, t, MergeStrategy)), ["b", DEFAULT_NAME, "x"]) == None
  {
    var x := Tree("x", CollectionSpec(CollectionSettings(None, None)), Unset, []);
    var d := Tree(DEFAULT_NAME, ScopeSpec(true, None), Unset, [x]);
    var b := Tree("b", BucketSpec("couchstore"), Unset, [d]);
    var t := Tree("/", RootSpec, Unset, [b]);
    assert SortedTree(x);
    assert SortedTree(d);
    assert SortedTree(b);
    assert SortedTree(t);
    var p: Path := ["b", DEFAULT_NAME, "x"];
    assert At(d, ["x"]) == Some(x);
    assert p[1..][1..] == ["x"];
    assert At(b, p[1..]) == Some(x);
    assert At(t, p) == Some(x);
    var q := p[..2];
    assert q[1..] == [DEFAULT_NAME];
    assert At(b, q[1..]) == Some(d);
    assert At(t, q) == Some(d);
    assert Wanted(t, t, MergeStrategy, p[..2]).value.CanBeImplied();
    MergeLosesNothing(t, t, p);
  }
}
