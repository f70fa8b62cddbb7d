/** The whole restore: splice, merge, drop dead nodes, compact, and what the result stands for. */
module Restore {
  import opened Names
  import opened Topology
  import opened Merge
  import opened DeadCode
  import opened Splice
  import opened Compact
  import opened TreeNodes
  import opened MergeSplice
  import opened CompactNodes

  // ----- the shape survives every step -----

  lemma CollectionsMerge(c: Tree, r: Tree, s: Strategy)
    requires CollectionOk(c) && CollectionOk(r)
    ensures CollectionOk(MergeTrees(c, r, s))
  {}

  lemma MarkedCollection(t: Tree, a: Action)
    requires CollectionOk(t)
    ensures CollectionOk(WithAction(t, a))
  {}

  lemma MarkedScope(t: Tree, a: Action)
    requires ScopeOk(t)
    ensures ScopeOk(WithAction(t, a))
  {
    forall c | c in WithAction(t, a).children ensures CollectionOk(c) {
      var i :| 0 <= i < |t.children| && c == WithAction(t.children[i], a);
      assert t.children[i] in t.children;
    }
  }

  lemma MarkedBucket(t: Tree, a: Action)
    requires BucketOk(t)
    ensures BucketOk(WithAction(t, a))
  {
    forall c | c in WithAction(t, a).children ensures ScopeOk(c) {
      var i :| 0 <= i < |t.children| && c == WithAction(t.children[i], a);
      assert t.children[i] in t.children;
      MarkedScope(t.children[i], a);
    }
  }

  lemma ScopesMerge(c: Tree, r: Tree, s: Strategy)
    requires ScopeOk(c) && ScopeOk(r)
    ensures ScopeOk(MergeTrees(c, r, s))
  {
    forall t | t in MergeTrees(c, r, s).children ensures CollectionOk(t) {
      MergeChildrenFrom(c.children, r.children, s, t);
      if a, b :| a in c.children && b in r.children && a.name == b.name && t == MergeTrees(a, b, s) {
        CollectionsMerge(a, b, s);
      } else if b :| b in r.children && t == WithAction(b, Create) {
        MarkedCollection(b, Create);
      } else {
        var a :| a in c.children && t == WithAction(a, s.MergeAction());
        MarkedCollection(a, s.MergeAction());
      }
    }
  }

  lemma BucketsMerge(c: Tree, r: Tree, s: Strategy)
    requires BucketOk(c) && BucketOk(r) && SortedTree(c) && SortedTree(r)
    ensures BucketOk(MergeTrees(c, r, s))
  {
    MergeSorted(c, r, s);
    forall t | t in MergeTrees(c, r, s).children ensures ScopeOk(t) {
      MergeChildrenFrom(c.children, r.children, s, t);
      if a, b :| a in c.children && b in r.children && a.name == b.name && t == MergeTrees(a, b, s) {
        ScopesMerge(a, b, s);
      } else if b :| b in r.children && t == WithAction(b, Create) {
        MarkedScope(b, Create);
      } else {
        var a :| a in c.children && t == WithAction(a, s.MergeAction());
        MarkedScope(a, s.MergeAction());
      }
    }
  }

  /** Merging two topologies gives a topology. */
  lemma RootsMerge(c: Tree, r: Tree, s: Strategy)
    requires RootOk(c) && RootOk(r) && SortedTree(c) && SortedTree(r)
    ensures RootOk(MergeTrees(c, r, s))
  {
    forall t | t in MergeTrees(c, r, s).children ensures BucketOk(t) {
      MergeChildrenFrom(c.children, r.children, s, t);
      if a, b :| a in c.children && b in r.children && a.name == b.name && t == MergeTrees(a, b, s) {
        BucketsMerge(a, b, s);
      } else if b :| b in r.children && t == WithAction(b, Create) {
        MarkedBucket(b, Create);
      } else {
        var a :| a in c.children && t == WithAction(a, s.MergeAction());
        MarkedBucket(a, s.MergeAction());
      }
    }
  }

  lemma PrunedScope(t: Tree)
    requires ScopeOk(t)
    ensures ScopeOk(Pruned(t))
  {
    forall c | c in Pruned(t).children ensures CollectionOk(c) {
      var i :| 0 <= i < |Live(t.children)| && c == Pruned(Live(t.children)[i]);
      assert Live(t.children)[i] in t.children;
    }
  }

  lemma PrunedBucket(t: Tree)
    requires BucketOk(t)
    ensures BucketOk(Pruned(t))
  {
    LiveSorted(t.children);
    forall c | c in Pruned(t).children ensures ScopeOk(c) {
      var i :| 0 <= i < |Live(t.children)| && c == Pruned(Live(t.children)[i]);
      assert Live(t.children)[i] in t.children;
      PrunedScope(Live(t.children)[i]);
    }
  }

  /** Dropping dead nodes from a topology leaves a topology. */
  lemma PrunedRoot(t: Tree)
    requires RootOk(t)
    ensures RootOk(Pruned(t))
  {
    forall c | c in Pruned(t).children ensures BucketOk(c) {
      var i :| 0 <= i < |Live(t.children)| && c == Pruned(Live(t.children)[i]);
      assert Live(t.children)[i] in t.children;
      PrunedBucket(Live(t.children)[i]);
    }
  }

  // ----- the whole restore -----

  /** The compacted tree a restore ends with, given the current tree and the spliced one. */
  function Result(c: Tree, r: Tree, s: Strategy): Tree
  {
    Compacted(Pruned(MergeTrees(c, r, s)))
  }

  /** End to end: when compaction succeeds and no bucket is confusable, the groups the restore creates stand
      for exactly the wanted buckets, scopes and collections, path by path. */
  lemma RestoreStandsFor(c: Tree, r: Tree, s: Strategy, p: Path)
    requires RootOk(c) && RootOk(r) && SortedTree(c) && SortedTree(r)
    requires Compactable(Pruned(MergeTrees(c, r, s)))
    requires forall b | b in Pruned(MergeTrees(c, r, s)).children :: !Confusable(b)
    ensures SpecAt(Expanded(Result(c, r, s)), p) == if Implied(c, r, s, p) then None else Wanted(c, r, s, p)
  {
    hide MergeTrees, Pruned, Compacted, Expanded, Confusable, Compactable, WithAction, RootOk, SortedTree, Implied, Wanted;
    var m := Pruned(MergeTrees(c, r, s));
    RootsMerge(c, r, s);
    PrunedRoot(MergeTrees(c, r, s));
    CompactionMeaning(m);
    RestoreLeaves(c, r, s, p);
    SpecAtMeaning(m, p);
  }

  lemma SpecAtMeaning(t: Tree, p: Path)
    ensures SpecAt(Meaning(t), p) == SpecAt(t, p)
  {
    WithActionAt(t, Unset, p);
  }

  // ----- the steps in sequence, on nodes -----

  /** What is merged into the current tree: a copy of it with the save spliced in. */
  function Spliced(current: Tree, requested: Tree, elements: Path): Option<Tree>
  {
    SpliceTree(current, elements, requested.children)
  }

  /** Splice, merge and compact in the order of a restore. It fails when the path leads nowhere or a node
      asks for a group that does not exist; otherwise its outcome is the result above. */
  method RestoreTopology(current: Node, requested: Node, elements: Path, s: Strategy) returns (r: Option<Node>)
    requires current.Valid() && requested.Valid() && SortedTree(current.tree) && SortedTree(requested.tree)
    ensures r.None? <==>
              Spliced(current.tree, requested.tree, elements).None? ||
              !Compactable(Pruned(MergeTrees(current.tree, Spliced(current.tree, requested.tree, elements).value, s)))
    ensures r.Some? ==>
              r.value.Valid() && fresh(r.value.repr) &&
              r.value.tree == Result(current.tree, Spliced(current.tree, requested.tree, elements).value, s)
  {
    hide MergeTrees, Pruned, Compacted, Compactable, SortedTree, SpliceTree, AddedAll;
    SpliceAt(current.tree, elements, requested.tree.children, []);
    SortedKids(requested.tree);
    var spliced := SpliceNodes(current, requested, elements);
    if spliced.None? {
      return None;
    }
    SpliceSorted(current.tree, elements, requested.tree.children);
    var merged := MergeNodes(current, spliced.value, s);
    r := CompactTree(merged);
  }

  lemma SortedKids(t: Tree)
    requires SortedTree(t)
    ensures Sorted(t.children) && (forall k | k in t.children :: SortedTree(k))
    ensures AddedAll([], t.children) == t.children
  {
    SortedIsOrdered(t.children);
    assert [] + t.children == t.children;
    OrderedAddedAll([], t.children);
  }
}
