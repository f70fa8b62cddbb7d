/** Compaction in place: one pass over the nodes in reverse breadth-first order. */
module CompactNodes {
  import opened Names
  import opened Topology
  import opened DeadCode
  import opened Compact
  import opened TreeNodes
  import opened Walk
  import opened MergeSplice

  // ----- one node -----

  lemma AddedAllEnds(ts: seq<Tree>)
    requires Ordered(ts)
    ensures AddedAll([], ts[0..]) == ts
    ensures forall done :: AddedAll(done, ts[|ts|..]) == done
  {
    assert ts[0..] == ts && [] + ts == ts && ts[|ts|..] == [];
    OrderedAddedAll([], ts);
  }

  /** Gives a new node the children of another one. */
  method AddChildrenOf(n: Node, from: Node)
    requires n.Valid() && n.tree.children == [] && n.repr == {n} && from.Valid() && n !in from.repr
    modifies n
    ensures n.Valid() && n.tree == old(n.tree).(children := from.tree.children) && n.repr <= {n} + from.repr
  {
    ghost var base, ts := n.tree, from.tree.children;
    AddedAllEnds(ts);
    hide Insert, Ordered, AddedAll;
    for i := 0 to |from.children|
      invariant n.Valid() && n.tree == base.(children := n.tree.children) && n.repr <= {n} + from.repr
      invariant from.Valid() && from.tree.children == ts
      invariant AddedAll(n.tree.children, ts[i..]) == ts
      invariant forall j | i <= j < |from.children| :: n.repr !! from.children[j].repr
    {
      AddedAllStep(n.tree.children, ts, i);
      n.AddChild(from.children[i]);
    }
  }

  /** The names of a node's children. */
  method ChildNames(n: Node) returns (names: seq<string>)
    requires n.Valid()
    ensures names == NamesOf(n.tree.children)
  {
    names := [];
    for i := 0 to |n.children|
      invariant names == NamesOf(n.tree.children)[..i]
    {
      names := names + [n.children[i].name];
    }
  }

  /** Replaces the node's children by a group where they can share one; fails where the group they would
      need does not exist. */
  method GroupChildren(node: Node) returns (ok: bool)
    requires node.Valid()
    modifies node
    ensures ok <==> !Ungroupable(old(node.tree))
    ensures ok ==> node.Valid() && node.tree == Grouped(old(node.tree)) && fresh(node.repr - old(node.repr))
  {
    if |node.children| < 2 {
      return true;
    }
    var mergeable := ChildrenMergeable(node);
    if !mergeable {
      return true;
    }
    hide Mergeable, AllDeepEqual, Join;
    var first := node.children[0];
    var names := ChildNames(node);
    var spec: Spec;
    match node.spec {
      case ScopeSpec(_, _) =>
        if !first.spec.CollectionSpec? {
          return false;
        }
        spec := CollectionGroupSpec(names, first.spec.settings);
      case BucketSpec(_) =>
        spec := ScopeGroupSpec(names);
      case EphemeralBucketSpec(_) =>
        spec := ScopeGroupSpec(names);
      case _ =>
        return false;
    }
    var child := new Node(Join(names, ", "), spec, Unset);
    AddChildrenOf(child, first);
    node.ClearChildren();
    node.AddChild(child);
    assert node.tree.children == [child.tree];
    return true;
  }

  // ----- the pass -----

  /** How the tree looked when its breadth-first order was taken. */
  datatype Snapshot = Snapshot(order: seq<Node>, trees: map<Node, Tree>, reach: map<Node, set<Node>>, kids: map<Node, seq<Node>>)

  ghost function TakeSnapshot(order: seq<Node>): (s: Snapshot)
    reads order
  {
    Snapshot(order, map n | n in order :: n.tree, map n | n in order :: n.repr, map n | n in order :: n.children)
  }

  /** What the order guarantees, as facts about the snapshot alone. */
  ghost predicate Consistent(s: Snapshot)
  {
    (forall n | n in s.order :: n in s.trees && n in s.reach && n in s.kids && n in s.reach[n]) &&
    (forall k, j | 0 <= k < j < |s.order| :: s.order[k] !in s.reach[s.order[j]]) &&
    (forall k | 0 <= k < |s.order| :: KidsConsistent(s, k))
  }

  ghost predicate KidsConsistent(s: Snapshot, k: nat)
    requires forall n | n in s.order :: n in s.trees && n in s.reach && n in s.kids
    requires k < |s.order|
  {
    var n := s.order[k];
    |s.kids[n]| == |s.trees[n].children| && Ordered(s.trees[n].children) &&
    (forall x | 0 <= x < |s.kids[n]| ::
       ListedAfter(s.order, k, s.kids[n][x]) && s.trees[s.kids[n][x]] == s.trees[n].children[x] &&
       s.reach[s.kids[n][x]] <= s.reach[n]) &&
    (forall x, y | 0 <= x < y < |s.kids[n]| ::
       ListedAfter(s.order, k, s.kids[n][x]) && ListedAfter(s.order, k, s.kids[n][y]) ==>
       s.reach[s.kids[n][x]] !! s.reach[s.kids[n][y]])
  }

  lemma SnapshotConsistent(order: seq<Node>)
    requires TopDown(order) && forall n | n in order :: n.Valid()
    ensures Consistent(TakeSnapshot(order))
  {
    var s := TakeSnapshot(order);
    forall k | 0 <= k < |order| ensures KidsConsistent(s, k) {
      var n := order[k];
      assert n in order && ChildrenFollow(order, k);
      forall x | 0 <= x < |n.children| ensures n.children[x] in order {
        assert ListedAfter(order, k, n.children[x]);
      }
    }
  }

  /** A node the pass has not come to yet. */
  ghost predicate Pending(n: Node, s: Snapshot)
    requires n in s.trees && n in s.reach && n in s.kids
    reads n
  {
    n.tree == s.trees[n] && n.repr == s.reach[n] && n.children == s.kids[n] &&
    n.name == n.tree.name && n.spec == n.tree.spec && n.action == n.tree.action
  }

  /** A node the pass has dealt with: it is the root of its compacted tree. */
  ghost predicate Processed(n: Node, s: Snapshot, groups: set<Node>)
    requires n in s.trees && n in s.reach
    reads n, n.repr
  {
    n.Valid() && n.tree == Compacted(s.trees[n]) && Compactable(s.trees[n]) && n.repr <= s.reach[n] + groups
  }

  ghost function Reached(ns: seq<Node>): set<Node>
    reads ns
  {
    set i, m | 0 <= i < |ns| && m in ns[i].repr :: m
  }

  lemma ReachedWithin(ns: seq<Node>, bound: set<Node>)
    requires forall i | 0 <= i < |ns| :: ns[i].repr <= bound
    ensures Reached(ns) <= bound
  {}

  lemma ReachedApart(ns: seq<Node>, other: set<Node>)
    requires forall i | 0 <= i < |ns| :: ns[i].repr !! other
    ensures Reached(ns) !! other
  {}

  /** Makes a pending node whole again once its children have been processed. */
  ghost method Rebuild(n: Node, t: Tree, kids: seq<Tree>)
    requires n.name == t.name && n.spec == t.spec && n.action == t.action
    requires |n.children| == |kids| && Ordered(kids)
    requires forall i | 0 <= i < |kids| :: n.children[i].Valid() && n.children[i].tree == kids[i] && n !in n.children[i].repr
    requires forall i, j | 0 <= i < j < |kids| :: n.children[i].repr !! n.children[j].repr
    modifies n`tree, n`repr
    ensures n.Valid() && n.tree == t.(children := kids)
    ensures n.repr == {n} + Reached(n.children)
  {
    hide Ordered;
    n.tree := t.(children := kids);
    n.repr := {n} + Reached(n.children);
  }

  /** Processed nodes that did not share a node before do not share one now. */
  ghost predicate Separate(s: Snapshot, k: nat)
    requires forall n | n in s.order :: n in s.reach
    reads s.order
  {
    forall i, j | k <= i < |s.order| && k <= j < |s.order| && s.reach[s.order[i]] !! s.reach[s.order[j]] ::
      s.order[i].repr !! s.order[j].repr
  }

  /** The processed children of a pending node, position by position. */
  lemma KidsProcessed(s: Snapshot, k: nat, groups: set<Node>)
    requires Consistent(s) && k < |s.order| && Pending(s.order[k], s)
    requires s.order[k] !in groups
    requires forall j | k < j < |s.order| :: Processed(s.order[j], s, groups)
    requires Separate(s, k + 1)
    ensures var n := s.order[k]; var ts := s.trees[n].children;
            |n.children| == |ts| &&
            (forall x | 0 <= x < |ts| ::
               n.children[x].Valid() && n.children[x].tree == Compacted(ts[x]) && Compactable(ts[x]) &&
               n !in n.children[x].repr && n.children[x].repr <= s.reach[n] + groups) &&
            (forall x, y | 0 <= x < y < |ts| :: n.children[x].repr !! n.children[y].repr)
  {
    hide Compacted, Compactable, Node.Valid;
    var n := s.order[k];
    assert n in s.order && KidsConsistent(s, k);
    forall x | 0 <= x < |n.children|
      ensures exists j | k < j < |s.order| :: s.order[j] == n.children[x] && s.reach[s.order[j]] <= s.reach[n]
      ensures n.children[x].repr <= s.reach[n] + groups && n !in n.children[x].repr
    {
      assert ListedAfter(s.order, k, n.children[x]);
      var j :| k < j < |s.order| && s.order[j] == n.children[x];
      assert Processed(s.order[j], s, groups);
    }
    forall x, y | 0 <= x < y < |n.children| ensures n.children[x].repr !! n.children[y].repr {
      var i :| k < i < |s.order| && s.order[i] == n.children[x];
      var j :| k < j < |s.order| && s.order[j] == n.children[y];
      assert s.reach[s.order[i]] !! s.reach[s.order[j]];
    }
  }

  lemma CompactedOrdered(ts: seq<Tree>)
    requires Ordered(ts)
    ensures Ordered(AllCompacted(ts))
  {
    hide Shares, Ungroupable, GroupSpec, Less;
    assert forall i | 0 <= i < |ts| :: AllCompacted(ts)[i].name == ts[i].name;
  }

  /** Makes the node whole before its own children are looked at. */
  ghost method Prepare(node: Node, k: nat, s: Snapshot, groups: set<Node>)
    requires Consistent(s) && k < |s.order| && s.order[k] == node && Pending(node, s) && node !in groups
    requires forall j | k < j < |s.order| :: Processed(s.order[j], s, groups)
    requires Separate(s, k + 1)
    modifies node`tree, node`repr
    ensures node.Valid() && node.repr <= s.reach[node] + groups
    ensures node.tree == s.trees[node].(children := AllCompacted(s.trees[node].children))
    ensures forall c | c in s.trees[node].children :: Compactable(c)
    ensures forall j | k < j < |s.order| && s.reach[s.order[j]] !! s.reach[node] :: s.order[j].repr !! node.repr
  {
    hide Compacted, Compactable, Ordered;
    KidsProcessed(s, k, groups);
    KidsSeparate(s, k, groups);
    assert KidsConsistent(s, k);
    ghost var t := s.trees[node];
    CompactedOrdered(t.children);
    ReachedWithin(node.children, s.reach[node] + groups);
    forall j | k < j < |s.order| && s.reach[s.order[j]] !! s.reach[node] ensures s.order[j].repr !! {node} + Reached(node.children) {
      ReachedApart(node.children, s.order[j].repr);
    }
    assert node in s.reach[node];
    hide Node.Valid, Processed, Separate, Consistent, KidsConsistent, Reached;
    Rebuild(node, t, AllCompacted(t.children));
  }

  /** What lies apart from the node lies apart from its children. */
  lemma KidsSeparate(s: Snapshot, k: nat, groups: set<Node>)
    requires Consistent(s) && k < |s.order| && Pending(s.order[k], s) && s.order[k] !in groups
    requires forall j | k < j < |s.order| :: Processed(s.order[j], s, groups)
    requires Separate(s, k + 1)
    ensures forall j, x | k < j < |s.order| && s.reach[s.order[j]] !! s.reach[s.order[k]] && 0 <= x < |s.order[k].children| ::
              s.order[j].repr !! s.order[k].children[x].repr
    ensures forall j | k < j < |s.order| :: s.order[k] !in s.order[j].repr
  {
    hide Compacted, Compactable, Node.Valid;
    var n := s.order[k];
    assert n in s.order && KidsConsistent(s, k);
    forall j, x | k < j < |s.order| && s.reach[s.order[j]] !! s.reach[n] && 0 <= x < |n.children|
      ensures s.order[j].repr !! n.children[x].repr
    {
      assert ListedAfter(s.order, k, n.children[x]);
      var i :| k < i < |s.order| && s.order[i] == n.children[x];
      assert s.reach[s.order[j]] !! s.reach[s.order[i]];
    }
    forall j | k < j < |s.order| ensures n !in s.order[j].repr {
      assert Processed(s.order[j], s, groups);
    }
  }

  /** One step of the pass: the node's children have been dealt with, now the node itself. */
  method CompactOne(node: Node, ghost k: nat, ghost s: Snapshot, ghost groups: set<Node>) returns (ok: bool)
    requires Consistent(s) && k < |s.order| && s.order[k] == node && Pending(node, s) && node !in groups
    requires forall j | k < j < |s.order| :: Processed(s.order[j], s, groups)
    requires Separate(s, k + 1)
    modifies node
    ensures ok <==> Compactable(s.trees[node])
    ensures ok ==> node.Valid() && node.tree == Compacted(s.trees[node]) && fresh(node.repr - s.reach[node] - groups)
    ensures ok ==> forall j | k < j < |s.order| && s.reach[s.order[j]] !! s.reach[node] :: s.order[j].repr !! node.repr
  {
    Prepare(node, k, s, groups);
    CompactedUnfold(s.trees[node]);
    hide Compacted, Grouped, Ungroupable, Separate, Consistent;
    ok := GroupChildren(node);
  }

  ghost predicate ParentRecorded(s: Snapshot, k: nat)
    requires k < |s.order| && forall n | n in s.order :: n in s.kids
  {
    exists m, x | 0 <= m < k && 0 <= x < |s.kids[s.order[m]]| :: s.kids[s.order[m]][x] == s.order[k]
  }

  ghost predicate RootedSnapshot(s: Snapshot)
    requires forall n | n in s.order :: n in s.kids
  {
    forall k | 0 < k < |s.order| :: ParentRecorded(s, k)
  }

  lemma SnapshotRooted(order: seq<Node>)
    requires Rooted(order)
    ensures RootedSnapshot(TakeSnapshot(order))
  {
    var s := TakeSnapshot(order);
    forall k | 0 < k < |order| ensures ParentRecorded(s, k) {
      assert ParentPrecedes(order, k);
      var m, x :| 0 <= m < k && 0 <= x < |order[m].children| && order[m].children[x] == order[k];
      assert s.kids[order[m]][x] == order[k];
    }
  }

  /** A subtree that cannot be compacted makes the whole tree one that cannot. */
  lemma {:induction false} FailureReachesRoot(s: Snapshot, k: nat)
    requires Consistent(s) && RootedSnapshot(s) && k < |s.order| && !Compactable(s.trees[s.order[k]])
    ensures !Compactable(s.trees[s.order[0]])
    decreases k
  {
    if k > 0 {
      assert ParentRecorded(s, k);
      var m, x :| 0 <= m < k && 0 <= x < |s.kids[s.order[m]]| && s.kids[s.order[m]][x] == s.order[k];
      assert KidsConsistent(s, m);
      assert s.trees[s.order[k]] in s.trees[s.order[m]].children;
      FailureReachesRoot(s, m);
    }
  }

  /** The state of the pass when the nodes from position i on have been dealt with. */
  ghost predicate Pass(s: Snapshot, i: nat, groups: set<Node>)
    requires Consistent(s)
    reads s.order, set n, m | n in s.order && m in n.repr :: m
  {
    (forall n | n in s.order :: s.reach[n] !! groups) &&
    (forall k | 0 <= k < i && k < |s.order| :: Pending(s.order[k], s)) &&
    (forall k | i <= k < |s.order| :: Processed(s.order[k], s, groups)) &&
    Separate(s, i)
  }

  lemma PassStarts(order: seq<Node>)
    requires forall n | n in order :: n.Valid()
    requires Consistent(TakeSnapshot(order))
    ensures Pass(TakeSnapshot(order), |order|, {})
  {
    hide Consistent;
    forall k | 0 <= k < |order| ensures Pending(order[k], TakeSnapshot(order)) {
      assert order[k] in order;
    }
  }

  lemma PassEnds(s: Snapshot, groups: set<Node>)
    requires Consistent(s) && s.order != [] && Pass(s, 0, groups)
    ensures Processed(s.order[0], s, groups)
  {}

  method PassStep(ghost s: Snapshot, node: Node, ghost i: nat, ghost groups: set<Node>) returns (ok: bool, ghost more: set<Node>)
    requires Consistent(s) && i < |s.order| && s.order[i] == node && Pass(s, i + 1, groups)
    modifies node
    ensures ok <==> Compactable(s.trees[node])
    ensures ok ==> groups <= more && fresh(more - groups) && Pass(s, i, more)
  {
    hide Compacted, Compactable, Node.Valid, KidsConsistent;
    assert node in s.order && node in s.reach[node];
    KidsSeparate(s, i, groups);
    assert forall j | i < j < |s.order| :: Processed(s.order[j], s, groups);
    ok := CompactOne(node, i, s, groups);
    more := groups + (node.repr - s.reach[node]);
    if ok {
      assert Separate(s, i) by {
        assert forall j | i < j < |s.order| :: s.order[j].repr == old(s.order[j].repr);
        hide Processed, Pending;
      }
      hide Separate;
    }
  }

  /** Takes the order the pass will follow backwards, and a snapshot of the tree. */
  method StartPass(root: Node) returns (order: seq<Node>, ghost s: Snapshot)
    requires root.Valid()
    ensures s.order == order && order != [] && order[0] == root && forall n | n in order :: n in root.repr
    ensures Consistent(s) && RootedSnapshot(s) && Pass(s, |order|, {})
    ensures s.trees[root] == root.tree && s.reach[root] == root.repr
  {
    order := BreadthFirstSearch(root);
    s := TakeSnapshot(order);
    assert forall n | n in order :: n in n.repr && n in root.repr;
    SnapshotConsistent(order);
    SnapshotRooted(order);
    PassStarts(order);
  }

  /** Compacts a tree in place, visiting its nodes in reverse breadth-first order. The outcome is what
      compacting it bottom-up gives. */
  method CompactInPlace(root: Node) returns (ok: bool)
    requires root.Valid()
    modifies root.repr
    ensures ok <==> Compactable(old(root.tree))
    ensures ok ==> root.Valid() && root.tree == Compacted(old(root.tree)) && fresh(root.repr - old(root.repr))
  {
    hide Compacted, Compactable, Node.Valid, Consistent, RootedSnapshot, Pass;
    var order, s := StartPass(root);
    ghost var groups: set<Node> := {};
    for i := |order| downto 0
      invariant Pass(s, i, groups) && fresh(groups)
    {
      ok, groups := PassStep(s, order[i], i, groups);
      if !ok {
        FailureReachesRoot(s, i);
        return;
      }
    }
    PassEnds(s, groups);
    ok := true;
  }

  /** Drops dead nodes from a copy of the merged tree and compacts what is left. */
  method CompactTree(merged: Node) returns (r: Option<Node>)
    requires merged.Valid()
    ensures r.Some? <==> Compactable(Pruned(merged.tree))
    ensures r.Some? ==> r.value.Valid() && fresh(r.value.repr) && r.value.tree == Compacted(Pruned(merged.tree))
  {
    hide Compacted, Compactable, Pruned;
    var compacted := merged.DeepCopy();
    compacted.DeadCode();
    var ok := CompactInPlace(compacted);
    return if ok then Some(compacted) else None;
  }
}
