/** Read-only walks over the node tree: breadth-first order and the equality used for compaction. */
module Walk {
  import opened Topology
  import opened Compact
  import opened TreeNodes

  ghost predicate ListedAfter(order: seq<Node>, k: nat, n: Node)
  {
    exists j | k < j < |order| :: order[j] == n
  }

  ghost predicate ChildrenFollow(order: seq<Node>, k: nat)
    requires k < |order|
    reads order[k]
  {
    forall x | 0 <= x < |order[k].children| :: ListedAfter(order, k, order[k].children[x])
  }

  ghost predicate ParentPrecedes(order: seq<Node>, k: nat)
    requires k < |order|
    reads order
  {
    exists m, x | 0 <= m < k && 0 <= x < |order[m].children| :: order[m].children[x] == order[k]
  }

  /** Every node precedes its children, and no node is reachable from one listed after it. */
  ghost predicate TopDown(order: seq<Node>)
    reads order
  {
    (forall k | 0 <= k < |order| :: ChildrenFollow(order, k)) &&
    (forall k, j | 0 <= k < j < |order| :: order[k] !in order[j].repr)
  }

  /** Every node but the first is listed after a node it is a child of. */
  ghost predicate Rooted(order: seq<Node>)
    reads order
  {
    forall k | 0 < k < |order| :: ParentPrecedes(order, k)
  }

  /** The queue when the nodes before position i have been expanded: what waits is disjoint from itself
      and from what is done. */
  ghost predicate Waiting(queue: seq<Node>, i: nat, done: set<Node>)
    reads queue
  {
    i <= |queue| &&
    (forall k | 0 <= k < i :: queue[k] in done) &&
    (forall k | i <= k < |queue| :: queue[k] in queue[k].repr && queue[k].repr !! done) &&
    (forall k, j | i <= k < j < |queue| :: queue[k].repr !! queue[j].repr) &&
    (forall k, j | 0 <= k < j < |queue| && k < i :: queue[k] !in queue[j].repr)
  }

  lemma WaitingAdvances(queue: seq<Node>, i: nat, done: set<Node>)
    requires i < |queue| && Waiting(queue, i, done) && queue[i].Valid()
    ensures Waiting(queue + queue[i].children, i + 1, done + {queue[i]})
  {
    var node, n, longer := queue[i], |queue|, queue + queue[i].children;
    forall k | n <= k < |longer|
      ensures longer[k].repr <= node.repr && node !in longer[k].repr && longer[k] in longer[k].repr
    {
      assert longer[k] == node.children[k - n];
    }
    forall k, j | i < k < j < |longer| ensures longer[k].repr !! longer[j].repr {
      if n <= k {
        assert longer[k] == node.children[k - n] && longer[j] == node.children[j - n];
      } else if n <= j {
        assert queue[i].repr !! queue[k].repr;
      }
    }
    forall k, j | 0 <= k < j < |longer| && k <= i ensures longer[k] !in longer[j].repr {
      if j < n && k == i {
        assert queue[i].repr !! queue[j].repr;
      }
    }
  }

  lemma ChildrenFollowLonger(queue: seq<Node>, i: nat)
    requires i < |queue|
    requires forall k | 0 <= k < i :: ChildrenFollow(queue, k)
    ensures forall k | 0 <= k <= i :: ChildrenFollow(queue + queue[i].children, k)
  {
    var longer := queue + queue[i].children;
    forall k, x | 0 <= k <= i && 0 <= x < |longer[k].children| ensures ListedAfter(longer, k, longer[k].children[x]) {
      if k < i {
        assert ChildrenFollow(queue, k);
        assert ListedAfter(queue, k, queue[k].children[x]);
        var j :| k < j < |queue| && queue[j] == queue[k].children[x];
        assert longer[j] == queue[j];
      } else {
        assert longer[|queue| + x] == queue[i].children[x];
      }
    }
  }

  lemma RootedLonger(queue: seq<Node>, i: nat)
    requires i < |queue| && Rooted(queue)
    ensures Rooted(queue + queue[i].children)
  {
    var longer := queue + queue[i].children;
    forall k | 0 < k < |longer| ensures ParentPrecedes(longer, k) {
      if k < |queue| {
        assert ParentPrecedes(queue, k);
        var m, x :| 0 <= m < k && 0 <= x < |queue[m].children| && queue[m].children[x] == queue[k];
        assert longer[m].children[x] == longer[k];
      } else {
        assert longer[i].children[k - |queue|] == longer[k];
      }
    }
  }

  /** The nodes of a tree in breadth-first order. */
  method BreadthFirstSearch(t: Node) returns (queue: seq<Node>)
    requires t.Valid()
    ensures queue != [] && queue[0] == t
    ensures forall n | n in queue :: n.Valid() && n.repr <= t.repr
    ensures TopDown(queue) && Rooted(queue)
  {
    queue := [t];
    ghost var done: set<Node> := {};
    var i := 0;
    while i < |queue|
      invariant 0 <= i <= |queue| && queue != [] && queue[0] == t
      invariant forall n | n in queue :: n.Valid() && n.repr <= t.repr
      invariant done <= t.repr
      invariant Waiting(queue, i, done)
      invariant forall k | 0 <= k < i :: ChildrenFollow(queue, k)
      invariant Rooted(queue)
      decreases t.repr - done
    {
      WaitingAdvances(queue, i, done);
      ChildrenFollowLonger(queue, i);
      RootedLonger(queue, i);
      assert queue[i] in queue && queue[i] in queue[i].repr && queue[i] !in done;
      done := done + {queue[i]};
      queue := queue + queue[i].children;
      i := i + 1;
    }
  }

  /** Whether two nodes have deeply equal children. */
  method ChildrenDeepEqual(a: Node, b: Node) returns (ok: bool)
    requires a.Valid() && b.Valid()
    ensures ok <==> AllDeepEqual(a.tree.children, b.tree.children)
    decreases a.repr, 0
  {
    if |a.children| != |b.children| {
      return false;
    }
    for i := 0 to |a.children|
      invariant forall j | 0 <= j < i :: Compact.DeepEqual(a.tree.children[j], b.tree.children[j])
    {
      var same := DeepEqual(a.children[i], b.children[i]);
      if !same {
        return false;
      }
    }
    return true;
  }

  /** Whether two nodes agree in specification and descendants. Names are not looked at. */
  method DeepEqual(a: Node, b: Node) returns (ok: bool)
    requires a.Valid() && b.Valid()
    ensures ok <==> Compact.DeepEqual(a.tree, b.tree)
    decreases a.repr, 1
  {
    var same := ChildrenDeepEqual(a, b);
    ok := a.spec == b.spec && same;
  }

  /** Whether the node's children may share one resource. */
  method ChildrenMergeable(n: Node) returns (ok: bool)
    requires n.Valid() && n.children != []
    ensures ok <==> Mergeable(n.tree.children)
  {
    var head := n.children[0];
    for i := 1 to |n.children|
      invariant forall j | 1 <= j < i ::
                  n.tree.children[0].spec == n.tree.children[j].spec &&
                  AllDeepEqual(n.tree.children[0].children, n.tree.children[j].children)
    {
      if head.spec != n.children[i].spec {
        return false;
      }
      var same := ChildrenDeepEqual(head, n.children[i]);
      if !same {
        return false;
      }
    }
    return true;
  }
}
