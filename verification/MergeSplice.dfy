/** Merging and splicing on the mutable tree, each tied to its function on trees. */
module MergeSplice {
  import opened Names
  import opened Topology
  import opened Merge
  import opened DeadCode
  import opened Splice
  import opened Compact
  import opened TreeNodes
  import opened Walk

  // ----- adding children in order -----

  /** What adding trees one by one to a list of siblings gives. */
  function AddedAll(done: seq<Tree>, rest: seq<Tree>): seq<Tree>
    decreases rest
  {
    if rest == [] then done else AddedAll(Insert(done, rest[0]), rest[1..])
  }

  lemma AddedAllStep(done: seq<Tree>, all: seq<Tree>, i: nat)
    requires i < |all|
    ensures AddedAll(done, all[i..]) == AddedAll(Insert(done, all[i]), all[i + 1..])
  {
    assert all[i..][1..] == all[i + 1..];
  }

  /** Trees that come in name order are simply put behind what is there. */
  lemma {:induction false} OrderedAddedAll(done: seq<Tree>, rest: seq<Tree>)
    requires Ordered(done + rest)
    ensures AddedAll(done, rest) == done + rest
    decreases rest
  {
    if rest != [] {
      var all := done + rest;
      forall t | t in done ensures !Less(rest[0].name, t.name) {
        var i :| 0 <= i < |done| && done[i] == t;
        assert all[i] == t && all[|done|] == rest[0];
      }
      InsertLast(done, rest[0]);
      assert done + [rest[0]] + rest[1..] == all;
      OrderedAddedAll(done + [rest[0]], rest[1..]);
    }
  }

  /** A copy of a node with one action throughout, added as a child. */
  method AddMarkedCopy(n: Node, source: Node, a: Action)
    requires n.Valid() && source.Valid() && n !in source.repr
    modifies n
    ensures n.Valid() && fresh(n.repr - old(n.repr))
    ensures n.tree == old(n.tree).(children := Insert(old(n.tree).children, WithAction(source.tree, a)))
  {
    var child := source.DeepCopy();
    child.SetMergeAction(a);
    n.AddChild(child);
  }

  /** Marked copies of the nodes from a position on, added one by one. */
  method AddMarkedCopies(n: Node, sources: seq<Node>, start: nat, a: Action, ghost marked: seq<Tree>)
    requires n.Valid() && |sources| == |marked| && start <= |marked|
    requires forall i | 0 <= i < |marked| ::
               sources[i].Valid() && n !in sources[i].repr && WithAction(sources[i].tree, a) == marked[i]
    modifies n
    ensures n.Valid() && fresh(n.repr - old(n.repr))
    ensures n.tree == old(n.tree).(children := AddedAll(old(n.tree).children, marked[start..]))
  {
    hide Insert, WithAction;
    ghost var base := n.tree;
    ghost var all := AddedAll(base.children, marked[start..]);
    for i := start to |sources|
      invariant n.Valid() && fresh(n.repr - old(n.repr))
      invariant n.tree == base.(children := n.tree.children)
      invariant AddedAll(n.tree.children, marked[i..]) == all
      invariant forall j | 0 <= j < |marked| ::
                  sources[j].Valid() && n !in sources[j].repr && WithAction(sources[j].tree, a) == marked[j]
    {
      AddedAllStep(n.tree.children, marked, i);
      AddMarkedCopy(n, sources[i], a);
    }
  }

  // ----- merge -----

  /** What the next step of the side-by-side walk adds, and what is then left to merge. */
  lemma MergeStep(done: seq<Tree>, cs: seq<Tree>, rs: seq<Tree>, i: nat, j: nat, s: Strategy)
    requires i < |cs| && j < |rs|
    ensures var all := AddedAll(done, MergeChildren(cs[i..], rs[j..], s));
            var order := Compare(cs[i].name, rs[j].name);
            if order == 0 then
              all == AddedAll(Insert(done, MergeTrees(cs[i], rs[j], s)), MergeChildren(cs[i + 1..], rs[j + 1..], s))
            else if order == 1 then
              all == AddedAll(Insert(done, WithAction(rs[j], Create)), MergeChildren(cs[i..], rs[j + 1..], s))
            else
              all == AddedAll(Insert(done, WithAction(cs[i], s.MergeAction())), MergeChildren(cs[i + 1..], rs[j..], s))
  {
    assert cs[i..][1..] == cs[i + 1..] && rs[j..][1..] == rs[j + 1..];
    var rest := MergeChildren(cs[i..], rs[j..], s);
    assert rest[1..] == if Compare(cs[i].name, rs[j].name) == 0 then MergeChildren(cs[i + 1..], rs[j + 1..], s)
                        else if Compare(cs[i].name, rs[j].name) == 1 then MergeChildren(cs[i..], rs[j + 1..], s)
                        else MergeChildren(cs[i + 1..], rs[j..], s);
  }

  /** Once one side is exhausted the other is copied as it stands. */
  lemma MergeEnds(done: seq<Tree>, cs: seq<Tree>, rs: seq<Tree>, i: nat, j: nat, s: Strategy)
    requires i <= |cs| && j <= |rs| && (i == |cs| || j == |rs|)
    ensures AddedAll(AddedAll(done, AllWithAction(cs, s.MergeAction())[i..]), AllWithAction(rs, Create)[j..]) ==
            AddedAll(done, MergeChildren(cs[i..], rs[j..], s))
  {
    if i == |cs| {
      assert AllWithAction(rs, Create)[j..] == MergeChildren(cs[i..], rs[j..], s);
    } else {
      assert AllWithAction(cs, s.MergeAction())[i..] == MergeChildren(cs[i..], rs[j..], s);
    }
  }

  /** Merged siblings come out in order, so adding them one by one to nothing gives just them. */
  lemma MergeAddedAll(c: Tree, r: Tree, s: Strategy)
    requires SortedTree(c) && SortedTree(r)
    ensures AddedAll([], MergeChildren(c.children[0..], r.children[0..], s)) == MergeChildren(c.children, r.children, s)
  {
    var all := MergeChildren(c.children, r.children, s);
    MergeChildrenSorted(c.children, r.children, s);
    assert [] + all == all;
    SortedIsOrdered(all);
    OrderedAddedAll([], all);
    assert c.children[0..] == c.children && r.children[0..] == r.children;
  }

  /** Merges two trees into a fresh one, walking both child lists side by side. */
  method MergeNodes(current: Node, requested: Node, s: Strategy) returns (n: Node)
    requires current.Valid() && requested.Valid()
    requires SortedTree(current.tree) && SortedTree(requested.tree)
    ensures n.Valid() && fresh(n.repr)
    ensures n.tree == MergeTrees(current.tree, requested.tree, s)
    decreases current.repr, 2
  {
    var action := if current.spec == requested.spec then Retain else Update;
    n := requested.DeepCopy();
    n.ClearChildren();
    n.SetMergeAction(action);
    MergeKids(n, current, requested, s);
  }

  /** The children of both nodes merged into a node that has none yet. */
  method MergeKids(n: Node, current: Node, requested: Node, s: Strategy)
    requires n.Valid() && current.Valid() && requested.Valid()
    requires n !in current.repr && n !in requested.repr && n.tree.children == []
    requires SortedTree(current.tree) && SortedTree(requested.tree)
    modifies n
    ensures n.Valid() && fresh(n.repr - old(n.repr))
    ensures n.tree == old(n.tree).(children := MergeChildren(current.tree.children, requested.tree.children, s))
    decreases current.repr, 1
  {
    hide Insert, WithAction, MergeTrees, MergeChildren, AddedAll, SortedTree;
    MergeAddedAll(current.tree, requested.tree, s);
    var i, j := MergeWhileBoth(n, current, requested, s);
    ghost var a := s.MergeAction();
    MergeEnds(n.tree.children, current.tree.children, requested.tree.children, i, j, s);
    AddMarkedCopies(n, current.children, i, s.MergeAction(), AllWithAction(current.tree.children, a));
    AddMarkedCopies(n, requested.children, j, Create, AllWithAction(requested.tree.children, Create));
  }

  /** The side-by-side walk, up to where one side is exhausted. */
  method MergeWhileBoth(n: Node, current: Node, requested: Node, s: Strategy) returns (i: nat, j: nat)
    requires n.Valid() && current.Valid() && requested.Valid()
    requires n !in current.repr && n !in requested.repr
    requires SortedTree(current.tree) && SortedTree(requested.tree)
    modifies n
    ensures i <= |current.children| && j <= |requested.children|
    ensures i == |current.children| || j == |requested.children|
    ensures n.Valid() && fresh(n.repr - old(n.repr))
    ensures n.tree == old(n.tree).(children := n.tree.children)
    ensures AddedAll(n.tree.children, MergeChildren(current.tree.children[i..], requested.tree.children[j..], s)) ==
            old(AddedAll(n.tree.children, MergeChildren(current.tree.children[0..], requested.tree.children[0..], s)))
    decreases current.repr, 0
  {
    hide Insert, WithAction, MergeTrees, MergeChildren, AddedAll;
    var cc, rc := current.children, requested.children;
    ghost var ct, rt := current.tree.children, requested.tree.children;
    ghost var all := AddedAll(n.tree.children, MergeChildren(ct[0..], rt[0..], s));
    ghost var base := n.tree;
    i, j := 0, 0;
    while i < |cc| && j < |rc|
      invariant 0 <= i <= |cc| && 0 <= j <= |rc|
      invariant n.Valid() && fresh(n.repr - old(n.repr))
      invariant n.tree == base.(children := n.tree.children)
      invariant AddedAll(n.tree.children, MergeChildren(ct[i..], rt[j..], s)) == all
    {
      MergeStep(n.tree.children, ct, rt, i, j, s);
      var order := Compare(cc[i].name, rc[j].name);
      if order == 0 {
        var child := MergeNodes(cc[i], rc[j], s);
        n.AddChild(child);
        i, j := i + 1, j + 1;
      } else if order == 1 {
        AddMarkedCopy(n, rc[j], Create);
        j := j + 1;
      } else {
        AddMarkedCopy(n, cc[i], s.MergeAction());
        i := i + 1;
      }
    }
  }

  // ----- splice -----

  /** Copies of the nodes, added one by one. */
  method AddCopies(n: Node, sources: seq<Node>, ghost ts: seq<Tree>)
    requires n.Valid() && |sources| == |ts|
    requires forall i | 0 <= i < |ts| :: sources[i].Valid() && n !in sources[i].repr && sources[i].tree == ts[i]
    modifies n
    ensures n.Valid() && fresh(n.repr - old(n.repr))
    ensures n.tree == old(n.tree).(children := AddedAll(old(n.tree).children, ts))
  {
    hide Insert;
    ghost var base := n.tree;
    ghost var all := AddedAll(base.children, ts);
    assert ts[0..] == ts;
    for i := 0 to |sources|
      invariant n.Valid() && fresh(n.repr - old(n.repr))
      invariant n.tree == base.(children := n.tree.children)
      invariant AddedAll(n.tree.children, ts[i..]) == all
      invariant forall j | 0 <= j < |ts| :: sources[j].Valid() && n !in sources[j].repr && sources[j].tree == ts[j]
    {
      AddedAllStep(n.tree.children, ts, i);
      var child := sources[i].DeepCopy();
      n.AddChild(child);
    }
  }

  /** Follows the path down and swaps the children of the node it leads to; on the way back every node
      passed has its tree brought up to date. */
  method SpliceBelow(node: Node, elements: Path, sources: seq<Node>, ghost ts: seq<Tree>) returns (ok: bool)
    requires node.Valid() && |sources| == |ts|
    requires forall i | 0 <= i < |ts| :: sources[i].Valid() && node.repr !! sources[i].repr && sources[i].tree == ts[i]
    modifies node.repr
    ensures ok <==> SpliceTree(old(node.tree), elements, AddedAll([], ts)).Some?
    ensures ok ==> node.Valid() && fresh(node.repr - old(node.repr))
    ensures ok ==> node.tree == SpliceTree(old(node.tree), elements, AddedAll([], ts)).value
    decreases |elements|
  {
    hide AddedAll;
    if elements == [] {
      node.ClearChildren();
      AddCopies(node, sources, ts);
      return true;
    }
    var child, at := node.GetChild(elements[0]);
    if child.None? {
      return false;
    }
    ok := SpliceBelow(child.value, elements[1..], sources, ts);
    if ok {
      ghost var t := child.value.tree;
      SpliceKeepsName(node.tree.children[at], elements[1..], AddedAll([], ts));
      ReplaceChildFirst(node.tree.children, at, elements[0], t);
      node.Reattach(at);
    }
  }

  /** Splices the requested children into a copy of the current tree; the current tree stays as it was. */
  method SpliceNodes(current: Node, requested: Node, elements: Path) returns (spliced: Option<Node>)
    requires current.Valid() && requested.Valid()
    ensures spliced.Some? <==> At(current.tree, elements).Some?
    ensures spliced.Some? ==>
              spliced.value.Valid() && fresh(spliced.value.repr) &&
              Some(spliced.value.tree) == SpliceTree(current.tree, elements, AddedAll([], requested.tree.children))
  {
    SpliceAt(current.tree, elements, AddedAll([], requested.tree.children), []);
    hide AddedAll, SpliceTree, At;
    var copy := current.DeepCopy();
    var ok := SpliceBelow(copy, elements, requested.children, requested.tree.children);
    return if ok then Some(copy) else None;
  }
}
