/** Merging the current topology with the requested one, as a function on trees, and what it decides
    about every path. */
module Merge {
  import opened Names
  import opened Topology

  datatype Strategy = ReplaceStrategy | MergeStrategy
  {
    /** What becomes of a current node that nobody requested. */
    function MergeAction(): Action
    {
      if ReplaceStrategy? then Delete else Retain
    }
  }

  /** The same tree with one action everywhere. */
  function WithAction(t: Tree, a: Action): Tree
  {
    Tree(t.name, t.spec, a, seq(|t.children|, i requires 0 <= i < |t.children| => WithAction(t.children[i], a)))
  }

  function AllWithAction(ts: seq<Tree>, a: Action): (r: seq<Tree>)
    ensures |r| == |ts|
  {
    seq(|ts|, i requires 0 <= i < |ts| => WithAction(ts[i], a))
  }

  function MergeTrees(c: Tree, r: Tree, s: Strategy): Tree
    decreases c, r
  {
    Tree(r.name, r.spec, if c.spec == r.spec then Retain else Update, MergeChildren(c.children, r.children, s))
  }

  function MergeChildren(cs: seq<Tree>, rs: seq<Tree>, s: Strategy): seq<Tree>
    decreases cs, rs
  {
    if cs == [] then AllWithAction(rs, Create)
    else if rs == [] then AllWithAction(cs, s.MergeAction())
    else
      var order := Compare(cs[0].name, rs[0].name);
      if order == 0 then [MergeTrees(cs[0], rs[0], s)] + MergeChildren(cs[1..], rs[1..], s)
      else if order == 1 then [WithAction(rs[0], Create)] + MergeChildren(cs, rs[1..], s)
      else [WithAction(cs[0], s.MergeAction())] + MergeChildren(cs[1..], rs, s)
  }

  /** What the merge should say about one path, from what each tree holds there. */
  function Verdict(c: Option<Spec>, r: Option<Spec>, s: Strategy): Option<(Spec, Action)>
  {
    match (c, r)
    case (None, None) => None
    case (Some(a), Some(b)) => Some((b, if a == b then Retain else Update))
    case (None, Some(b)) => Some((b, Create))
    case (Some(a), None) => Some((a, if s.ReplaceStrategy? then Delete else Retain))
  }

  function Decision(t: Tree, p: Path): Option<(Spec, Action)>
  {
    match At(t, p)
    case None => None
    case Some(n) => Some((n.spec, n.action))
  }

  // ----- lookups in a uniformly marked tree -----

  lemma {:induction false} AllWithActionChild(ts: seq<Tree>, a: Action, name: string)
    ensures Child(AllWithAction(ts, a), name) ==
            (match Child(ts, name) case None => None case Some(t) => Some(WithAction(t, a)))
  {
    if ts != [] {
      assert AllWithAction(ts, a)[1..] == AllWithAction(ts[1..], a);
      AllWithActionChild(ts[1..], a, name);
    }
  }

  lemma {:induction false} WithActionAt(t: Tree, a: Action, p: Path)
    ensures At(WithAction(t, a), p) ==
            (match At(t, p) case None => None case Some(n) => Some(WithAction(n, a)))
    decreases |p|
  {
    if p != [] {
      assert WithAction(t, a).children == AllWithAction(t.children, a);
      AllWithActionChild(t.children, a, p[0]);
      match Child(t.children, p[0])
      case None =>
      case Some(c) => WithActionAt(c, a, p[1..]);
    }
  }

  // ----- the children of a merge -----

  /** What the merged siblings hold under a name, from what each side holds there. */
  function MergedChild(c: Option<Tree>, r: Option<Tree>, s: Strategy): Option<Tree>
  {
    match (c, r)
    case (None, None) => None
    case (Some(a), Some(b)) => Some(MergeTrees(a, b, s))
    case (None, Some(b)) => Some(WithAction(b, Create))
    case (Some(a), None) => Some(WithAction(a, s.MergeAction()))
  }

  lemma SortedTail(ts: seq<Tree>)
    requires Sorted(ts) && ts != []
    ensures Sorted(ts[1..])
    ensures Child(ts[1..], ts[0].name) == None
  {
    if |ts| > 1 {
      ChildSmaller(ts[1..], ts[0].name);
    }
  }

  lemma {:induction false} MergeChildrenChild(cs: seq<Tree>, rs: seq<Tree>, s: Strategy, name: string)
    requires Sorted(cs) && Sorted(rs)
    ensures Child(MergeChildren(cs, rs, s), name) == MergedChild(Child(cs, name), Child(rs, name), s)
    decreases |cs| + |rs|
  {
    if cs == [] {
      AllWithActionChild(rs, Create, name);
    } else if rs == [] {
      AllWithActionChild(cs, s.MergeAction(), name);
    } else {
      SortedTail(cs);
      SortedTail(rs);
      var c, r := cs[0].name, rs[0].name;
      CompareTrichotomy(c, r);
      if c == r {
        MergeChildrenChild(cs[1..], rs[1..], s, name);
      } else if Compare(c, r) == 1 {
        ChildSmaller(cs, r);
        MergeChildrenChild(cs, rs[1..], s, name);
      } else {
        ChildSmaller(rs, c);
        MergeChildrenChild(cs[1..], rs, s, name);
      }
    }
  }

  /** Merging decides every path by membership and specification equality, and by nothing else: the
      merge holds exactly the paths of either tree, the requested specification wins, and the action
      tells which side held the path. */
  lemma {:induction false} MergeDecides(c: Tree, r: Tree, s: Strategy, p: Path)
    requires SortedTree(c) && SortedTree(r)
    ensures Decision(MergeTrees(c, r, s), p) == Verdict(SpecAt(c, p), SpecAt(r, p), s)
    decreases |p|
  {
    if p != [] {
      MergeChildrenChild(c.children, r.children, s, p[0]);
      match (Child(c.children, p[0]), Child(r.children, p[0]))
      case (None, None) =>
      case (Some(a), Some(b)) => MergeDecides(a, b, s, p[1..]);
      case (None, Some(b)) => WithActionAt(b, Create, p[1..]);
      case (Some(a), None) => WithActionAt(a, s.MergeAction(), p[1..]);
    }
  }

  // ----- order -----

  /** A merged sibling is the merge of two namesakes or a marked copy of a node only one side has. */
  ghost predicate MergedFrom(t: Tree, cs: seq<Tree>, rs: seq<Tree>, s: Strategy)
  {
    (exists c, r | c in cs && r in rs :: c.name == r.name && t == MergeTrees(c, r, s)) ||
    (exists r | r in rs :: t == WithAction(r, Create)) ||
    (exists c | c in cs :: t == WithAction(c, s.MergeAction()))
  }

  lemma {:induction false} MergeChildrenFrom(cs: seq<Tree>, rs: seq<Tree>, s: Strategy, t: Tree)
    requires t in MergeChildren(cs, rs, s)
    ensures MergedFrom(t, cs, rs, s)
    decreases |cs| + |rs|
  {
    if cs == [] {
      var i :| 0 <= i < |rs| && t == WithAction(rs[i], Create);
      assert rs[i] in rs;
    } else if rs == [] {
      var i :| 0 <= i < |cs| && t == WithAction(cs[i], s.MergeAction());
      assert cs[i] in cs;
    } else {
      var order := Compare(cs[0].name, rs[0].name);
      var head, tail := MergeChildren(cs, rs, s)[0], MergeChildren(cs, rs, s)[1..];
      assert cs[0] in cs && rs[0] in rs;
      if t == head {
      } else if order == 0 {
        assert tail == MergeChildren(cs[1..], rs[1..], s);
        MergeChildrenFrom(cs[1..], rs[1..], s, t);
      } else if order == 1 {
        assert tail == MergeChildren(cs, rs[1..], s);
        MergeChildrenFrom(cs, rs[1..], s, t);
      } else {
        assert tail == MergeChildren(cs[1..], rs, s);
        MergeChildrenFrom(cs[1..], rs, s, t);
      }
    }
  }

  lemma {:induction false} SortedWithAction(t: Tree, a: Action)
    requires SortedTree(t)
    ensures SortedTree(WithAction(t, a))
  {
    forall c | c in WithAction(t, a).children ensures SortedTree(c) {
      var i :| 0 <= i < |t.children| && c == WithAction(t.children[i], a);
      SortedWithAction(t.children[i], a);
    }
  }

  lemma SortedCons(t: Tree, ts: seq<Tree>)
    requires Sorted(ts) && forall u | u in ts :: Less(t.name, u.name)
    ensures Sorted([t] + ts)
  {}

  /** All names of two sorted lists lie above a bound when the bound lies below their heads. */
  lemma {:induction false} BoundsMerge(cs: seq<Tree>, rs: seq<Tree>, s: Strategy, low: string)
    requires Sorted(cs) && Sorted(rs)
    requires cs != [] ==> Less(low, cs[0].name)
    requires rs != [] ==> Less(low, rs[0].name)
    ensures forall t | t in MergeChildren(cs, rs, s) :: Less(low, t.name)
  {
    forall t | t in MergeChildren(cs, rs, s) ensures Less(low, t.name) {
      MergeChildrenFrom(cs, rs, s, t);
      if c :| c in cs && c.name == t.name {
        if c != cs[0] { LessTransitive(low, cs[0].name, c.name); }
      } else {
        var r :| r in rs && r.name == t.name;
        if r != rs[0] { LessTransitive(low, rs[0].name, r.name); }
      }
    }
  }

  lemma {:induction false} MergeChildrenSorted(cs: seq<Tree>, rs: seq<Tree>, s: Strategy)
    requires Sorted(cs) && Sorted(rs)
    requires forall c | c in cs :: SortedTree(c)
    requires forall r | r in rs :: SortedTree(r)
    ensures Sorted(MergeChildren(cs, rs, s))
    ensures forall t | t in MergeChildren(cs, rs, s) :: SortedTree(t)
    decreases cs, rs
  {
    if cs == [] || rs == [] {
      forall t | t in cs + rs ensures SortedTree(WithAction(t, Create)) && SortedTree(WithAction(t, s.MergeAction())) {
        SortedWithAction(t, Create);
        SortedWithAction(t, s.MergeAction());
      }
    } else {
      var c, r := cs[0].name, rs[0].name;
      CompareTrichotomy(c, r);
      if c == r {
        assert cs[0] in cs && rs[0] in rs;
        MergeSorted(cs[0], rs[0], s);
        MergeChildrenSorted(cs[1..], rs[1..], s);
        BoundsMerge(cs[1..], rs[1..], s, c);
        SortedCons(MergeTrees(cs[0], rs[0], s), MergeChildren(cs[1..], rs[1..], s));
      } else if Compare(c, r) == 1 {
        assert rs[0] in rs;
        SortedWithAction(rs[0], Create);
        MergeChildrenSorted(cs, rs[1..], s);
        BoundsMerge(cs, rs[1..], s, r);
        SortedCons(WithAction(rs[0], Create), MergeChildren(cs, rs[1..], s));
      } else {
        assert cs[0] in cs;
        SortedWithAction(cs[0], s.MergeAction());
        MergeChildrenSorted(cs[1..], rs, s);
        BoundsMerge(cs[1..], rs, s, c);
        SortedCons(WithAction(cs[0], s.MergeAction()), MergeChildren(cs[1..], rs, s));
      }
    }
  }

  /** The merge of two sorted trees is sorted, at every level. */
  lemma {:induction false} MergeSorted(c: Tree, r: Tree, s: Strategy)
    requires SortedTree(c) && SortedTree(r)
    ensures SortedTree(MergeTrees(c, r, s))
    decreases c, r
  {
    MergeChildrenSorted(c.children, r.children, s);
  }
}
