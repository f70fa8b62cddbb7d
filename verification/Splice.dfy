/** Splicing a partial save into a copy of the current tree. */
module Splice {
  import opened Names
  import opened Topology
  import opened Merge

  /** The siblings with the first one of a name replaced. */
  function ReplaceChild(ts: seq<Tree>, name: string, t: Tree): (r: seq<Tree>)
    ensures |r| == |ts|
  {
    if ts == [] then []
    else if ts[0].name == name then [t] + ts[1..]
    else [ts[0]] + ReplaceChild(ts[1..], name, t)
  }

  /** The tree with the children of the node a path leads to replaced; nothing if the path leads nowhere. */
  function SpliceTree(t: Tree, elements: Path, kids: seq<Tree>): Option<Tree>
    decreases |elements|
  {
    if elements == [] then Some(t.(children := kids))
    else match Child(t.children, elements[0])
         case None => None
         case Some(c) =>
           match SpliceTree(c, elements[1..], kids)
           case None => None
           case Some(d) => Some(t.(children := ReplaceChild(t.children, elements[0], d)))
  }

  predicate Below(elements: Path, p: Path)
  {
    elements < p
  }

  lemma {:induction false} ReplaceChildChild(ts: seq<Tree>, name: string, t: Tree, other: string)
    requires t.name == name && Child(ts, name).Some?
    ensures Child(ReplaceChild(ts, name, t), other) == if other == name then Some(t) else Child(ts, other)
  {
    if ts[0].name != name {
      ReplaceChildChild(ts[1..], name, t, other);
    }
  }

  /** A splice finds its point exactly when the path leads somewhere, and then changes nothing that is not
      strictly below it, where the tree becomes the new children. */
  lemma {:induction false} SpliceAt(t: Tree, elements: Path, kids: seq<Tree>, p: Path)
    ensures SpliceTree(t, elements, kids).Some? <==> At(t, elements).Some?
    ensures SpliceTree(t, elements, kids).Some? ==>
              var r := SpliceTree(t, elements, kids).value;
              r.name == t.name &&
              (!Below(elements, p) ==> SpecAt(r, p) == SpecAt(t, p)) &&
              (Below(elements, p) ==> At(r, p) == At(Tree("", RootSpec, Unset, kids), p[|elements|..]))
    decreases |elements|
  {
    if elements == [] {
      if p != [] {
        assert p[0..] == p;
      }
    } else {
      match Child(t.children, elements[0])
      case None =>
      case Some(c) =>
        var q: Path := if p == [] then [] else p[1..];
        SpliceAt(c, elements[1..], kids, q);
        match SpliceTree(c, elements[1..], kids)
        case None =>
        case Some(d) =>
          if p != [] {
            ReplaceChildChild(t.children, elements[0], d, p[0]);
            if p[0] == elements[0] {
              assert Below(elements, p) <==> Below(elements[1..], q) by {
                assert elements == [elements[0]] + elements[1..];
                assert p == [p[0]] + q;
              }
              if Below(elements, p) {
                assert p[|elements|..] == q[|elements| - 1..];
              }
            }
          }
    }
  }

  lemma {:induction false} SpliceKeepsName(t: Tree, elements: Path, kids: seq<Tree>)
    requires SpliceTree(t, elements, kids).Some?
    ensures SpliceTree(t, elements, kids).value.name == t.name
  {
    SpliceAt(t, elements, kids, []);
  }

  /** Replacing a child by name replaces it where the name first occurs. */
  lemma {:induction false} ReplaceChildFirst(ts: seq<Tree>, i: nat, name: string, t: Tree)
    requires i < |ts| && ts[i].name == name && forall j | 0 <= j < i :: ts[j].name != name
    ensures ReplaceChild(ts, name, t) == ts[i := t]
  {
    if i > 0 {
      ReplaceChildFirst(ts[1..], i - 1, name, t);
    }
  }

  lemma {:induction false} ReplaceChildSorted(ts: seq<Tree>, name: string, t: Tree)
    requires Sorted(ts) && t.name == name
    ensures Sorted(ReplaceChild(ts, name, t))
    ensures forall u | u in ReplaceChild(ts, name, t) :: u == t || u in ts
    ensures forall i | 0 <= i < |ts| :: ReplaceChild(ts, name, t)[i].name == ts[i].name
  {
    if ts != [] && ts[0].name != name {
      ReplaceChildSorted(ts[1..], name, t);
    }
  }

  lemma {:induction false} SpliceSorted(t: Tree, elements: Path, kids: seq<Tree>)
    requires SortedTree(t) && Sorted(kids) && forall k | k in kids :: SortedTree(k)
    requires SpliceTree(t, elements, kids).Some?
    ensures SortedTree(SpliceTree(t, elements, kids).value)
    decreases |elements|
  {
    if elements != [] {
      var c := Child(t.children, elements[0]).value;
      SpliceSorted(c, elements[1..], kids);
      SpliceAt(c, elements[1..], kids, []);
      ReplaceChildSorted(t.children, elements[0], SpliceTree(c, elements[1..], kids).value);
    }
  }

  /** Merging a tree with a splice of itself retains every node that is not strictly below the splice
      point, under either strategy; below it, the save decides against what was there. */
  lemma {:induction false} SpliceMergeRetains(c: Tree, elements: Path, kids: seq<Tree>, s: Strategy, p: Path)
    requires SortedTree(c) && Sorted(kids) && forall k | k in kids :: SortedTree(k)
    requires At(c, elements).Some?
    ensures SpliceTree(c, elements, kids).Some?
    ensures Decision(MergeTrees(c, SpliceTree(c, elements, kids).value, s), p) ==
            if Below(elements, p)
            then Verdict(SpecAt(c, p), SpecAt(Tree("", RootSpec, Unset, kids), p[|elements|..]), s)
            else match SpecAt(c, p) case None => None case Some(spec) => Some((spec, Retain))
  {
    SpliceAt(c, elements, kids, p);
    SpliceSorted(c, elements, kids);
    MergeDecides(c, SpliceTree(c, elements, kids).value, s, p);
  }
}
