/** Naming and linking the nodes of a tree in breadth-first order, so that they can be stored as resources. */
module LinkNodes {
  import opened Topology
  import opened TreeNodes
  import opened Walk
  import opened LinkBuild

  function LinkedReferences(ns: seq<Node>, names: map<Node, string>): (r: seq<Reference>)
    requires forall n | n in ns :: n in names
    reads ns
    ensures |r| == |ns|
  {
    seq(|ns|, i requires 0 <= i < |ns| reads ns => Reference(ns[i].spec.IsGroup(), names[ns[i]]))
  }

  /** The resource of a node, given every node's resource name. */
  function LinkedResource(n: Node, names: map<Node, string>): Resource
    requires n in names && forall c | c in n.children :: c in names
    reads n, n.children
  {
    Resource(names[n], LinkedSpec(n.spec, n.children != []), LinkedName(n.spec, n.name),
             if Links(n.spec) then Some(Selection(true, false, LinkedReferences(n.children, names))) else None)
  }

  /** Links one node to its children, if they are of a kind it can have. */
  method LinkNode(n: Node, names: map<Node, string>) returns (r: Option<Resource>)
    requires n in names && forall c | c in n.children :: c in names
    ensures r.Some? <==> forall i | 0 <= i < |n.children| :: Fits(n.spec, n.children[i].spec)
    ensures r.Some? ==> r.value == LinkedResource(n, names)
  {
    var references: seq<Reference> := [];
    var selection := None;
    if Links(n.spec) {
      for i := 0 to |n.children|
        invariant |references| == i
        invariant forall j | 0 <= j < i :: Fits(n.spec, n.children[j].spec)
        invariant forall j | 0 <= j < i :: references[j] == Reference(n.children[j].spec.IsGroup(), names[n.children[j]])
      {
        if !Fits(n.spec, n.children[i].spec) {
          return None;
        }
        references := references + [Reference(n.children[i].spec.IsGroup(), names[n.children[i]])];
      }
      assert references == LinkedReferences(n.children, names);
      selection := Some(Selection(true, false, references));
    }
    return Some(Resource(names[n], LinkedSpec(n.spec, n.children != []), LinkedName(n.spec, n.name), selection));
  }

  /** A breadth-first listing of a valid tree. */
  ghost predicate Listing(order: seq<Node>)
    reads order, set n, m | n in order && m in n.repr :: m
  {
    order != [] && (forall n | n in order :: n.Valid()) && TopDown(order) && Rooted(order)
  }

  /** Every node listed has a name, and no two the same. */
  ghost predicate Named(order: seq<Node>, names: map<Node, string>)
  {
    (forall n | n in order :: n in names) &&
    forall i, j | 0 <= i < j < |order| :: names[order[i]] != names[order[j]]
  }

  lemma ChildrenListed(order: seq<Node>, k: nat)
    requires Listing(order) && k < |order|
    ensures forall c | c in order[k].children :: c in order
  {
    assert ChildrenFollow(order, k);
    forall c | c in order[k].children ensures c in order {
      var x :| 0 <= x < |order[k].children| && order[k].children[x] == c;
      assert ListedAfter(order, k, c);
    }
  }

  /** Gives every node of a listing a resource name of its own. */
  method GenerateResourceNames(order: seq<Node>, generate: nat -> string) returns (names: map<Node, string>)
    requires Listing(order) && forall i, j :: i != j ==> generate(i) != generate(j)
    ensures Named(order, names)
  {
    forall i, j | 0 <= i < j < |order| ensures order[i] != order[j] {
      assert order[j] in order && order[j].Valid();
      assert order[i] !in order[j].repr;
    }
    names := map[];
    for i := 0 to |order|
      invariant forall j | 0 <= j < i :: order[j] in names && names[order[j]] == generate(j)
    {
      names := names[order[i] := generate(i)];
    }
  }

  /** The resources of all nodes but the root, in the order of the listing. */
  ghost predicate Linked(order: seq<Node>, names: map<Node, string>, rs: seq<Resource>)
    reads order, set n, m | n in order && m in n.repr :: m
  {
    Listing(order) && Named(order, names) && |rs| == |order| - 1 && LinkedUpTo(order, |order|, names, rs)
  }

  /** The first nodes of the listing and their resources. */
  ghost predicate LinkedUpTo(order: seq<Node>, i: nat, names: map<Node, string>, rs: seq<Resource>)
    requires i <= |order| && |rs| == if i == 0 then 0 else i - 1
    reads order, set n, m | n in order && m in n.repr :: m
  {
    forall k | 0 < k < i ::
      order[k] in order && order[k].Valid() && order[k] in names &&
      (forall c | c in order[k].children :: c in names) && rs[k - 1] == LinkedResource(order[k], names)
  }

  lemma LinkedOneMore(order: seq<Node>, i: nat, names: map<Node, string>, rs: seq<Resource>, r: Resource)
    requires Listing(order) && Named(order, names) && i < |order| && |rs| == if i == 0 then 0 else i - 1
    requires LinkedUpTo(order, i, names, rs)
    requires (forall c | c in order[i].children :: c in names) && r == LinkedResource(order[i], names)
    ensures LinkedUpTo(order, i + 1, names, if i > 0 then rs + [r] else rs)
  {
    assert order[i] in order;
    hide LinkedResource, TopDown, Rooted;
  }

  lemma LinkedUnique(order: seq<Node>, names: map<Node, string>, rs: seq<Resource>)
    requires Linked(order, names, rs)
    ensures UniqueResources(rs)
  {
    forall i, j | 0 <= i < j < |rs| ensures rs[i].name != rs[j].name {
      assert rs[(i + 1) - 1] == LinkedResource(order[i + 1], names);
      assert rs[(j + 1) - 1] == LinkedResource(order[j + 1], names);
    }
  }

  /** Where a node's child is listed. */
  lemma ChildAt(order: seq<Node>, k: nat, x: nat) returns (j: nat)
    requires Listing(order) && k < |order| && x < |order[k].children|
    ensures k < j < |order| && order[j] == order[k].children[x]
  {
    assert ChildrenFollow(order, k);
    assert ListedAfter(order, k, order[k].children[x]);
    j :| k < j < |order| && order[j] == order[k].children[x];
  }

  /** The resources describe the trees of their nodes. */
  lemma {:induction false} NodesDescribed(order: seq<Node>, names: map<Node, string>, rs: seq<Resource>, k: nat)
    requires Linked(order, names, rs) && 0 < k < |order|
    ensures Describes(rs, rs[k - 1], order[k].tree)
    decreases |order| - k
  {
    var n, o := order[k], rs[k - 1];
    assert n in order && n.Valid() && o == LinkedResource(n, names);
    if Links(n.spec) {
      forall x | 0 <= x < |n.children|
        ensures o.selection.value.references[x].group == n.tree.children[x].spec.IsGroup()
        ensures exists c :: c in rs && c.name == o.selection.value.references[x].name && Describes(rs, c, n.tree.children[x])
      {
        var j := ChildAt(order, k, x);
        NodesDescribed(order, names, rs, j);
        assert rs[j - 1] in rs && rs[j - 1].name == names[order[j]];
      }
    }
  }

  // ----- which trees can be linked -----

  ghost predicate FitsChildren(n: Node)
    reads n, n.children
  {
    forall i | 0 <= i < |n.children| :: Fits(n.spec, n.children[i].spec)
  }

  /** Once every node listed fits its children the trees of all of them can be linked. */
  lemma {:induction false} AllFit(order: seq<Node>, k: nat)
    requires Listing(order) && k < |order| && forall j | 0 <= j < |order| :: FitsChildren(order[j])
    ensures Linkable(order[k].tree)
    decreases |order| - k
  {
    var n := order[k];
    assert n in order && n.Valid() && FitsChildren(n);
    forall x | 0 <= x < |n.children| ensures Linkable(n.tree.children[x]) {
      var j := ChildAt(order, k, x);
      AllFit(order, j);
    }
  }

  /** One node that does not fit its children spoils the whole tree. */
  lemma {:induction false} OneMisfit(order: seq<Node>, k: nat)
    requires Listing(order) && k < |order| && !Linkable(order[k].tree)
    ensures !Linkable(order[0].tree)
  {
    if k > 0 {
      assert ParentPrecedes(order, k);
      var m, x :| 0 <= m < k && 0 <= x < |order[m].children| && order[m].children[x] == order[k];
      assert order[m] in order && order[m].Valid();
      assert order[m].tree.children[x] == order[k].tree;
      OneMisfit(order, m);
    }
  }

  // ----- levels -----

  ghost predicate Layers(ts: seq<Tree>, level: nat)
  {
    forall i | 0 <= i < |ts| :: Layered(ts[i], level)
  }

  /** Everything listed belongs to the level of the roots' children or a lower one, and to that level only if it
      is such a child itself. */
  lemma {:induction false} LevelsListed(order: seq<Node>, k: nat, level: nat) returns (l: nat)
    requires Listing(order) && 0 < k < |order|
    requires Layers(order[0].tree.children, level)
    ensures Layered(order[k].tree, l) && (l > level || (l == level && order[k] in order[0].children))
  {
    assert ParentPrecedes(order, k);
    var m, x :| 0 <= m < k && 0 <= x < |order[m].children| && order[m].children[x] == order[k];
    assert order[m] in order && order[m].Valid();
    assert order[m].tree.children[x] == order[k].tree;
    if m == 0 {
      l := level;
    } else {
      var u := LevelsListed(order, m, level);
      assert order[m].tree.children[x] in order[m].tree.children;
      l := u + 1;
    }
  }

  ghost predicate Bucketless(t: Tree)
  {
    !t.spec.IsBucket() && forall c | c in t.children :: Bucketless(c)
  }

  lemma BucketNotBucketless(t: Tree)
    ensures t.spec.IsBucket() ==> !Bucketless(t)
  {}

  /** Buckets are found among the root's children and nowhere else. */
  ghost predicate BucketsOnTop(t: Tree)
  {
    forall b | b in t.children :: b.spec.IsBucket() && forall c | c in b.children :: Bucketless(c)
  }

  lemma {:induction false} BucketsListed(order: seq<Node>, k: nat)
    requires Listing(order) && 0 < k < |order| && BucketsOnTop(order[0].tree)
    ensures if order[k] in order[0].children then order[k].tree.spec.IsBucket() && order[k].tree in order[0].tree.children
            else Bucketless(order[k].tree)
  {
    assert order[0] in order && order[0].Valid();
    if order[k] in order[0].children {
      var x :| 0 <= x < |order[0].children| && order[0].children[x] == order[k];
      assert order[0].tree.children[x] == order[k].tree;
    } else {
      assert ParentPrecedes(order, k);
      var m, x :| 0 <= m < k && 0 <= x < |order[m].children| && order[m].children[x] == order[k];
      assert order[m] in order && order[m].Valid();
      assert order[m].tree.children[x] == order[k].tree;
      BucketsListed(order, m);
      assert order[m].tree.children[x] in order[m].tree.children;
    }
  }

  // ----- the whole -----

  /** The operator is to manage the children of every resource that can have any, by name alone and without any of its
      own, and a scope says so in its selector. */
  predicate WellSelected(o: Resource)
  {
    (o.spec.BucketSpec? || o.spec.EphemeralBucketSpec? || o.spec.ScopeSpec? || o.spec.ScopeGroupSpec? ==>
       o.selection.Some? && o.selection.value.managed && !o.selection.value.byLabel) &&
    (o.spec.ScopeSpec? ==>
       o.spec.collections.Some? && o.spec.collections.value.managed && !o.spec.collections.value.preserveDefault &&
       (o.spec.collections.value.selects <==> o.selection.value.references != []))
  }

  /** Every reference names exactly one resource, which is of the kind the reference says and one the referring
      resource can have. */
  ghost predicate Resolved(rs: seq<Resource>)
  {
    UniqueResources(rs) &&
    forall o, x | o in rs && o.selection.Some? && 0 <= x < |o.selection.value.references| ::
      Resolves(rs, o, o.selection.value.references[x])
  }

  ghost predicate Resolves(rs: seq<Resource>, o: Resource, reference: Reference)
  {
    exists c :: c in rs && c.name == reference.name && c.spec.IsGroup() == reference.group && Fits(o.spec, c.spec)
  }

  lemma LinkedResolved(order: seq<Node>, names: map<Node, string>, rs: seq<Resource>)
    requires Linked(order, names, rs) && forall k | 0 <= k < |order| :: FitsChildren(order[k])
    ensures Resolved(rs)
  {
    LinkedUnique(order, names, rs);
    forall o, x | o in rs && o.selection.Some? && 0 <= x < |o.selection.value.references|
      ensures Resolves(rs, o, o.selection.value.references[x])
    {
      var i :| 0 <= i < |rs| && rs[i] == o;
      assert rs[(i + 1) - 1] == LinkedResource(order[i + 1], names);
      var j := ChildAt(order, i + 1, x);
      assert rs[j - 1] == LinkedResource(order[j], names);
      assert FitsChildren(order[i + 1]) && rs[j - 1] in rs;
    }
  }

  lemma LinkedSelected(order: seq<Node>, names: map<Node, string>, rs: seq<Resource>)
    requires Linked(order, names, rs)
    ensures forall o | o in rs :: WellSelected(o)
  {
    forall o | o in rs ensures WellSelected(o) {
      var i :| 0 <= i < |rs| && rs[i] == o;
      assert rs[(i + 1) - 1] == LinkedResource(order[i + 1], names);
    }
  }

  ghost function Position(order: seq<Node>, n: Node): (j: nat)
    requires exists j :: 0 < j < |order| && order[j] == n
    ensures 0 < j < |order| && order[j] == n
  {
    var j :| 0 < j < |order| && order[j] == n;
    j
  }

  /** The resources of the root's children stand for the root's subtrees. */
  lemma LinkedTops(order: seq<Node>, names: map<Node, string>, rs: seq<Resource>) returns (tops: seq<Resource>)
    requires Linked(order, names, rs)
    ensures |tops| == |order[0].tree.children| && UniqueResources(tops)
    ensures forall i | 0 <= i < |tops| :: Describes(rs, tops[i], order[0].tree.children[i])
    ensures forall level: nat | Layers(order[0].tree.children, level) :: TopLevel(rs, tops, level)
    ensures BucketsOnTop(order[0].tree) ==> forall o | o in rs :: o.spec.IsBucket() <==> o in tops
  {
    var root := order[0];
    assert root in order && root.Valid();
    forall x | 0 <= x < |root.children| ensures exists j :: 0 < j < |order| && order[j] == root.children[x] {
      var j := ChildAt(order, 0, x);
    }
    var kids := root.children;
    var at := seq(|kids|, x requires 0 <= x < |kids| => Position(order, kids[x]));
    tops := seq(|root.children|, x requires 0 <= x < |at| && 0 < at[x] <= |rs| => rs[at[x] - 1]);
    forall x | 0 <= x < |tops| ensures Describes(rs, tops[x], root.tree.children[x]) {
      NodesDescribed(order, names, rs, at[x]);
    }
    TopsUnique(order, names, rs, at, tops);
    forall level: nat | Layers(root.tree.children, level)
      ensures TopLevel(rs, tops, level)
    {
      TopsAreTopLevel(order, names, rs, at, tops, level);
    }
    if BucketsOnTop(root.tree) {
      TopsAreBuckets(order, names, rs, at, tops);
    }
  }

  lemma TopsAreBuckets(order: seq<Node>, names: map<Node, string>, rs: seq<Resource>, at: seq<nat>, tops: seq<Resource>)
    requires Linked(order, names, rs) && |tops| == |at| == |order[0].children| && BucketsOnTop(order[0].tree)
    requires forall x | 0 <= x < |at| :: 0 < at[x] < |order| && order[at[x]] == order[0].children[x] && tops[x] == rs[at[x] - 1]
    ensures forall o | o in rs :: o.spec.IsBucket() <==> o in tops
  {
    forall x | 0 <= x < |tops| ensures tops[x].spec.IsBucket() && tops[x] in rs {
      assert order[at[x]] in order[0].children;
      BucketListed(order, names, rs, at[x]);
    }
    forall o | o in rs && o.spec.IsBucket() ensures o in tops {
      var i :| 0 <= i < |rs| && rs[i] == o;
      BucketListed(order, names, rs, i + 1);
      var x :| 0 <= x < |order[0].children| && order[0].children[x] == order[i + 1];
      BucketListed(order, names, rs, at[x]);
      assert tops[x] == o;
    }
    hide Linked, BucketsOnTop;
  }

  /** The resource of a listed node is a bucket's exactly if the node is a child of the root. */
  lemma BucketListed(order: seq<Node>, names: map<Node, string>, rs: seq<Resource>, k: nat)
    requires Linked(order, names, rs) && 0 < k < |order| && BucketsOnTop(order[0].tree)
    ensures rs[k - 1].spec.IsBucket() <==> order[k] in order[0].children
    ensures order[k] in names && (forall c | c in order[k].children :: c in names) && rs[k - 1] == LinkedResource(order[k], names)
  {
    assert order[k] in order && order[k].Valid();
    hide TopDown, Rooted, Bucketless;
    BucketsListed(order, k);
    BucketNotBucketless(order[k].tree);
  }

  lemma TopsUnique(order: seq<Node>, names: map<Node, string>, rs: seq<Resource>, at: seq<nat>, tops: seq<Resource>)
    requires Linked(order, names, rs) && |tops| == |at| == |order[0].children|
    requires forall x | 0 <= x < |at| :: 0 < at[x] < |order| && order[at[x]] == order[0].children[x] && tops[x] == rs[at[x] - 1]
    ensures UniqueResources(tops)
  {
    assert order[0] in order && order[0].Valid();
    LinkedUnique(order, names, rs);
    forall x, y | 0 <= x < y < |tops| ensures tops[x].name != tops[y].name {
      assert order[0].children[x].Valid() && order[0].children[y].Valid();
      assert order[0].children[x].repr !! order[0].children[y].repr;
      assert at[x] != at[y];
    }
  }

  lemma TopsAreTopLevel(order: seq<Node>, names: map<Node, string>, rs: seq<Resource>, at: seq<nat>, tops: seq<Resource>, level: nat)
    requires Linked(order, names, rs) && |tops| == |at| == |order[0].children|
    requires forall x | 0 <= x < |at| :: 0 < at[x] < |order| && order[at[x]] == order[0].children[x] && tops[x] == rs[at[x] - 1]
    requires Layers(order[0].tree.children, level)
    ensures TopLevel(rs, tops, level)
  {
    assert order[0] in order && order[0].Valid();
    forall o | o in rs ensures Level(o.spec).Some? && LevelOf(o.spec) >= level && (LevelOf(o.spec) == level ==> o in tops) {
      var i :| 0 <= i < |rs| && rs[i] == o;
      assert rs[(i + 1) - 1] == LinkedResource(order[i + 1], names);
      assert order[i + 1] in order && order[i + 1].Valid();
      var l := LevelsListed(order, i + 1, level);
      assert Level(order[i + 1].tree.spec) == Some(l);
      if l == level {
        var x :| 0 <= x < |order[0].children| && order[0].children[x] == order[i + 1];
        assert order[at[x]] == order[i + 1];
        assert rs[at[x] - 1] == LinkedResource(order[at[x]], names);
        assert tops[x] == o;
      }
    }
  }

  /** Copies the tree, names its nodes and links them. It succeeds exactly if every node has only children it
      can refer to; then every reference leads to exactly one of the resources, and these stand for the tree. */
  method Link(current: Node, generate: nat -> string) returns (r: Option<seq<Resource>>, ghost tops: seq<Resource>)
    requires current.Valid() && forall i, j :: i != j ==> generate(i) != generate(j)
    ensures r.Some? <==> Linkable(current.tree)
    ensures r.Some? ==> Resolved(r.value) && forall o | o in r.value :: WellSelected(o)
    ensures r.Some? ==> forall level: nat | Layers(current.tree.children, level) ::
              StandsFor(r.value, tops, current.tree.children, level)
    ensures r.Some? ==>
              |tops| == |current.tree.children| &&
              forall i | 0 <= i < |tops| :: Describes(r.value, tops[i], current.tree.children[i])
    ensures r.Some? && BucketsOnTop(current.tree) ==> forall o | o in r.value :: o.spec.IsBucket() <==> o in tops
  {
    var root := current.DeepCopy();
    var order := BreadthFirstSearch(root);
    var names := GenerateResourceNames(order, generate);
    tops := [];
    var rs := LinkAll(order, names);
    if rs.None? {
      return None, [];
    }
    LinkedResolved(order, names, rs.value);
    LinkedSelected(order, names, rs.value);
    tops := LinkedTops(order, names, rs.value);
    return rs, tops;
  }

  /** Links every node of a listing and collects the resources of all but the root, which has none. */
  method LinkAll(order: seq<Node>, names: map<Node, string>) returns (rs: Option<seq<Resource>>)
    requires Listing(order) && Named(order, names)
    ensures rs.Some? <==> Linkable(order[0].tree)
    ensures rs.Some? ==> Linked(order, names, rs.value) && forall k | 0 <= k < |order| :: FitsChildren(order[k])
  {
    var resources: seq<Resource> := [];
    for i := 0 to |order|
      invariant |resources| == if i == 0 then 0 else i - 1
      invariant forall j | 0 <= j < i :: FitsChildren(order[j])
      invariant LinkedUpTo(order, i, names, resources)
    {
      hide LinkedUpTo, LinkedResource, TopDown, Rooted;
      ChildrenListed(order, i);
      var r := LinkNode(order[i], names);
      if r.None? {
        assert order[i].Valid() && order[0].Valid();
        assert !Linkable(order[i].tree);
        OneMisfit(order, i);
        return None;
      }
      LinkedOneMore(order, i, names, resources, r.value);
      if i > 0 {
        resources := resources + [r.value];
      }
    }
    AllFit(order, 0);
    return Some(resources);
  }
}
