/** The mutable tree the restore works on: nodes with a sorted child list, updated in place. */
module TreeNodes {
  import opened Names
  import opened Topology
  import opened Merge
  import opened DeadCode
  import opened Compact

  /** No node is reachable from two of the siblings. */
  ghost predicate Apart(ns: seq<Node>)
    reads ns
  {
    forall i, j | 0 <= i < j < |ns| :: ns[i].repr !! ns[j].repr
  }

  lemma InsertApart(ns: seq<Node>, k: nat, n: Node)
    requires k <= |ns| && Apart(ns) && forall i | 0 <= i < |ns| :: ns[i].repr !! n.repr
    ensures Apart(ns[..k] + [n] + ns[k..])
  {
    var r := ns[..k] + [n] + ns[k..];
    forall i, j | 0 <= i < j < |r| ensures r[i].repr !! r[j].repr {
      if i == k {
        assert r[j] == ns[j - 1];
      } else if j == k {
        assert r[i] == ns[i];
      }
    }
  }

  /** The nodes of a list that are not dead, and where in the list they are. */
  method LiveNodes(ns: seq<Node>, ghost ts: seq<Tree>) returns (live: seq<Node>, ghost from: seq<nat>)
    requires |ns| == |ts|
    requires forall i | 0 <= i < |ns| :: ns[i].action == ts[i].action && ns[i].spec == ts[i].spec
    ensures |live| == |from| == |Live(ts)|
    ensures forall j | 0 <= j < |from| :: from[j] < |ns| && live[j] == ns[from[j]] && Live(ts)[j] == ts[from[j]]
    ensures forall j, k | 0 <= j < k < |from| :: from[j] < from[k]
  {
    live, from := [], [];
    ghost var kept: seq<Tree> := [];
    for i := 0 to |ns|
      invariant kept == Live(ts[..i])
      invariant |live| == |kept| == |from|
      invariant forall j | 0 <= j < |from| :: from[j] < i && live[j] == ns[from[j]] && kept[j] == ts[from[j]]
      invariant forall j, k | 0 <= j < k < |from| :: from[j] < from[k]
    {
      LiveGrows(ts, i);
      if ns[i].action != Delete && !ns[i].spec.CanBeImplied() {
        live, kept, from := live + [ns[i]], kept + [ts[i]], from + [i];
      }
    }
    assert ts[..|ns|] == ts;
  }

  class Node {
    var name: string
    var spec: Spec
    var action: Action
    var children: seq<Node>

    /** The nodes this node may reach, itself included. */
    ghost var repr: set<Node>
    /** The tree this node is the root of. */
    ghost var tree: Tree

    ghost predicate Valid()
      reads this, repr
      ensures Valid() ==> this in repr
      decreases repr
    {
      this in repr &&
      tree.name == name && tree.spec == spec && tree.action == action &&
      |tree.children| == |children| && Ordered(tree.children) &&
      (forall i | 0 <= i < |children| ::
         children[i] in repr && children[i].repr <= repr && this !in children[i].repr &&
         children[i].Valid() && children[i].tree == tree.children[i]) &&
      (forall i, j | 0 <= i < j < |children| :: children[i].repr !! children[j].repr)
    }

    constructor (name: string, spec: Spec, action: Action)
      ensures Valid() && repr == {this} && tree == Tree(name, spec, action, []) && children == []
    {
      this.name, this.spec, this.action := name, spec, action;
      children := [];
      tree := Tree(name, spec, action, []);
      repr := {this};
    }

    /** Where a new child of the given name belongs. */
    method FindSlot(wanted: string) returns (k: nat)
      requires Valid()
      ensures k == Slot(tree.children, wanted)
    {
      k := |children|;
      assert tree.children[..k] == tree.children;
      while k > 0 && Less(wanted, children[k - 1].name)
        invariant 0 <= k <= |children|
        invariant Slot(tree.children[..k], wanted) == Slot(tree.children, wanted)
      {
        assert tree.children[..k][..k - 1] == tree.children[..k - 1];
        k := k - 1;
      }
    }

    /** Takes the child in among its siblings, keeping them in name order. Siblings of the same name are
        kept in the order of their arrival. */
    method AddChild(child: Node)
      requires Valid() && child.Valid() && repr !! child.repr
      modifies this
      ensures Valid() && repr == old(repr) + child.repr
      ensures tree == old(tree).(children := Insert(old(tree).children, child.tree))
      ensures var k := Slot(old(tree).children, child.name);
              k <= |old(children)| && children == old(children)[..k] + [child] + old(children)[k..]
    {
      var k := FindSlot(child.name);
      InsertKeepsOrdered(tree.children, child.tree);
      InsertApart(children, k, child);
      ghost var kids := Insert(tree.children, child.tree);
      var siblings := children[..k] + [child] + children[k..];
      forall i | 0 <= i < |siblings|
        ensures siblings[i].Valid() && this !in siblings[i].repr && siblings[i].repr <= repr + child.repr
        ensures siblings[i].tree == kids[i]
      {
        assert siblings[i] == if i < k then children[i] else if i == k then child else children[i - 1];
      }
      children := siblings;
      repr := repr + child.repr;
      tree := tree.(children := kids);
    }

    /** Brings the tree up to date after one child has changed within its own reach. */
    ghost method Refresh(i: nat)
      requires i < |children|
      requires Consistent(i)
      requires children[i].tree.name == tree.children[i].name
      modifies this`tree
      ensures Valid()
      ensures tree == old(tree).(children := old(tree).children[i := children[i].tree])
    {
      tree := tree.(children := tree.children[i := children[i].tree]);
    }

    /** Brings node and tree up to date after one child has changed and gained nodes of its own. */
    ghost method Reattach(i: nat)
      requires i < |children|
      requires this !in children[i].repr && children[i].Valid()
      requires Consistent'(i) && children[i].name == tree.children[i].name
      modifies this`tree, this`repr
      ensures Valid() && repr == old(repr) + children[i].repr
      ensures tree == old(tree).(children := old(tree).children[i := children[i].tree])
    {
      repr := repr + children[i].repr;
      tree := tree.(children := tree.children[i := children[i].tree]);
    }

    /** Valid, but for one child, of which only its apartness from its siblings is known. */
    ghost predicate Consistent'(k: nat)
      requires k < |children|
      reads this, repr, children
    {
      this in repr &&
      tree.name == name && tree.spec == spec && tree.action == action &&
      |tree.children| == |children| && Ordered(tree.children) &&
      (forall i | 0 <= i < |children| && i != k ::
         children[i] in repr && children[i].repr <= repr && this !in children[i].repr &&
         children[i].Valid() && children[i].tree == tree.children[i] && children[i].repr !! children[k].repr) &&
      (forall i, j | 0 <= i < j < |children| && i != k && j != k :: children[i].repr !! children[j].repr)
    }

    /** Valid, but for the tree of one child. */
    ghost predicate Consistent(k: nat)
      reads this, repr
    {
      this in repr &&
      tree.name == name && tree.spec == spec && tree.action == action &&
      |tree.children| == |children| && Ordered(tree.children) &&
      (forall i | 0 <= i < |children| ::
         children[i] in repr && children[i].repr <= repr && this !in children[i].repr &&
         children[i].Valid() && (i != k ==> children[i].tree == tree.children[i])) &&
      (forall i, j | 0 <= i < j < |children| :: children[i].repr !! children[j].repr)
    }

    method ClearChildren()
      requires Valid()
      modifies this
      ensures Valid() && repr == {this} && tree == old(tree).(children := [])
    {
      children := [];
      repr := {this};
      tree := tree.(children := []);
    }

    /** The first child of the given name, and its position. */
    method GetChild(wanted: string) returns (found: Option<Node>, ghost at: nat)
      requires Valid()
      ensures found.None? <==> Child(tree.children, wanted).None?
      ensures found.Some? ==>
                at < |children| && children[at] == found.value && Child(tree.children, wanted) == Some(found.value.tree) &&
                forall j | 0 <= j < at :: tree.children[j].name != wanted
    {
      for i := 0 to |children|
        invariant forall j | 0 <= j < i :: tree.children[j].name != wanted
      {
        if children[i].name == wanted {
          ChildFirst(tree.children, i, wanted);
          return Some(children[i]), i;
        }
      }
      return None, 0;
    }

    /** A fresh copy of the whole tree. */
    method DeepCopy() returns (copy: Node)
      requires Valid()
      ensures copy.Valid() && fresh(copy.repr) && copy.tree == tree
      decreases repr
    {
      copy := new Node(name, spec, action);
      var i := 0;
      while i < |children|
        invariant 0 <= i <= |children|
        invariant copy.Valid() && fresh(copy.repr)
        invariant copy.tree == Tree(name, spec, action, tree.children[..i])
      {
        var child := children[i].DeepCopy();
        copy.Append(child);
        i := i + 1;
      }
    }

    /** Puts a child behind all others, as copying in order does. */
    method Append(child: Node)
      requires Valid() && child.Valid() && repr !! child.repr
      requires forall t | t in tree.children :: !Less(child.name, t.name)
      modifies this
      ensures Valid() && repr == old(repr) + child.repr
      ensures tree == old(tree).(children := old(tree).children + [child.tree])
    {
      children := children + [child];
      repr := repr + child.repr;
      tree := tree.(children := tree.children + [child.tree]);
    }

    /** Marks the node and everything below it. */
    method SetMergeAction(a: Action)
      requires Valid()
      modifies repr
      ensures Valid() && repr == old(repr)
      ensures tree == WithAction(old(tree), a)
      decreases repr, 1
    {
      action := a;
      tree := tree.(action := a);
      ghost var kids := tree.children;
      var i := 0;
      while i < |children|
        invariant 0 <= i <= |children|
        invariant Valid() && repr == old(repr)
        invariant tree.name == old(tree).name && tree.spec == old(tree).spec && tree.action == a
        invariant |tree.children| == |kids|
        invariant forall j | 0 <= j < |kids| :: tree.children[j] == if j < i then WithAction(kids[j], a) else kids[j]
      {
        MarkChild(i, a);
        i := i + 1;
      }
      assert tree.children == WithAction(old(tree), a).children;
    }

    method MarkChild(i: nat, a: Action)
      requires Valid() && i < |children|
      modifies repr
      ensures Valid() && repr == old(repr) && children == old(children)
      ensures tree == old(tree).(children := old(tree).children[i := WithAction(old(tree).children[i], a)])
      decreases repr, 0
    {
      children[i].SetMergeAction(a);
      Refresh(i);
    }

    method PruneChild(i: nat)
      requires Valid() && i < |children|
      modifies repr
      ensures Valid() && repr == old(repr) && children == old(children)
      ensures tree == old(tree).(children := old(tree).children[i := Pruned(old(tree).children[i])])
      decreases repr, 0
    {
      children[i].DeadCode();
      Refresh(i);
    }

    /** Lets go of dead children. */
    method DropDead()
      requires Valid()
      modifies this
      ensures Valid() && repr == old(repr)
      ensures tree == old(tree).(children := Live(old(tree).children))
    {
      var live, from := LiveNodes(children, tree.children);
      ghost var kids := Live(tree.children);
      LiveOrdered(tree.children);
      assert forall j, k | 0 <= j < k < |live| :: children[from[j]].repr !! children[from[k]].repr;
      children := live;
      tree := tree.(children := kids);
    }

    /** Drops dead children, then does the same below the ones that stay. */
    method DeadCode()
      requires Valid()
      modifies repr
      ensures Valid() && repr == old(repr)
      ensures tree == Pruned(old(tree))
      decreases repr, 1
    {
      DropDead();
      ghost var kids := Live(old(tree).children);
      var i := 0;
      while i < |children|
        invariant 0 <= i <= |children|
        invariant Valid() && repr == old(repr)
        invariant tree.name == old(tree).name && tree.spec == old(tree).spec && tree.action == old(tree).action
        invariant |tree.children| == |kids|
        invariant forall j | 0 <= j < |kids| :: tree.children[j] == if j < i then Pruned(kids[j]) else kids[j]
      {
        PruneChild(i);
        i := i + 1;
      }
      assert tree.children == Pruned(old(tree)).children;
    }
  }
}
