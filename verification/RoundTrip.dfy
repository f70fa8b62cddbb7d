/** Storing a topology as resources and building it back. */
module RoundTrip {
  import opened Topology
  import opened TreeNodes
  import opened LinkBuild
  import opened BuildNodes
  import opened LinkNodes

  /** Buckets, scopes and collections that lie in layers can always be linked. */
  lemma {:induction false} LayeredLinkable(t: Tree, level: nat)
    requires Layered(t, level)
    ensures Linkable(t)
  {
    forall i | 0 <= i < |t.children| ensures Fits(t.spec, t.children[i].spec) && Linkable(t.children[i]) {
      assert t.children[i] in t.children;
      LayeredLinkable(t.children[i], level + 1);
    }
  }

  /** A topology that is linked and stored, and then listed and built, comes back with the same names,
      specifications and children, whatever order the resources are listed in. */
  method LinkThenBuild(current: Node, generate: nat -> string, listed: seq<Resource> -> seq<Resource>, level: nat, save: bool)
    returns (rebuilt: Option<Node>)
    requires current.Valid() && forall i, j :: i != j ==> generate(i) != generate(j)
    requires forall rs | UniqueResources(rs) :: Shuffled(listed(rs), rs)
    requires level < BASE_LEVELS && WellFormed(current.tree.children, level)
    requires current.spec.RootSpec?
    requires if save then current.children != [] else level == 0
    ensures rebuilt.Some? && rebuilt.value.Valid()
    ensures rebuilt.value.tree == Tree(current.name, RootSpec, Unset, AllPlain(current.tree.children))
  {
    hide Filed, Built, BuiltAll, AllPlain, Describes, Layered, UniqueResources;
    ghost var kids := current.tree.children;
    var rs, tops := Link(current, generate);
    assert Layers(kids, level);
    assert Linkable(current.tree) by {
      forall i | 0 <= i < |kids| ensures Linkable(kids[i]) {
        LayeredLinkable(kids[i], level);
      }
    }
    assert StandsFor(rs.value, tops, kids, level);
    var objects := listed(rs.value);
    BuildSucceeds(objects, rs.value, tops, kids, level, save);
    ghost var order;
    rebuilt, order := Build(objects, current.name, level, save);
    BuildUndoesLink(objects, rs.value, tops, kids, level, order);
  }
}
