/** Building the node tree from stored resources, following references level by level. */
module BuildNodes {
  import opened Topology
  import opened TreeNodes
  import opened MergeSplice
  import opened LinkBuild

  lemma BuiltAllStep(ls: Levels, rs: seq<Reference>, i: nat, level: nat, done: seq<Tree>)
    requires i < |rs| && level <= BASE_LEVELS
    ensures var all, rest := BuiltAll(ls, rs[i..], level), BuiltAll(ls, rs[i + 1..], level);
            if level == BASE_LEVELS || rs[i].name !in ls[level] then all.None?
            else
              var t := Built(ls, ls[level][rs[i].name], level);
              (all.Some? <==> t.Some? && rest.Some?) &&
              (all.Some? ==> AddedAll(done, all.value) == AddedAll(Insert(done, t.value), rest.value))
  {
    assert rs[i..][1..] == rs[i + 1..];
    hide Insert, Built;
    if BuiltAll(ls, rs[i..], level).Some? {
      var ts := BuiltAll(ls, rs[i..], level).value;
      assert ts[1..] == BuiltAll(ls, rs[i + 1..], level).value;
    }
  }

  /** A child that changes under its name stays where it was put. */
  lemma InsertThenChange(ts: seq<Tree>, t: Tree, u: Tree)
    requires t.name == u.name
    ensures Insert(ts, t)[Slot(ts, t.name) := u] == Insert(ts, u)
  {}

  /** Turns a resource into a node below the given one, and then its children into nodes below that. */
  method RecurseBuild(ls: Levels, root: Node, o: Resource, level: nat) returns (ok: bool)
    requires root.Valid() && level < BASE_LEVELS
    modifies root
    ensures ok <==> Built(ls, o, level).Some?
    ensures ok ==> root.Valid() && fresh(root.repr - old(root.repr))
    ensures ok ==> root.tree == old(root.tree).(children := Insert(old(root.tree).children, Built(ls, o, level).value))
    decreases BASE_LEVELS - level, 0
  {
    if Refers(o.spec) && (o.selection.None? || o.selection.value.byLabel) {
      return false;
    }
    ok := NoGroups(References(o));
    if !ok || Level(o.spec).None? {
      return false;
    }
    hide Insert, AddedAll, BuiltAll;
    var node := new Node(CouchbaseName(o), Stripped(o.spec), Unset);
    ok := AttachAndBuild(ls, root, node, References(o), level + 1);
  }

  /** Puts the node below the root, then its children below it. */
  method AttachAndBuild(ls: Levels, root: Node, node: Node, rs: seq<Reference>, level: nat) returns (ok: bool)
    requires root.Valid() && node.Valid() && root.repr !! node.repr && level <= BASE_LEVELS && node.tree.children == []
    modifies root, node
    ensures ok <==> BuiltAll(ls, rs, level).Some?
    ensures ok ==> root.Valid() && fresh(root.repr - old(root.repr) - old(node.repr))
    ensures ok ==>
              root.tree ==
                old(root.tree).(children :=
                  Insert(old(root.tree).children, old(node.tree).(children := AddedAll([], BuiltAll(ls, rs, level).value))))
    decreases BASE_LEVELS - level, 2
  {
    hide Insert, AddedAll, BuiltAll, Built;
    ghost var at, ts, leaf := Slot(root.tree.children, node.name), root.tree.children, node.tree;
    root.AddChild(node);
    assert root.children[at] == node;
    ok := BuildChildren(ls, node, rs, level);
    if ok {
      InsertThenChange(ts, leaf, node.tree);
      root.Reattach(at);
    }
  }

  method NoGroups(rs: seq<Reference>) returns (ok: bool)
    ensures ok <==> forall r | r in rs :: !r.group
  {
    for i := 0 to |rs|
      invariant forall r | r in rs[..i] :: !r.group
    {
      if rs[i].group {
        return false;
      }
    }
    return true;
  }

  /** Looks every child up one level further down and builds it below the node. */
  method BuildChildren(ls: Levels, node: Node, rs: seq<Reference>, level: nat) returns (ok: bool)
    requires node.Valid() && level <= BASE_LEVELS
    modifies node
    ensures ok <==> BuiltAll(ls, rs, level).Some?
    ensures ok ==> node.Valid() && fresh(node.repr - old(node.repr))
    ensures ok ==> node.tree == old(node.tree).(children := AddedAll(old(node.tree).children, BuiltAll(ls, rs, level).value))
    decreases BASE_LEVELS - level, 1
  {
    hide Insert, AddedAll, Built, BuiltAll;
    ghost var base := node.tree;
    assert rs[0..] == rs;
    for i := 0 to |rs|
      invariant node.Valid() && fresh(node.repr - old(node.repr))
      invariant node.tree == base.(children := node.tree.children)
      invariant BuiltAll(ls, rs[i..], level).Some? <==> BuiltAll(ls, rs, level).Some?
      invariant BuiltAll(ls, rs, level).Some? ==>
                  AddedAll(node.tree.children, BuiltAll(ls, rs[i..], level).value) ==
                  AddedAll(base.children, BuiltAll(ls, rs, level).value)
    {
      BuiltAllStep(ls, rs, i, level, node.tree.children);
      if level == BASE_LEVELS || rs[i].name !in ls[level] {
        return false;
      }
      ok := RecurseBuild(ls, node, ls[level][rs[i].name], level);
      if !ok {
        return;
      }
    }
    NothingLeft(ls, rs, level, node.tree.children);
    return true;
  }

  lemma NothingLeft(ls: Levels, rs: seq<Reference>, level: nat, done: seq<Tree>)
    requires level <= BASE_LEVELS
    ensures BuiltAll(ls, rs[|rs|..], level) == Some([]) && AddedAll(done, []) == done
  {}

  /** Sorts the objects into levels, finds the level they start at, and builds a tree below a root that
      carries the path's name. The roots are taken in any order. */
  method Build(objects: seq<Resource>, pathName: string, pathLevel: nat, save: bool)
    returns (root: Option<Node>, ghost order: seq<string>)
    ensures root.Some? ==> AllLevelled(objects) && BaseLevel(objects, save) == pathLevel < BASE_LEVELS
    ensures root.Some? ==>
              Enumerates(order, Filed(objects)[pathLevel].Keys) &&
              BuiltAll(Filed(objects), ByName(order), pathLevel).Some? &&
              root.value.Valid() && fresh(root.value.repr) &&
              root.value.tree ==
                Tree(pathName, RootSpec, Unset, AddedAll([], BuiltAll(Filed(objects), ByName(order), pathLevel).value))
    ensures root.None? ==>
              !AllLevelled(objects) || BaseLevel(objects, save) == BASE_LEVELS || BaseLevel(objects, save) != pathLevel ||
              exists n :: n in Filed(objects)[pathLevel] && Built(Filed(objects), Filed(objects)[pathLevel][n], pathLevel).None?
  {
    order := [];
    var ls: Levels := [map[], map[], map[]];
    var level := if save then BASE_LEVELS else 0;
    for i := 0 to |objects|
      invariant AllLevelled(objects[..i])
      invariant ls == Filed(objects[..i])
      invariant level == BaseLevel(objects[..i], save)
    {
      assert objects[..i + 1][..i] == objects[..i];
      var l := Level(objects[i].spec);
      if l.None? {
        assert objects[i] in objects;
        return None, [];
      }
      level := if l.value < level then l.value else level;
      ls := ls[l.value := ls[l.value][objects[i].name := objects[i]]];
    }
    assert objects[..|objects|] == objects;
    if level == BASE_LEVELS || level != pathLevel {
      return None, [];
    }
    var node := new Node(pathName, RootSpec, Unset);
    var ok;
    ok, order := BuildRoots(ls, node, level);
    return if ok then Some(node) else None, order;
  }

  /** Builds every resource of a level below the node, in any order. */
  method BuildRoots(ls: Levels, node: Node, level: nat) returns (ok: bool, ghost order: seq<string>)
    requires node.Valid() && level < BASE_LEVELS
    modifies node
    ensures ok ==>
              Enumerates(order, ls[level].Keys) && BuiltAll(ls, ByName(order), level).Some? &&
              node.Valid() && fresh(node.repr - old(node.repr)) &&
              node.tree == old(node.tree).(children := AddedAll(old(node.tree).children, BuiltAll(ls, ByName(order), level).value))
    ensures !ok ==> exists n :: n in ls[level] && Built(ls, ls[level][n], level).None?
  {
    hide Insert, AddedAll, Built;
    order := [];
    ghost var base, built := node.tree, [];
    var rest := ls[level].Keys;
    assert AddedAll(base.children, []) == base.children by {
      NothingLeft(ls, [], level, base.children);
    }
    while rest != {}
      invariant node.Valid() && fresh(node.repr - old(node.repr))
      invariant rest <= ls[level].Keys && Enumerates(order, ls[level].Keys - rest)
      invariant |built| == |order|
      invariant forall i | 0 <= i < |order| :: order[i] in ls[level] && Built(ls, ls[level][order[i]], level) == Some(built[i])
      invariant node.tree == base.(children := AddedAll(base.children, built))
    {
      var n :| n in rest;
      rest := rest - {n};
      ok := RecurseBuild(ls, node, ls[level][n], level);
      if !ok {
        return;
      }
      AddedAllOneMore(base.children, built, Built(ls, ls[level][n], level).value);
      assert n !in order;
      order, built := order + [n], built + [Built(ls, ls[level][n], level).value];
    }
    BuiltAllAt(ls, ByName(order), level, built);
    return true, order;
  }

  lemma {:induction false} AddedAllOneMore(done: seq<Tree>, all: seq<Tree>, t: Tree)
    ensures AddedAll(done, all + [t]) == Insert(AddedAll(done, all), t)
    decreases all
  {
    if all == [] {
      assert [t][1..] == [];
    } else {
      assert (all + [t])[1..] == all[1..] + [t];
      AddedAllOneMore(Insert(done, all[0]), all[1..], t);
    }
  }
}
