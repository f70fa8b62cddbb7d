/** Trees and the resources they are stored as: naming and linking resources, and building a tree back from them. */
module LinkBuild {
  import opened Names
  import opened Topology
  import opened MergeSplice

  datatype Reference = Reference(group: bool, name: string)

  /** How a resource chooses its children, if the operator is to manage them: by label selector, or by naming each of
      them. */
  datatype Selection = Selection(managed: bool, byLabel: bool, references: seq<Reference>)

  datatype Resource = Resource(name: string, spec: Spec, couchbaseName: string, selection: Option<Selection>)

  // ----- levels -----

  const BASE_LEVELS := 3

  /** The level of the hierarchy a resource is stored at. Groups and roots have none. */
  function Level(s: Spec): Option<nat>
  {
    if s.IsBucket() then Some(0) else if s.ScopeSpec? then Some(1) else if s.CollectionSpec? then Some(2) else None
  }

  /** Resources by level and name. */
  type Levels = ls: seq<map<string, Resource>> | |ls| == BASE_LEVELS witness [map[], map[], map[]]

  function Put(ls: Levels, o: Resource): Levels
  {
    match Level(o.spec)
    case None => ls
    case Some(l) => ls[l := ls[l][o.name := o]]
  }

  /** The objects sorted into levels, the last of each name winning. */
  function Filed(objects: seq<Resource>): Levels
  {
    if objects == [] then [map[], map[], map[]]
    else Put(Filed(objects[..|objects| - 1]), objects[|objects| - 1])
  }

  predicate AllLevelled(objects: seq<Resource>)
  {
    forall o | o in objects :: Level(o.spec).Some?
  }

  function LevelOf(s: Spec): nat
  {
    match Level(s) case None => BASE_LEVELS case Some(l) => l
  }

  /** The most significant level among the objects. */
  function BaseLevel(objects: seq<Resource>, save: bool): (l: nat)
    ensures l <= BASE_LEVELS
  {
    if !save then 0
    else if objects == [] then BASE_LEVELS
    else
      var rest := BaseLevel(objects[..|objects| - 1], save);
      var last := LevelOf(objects[|objects| - 1].spec);
      if last < rest then last else rest
  }

  // ----- building -----

  /** Whether resources of this kind name children. */
  predicate Refers(s: Spec)
  {
    s.BucketSpec? || s.EphemeralBucketSpec? || s.ScopeSpec?
  }

  /** The name a resource's topology element goes by. */
  function CouchbaseName(o: Resource): string
  {
    if o.spec.ScopeSpec? && o.spec.defaultScope then DEFAULT_NAME
    else if o.couchbaseName != "" then o.couchbaseName
    else o.name
  }

  /** A specification without its links. */
  function Stripped(s: Spec): Spec
  {
    if s.ScopeSpec? then s.(collections := None) else s
  }

  /** Whether the children of a resource can be followed: it names them one by one and none is a group. */
  predicate Followable(o: Resource)
  {
    Refers(o.spec) ==>
      o.selection.Some? && !o.selection.value.byLabel && forall r | r in o.selection.value.references :: !r.group
  }

  function References(o: Resource): seq<Reference>
  {
    if Refers(o.spec) && o.selection.Some? then o.selection.value.references else []
  }

  /** The tree a resource stands for, if everything it leads to is there. */
  function Built(ls: Levels, o: Resource, level: nat): (r: Option<Tree>)
    requires level < BASE_LEVELS
    ensures r.Some? ==> r.value.name == CouchbaseName(o)
    decreases BASE_LEVELS - level, 0
  {
    if !Followable(o) || Level(o.spec).None? then None
    else match BuiltAll(ls, References(o), level + 1)
         case None => None
         case Some(ts) => Some(Tree(CouchbaseName(o), Stripped(o.spec), Unset, AddedAll([], ts)))
  }

  function BuiltAll(ls: Levels, rs: seq<Reference>, level: nat): (r: Option<seq<Tree>>)
    requires level <= BASE_LEVELS
    ensures r.Some? ==> |r.value| == |rs|
    decreases BASE_LEVELS - level, 1 + |rs|
  {
    if rs == [] then Some([])
    else if level == BASE_LEVELS || rs[0].name !in ls[level] then None
    else match Built(ls, ls[level][rs[0].name], level)
         case None => None
         case Some(t) =>
           match BuiltAll(ls, rs[1..], level)
           case None => None
           case Some(ts) => Some([t] + ts)
  }

  /** When exactly a resource can be built: buckets and scopes name their children one by one, without a label
      selector or a group among them, and all of them are there one level further down and can be built. */
  lemma BuiltIff(ls: Levels, o: Resource, level: nat)
    requires level < BASE_LEVELS
    ensures Built(ls, o, level).Some? <==>
            !o.spec.IsGroup() && !o.spec.RootSpec? &&
            (o.spec.BucketSpec? || o.spec.EphemeralBucketSpec? || o.spec.ScopeSpec? ==>
               o.selection.Some? && !o.selection.value.byLabel &&
               forall r | r in o.selection.value.references ::
                 !r.group && level + 1 < BASE_LEVELS && r.name in ls[level + 1] && Built(ls, ls[level + 1][r.name], level + 1).Some?)
    ensures Built(ls, o, level).Some? ==>
              var t := Built(ls, o, level).value;
              t.name == (if o.spec.ScopeSpec? && o.spec.defaultScope then "_default" else if o.couchbaseName == "" then o.name else o.couchbaseName) &&
              (o.spec.ScopeSpec? ==> t.spec == ScopeSpec(o.spec.defaultScope, None)) && (!o.spec.ScopeSpec? ==> t.spec == o.spec)
  {
    BuiltAllIff(ls, References(o), level + 1);
    hide BuiltAll, AddedAll;
  }

  lemma {:induction false} BuiltAllIff(ls: Levels, rs: seq<Reference>, level: nat)
    requires level <= BASE_LEVELS
    ensures BuiltAll(ls, rs, level).Some? <==>
            forall r | r in rs :: level < BASE_LEVELS && r.name in ls[level] && Built(ls, ls[level][r.name], level).Some?
  {
    if rs != [] {
      BuiltAllIff(ls, rs[1..], level);
      assert rs == [rs[0]] + rs[1..];
      hide Built;
    }
  }

  lemma {:induction false} BuiltAllAt(ls: Levels, rs: seq<Reference>, level: nat, ts: seq<Tree>)
    requires level < BASE_LEVELS && |ts| == |rs|
    requires forall i | 0 <= i < |rs| ::
               rs[i].name in ls[level] && Built(ls, ls[level][rs[i].name], level) == Some(ts[i])
    ensures BuiltAll(ls, rs, level) == Some(ts)
  {
    if rs != [] {
      forall i | 0 <= i < |rs[1..]| ensures Built(ls, ls[level][rs[1..][i].name], level) == Some(ts[1..][i]) {
        assert rs[1..][i] == rs[i + 1];
      }
      BuiltAllAt(ls, rs[1..], level, ts[1..]);
      assert ts == [ts[0]] + ts[1..];
    }
  }

  // ----- linking -----

  /** Whether linked resources of this kind refer to their children. */
  predicate Links(s: Spec)
  {
    Refers(s) || s.ScopeGroupSpec?
  }

  /** Whether a node may have a child of that kind. */
  predicate Fits(parent: Spec, child: Spec)
  {
    match parent
    case BucketSpec(_) => child.ScopeSpec? || child.ScopeGroupSpec?
    case EphemeralBucketSpec(_) => child.ScopeSpec? || child.ScopeGroupSpec?
    case ScopeSpec(_, _) => child.CollectionSpec? || child.CollectionGroupSpec?
    case ScopeGroupSpec(_) => child.CollectionSpec? || child.CollectionGroupSpec?
    case _ => true
  }

  /** Whether every node has only children its resource can refer to. */
  predicate Linkable(t: Tree)
  {
    (forall i | 0 <= i < |t.children| :: Fits(t.spec, t.children[i].spec)) &&
    (forall i | 0 <= i < |t.children| :: Linkable(t.children[i]))
  }

  function LinkedSpec(s: Spec, hasChildren: bool): Spec
  {
    if s.ScopeSpec? then s.(collections := Some(Selector(true, hasChildren, false))) else s
  }

  function LinkedName(s: Spec, name: string): string
  {
    if s.IsGroup() then "" else name
  }

  /** The resource is what linking makes of the root of the tree, given the resources it may refer to. */
  ghost predicate Describes(rs: seq<Resource>, o: Resource, t: Tree)
    decreases t
  {
    o in rs && o.spec == LinkedSpec(t.spec, t.children != []) && o.couchbaseName == LinkedName(t.spec, t.name) &&
    (if !Links(t.spec) then o.selection == None
     else
       o.selection.Some? && o.selection.value.managed && !o.selection.value.byLabel && |o.selection.value.references| == |t.children| &&
       forall i | 0 <= i < |t.children| ::
         o.selection.value.references[i].group == t.children[i].spec.IsGroup() &&
         exists c :: c in rs && c.name == o.selection.value.references[i].name && Describes(rs, c, t.children[i]))
  }

  ghost predicate UniqueResources(rs: seq<Resource>)
  {
    forall i, j | 0 <= i < j < |rs| :: rs[i].name != rs[j].name
  }

  // ----- round trip -----

  /** The tree is made of buckets, scopes and collections, each under what it belongs to. */
  ghost predicate Layered(t: Tree, level: nat)
  {
    Level(t.spec) == Some(level) && (!Refers(t.spec) ==> t.children == []) &&
    forall c | c in t.children :: Layered(c, level + 1)
  }

  /** Every node's name is one its resource can carry. */
  ghost predicate Nameable(t: Tree)
  {
    t.name != "" && (t.spec.ScopeSpec? && t.spec.defaultScope ==> t.name == DEFAULT_NAME) &&
    forall c | c in t.children :: Nameable(c)
  }

  /** The tree without actions and links, as it is when it has just been built. */
  function Plain(t: Tree): Tree
  {
    Tree(t.name, Stripped(t.spec), Unset, seq(|t.children|, i requires 0 <= i < |t.children| => Plain(t.children[i])))
  }

  function AllPlain(ts: seq<Tree>): (r: seq<Tree>)
  {
    seq(|ts|, i requires 0 <= i < |ts| => Plain(ts[i]))
  }

  /** The objects are filed where they are looked for. */
  ghost predicate Files(ls: Levels, rs: seq<Resource>)
  {
    forall o | o in rs && Level(o.spec).Some? ::
      o.name in ls[LevelOf(o.spec)] && ls[LevelOf(o.spec)][o.name] == o
  }

  ghost predicate FiledFrom(objects: seq<Resource>, o: Resource, level: nat, n: string)
  {
    o in objects && o.name == n && Level(o.spec) == Some(level)
  }

  ghost predicate FiledOnly(ls: Levels, objects: seq<Resource>)
  {
    forall l, n | 0 <= l < BASE_LEVELS && n in ls[l] :: FiledFrom(objects, ls[l][n], l, n)
  }

  /** Objects of distinct names are filed in whatever order they come. */
  lemma {:induction false} FiledFiles(objects: seq<Resource>)
    requires UniqueResources(objects)
    ensures Files(Filed(objects), objects) && FiledOnly(Filed(objects), objects)
  {
    if objects != [] {
      var k := |objects| - 1;
      FiledFiles(objects[..k]);
      assert forall o | o in objects[..k] :: o.name != objects[k].name;
      PutFiles(Filed(objects[..k]), objects[..k], objects[k]);
      assert objects == objects[..k] + [objects[k]];
    }
  }

  lemma PutFiles(ls: Levels, objects: seq<Resource>, o: Resource)
    requires Files(ls, objects) && FiledOnly(ls, objects) && forall p | p in objects :: p.name != o.name
    ensures Files(Put(ls, o), objects + [o]) && FiledOnly(Put(ls, o), objects + [o])
  {
    forall l, n | 0 <= l < BASE_LEVELS && n in Put(ls, o)[l] ensures FiledFrom(objects + [o], Put(ls, o)[l][n], l, n) {
      assert n in ls[l] ==> FiledFrom(objects, ls[l][n], l, n);
    }
  }

  lemma PlainOrdered(ts: seq<Tree>)
    requires Ordered(ts)
    ensures AddedAll([], AllPlain(ts)) == AllPlain(ts)
  {
    var ps := AllPlain(ts);
    assert forall i | 0 <= i < |ts| :: ps[i].name == ts[i].name;
    hide AllPlain, Plain, Less;
    assert [] + ps == ps;
    OrderedAddedAll([], ps);
  }

  /** What linking made of a tree, building takes back, at whatever level. */
  lemma {:induction false} BuiltAsLinked(ls: Levels, rs: seq<Resource>, o: Resource, t: Tree, level: nat)
    requires Files(ls, rs) && Describes(rs, o, t)
    requires level < BASE_LEVELS && Layered(t, level) && Nameable(t) && SortedTree(t)
    ensures Built(ls, o, level) == Some(Plain(t))
    decreases t, 2
  {
    assert CouchbaseName(o) == t.name && Stripped(o.spec) == Stripped(t.spec) && Refers(o.spec) == Refers(t.spec);
    assert Level(o.spec).Some? && (!Refers(t.spec) ==> t.children == []);
    if Refers(t.spec) {
      assert o.selection.Some? && !o.selection.value.byLabel;
      ChildrenBuiltAsLinked(ls, rs, o, t, level);
      SortedIsOrdered(t.children);
      PlainOrdered(t.children);
    }
    assert Plain(t).children == AllPlain(t.children);
    hide Describes, Layered, Nameable, SortedTree, Files, Sorted, Ordered;
  }

  lemma {:induction false} ChildrenBuiltAsLinked(ls: Levels, rs: seq<Resource>, o: Resource, t: Tree, level: nat)
    requires Files(ls, rs) && Describes(rs, o, t) && Refers(t.spec)
    requires level < BASE_LEVELS && Layered(t, level) && Nameable(t) && SortedTree(t)
    ensures forall r | r in o.selection.value.references :: !r.group
    ensures BuiltAll(ls, o.selection.value.references, level + 1) == Some(AllPlain(t.children))
    decreases t, 1
  {
    var refs := o.selection.value.references;
    assert |refs| == |t.children|;
    hide Describes, Layered, Nameable, SortedTree, Files, Built, Plain;
    forall i | 0 <= i < |refs|
      ensures !refs[i].group
      ensures level + 1 < BASE_LEVELS && refs[i].name in ls[level + 1]
      ensures Built(ls, ls[level + 1][refs[i].name], level + 1) == Some(AllPlain(t.children)[i])
    {
      ChildBuiltAsLinked(ls, rs, o, t, level, i);
    }
    if level + 1 < BASE_LEVELS {
      BuiltAllAt(ls, refs, level + 1, AllPlain(t.children));
    }
  }

  lemma {:induction false} ChildBuiltAsLinked(ls: Levels, rs: seq<Resource>, o: Resource, t: Tree, level: nat, i: nat)
    requires Files(ls, rs) && Describes(rs, o, t) && Refers(t.spec) && i < |t.children|
    requires level < BASE_LEVELS && Layered(t, level) && Nameable(t) && SortedTree(t)
    ensures var ref := o.selection.value.references[i];
            !ref.group && level + 1 < BASE_LEVELS && ref.name in ls[level + 1] &&
            Built(ls, ls[level + 1][ref.name], level + 1) == Some(Plain(t.children[i]))
    decreases t, 0
  {
    var ref, child := o.selection.value.references[i], t.children[i];
    var c :| c in rs && c.name == ref.name && Describes(rs, c, child);
    assert child in t.children;
    assert Layered(child, level + 1);
    assert Level(c.spec) == Level(child.spec) == Some(level + 1);
    BuiltAsLinked(ls, rs, c, child, level + 1);
  }

  // ----- any order of the roots -----

  ghost predicate Enumerates(order: seq<string>, names: set<string>)
  {
    (forall i, j | 0 <= i < j < |order| :: order[i] != order[j]) && (forall n :: n in order <==> n in names)
  }

  function ByName(order: seq<string>): (r: seq<Reference>)
    ensures |r| == |order|
  {
    seq(|order|, i requires 0 <= i < |order| => Reference(false, order[i]))
  }

  lemma {:induction false} AddedAllSorts(done: seq<Tree>, rest: seq<Tree>)
    requires Sorted(done)
    requires forall i, j | 0 <= i < j < |rest| :: rest[i].name != rest[j].name
    requires forall x, y | x in done && y in rest :: x.name != y.name
    ensures Sorted(AddedAll(done, rest))
    ensures forall t :: t in AddedAll(done, rest) <==> t in done || t in rest
    decreases rest
  {
    if rest != [] {
      var t := rest[0];
      var more := Insert(done, t);
      assert t in rest;
      InsertSorts(done, t);
      assert rest == [t] + rest[1..];
      forall y | y in rest[1..] ensures t.name != y.name {
        var j :| 0 < j < |rest| && rest[j] == y;
      }
      AddedAllSorts(more, rest[1..]);
    }
  }

  lemma InsertSorts(ts: seq<Tree>, t: Tree)
    requires Sorted(ts) && forall x | x in ts :: x.name != t.name
    ensures Sorted(Insert(ts, t))
    ensures forall x :: x in Insert(ts, t) <==> x in ts || x == t
  {
    SortedIsOrdered(ts);
    SlotSplits(ts, t.name);
    var k := Slot(ts, t.name);
    assert ts == ts[..k] + ts[k..];
    forall i | 0 <= i < k ensures Less(ts[i].name, t.name) {
      assert ts[i] in ts;
      CompareTrichotomy(ts[i].name, t.name);
    }
  }

  /** Sorted siblings are determined by which they are. */
  lemma {:induction false} SortedUnique(a: seq<Tree>, b: seq<Tree>)
    requires Sorted(a) && Sorted(b) && forall t :: t in a <==> t in b
    ensures a == b
  {
    assert a != [] ==> a[0] in a && a[0] in b;
    assert b != [] ==> b[0] in b && b[0] in a;
    if a != [] && b != [] {
      var i :| 0 <= i < |b| && b[i] == a[0];
      var j :| 0 <= j < |a| && a[j] == b[0];
      CompareTrichotomy(a[0].name, b[0].name);
      assert a[0] == b[0];
      forall t ensures t in a[1..] <==> t in b[1..] {
        assert t in a <==> t == a[0] || t in a[1..];
        assert t in b <==> t == b[0] || t in b[1..];
        LessIrreflexive(a[0].name);
        assert forall k | 0 < k < |a| :: a[k] != a[0];
        assert forall k | 0 < k < |b| :: b[k] != b[0];
      }
      SortedUnique(a[1..], b[1..]);
    }
  }

  /** Every resource belongs to the level or a lower one, and only the given ones belong to the level itself. */
  ghost predicate TopLevel(rs: seq<Resource>, tops: seq<Resource>, level: nat)
  {
    forall o | o in rs :: Level(o.spec).Some? && LevelOf(o.spec) >= level && (LevelOf(o.spec) == level ==> o in tops)
  }

  /** The resources a list of trees was linked into, and which of them their roots became. */
  ghost predicate StandsFor(rs: seq<Resource>, tops: seq<Resource>, kids: seq<Tree>, level: nat)
  {
    |tops| == |kids| && UniqueResources(rs) && UniqueResources(tops) && TopLevel(rs, tops, level) &&
    forall i | 0 <= i < |kids| :: Describes(rs, tops[i], kids[i])
  }

  /** Siblings as a topology has them: distinct, in order, all of one level, made of nodes that have names. */
  ghost predicate WellFormed(kids: seq<Tree>, level: nat)
  {
    Sorted(kids) && forall i | 0 <= i < |kids| :: SortedTree(kids[i]) && Layered(kids[i], level) && Nameable(kids[i])
  }

  ghost predicate Shuffled(objects: seq<Resource>, rs: seq<Resource>)
  {
    UniqueResources(objects) && forall o :: o in objects <==> o in rs
  }

  /** The resource of a root is found under its name and builds that root's tree. */
  ghost predicate BuildsRoot(ls: Levels, o: Resource, t: Tree, level: nat)
    requires level < BASE_LEVELS
  {
    o.name in ls[level] && ls[level][o.name] == o && Built(ls, o, level) == Some(t)
  }

  lemma RootsBuilt(objects: seq<Resource>, rs: seq<Resource>, tops: seq<Resource>, kids: seq<Tree>, level: nat)
    requires StandsFor(rs, tops, kids, level) && WellFormed(kids, level) && level < BASE_LEVELS && Shuffled(objects, rs)
    ensures forall i | 0 <= i < |kids| :: BuildsRoot(Filed(objects), tops[i], AllPlain(kids)[i], level)
    ensures forall n | n in Filed(objects)[level] :: exists i :: 0 <= i < |tops| && tops[i].name == n
  {
    FiledFiles(objects);
    var ls := Filed(objects);
    forall i | 0 <= i < |kids| ensures BuildsRoot(ls, tops[i], AllPlain(kids)[i], level) {
      assert Describes(rs, tops[i], kids[i]);
      assert Level(tops[i].spec) == Some(level);
      BuiltAsLinked(ls, rs, tops[i], kids[i], level);
    }
    forall n | n in ls[level] ensures exists i :: 0 <= i < |tops| && tops[i].name == n {
      assert FiledFrom(objects, ls[level][n], level, n);
      assert ls[level][n] in tops;
      hide StandsFor, WellFormed, Files, Filed;
    }
  }

  /** Building takes linking back, in whatever order the resources are handed over and the roots are looked
      at: the same names, specifications and children throughout. */
  lemma BuildUndoesLink(objects: seq<Resource>, rs: seq<Resource>, tops: seq<Resource>, kids: seq<Tree>, level: nat, order: seq<string>)
    requires StandsFor(rs, tops, kids, level) && WellFormed(kids, level) && level < BASE_LEVELS && Shuffled(objects, rs)
    requires Enumerates(order, Filed(objects)[level].Keys)
    ensures var b := BuiltAll(Filed(objects), ByName(order), level);
            b.Some? && AddedAll([], b.value) == AllPlain(kids)
  {
    var ls, refs, plain := Filed(objects), ByName(order), AllPlain(kids);
    RootsBuilt(objects, rs, tops, kids, level);
    assert Sorted(plain);
    hide StandsFor, WellFormed, Shuffled, Sorted, AllPlain, Filed;
    RootsInOrder(ls, tops, plain, level, order);
  }

  lemma {:induction false} LowestLevel(objects: seq<Resource>, level: nat)
    requires level <= BASE_LEVELS && forall o | o in objects :: LevelOf(o.spec) >= level
    ensures BaseLevel(objects, true) >= level
    ensures (exists o :: o in objects && LevelOf(o.spec) == level) ==> BaseLevel(objects, true) == level
  {
    if objects != [] {
      var k := |objects| - 1;
      assert objects == objects[..k] + [objects[k]];
      LowestLevel(objects[..k], level);
    }
  }

  /** The resources of a linked tree pass every check that building makes. */
  lemma BuildSucceeds(objects: seq<Resource>, rs: seq<Resource>, tops: seq<Resource>, kids: seq<Tree>, level: nat, save: bool)
    requires StandsFor(rs, tops, kids, level) && WellFormed(kids, level) && level < BASE_LEVELS && Shuffled(objects, rs)
    requires if save then kids != [] else level == 0
    ensures AllLevelled(objects) && BaseLevel(objects, save) == level
    ensures forall n | n in Filed(objects)[level] :: Built(Filed(objects), Filed(objects)[level][n], level).Some?
  {
    RootsBuilt(objects, rs, tops, kids, level);
    var ls := Filed(objects);
    forall n | n in ls[level] ensures Built(ls, ls[level][n], level).Some? {
      var i :| 0 <= i < |tops| && tops[i].name == n;
      assert BuildsRoot(ls, tops[i], AllPlain(kids)[i], level);
    }
    if save {
      assert Describes(rs, tops[0], kids[0]);
      assert LevelOf(tops[0].spec) == level && tops[0] in objects;
      LowestLevel(objects, level);
    }
  }

  lemma RootsInOrder(ls: Levels, tops: seq<Resource>, plain: seq<Tree>, level: nat, order: seq<string>)
    requires level < BASE_LEVELS && |tops| == |plain| && Sorted(plain) && Enumerates(order, ls[level].Keys)
    requires forall i | 0 <= i < |plain| :: BuildsRoot(ls, tops[i], plain[i], level)
    requires forall n | n in ls[level] :: exists i :: 0 <= i < |tops| && tops[i].name == n
    ensures var b := BuiltAll(ls, ByName(order), level);
            b.Some? && AddedAll([], b.value) == plain
  {
    hide Less, Built, BuiltAll, AddedAll;
    var refs := ByName(order);
    var at := seq(|order|, i requires 0 <= i < |order| && order[i] in ls[level] => RootIndex(tops, order[i]));
    var ts := seq(|order|, i requires 0 <= i < |order| => plain[at[i]]);
    forall i | 0 <= i < |order|
      ensures refs[i].name in ls[level] && Built(ls, ls[level][refs[i].name], level) == Some(ts[i])
    {
      assert order[i] in order;
      assert BuildsRoot(ls, tops[at[i]], plain[at[i]], level);
    }
    BuiltAllAt(ls, refs, level, ts);
    forall i, j | 0 <= i < j < |ts| ensures ts[i].name != ts[j].name {
      assert order[i] != order[j];
      if ts[i].name == ts[j].name {
        SortedDistinct(plain, at[i], at[j]);
      }
    }
    forall t | t in plain ensures t in ts {
      var k :| 0 <= k < |plain| && plain[k] == t;
      assert BuildsRoot(ls, tops[k], plain[k], level);
      assert tops[k].name in order;
      var i :| 0 <= i < |order| && order[i] == tops[k].name;
      assert BuildsRoot(ls, tops[at[i]], plain[at[i]], level);
      assert ts[i] == t;
    }
    AddedAllSorts([], ts);
    SortedUnique(AddedAll([], ts), plain);
  }

  ghost function RootIndex(tops: seq<Resource>, n: string): (i: nat)
    requires exists j :: 0 <= j < |tops| && tops[j].name == n
    ensures i < |tops| && tops[i].name == n
  {
    var j :| 0 <= j < |tops| && tops[j].name == n;
    j
  }

  // ----- every tree that building makes can be linked -----

  ghost predicate Filing(ls: Levels)
  {
    forall l, n | 0 <= l < BASE_LEVELS && n in ls[l] :: FiledAs(ls[l][n], l, n)
  }

  /** Resources always have names of their own. */
  ghost predicate FiledAs(o: Resource, level: nat, n: string)
  {
    o.name == n && n != "" && Level(o.spec) == Some(level)
  }

  lemma {:induction false} AddedAllIn(done: seq<Tree>, rest: seq<Tree>)
    ensures forall t :: t in AddedAll(done, rest) <==> t in done || t in rest
    decreases rest
  {
    if rest != [] {
      var k := Slot(done, rest[0].name);
      assert done == done[..k] + done[k..];
      assert rest == [rest[0]] + rest[1..];
      AddedAllIn(Insert(done, rest[0]), rest[1..]);
    }
  }

  /** What the round trip needs of a tree holds of every tree that building makes: it is layered, every name can
      be carried by a resource, and it has neither actions nor links. */
  lemma {:induction false} BuiltQualifies(ls: Levels, o: Resource, level: nat)
    requires Filing(ls) && level < BASE_LEVELS && FiledAs(o, level, o.name)
    ensures Built(ls, o, level).Some? ==>
              var t := Built(ls, o, level).value; Layered(t, level) && Nameable(t) && Plain(t) == t
    decreases BASE_LEVELS - level, 0
  {
    if Built(ls, o, level).Some? {
      var t, ts := Built(ls, o, level).value, BuiltAll(ls, References(o), level + 1).value;
      AllBuiltQualify(ls, References(o), level + 1);
      AddedAllIn([], ts);
      assert Plain(t).children == t.children;
    }
  }

  lemma {:induction false} AllBuiltQualify(ls: Levels, rs: seq<Reference>, level: nat)
    requires Filing(ls) && level <= BASE_LEVELS
    ensures BuiltAll(ls, rs, level).Some? ==>
              forall t | t in BuiltAll(ls, rs, level).value :: Layered(t, level) && Nameable(t) && Plain(t) == t
    decreases BASE_LEVELS - level, 1 + |rs|
  {
    if rs != [] && BuiltAll(ls, rs, level).Some? {
      assert FiledAs(ls[level][rs[0].name], level, rs[0].name);
      BuiltQualifies(ls, ls[level][rs[0].name], level);
      AllBuiltQualify(ls, rs[1..], level);
    }
  }
}
