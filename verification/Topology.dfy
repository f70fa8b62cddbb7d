/** The data topology as plain values: a tree of buckets, scopes and collections. */
module Topology {
  import opened Names

  datatype Option<+T> = None | Some(value: T)

  const DEFAULT_NAME := "_default"

  /** The parts of a scope's collection selector that decide whether the scope can be left implied. */
  datatype Selector = Selector(managed: bool, selects: bool, preserveDefault: bool)

  datatype CollectionSettings = CollectionSettings(maxTTL: Option<int>, history: Option<bool>)

  /** What a node's resource says apart from its name and its children; one constructor per node type.
      Bucket settings are kept in the canonical form in which specifications are compared. */
  datatype Spec =
    | RootSpec
    | BucketSpec(bucket: string)
    | EphemeralBucketSpec(ephemeral: string)
    | MemcachedBucketSpec(memcached: string)
    | ScopeSpec(defaultScope: bool, collections: Option<Selector>)
    | ScopeGroupSpec(scopeNames: seq<string>)
    | CollectionSpec(settings: CollectionSettings)
    | CollectionGroupSpec(collectionNames: seq<string>, groupSettings: CollectionSettings)
  {
    predicate IsBucket() { BucketSpec? || EphemeralBucketSpec? || MemcachedBucketSpec? }

    predicate IsGroup() { ScopeGroupSpec? || CollectionGroupSpec? }

    /** Whether the operator would fill the scope in by itself. */
    predicate CanBeImplied()
    {
      ScopeSpec? && defaultScope &&
      (collections.None? || !collections.value.managed ||
       (!collections.value.selects && collections.value.preserveDefault))
    }
  }

  datatype Action = Unset | Retain | Create | Delete | Update

  datatype Tree = Tree(name: string, spec: Spec, action: Action, children: seq<Tree>)

  // ----- sibling order -----

  /** Siblings never run backwards; equal names may sit side by side. */
  ghost predicate Ordered(ts: seq<Tree>)
  {
    forall i, j | 0 <= i < j < |ts| :: !Less(ts[j].name, ts[i].name)
  }

  /** Siblings are ordered and no two share a name. */
  ghost predicate Sorted(ts: seq<Tree>)
  {
    forall i, j | 0 <= i < j < |ts| :: Less(ts[i].name, ts[j].name)
  }

  ghost predicate SortedTree(t: Tree)
  {
    Sorted(t.children) && forall c | c in t.children :: SortedTree(c)
  }

  lemma SortedIsOrdered(ts: seq<Tree>)
    requires Sorted(ts)
    ensures Ordered(ts)
  {
    forall i, j | 0 <= i < j < |ts| ensures !Less(ts[j].name, ts[i].name) {
      CompareTrichotomy(ts[i].name, ts[j].name);
    }
  }

  lemma SortedDistinct(ts: seq<Tree>, i: nat, j: nat)
    requires Sorted(ts) && i < |ts| && j < |ts| && ts[i].name == ts[j].name
    ensures i == j
  {
    LessIrreflexive(ts[i].name);
  }

  // ----- adding a child to ordered siblings -----

  /** Where a new sibling goes: behind every sibling that is not larger. */
  function Slot(ts: seq<Tree>, name: string): (k: nat)
    ensures k <= |ts|
  {
    if ts == [] then 0
    else if Less(name, ts[|ts| - 1].name) then Slot(ts[..|ts| - 1], name)
    else |ts|
  }

  function Insert(ts: seq<Tree>, t: Tree): seq<Tree>
  {
    var k := Slot(ts, t.name);
    ts[..k] + [t] + ts[k..]
  }

  lemma {:induction false} SlotSplits(ts: seq<Tree>, name: string)
    requires Ordered(ts)
    ensures forall i | 0 <= i < Slot(ts, name) :: !Less(name, ts[i].name)
    ensures forall i | Slot(ts, name) <= i < |ts| :: Less(name, ts[i].name)
  {
    if ts != [] {
      var last := ts[|ts| - 1].name;
      if Less(name, last) {
        SlotSplits(ts[..|ts| - 1], name);
      } else {
        forall i | 0 <= i < |ts| ensures !Less(name, ts[i].name) {
          if Less(name, ts[i].name) {
            CompareTrichotomy(ts[i].name, last);
            if Less(ts[i].name, last) {
              LessTransitive(name, ts[i].name, last);
            }
          }
        }
      }
    }
  }

  /** Adding a child leaves the siblings ordered, whatever its name. */
  lemma InsertKeepsOrdered(ts: seq<Tree>, t: Tree)
    requires Ordered(ts)
    ensures Ordered(Insert(ts, t))
  {
    SlotSplits(ts, t.name);
    var k := Slot(ts, t.name);
    forall i | k <= i < |ts| ensures !Less(ts[i].name, t.name) {
      CompareTrichotomy(t.name, ts[i].name);
    }
  }

  /** A child no smaller than any of its siblings goes to the end. */
  lemma InsertLast(ts: seq<Tree>, t: Tree)
    requires forall s | s in ts :: !Less(t.name, s.name)
    ensures Insert(ts, t) == ts + [t]
  {
    if ts != [] {
      assert ts[|ts| - 1] in ts;
    }
  }

  // ----- looking nodes up -----

  type Path = seq<string>

  /** The first sibling with the given name. */
  function Child(ts: seq<Tree>, name: string): (r: Option<Tree>)
    ensures r.Some? ==> r.value in ts && r.value.name == name
    ensures r.None? ==> forall t | t in ts :: t.name != name
  {
    if ts == [] then None
    else if ts[0].name == name then Some(ts[0])
    else Child(ts[1..], name)
  }

  /** The node a path of names leads to. */
  function At(t: Tree, p: Path): (r: Option<Tree>)
    decreases |p|
  {
    if p == [] then Some(t)
    else match Child(t.children, p[0])
         case None => None
         case Some(c) => At(c, p[1..])
  }

  function SpecAt(t: Tree, p: Path): Option<Spec>
  {
    match At(t, p)
    case None => None
    case Some(n) => Some(n.spec)
  }

  lemma {:induction false} ChildAt(ts: seq<Tree>, i: nat)
    requires Sorted(ts) && i < |ts|
    ensures Child(ts, ts[i].name) == Some(ts[i])
  {
    var t := Child(ts, ts[i].name).value;
    var j :| 0 <= j < |ts| && ts[j] == t;
    SortedDistinct(ts, i, j);
  }

  /** A lookup finds the first sibling of the name. */
  lemma {:induction false} ChildFirst(ts: seq<Tree>, i: nat, name: string)
    requires i < |ts| && ts[i].name == name && forall j | 0 <= j < i :: ts[j].name != name
    ensures Child(ts, name) == Some(ts[i])
  {
    if i > 0 {
      ChildFirst(ts[1..], i - 1, name);
    }
  }

  /** A name below the first sibling's is not among sorted siblings. */
  lemma {:induction false} ChildSmaller(ts: seq<Tree>, name: string)
    requires Sorted(ts) && ts != [] && Less(name, ts[0].name)
    ensures Child(ts, name) == None
  {
    if Child(ts, name).Some? {
      var j :| 0 <= j < |ts| && ts[j].name == name;
      CompareTrichotomy(name, ts[0].name);
      if j == 0 {
        assert false;
      }
    }
  }
}
