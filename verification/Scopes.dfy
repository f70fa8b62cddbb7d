/** Gathering the scopes and collections a bucket should have, and making the server have them. */
module Scopes {
  import opened Topology

  const SYSTEM_SCOPE := "_system"

  datatype Settings = Settings(ttl: Option<int>, history: Option<bool>)

  datatype Collection = Collection(resource: string, name: string, settings: Settings)

  datatype Reference = Reference(group: bool, resource: string)

  /** How scopes or collections are chosen: by reference and, if there is a selector, by the labels of single
      resources and of groups. */
  datatype Chooser = Chooser(
    managed: bool, preserveDefault: bool, references: seq<Reference>, selects: Option<Reference -> bool>)

  datatype Scope = Scope(resource: string, name: string, isDefault: bool, chooser: Option<Chooser>)

  /** A resource that stands for several scopes or collections that differ only in name. */
  datatype ScopeGroup = ScopeGroup(resource: string, names: seq<string>, chooser: Option<Chooser>)

  datatype CollectionGroup = CollectionGroup(resource: string, names: seq<string>, settings: Settings)

  /** Everything a reconcile of one bucket looks at. */
  datatype Context = Context(
    chooser: Chooser,
    scopes: seq<Scope>, scopeGroups: seq<ScopeGroup>,
    collections: seq<Collection>, collectionGroups: seq<CollectionGroup>,
    skippedScopes: set<string>, skippedScopeGroups: set<string>,
    skippedCollections: set<string>, skippedCollectionGroups: set<string>,
    hasSystemScope: bool,       // from version 7.6 on, as is changing time to live
    patchesCollections: bool,   // version 7.2 or later, and a Couchbase bucket
    magma: bool, historyByDefault: bool,
    serverDefaults: Settings)   // what the server gives a collection if nothing is said

  // ----- names -----

  function ScopeName(s: Scope): string
  {
    if s.isDefault then DEFAULT_NAME else if s.name != "" then s.name else s.resource
  }

  function CollectionName(c: Collection): string
  {
    if c.name != "" then c.name else c.resource
  }

  // ----- gathering -----

  function FindResource<T>(items: seq<T>, resource: T -> string, name: string): (r: Option<T>)
    ensures r.Some? ==> r.value in items && resource(r.value) == name
    ensures r.None? ==> forall t | t in items :: resource(t) != name
  {
    if items == [] then None
    else if resource(items[0]) == name then Some(items[0])
    else FindResource(items[1..], resource, name)
  }

  datatype Group<T> = Group(resource: string, members: seq<T>)

  /** A kind of resource: what is stored of it, and what of it is skipped. */
  datatype Kind<!T> = Kind(
    items: seq<T>, groups: seq<Group<T>>, resource: T -> string, skipped: set<string>, skippedGroups: set<string>,
    checksSelected: bool)       // whether selected resources are checked for being skipped, too

  function ScopesOf(g: ScopeGroup): Group<Scope>
  {
    Group(g.resource, seq(|g.names|, i requires 0 <= i < |g.names| => Scope("", g.names[i], false, g.chooser)))
  }

  function CollectionsOf(g: CollectionGroup): Group<Collection>
  {
    Group(g.resource, seq(|g.names|, i requires 0 <= i < |g.names| => Collection("", g.names[i], g.settings)))
  }

  function ScopeKind(x: Context): Kind<Scope>
  {
    Kind(x.scopes, seq(|x.scopeGroups|, i requires 0 <= i < |x.scopeGroups| => ScopesOf(x.scopeGroups[i])), (s: Scope) => s.resource, x.skippedScopes, x.skippedScopeGroups, false)
  }

  function CollectionKind(x: Context): Kind<Collection>
  {
    Kind(x.collections, seq(|x.collectionGroups|, i requires 0 <= i < |x.collectionGroups| => CollectionsOf(x.collectionGroups[i])), (c: Collection) => c.resource, x.skippedCollections, x.skippedCollectionGroups, true)
  }

  /** What one reference stands for: nothing if the resource is missing or skipped. */
  function Referenced<T>(k: Kind<T>, r: Reference): seq<T>
  {
    if r.group then
      match FindResource(k.groups, (g: Group<T>) => g.resource, r.resource)
      case None => []
      case Some(g) => if g.resource in k.skippedGroups then [] else g.members
    else
      match FindResource(k.items, k.resource, r.resource)
      case None => []
      case Some(t) => if k.resource(t) in k.skipped then [] else [t]
  }

  function Explicit<T>(k: Kind<T>, rs: seq<Reference>): seq<T>
  {
    if rs == [] then [] else Explicit(k, rs[..|rs| - 1]) + Referenced(k, rs[|rs| - 1])
  }

  predicate Selected<T>(k: Kind<T>, selects: Reference -> bool, r: Reference)
  {
    selects(r) && !(k.checksSelected && r.resource in (if r.group then k.skippedGroups else k.skipped))
  }

  function SelectedItems<T>(k: Kind<T>, selects: Reference -> bool, items: seq<T>): seq<T>
  {
    if items == [] then []
    else
      var n := |items| - 1;
      SelectedItems(k, selects, items[..n]) +
      (if Selected(k, selects, Reference(false, k.resource(items[n]))) then [items[n]] else [])
  }

  function SelectedGroups<T>(k: Kind<T>, selects: Reference -> bool, groups: seq<Group<T>>): seq<T>
  {
    if groups == [] then []
    else
      var n := |groups| - 1;
      SelectedGroups(k, selects, groups[..n]) +
      (if Selected(k, selects, Reference(true, groups[n].resource)) then groups[n].members else [])
  }

  function Implicit<T>(k: Kind<T>, selects: Option<Reference -> bool>): seq<T>
  {
    match selects
    case None => []
    case Some(f) => SelectedItems(k, f, k.items) + SelectedGroups(k, f, k.groups)
  }

  function NamesOf<T>(items: seq<T>, name: T -> string): set<string>
  {
    set i | 0 <= i < |items| :: name(items[i])
  }

  lemma NamesAppend<T>(items: seq<T>, t: T, name: T -> string)
    ensures NamesOf(items + [t], name) == NamesOf(items, name) + {name(t)}
  {
    var more := items + [t];
    forall n | n in NamesOf(items, name) + {name(t)} ensures n in NamesOf(more, name) {
      if n == name(t) {
        assert name(more[|items|]) == n;
      } else {
        var i :| 0 <= i < |items| && name(items[i]) == n;
        assert name(more[i]) == n;
      }
    }
  }

  /** The first item of each name. */
  function Unique<T>(items: seq<T>, name: T -> string): (r: seq<T>)
    ensures NamesOf(r, name) == NamesOf(items, name)
    ensures forall i, j | 0 <= i < j < |r| :: name(r[i]) != name(r[j])
  {
    if items == [] then []
    else
      var n := |items| - 1;
      var rest := Unique(items[..n], name);
      assert items == items[..n] + [items[n]];
      NamesAppend(items[..n], items[n], name);
      NamesAppend(rest, items[n], name);
      if name(items[n]) in NamesOf(rest, name) then rest else rest + [items[n]]
  }

  function Gathered(x: Context): seq<Scope>
  {
    var found := Explicit(ScopeKind(x), x.chooser.references) + Implicit(ScopeKind(x), x.chooser.selects);
    Unique(found
           + (if exists i :: 0 <= i < |found| && found[i].isDefault then [] else [Scope("", "", true, None)])
           + (if x.hasSystemScope then [Scope("", SYSTEM_SCOPE, false, None)] else []), ScopeName)
  }

  function GatheredCollections(x: Context, s: Scope): seq<Collection>
  {
    match s.chooser
    case None => []
    case Some(c) =>
      Unique(Explicit(CollectionKind(x), c.references) + Implicit(CollectionKind(x), c.selects)
             + (if s.isDefault && c.managed && c.preserveDefault then [Collection("", DEFAULT_NAME, Settings(None, None))] else []),
             CollectionName)
  }

  function RequestedScopes(x: Context): set<string>
  {
    NamesOf(Gathered(x), ScopeName)
  }

  /** There is always a default scope, and from the version on that has one a system scope. */
  lemma AlwaysRequested(x: Context)
    ensures DEFAULT_NAME in RequestedScopes(x)
    ensures x.hasSystemScope ==> SYSTEM_SCOPE in RequestedScopes(x)
  {
    var found := Explicit(ScopeKind(x), x.chooser.references) + Implicit(ScopeKind(x), x.chooser.selects);
    var extra := if exists i :: 0 <= i < |found| && found[i].isDefault then [] else [Scope("", "", true, None)];
    var system := if x.hasSystemScope then [Scope("", SYSTEM_SCOPE, false, None)] else [];
    var all := found + extra + system;
    assert RequestedScopes(x) == NamesOf(all, ScopeName);
    if i :| 0 <= i < |found| && found[i].isDefault {
      assert ScopeName(all[i]) == DEFAULT_NAME;
    } else {
      assert ScopeName(all[|found|]) == DEFAULT_NAME;
    }
    if x.hasSystemScope {
      assert ScopeName(all[|all| - 1]) == SYSTEM_SCOPE;
    }
  }

  // ----- gathering in the code -----

  lemma ExplicitNext<T>(k: Kind<T>, rs: seq<Reference>, i: nat)
    requires i < |rs|
    ensures Explicit(k, rs[..i + 1]) == Explicit(k, rs[..i]) + Referenced(k, rs[i])
  {
    assert rs[..i + 1][..i] == rs[..i];
  }

  lemma SelectedItemNext<T>(k: Kind<T>, f: Reference -> bool, items: seq<T>, i: nat)
    requires i < |items|
    ensures SelectedItems(k, f, items[..i + 1]) ==
            SelectedItems(k, f, items[..i]) +
            (if Selected(k, f, Reference(false, k.resource(items[i]))) then [items[i]] else [])
  {
    assert items[..i + 1][..i] == items[..i];
  }

  lemma SelectedGroupNext<T>(k: Kind<T>, f: Reference -> bool, groups: seq<Group<T>>, i: nat)
    requires i < |groups|
    ensures SelectedGroups(k, f, groups[..i + 1]) ==
            SelectedGroups(k, f, groups[..i]) +
            (if Selected(k, f, Reference(true, groups[i].resource)) then groups[i].members else [])
  {
    assert groups[..i + 1][..i] == groups[..i];
  }

  /** What the references stand for, groups expanded. */
  method GatherExplicit<T>(k: Kind<T>, rs: seq<Reference>) returns (r: seq<T>)
    ensures r == Explicit(k, rs)
  {
    r := [];
    for i := 0 to |rs|
      invariant r == Explicit(k, rs[..i])
    {
      ExplicitNext(k, rs, i);
      if !rs[i].group {
        var item := FindResource(k.items, k.resource, rs[i].resource);
        if item.None? || k.resource(item.value) in k.skipped {
          continue;
        }
        r := r + [item.value];
      } else {
        var group := FindResource(k.groups, (g: Group<T>) => g.resource, rs[i].resource);
        if group.None? || group.value.resource in k.skippedGroups {
          continue;
        }
        r := r + group.value.members;
      }
    }
    assert rs[..|rs|] == rs;
  }

  /** What the selector matches, single resources before groups. */
  method GatherImplicit<T>(k: Kind<T>, selects: Option<Reference -> bool>) returns (r: seq<T>)
    ensures r == Implicit(k, selects)
  {
    if selects.None? {
      return [];
    }
    var items := GatherSelectedItems(k, selects.value);
    var members := GatherSelectedGroups(k, selects.value);
    return items + members;
  }

  method GatherSelectedItems<T>(k: Kind<T>, f: Reference -> bool) returns (r: seq<T>)
    ensures r == SelectedItems(k, f, k.items)
  {
    hide Selected;
    r := [];
    for i := 0 to |k.items|
      invariant r == SelectedItems(k, f, k.items[..i])
    {
      SelectedItemNext(k, f, k.items, i);
      if Selected(k, f, Reference(false, k.resource(k.items[i]))) {
        r := r + [k.items[i]];
      }
    }
    assert k.items[..|k.items|] == k.items;
  }

  method GatherSelectedGroups<T>(k: Kind<T>, f: Reference -> bool) returns (r: seq<T>)
    ensures r == SelectedGroups(k, f, k.groups)
  {
    hide Selected;
    r := [];
    for i := 0 to |k.groups|
      invariant r == SelectedGroups(k, f, k.groups[..i])
    {
      SelectedGroupNext(k, f, k.groups, i);
      if Selected(k, f, Reference(true, k.groups[i].resource)) {
        r := r + k.groups[i].members;
      }
    }
    assert k.groups[..|k.groups|] == k.groups;
  }

  /** Keeps the first item of each name. */
  method UniqueByCouchbaseName<T>(items: seq<T>, name: T -> string) returns (r: seq<T>)
    ensures r == Unique(items, name)
  {
    r := [];
    var seen: set<string> := {};
    for i := 0 to |items|
      invariant r == Unique(items[..i], name) && seen == NamesOf(r, name)
    {
      assert items[..i + 1][..i] == items[..i];
      if name(items[i]) !in seen {
        NamesAppend(r, items[i], name);
        r := r + [items[i]];
        seen := seen + {name(items[i])};
      }
    }
    assert items[..|items|] == items;
  }

  method GatherScopes(x: Context) returns (r: seq<Scope>)
    ensures r == Gathered(x)
  {
    var explicit := GatherExplicit(ScopeKind(x), x.chooser.references);
    var implicit := GatherImplicit(ScopeKind(x), x.chooser.selects);
    var found := explicit + implicit;
    var defaultScopeDefined := false;
    for i := 0 to |found|
      invariant defaultScopeDefined <==> exists j :: 0 <= j < i && found[j].isDefault
    {
      if found[i].isDefault {
        defaultScopeDefined := true;
      }
    }
    var all := found;
    if !defaultScopeDefined {
      all := all + [Scope("", "", true, None)];
    }
    if x.hasSystemScope {
      all := all + [Scope("", SYSTEM_SCOPE, false, None)];
    }
    r := UniqueByCouchbaseName(all, ScopeName);
    assert found + [] == found && all + [] == all;
  }

  method GatherCollections(x: Context, s: Scope) returns (r: seq<Collection>)
    ensures r == GatheredCollections(x, s)
  {
    if s.chooser.None? {
      return [];
    }
    var c := s.chooser.value;
    var explicit := GatherExplicit(CollectionKind(x), c.references);
    var implicit := GatherImplicit(CollectionKind(x), c.selects);
    var all := explicit + implicit;
    if s.isDefault && c.managed && c.preserveDefault {
      all := all + [Collection("", DEFAULT_NAME, Settings(None, None))];
    }
    r := UniqueByCouchbaseName(all, CollectionName);
    assert explicit + implicit + [] == explicit + implicit;
  }
}
