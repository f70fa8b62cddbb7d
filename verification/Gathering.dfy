/** Exactly which scopes and collections are gathered, in terms of the resources stored for them. */
module Gathering {
  import opened Topology
  import opened Scopes
  import opened ScopeServer

  /** No two resources of a kind share a name. */
  ghost predicate NamedApart<T(!new)>(k: Kind<T>)
  {
    (forall i, j | 0 <= i < j < |k.items| :: k.resource(k.items[i]) != k.resource(k.items[j])) &&
    (forall i, j | 0 <= i < j < |k.groups| :: k.groups[i].resource != k.groups[j].resource)
  }

  /** The resource is referred to and not skipped, or selected by its labels and not skipped where that counts. */
  predicate Chosen(refs: seq<Reference>, selects: Option<Reference -> bool>, r: Reference, skipped: set<string>, checksSelected: bool)
  {
    (r in refs && r.resource !in skipped) ||
    (selects.Some? && selects.value(r) && (checksSelected ==> r.resource !in skipped))
  }

  ghost predicate ChosenItem<T(!new)>(k: Kind<T>, refs: seq<Reference>, selects: Option<Reference -> bool>, t: T)
  {
    t in k.items && Chosen(refs, selects, Reference(false, k.resource(t)), k.skipped, k.checksSelected)
  }

  ghost predicate ChosenMember<T(!new)>(k: Kind<T>, refs: seq<Reference>, selects: Option<Reference -> bool>, t: T)
  {
    exists g :: g in k.groups && t in g.members &&
                Chosen(refs, selects, Reference(true, g.resource), k.skippedGroups, k.checksSelected)
  }

  lemma {:induction false} FindApart<T>(items: seq<T>, resource: T -> string, i: nat)
    requires i < |items| && forall a, b | 0 <= a < b < |items| :: resource(items[a]) != resource(items[b])
    ensures FindResource(items, resource, resource(items[i])) == Some(items[i])
  {
    if i > 0 {
      assert resource(items[0]) != resource(items[i]);
      FindApart(items[1..], resource, i - 1);
    }
  }

  lemma ReferencedExactly<T(!new)>(k: Kind<T>, r: Reference, t: T)
    requires NamedApart(k)
    ensures t in Referenced(k, r) <==>
            if r.group then r.resource !in k.skippedGroups && exists g :: g in k.groups && g.resource == r.resource && t in g.members
            else r.resource !in k.skipped && t in k.items && k.resource(t) == r.resource
  {
    if r.group {
      if g :| g in k.groups && g.resource == r.resource && t in g.members {
        var i :| 0 <= i < |k.groups| && k.groups[i] == g;
        FindApart(k.groups, (g: Group<T>) => g.resource, i);
      }
    } else if t in k.items && k.resource(t) == r.resource {
      var i :| 0 <= i < |k.items| && k.items[i] == t;
      FindApart(k.items, k.resource, i);
    }
  }

  lemma {:induction false} ExplicitExactly<T(!new)>(k: Kind<T>, refs: seq<Reference>, t: T)
    ensures t in Explicit(k, refs) <==> exists r :: r in refs && t in Referenced(k, r)
  {
    if refs != [] {
      var n := |refs| - 1;
      ExplicitExactly(k, refs[..n], t);
      assert refs == refs[..n] + [refs[n]];
    }
  }

  lemma {:induction false} SelectedExactly<T(!new)>(k: Kind<T>, f: Reference -> bool, items: seq<T>, t: T)
    ensures t in SelectedItems(k, f, items) <==> t in items && Selected(k, f, Reference(false, k.resource(t)))
  {
    if items != [] {
      var n := |items| - 1;
      SelectedExactly(k, f, items[..n], t);
      assert items == items[..n] + [items[n]];
    }
  }

  lemma {:induction false} SelectedMembers<T(!new)>(k: Kind<T>, f: Reference -> bool, groups: seq<Group<T>>, t: T)
    ensures t in SelectedGroups(k, f, groups) <==>
            exists g :: g in groups && t in g.members && Selected(k, f, Reference(true, g.resource))
  {
    if groups != [] {
      var n := |groups| - 1;
      SelectedMembers(k, f, groups[..n], t);
      assert groups == groups[..n] + [groups[n]];
    }
  }

  /** What references and selectors come to is exactly the stored resources and members of groups they choose. */
  lemma FoundExactly<T(!new)>(k: Kind<T>, refs: seq<Reference>, selects: Option<Reference -> bool>, t: T)
    requires NamedApart(k)
    ensures t in Explicit(k, refs) + Implicit(k, selects) <==> ChosenItem(k, refs, selects, t) || ChosenMember(k, refs, selects, t)
  {
    ExplicitChosen(k, refs, t);
    if selects.Some? {
      SelectedExactly(k, selects.value, k.items, t);
      SelectedMembers(k, selects.value, k.groups, t);
    }
    hide NamedApart, Explicit, SelectedItems, SelectedGroups;
  }

  lemma ExplicitChosen<T(!new)>(k: Kind<T>, refs: seq<Reference>, t: T)
    requires NamedApart(k)
    ensures t in Explicit(k, refs) <==>
            (t in k.items && Reference(false, k.resource(t)) in refs && k.resource(t) !in k.skipped) ||
            exists g :: g in k.groups && t in g.members && Reference(true, g.resource) in refs && g.resource !in k.skippedGroups
  {
    ExplicitExactly(k, refs, t);
    forall r | r in refs
      ensures t in Referenced(k, r) <==>
              if r.group then r.resource !in k.skippedGroups && exists g :: g in k.groups && g.resource == r.resource && t in g.members
              else r.resource !in k.skipped && t in k.items && k.resource(t) == r.resource
    {
      ReferencedExactly(k, r, t);
    }
    hide Referenced, Explicit, NamedApart;
    if t in Explicit(k, refs) {
      var r :| r in refs && t in Referenced(k, r);
      assert r == Reference(r.group, r.resource);
    }
    if t in k.items && Reference(false, k.resource(t)) in refs && k.resource(t) !in k.skipped {
      assert t in Referenced(k, Reference(false, k.resource(t)));
    }
    if g :| g in k.groups && t in g.members && Reference(true, g.resource) in refs && g.resource !in k.skippedGroups {
      assert t in Referenced(k, Reference(true, g.resource));
    }
  }

  lemma {:induction false} UniqueIn<T>(items: seq<T>, name: T -> string)
    ensures forall t | t in Unique(items, name) :: t in items
  {
    if items != [] {
      UniqueIn(items[..|items| - 1], name);
    }
  }

  lemma NamedBy<T>(items: seq<T>, name: T -> string, n: string)
    ensures n in NamesOf(items, name) <==> exists t :: t in items && name(t) == n
  {
    if t :| t in items && name(t) == n {
      var i :| 0 <= i < |items| && items[i] == t;
      assert name(items[i]) == n;
    }
  }

  // ----- scopes -----

  ghost predicate ApartScopes(x: Context)
  {
    (forall i, j | 0 <= i < j < |x.scopes| :: x.scopes[i].resource != x.scopes[j].resource) &&
    (forall i, j | 0 <= i < j < |x.scopeGroups| :: x.scopeGroups[i].resource != x.scopeGroups[j].resource)
  }

  /** The scope resource goes by that name on the server. */
  predicate GoesBy(t: Scope, n: string)
  {
    if t.isDefault then n == DEFAULT_NAME else if t.name == "" then n == t.resource else n == t.name
  }

  /** A stored scope of that name, or a stored group with such a member, is referred to without being skipped, or
      selected. */
  ghost predicate AsksForScope(x: Context, n: string)
  {
    (exists t :: t in x.scopes && GoesBy(t, n) &&
                 Chosen(x.chooser.references, x.chooser.selects, Reference(false, t.resource), x.skippedScopes, false)) ||
    (exists g :: g in x.scopeGroups && n in g.names &&
                 Chosen(x.chooser.references, x.chooser.selects, Reference(true, g.resource), x.skippedScopeGroups, false))
  }

  lemma ScopeFound(x: Context, t: Scope)
    requires ApartScopes(x)
    ensures t in Explicit(ScopeKind(x), x.chooser.references) + Implicit(ScopeKind(x), x.chooser.selects) <==>
            (t in x.scopes && Chosen(x.chooser.references, x.chooser.selects, Reference(false, t.resource), x.skippedScopes, false)) ||
            exists g :: g in x.scopeGroups && t in ScopesOf(g).members &&
                        Chosen(x.chooser.references, x.chooser.selects, Reference(true, g.resource), x.skippedScopeGroups, false)
  {
    var k := ScopeKind(x);
    FoundExactly(k, x.chooser.references, x.chooser.selects, t);
    hide Explicit, Implicit, Chosen;
    assert forall i | 0 <= i < |x.scopeGroups| :: k.groups[i] == ScopesOf(x.scopeGroups[i]) && k.groups[i].resource == x.scopeGroups[i].resource;
    if g :| g in x.scopeGroups && t in ScopesOf(g).members &&
            Chosen(x.chooser.references, x.chooser.selects, Reference(true, g.resource), x.skippedScopeGroups, false) {
      var i :| 0 <= i < |x.scopeGroups| && x.scopeGroups[i] == g;
      assert k.groups[i] in k.groups;
    }
  }

  lemma MemberNames(g: ScopeGroup, n: string)
    ensures n in g.names <==> exists t :: t in ScopesOf(g).members && GoesBy(t, n)
  {
    if n in g.names {
      var i :| 0 <= i < |g.names| && g.names[i] == n;
      assert ScopesOf(g).members[i] in ScopesOf(g).members;
    }
  }

  /** The requested names are exactly those of the scopes that are asked for, the default scope, and the system scope
      where there is one. */
  lemma RequestedExactly(x: Context, n: string)
    requires ApartScopes(x)
    ensures n in RequestedScopes(x) <==> AsksForScope(x, n) || n == DEFAULT_NAME || (x.hasSystemScope && n == SYSTEM_SCOPE)
  {
    var found := Explicit(ScopeKind(x), x.chooser.references) + Implicit(ScopeKind(x), x.chooser.selects);
    var extra := if exists i :: 0 <= i < |found| && found[i].isDefault then [] else [Scope("", "", true, None)];
    var system := if x.hasSystemScope then [Scope("", SYSTEM_SCOPE, false, None)] else [];
    var all := found + extra + system;
    assert RequestedScopes(x) == NamesOf(all, ScopeName);
    AlwaysRequested(x);
    hide Explicit, Implicit, RequestedScopes, NamesOf, ApartScopes;
    NamesTogether(found, extra, system, n);
    FoundNames(x, n);
    hide AsksForScope;
  }

  lemma NamesTogether(found: seq<Scope>, extra: seq<Scope>, system: seq<Scope>, n: string)
    requires forall t | t in extra :: ScopeName(t) == DEFAULT_NAME
    requires forall t | t in system :: ScopeName(t) == SYSTEM_SCOPE
    ensures n in NamesOf(found + extra + system, ScopeName) ==>
              (exists t :: t in found && GoesBy(t, n)) || n == DEFAULT_NAME || (system != [] && n == SYSTEM_SCOPE)
    ensures (exists t :: t in found && GoesBy(t, n)) ==> n in NamesOf(found + extra + system, ScopeName)
  {
    NamedBy(found + extra + system, ScopeName, n);
    if t :| t in found && GoesBy(t, n) {
      assert t in found + extra + system && ScopeName(t) == n;
    }
  }

  lemma FoundNames(x: Context, n: string)
    requires ApartScopes(x)
    ensures AsksForScope(x, n) <==>
            exists t :: t in Explicit(ScopeKind(x), x.chooser.references) + Implicit(ScopeKind(x), x.chooser.selects) && GoesBy(t, n)
  {
    var found := Explicit(ScopeKind(x), x.chooser.references) + Implicit(ScopeKind(x), x.chooser.selects);
    hide Explicit, Implicit, Chosen, ApartScopes;
    if t :| t in found && GoesBy(t, n) {
      ScopeFound(x, t);
      if t !in x.scopes || !Chosen(x.chooser.references, x.chooser.selects, Reference(false, t.resource), x.skippedScopes, false) {
        var g :| g in x.scopeGroups && t in ScopesOf(g).members &&
                 Chosen(x.chooser.references, x.chooser.selects, Reference(true, g.resource), x.skippedScopeGroups, false);
        MemberNames(g, n);
      }
    }
    if t :| t in x.scopes && GoesBy(t, n) &&
            Chosen(x.chooser.references, x.chooser.selects, Reference(false, t.resource), x.skippedScopes, false) {
      ScopeFound(x, t);
    }
    if g :| g in x.scopeGroups && n in g.names &&
            Chosen(x.chooser.references, x.chooser.selects, Reference(true, g.resource), x.skippedScopeGroups, false) {
      MemberNames(g, n);
      var t :| t in ScopesOf(g).members && GoesBy(t, n);
      ScopeFound(x, t);
    }
  }

  /** A scope is deleted exactly if it is on the server, nothing asks for it, it is neither the default scope nor the
      system scope, and no skipped resource goes by its name. */
  lemma DeletedExactly(x: Context, s: State, n: string)
    requires ApartScopes(x)
    ensures Needed(x, s, DeleteScope(n)) <==>
            n in s && !AsksForScope(x, n) && n != DEFAULT_NAME && (n == SYSTEM_SCOPE ==> !x.hasSystemScope) && n !in x.skippedScopes
  {
    RequestedExactly(x, n);
  }

  // ----- collections -----

  ghost predicate ApartCollections(x: Context)
  {
    (forall i, j | 0 <= i < j < |x.collections| :: x.collections[i].resource != x.collections[j].resource) &&
    (forall i, j | 0 <= i < j < |x.collectionGroups| :: x.collectionGroups[i].resource != x.collectionGroups[j].resource)
  }

  predicate CollectionGoesBy(t: Collection, n: string)
  {
    if t.name == "" then n == t.resource else n == t.name
  }

  /** The collection is one that the scope asks for: a stored one, the member of a stored group with its settings,
      or the default collection that is to be kept. */
  ghost predicate AsksForCollection(x: Context, c: Chooser, isDefault: bool, t: Collection)
  {
    (t in x.collections && Chosen(c.references, c.selects, Reference(false, t.resource), x.skippedCollections, true)) ||
    (exists g :: g in x.collectionGroups && t.resource == "" && t.name in g.names && t.settings == g.settings &&
                 Chosen(c.references, c.selects, Reference(true, g.resource), x.skippedCollectionGroups, true)) ||
    (isDefault && c.managed && c.preserveDefault && t == Collection("", DEFAULT_NAME, Settings(None, None)))
  }

  lemma CollectionMembers(g: CollectionGroup, t: Collection)
    ensures t in CollectionsOf(g).members <==> t.resource == "" && t.name in g.names && t.settings == g.settings
  {
    if t.resource == "" && t.name in g.names && t.settings == g.settings {
      var i :| 0 <= i < |g.names| && g.names[i] == t.name;
      assert CollectionsOf(g).members[i] == t;
    }
  }

  lemma CollectionFound(x: Context, c: Chooser, t: Collection)
    requires ApartCollections(x)
    ensures t in Explicit(CollectionKind(x), c.references) + Implicit(CollectionKind(x), c.selects) <==>
            (t in x.collections && Chosen(c.references, c.selects, Reference(false, t.resource), x.skippedCollections, true)) ||
            exists g :: g in x.collectionGroups && t.resource == "" && t.name in g.names && t.settings == g.settings &&
                        Chosen(c.references, c.selects, Reference(true, g.resource), x.skippedCollectionGroups, true)
  {
    var k := CollectionKind(x);
    FoundExactly(k, c.references, c.selects, t);
    hide Explicit, Implicit, Chosen;
    assert forall i | 0 <= i < |x.collectionGroups| ::
        k.groups[i] == CollectionsOf(x.collectionGroups[i]) && k.groups[i].resource == x.collectionGroups[i].resource;
    forall g: CollectionGroup
      ensures t in CollectionsOf(g).members <==> t.resource == "" && t.name in g.names && t.settings == g.settings
    {
      CollectionMembers(g, t);
    }
    hide CollectionsOf;
    if g :| g in x.collectionGroups && t.resource == "" && t.name in g.names && t.settings == g.settings &&
            Chosen(c.references, c.selects, Reference(true, g.resource), x.skippedCollectionGroups, true) {
      var i :| 0 <= i < |x.collectionGroups| && x.collectionGroups[i] == g;
      assert k.groups[i] in k.groups && t in k.groups[i].members;
    }
  }

  /** Everything gathered for a scope is asked for, and everything asked for is gathered, or something else asked for
      of its name is. */
  lemma GatheredExactly(x: Context, s: Scope, t: Collection)
    requires ApartCollections(x) && s.chooser.Some?
    ensures t in GatheredCollections(x, s) ==> AsksForCollection(x, s.chooser.value, s.isDefault, t)
    ensures AsksForCollection(x, s.chooser.value, s.isDefault, t) ==>
              exists u :: u in GatheredCollections(x, s) && CollectionName(u) == CollectionName(t)
  {
    var c := s.chooser.value;
    var found := Explicit(CollectionKind(x), c.references) + Implicit(CollectionKind(x), c.selects);
    var kept := if s.isDefault && c.managed && c.preserveDefault then [Collection("", DEFAULT_NAME, Settings(None, None))] else [];
    UniqueIn(found + kept, CollectionName);
    CollectionFound(x, c, t);
    NamedBy(found + kept, CollectionName, CollectionName(t));
    NamedBy(GatheredCollections(x, s), CollectionName, CollectionName(t));
    hide Explicit, Implicit, Chosen, ApartCollections, Unique, NamesOf;
  }

  /** Some collection of a name is gathered exactly if one is asked for. */
  lemma GatheredNames(x: Context, sc: Scope, m: string)
    requires ApartCollections(x) && sc.chooser.Some?
    ensures m in NamesOf(GatheredCollections(x, sc), CollectionName) <==>
            exists t :: AsksForCollection(x, sc.chooser.value, sc.isDefault, t) && CollectionGoesBy(t, m)
  {
    var wanted := GatheredCollections(x, sc);
    NamedBy(wanted, CollectionName, m);
    assert forall t: Collection :: CollectionGoesBy(t, m) <==> CollectionName(t) == m;
    hide AsksForCollection, GatheredCollections, CollectionName, CollectionGoesBy, NamesOf, ApartCollections;
    if u :| u in wanted && CollectionName(u) == m {
      GatheredExactly(x, sc, u);
    }
    if t :| AsksForCollection(x, sc.chooser.value, sc.isDefault, t) && CollectionGoesBy(t, m) {
      GatheredExactly(x, sc, t);
    }
  }

  /** A collection of a managed scope is deleted exactly if it is on the server, nothing that the scope asks for goes
      by its name, and no skipped resource does. */
  lemma CollectionDeletedExactly(x: Context, s: State, n: string, m: string, sc: Scope)
    requires ApartCollections(x) && FindScope(Gathered(x), n) == Some(sc) && n != SYSTEM_SCOPE && sc.chooser.Some? && sc.chooser.value.managed
    requires ScopeName(sc) == n
    ensures Needed(x, s, DeleteCollection(n, m)) <==>
            n in s && m in s[n] && m !in x.skippedCollections &&
            !exists t :: AsksForCollection(x, sc.chooser.value, sc.isDefault, t) && CollectionGoesBy(t, m)
  {
    assert ManagedAt(x, n) == Some(GatheredCollections(x, sc));
    hide AsksForCollection, GatheredCollections, Gathered, ManagedAt, CollectionGoesBy, FindScope, ApartCollections, NamesOf;
    GatheredNames(x, sc, m);
  }

  // ----- after a complete pass -----

  /** After a complete pass every scope that is asked for is on the server, unless a skipped resource has its name. */
  lemma AskedScopeThere(x: Context, s: State, t: State, n: string)
    requires ApartScopes(x) && Settled(x, s, t) && AsksForScope(x, n) && n !in x.skippedScopes
    ensures n in t
  {
    RequestedExactly(x, n);
    assert n in t <==> ScopeAfter(x, n, n in s);
    hide Settled, AsksForScope, RequestedScopes;
  }

  lemma {:induction false} FoundCollectionIn(cs: seq<Collection>, m: string)
    ensures FindCollection(cs, m).Some? ==> FindCollection(cs, m).value in cs
  {
    if cs != [] {
      FoundCollectionIn(cs[..|cs| - 1], m);
    }
  }

  /** And so is every collection that a managed scope asks for, with settings asked for under its name. */
  lemma AskedCollectionThere(x: Context, s: State, t: State, n: string, sc: Scope, c: Collection)
    requires ApartCollections(x) && Settled(x, s, t) && "" !in x.skippedCollections
    requires FindScope(Gathered(x), n) == Some(sc) && ScopeName(sc) == n != SYSTEM_SCOPE && sc.chooser.Some? && sc.chooser.value.managed
    requires AsksForCollection(x, sc.chooser.value, sc.isDefault, c)
    ensures exists u :: AsksForCollection(x, sc.chooser.value, sc.isDefault, u) && CollectionName(u) == CollectionName(c) &&
                        exists o :: Held(t, n, CollectionName(c)) == Some(Ensured(x, u, o)) && (o == None || o == Held(s, n, CollectionName(c)))
  {
    var m, wanted := CollectionName(c), GatheredCollections(x, sc);
    assert ManagedAt(x, n) == Some(wanted);
    GatheredExactly(x, sc, c);
    NamedBy(wanted, CollectionName, m);
    FoundCollectionIn(wanted, m);
    var u := FindCollection(wanted, m).value;
    GatheredExactly(x, sc, u);
    assert u.resource !in x.skippedCollections;
    assert Held(t, n, m) == After(x, s, n, m);
    var o := if ScopeAfter(x, n, n in s) then Held(s, n, m) else None;
    assert After(x, s, n, m) == Some(Ensured(x, u, o)) by {
      hide AsksForCollection, GatheredCollections, Gathered, Ensured, Settled, ScopeAfter;
    }
  }
}
