/** What is left alone of the scopes and collections whose resources are skipped. References are checked by resource
    name and the server's scopes and collections by their own name. */
module SkippedScopes {
  import opened Topology
  import opened Scopes
  import opened ScopeServer
  import opened Gathering

  /** Whatever the server holds, no call concerns the scope or anything in it. */
  ghost predicate ScopeLeftAlone(x: Context, n: string)
  {
    forall s: State, c: Call | Needed(x, s, c) :: c.scope != n
  }

  /** The deletion of a scope takes its collections along. */
  predicate AboutCollection(c: Call, n: string, m: string)
  {
    c.scope == n && !c.CreateScope? && (c.DeleteScope? || c.name == m)
  }

  /** Whatever the server holds, no call concerns that collection of the scope. */
  ghost predicate CollectionLeftAlone(x: Context, n: string, m: string)
  {
    forall s: State, c: Call | Needed(x, s, c) :: !AboutCollection(c, n, m)
  }

  lemma {:induction false} FreshName(names: set<string>) returns (n: string)
    ensures n !in names && forall m | m in names :: |m| < |n|
  {
    n := "x";
    if names != {} {
      var m :| m in names;
      var other := FreshName(names - {m});
      n := other + m + "x";
    }
  }

  /** A scope is left alone exactly if some skipped resource goes by the scope's own name on the server and nothing
      gathered manages the collections of a scope of that name. */
  lemma ScopeLeftAloneIff(x: Context, n: string)
    ensures ScopeLeftAlone(x, n) <==> n in x.skippedScopes && ManagedAt(x, n).None?
  {
    hide RequestedScopes, ManagedAt, FindCollection, Changes, NamesOf;
    if n !in x.skippedScopes {
      if n in RequestedScopes(x) {
        assert Needed(x, map[], CreateScope(n));
      } else {
        assert Needed(x, map[n := map[]], DeleteScope(n));
      }
    } else if ManagedAt(x, n).Some? {
      var m := FreshName(NamesOf(ManagedAt(x, n).value, CollectionName) + x.skippedCollections);
      assert Needed(x, map[n := map[m := Settings(None, None)]], DeleteCollection(n, m));
    }
  }

  /** A collection is left alone exactly if its scope is not deleted, being requested or skipped by its own name on
      the server, and either the scope's collections are not managed, or the collection is not wanted and some
      skipped resource goes by its own name on the server, or what is wanted under the name is itself skipped. */
  lemma CollectionLeftAloneIff(x: Context, n: string, m: string)
    ensures CollectionLeftAlone(x, n, m) <==>
            (n in x.skippedScopes || n in RequestedScopes(x)) &&
            match ManagedAt(x, n)
            case None => true
            case Some(wanted) =>
              match FindCollection(wanted, m)
              case None => m in x.skippedCollections
              case Some(c) => c.resource in x.skippedCollections
  {
    hide RequestedScopes, ManagedAt, FindCollection, Changes, NamesOf;
    if n !in x.skippedScopes && n !in RequestedScopes(x) {
      assert Needed(x, map[n := map[]], DeleteScope(n));
      assert AboutCollection(DeleteScope(n), n, m);
    } else if ManagedAt(x, n).Some? {
      var f := FindCollection(ManagedAt(x, n).value, m);
      var some := Settings(None, None);
      if f.None? && m !in x.skippedCollections {
        assert Needed(x, map[n := map[m := some]], DeleteCollection(n, m));
        assert AboutCollection(DeleteCollection(n, m), n, m);
      } else if f.Some? && f.value.resource !in x.skippedCollections {
        assert Needed(x, map[], CreateCollection(n, m, some));
        assert AboutCollection(CreateCollection(n, m, some), n, m);
      }
    }
  }

  /** A collection that is left alone is on the server with the same settings after a complete pass. */
  lemma LeftAloneStays(x: Context, s: State, t: State, n: string, m: string)
    requires Settled(x, s, t) && CollectionLeftAlone(x, n, m)
    ensures Held(t, n, m) == Held(s, n, m)
  {
    CollectionLeftAloneIff(x, n, m);
    assert Held(t, n, m) == After(x, s, n, m);
    hide RequestedScopes, ManagedAt, FindCollection, Changes, NamesOf, Settled;
  }

  /** Nothing the operator gathers for a scope is a skipped resource, group members aside. */
  lemma SkippedNotWanted(x: Context, s: Scope, c: Collection)
    requires c in GatheredCollections(x, s) && c.resource in x.skippedCollections
    ensures c.resource == "" || exists g :: g in x.collectionGroups && c in CollectionsOf(g).members
  {
    var k := CollectionKind(x);
    var chooser := s.chooser.value;
    var explicit, implicit := Explicit(k, chooser.references), Implicit(k, chooser.selects);
    var mandatory := if s.isDefault && chooser.managed && chooser.preserveDefault
                     then [Collection("", DEFAULT_NAME, Settings(None, None))] else [];
    UniqueIn(explicit + implicit + mandatory, CollectionName);
    assert c in explicit + implicit + mandatory;
    hide Explicit, Implicit, Unique, CollectionsOf, GatheredCollections;
    if c in explicit + implicit {
      FoundUnskipped(k, chooser.references, chooser.selects, c);
      assert k.resource(c) == c.resource && k.skipped == x.skippedCollections;
      var g :| g in k.groups && c in g.members;
      var i :| 0 <= i < |k.groups| && k.groups[i] == g;
      assert g == CollectionsOf(x.collectionGroups[i]);
    }
  }

  lemma FoundUnskipped<T(!new)>(k: Kind<T>, refs: seq<Reference>, selects: Option<Reference -> bool>, t: T)
    requires t in Explicit(k, refs) + Implicit(k, selects) && k.checksSelected
    ensures k.resource(t) !in k.skipped || exists g :: g in k.groups && t in g.members
  {
    ExplicitExactly(k, refs, t);
    if selects.Some? {
      SelectedExactly(k, selects.value, k.items, t);
      SelectedMembers(k, selects.value, k.groups, t);
    }
    hide Explicit, SelectedItems, SelectedGroups;
  }

  // ----- skipped and yet touched -----

  /** A bucket that refers to one scope resource or group "r", which is skipped; on the server the scope, or the only
      member of the group, goes by another name. */
  function SkippedContext(group: bool): Context
  {
    var chooser := Some(Chooser(true, false, [], None));
    Context(Chooser(true, false, [Reference(group, "r")], None),
            [Scope("r", "s", false, chooser)], [ScopeGroup("r", ["s"], chooser)], [], [],
            {"r"}, {"r"}, {}, {}, false, false, false, false, Settings(None, None))
  }

  /** A skipped scope is deleted from the server if it has another name there, and so are the members of a skipped
      group. */
  lemma SkippedScopeDeleted(group: bool)
    ensures Needed(SkippedContext(group), map["s" := map[]], DeleteScope("s"))
  {
    var x := SkippedContext(group);
    assert Explicit(ScopeKind(x), x.chooser.references[..0]) == [];
    assert Referenced(ScopeKind(x), x.chooser.references[0]) == [];
    GatheredDefault(x);
  }

  /** Not even a skipped collection survives its scope. */
  lemma SkippedCollectionDeleted()
    ensures var x := SkippedContext(false).(skippedCollections := {"m"});
            var s: State := map["s" := map["m" := Settings(None, None)]];
            Needed(x, s, DeleteScope("s")) && Held(Apply(x, s, DeleteScope("s")), "s", "m") == None
  {
    var x := SkippedContext(false).(skippedCollections := {"m"});
    assert Explicit(ScopeKind(x), x.chooser.references[..0]) == [];
    assert Referenced(ScopeKind(x), x.chooser.references[0]) == [];
    GatheredDefault(x);
  }

  lemma GatheredDefault(x: Context)
    requires Explicit(ScopeKind(x), x.chooser.references) == [] && x.chooser.selects == None && !x.hasSystemScope
    ensures RequestedScopes(x) == {DEFAULT_NAME}
  {
    var all := [Scope("", "", true, None)];
    assert Gathered(x) == Unique(all, ScopeName);
    assert all[..0] == [];
  }

  /** A scope that is chosen by label is not checked for being skipped: it is wanted in any case. */
  lemma SelectedScopeNotSkipped(t: Scope, f: Reference -> bool, x: Context)
    requires x.chooser.selects == Some(f) && t in x.scopes && f(Reference(false, t.resource))
    ensures ScopeName(t) in RequestedScopes(x)
  {
    var k := ScopeKind(x);
    SelectedExactly(k, f, k.items, t);
    var found := Explicit(k, x.chooser.references) + Implicit(k, x.chooser.selects);
    var all := found
               + (if exists i :: 0 <= i < |found| && found[i].isDefault then [] else [Scope("", "", true, None)])
               + (if x.hasSystemScope then [Scope("", SYSTEM_SCOPE, false, None)] else []);
    assert t in all;
    var i :| 0 <= i < |all| && all[i] == t;
    assert ScopeName(all[i]) in NamesOf(all, ScopeName);
  }
}
