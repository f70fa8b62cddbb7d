/** Reconciling one bucket's scopes and collections call by call. */
module ScopeReconciler {
  import opened Topology
  import opened Scopes
  import opened ScopeServer

  /** The log has only grown by calls the state called for. */
  ghost predicate Warranted(x: Context, s: State, before: seq<Call>, after: seq<Call>)
  {
    before <= after && forall i | |before| <= i < |after| :: Needed(x, s, after[i])
  }

  lemma WarrantedCall(x: Context, s: State, before: seq<Call>, l: seq<Call>, c: Call)
    requires Warranted(x, s, before, l) && Needed(x, s, c)
    ensures Warranted(x, s, before, l + [c])
  {
    hide Needed;
  }

  lemma WarrantedTrans(x: Context, s: State, a: seq<Call>, b: seq<Call>, c: seq<Call>)
    requires Warranted(x, s, a, b) && Warranted(x, s, b, c)
    ensures Warranted(x, s, a, c)
  {
    hide Needed;
  }

  lemma WarrantedNone(x: Context, s: State, l: seq<Call>)
    ensures Warranted(x, s, l, l)
  {}

  /** One scope's collections differ; everything else is the same. */
  ghost predicate Elsewhere(s: State, t: State, n: string)
  {
    s.Keys == t.Keys && forall k | k in s && k != n :: t[k] == s[k]
  }

  lemma FindScopeAt(ss: seq<Scope>, i: nat)
    requires i < |ss| && forall j, k | 0 <= j < k < |ss| :: ScopeName(ss[j]) != ScopeName(ss[k])
    ensures FindScope(ss, ScopeName(ss[i])) == Some(ss[i])
  {
    if i < |ss| - 1 {
      FindScopeAt(ss[..|ss| - 1], i);
    }
  }

  lemma FindCollectionAt(cs: seq<Collection>, i: nat)
    requires i < |cs| && forall j, k | 0 <= j < k < |cs| :: CollectionName(cs[j]) != CollectionName(cs[k])
    ensures FindCollection(cs, CollectionName(cs[i])) == Some(cs[i])
  {
    if i < |cs| - 1 {
      FindCollectionAt(cs[..|cs| - 1], i);
    }
  }

  /** The scopes left once those not requested, apart from some, are gone. */
  function Remaining(x: Context, s: State, rest: set<string>): State
  {
    map n | n in s && (n in rest || n in RequestedScopes(x) || n in x.skippedScopes) :: s[n]
  }

  lemma RemainingStep(x: Context, s: State, rest: set<string>, n: string)
    requires n in rest
    ensures Remaining(x, s, rest - {n}) ==
            if n in RequestedScopes(x) || n in x.skippedScopes then Remaining(x, s, rest) else Remaining(x, s, rest) - {n}
  {
    hide RequestedScopes;
  }

  /** The collections of one scope once those not wanted, apart from some, are gone. */
  ghost predicate Trimmed(x: Context, n: string, wanted: seq<Collection>, s: State, t: State, rest: set<string>)
  {
    Elsewhere(s, t, n) &&
    forall m :: Held(t, n, m) ==
      if m !in rest && FindCollection(wanted, m).None? && m !in x.skippedCollections then None else Held(s, n, m)
  }

  lemma TrimmedStart(x: Context, n: string, wanted: seq<Collection>, s: State, t: State)
    ensures Trimmed(x, n, wanted, t, t, if n in t then t[n].Keys else {}) && Elsewhere(t, t, n)
  {
    hide FindCollection;
  }

  lemma DeletionNeeded(x: Context, n: string, wanted: seq<Collection>, s: State, m: string)
    requires ManagedAt(x, n) == Some(wanted) && FindCollection(wanted, m).None? && Held(s, n, m).Some? && m !in x.skippedCollections
    ensures Needed(x, s, DeleteCollection(n, m))
  {
    hide ManagedAt, FindCollection;
  }

  lemma TrimmedStep(x: Context, n: string, wanted: seq<Collection>, s: State, t: State, rest: set<string>, m: string)
    requires Trimmed(x, n, wanted, s, t, rest) && m in rest
    ensures FindCollection(wanted, m).Some? || m in x.skippedCollections ==> Trimmed(x, n, wanted, s, t, rest - {m})
    ensures FindCollection(wanted, m).None? && m !in x.skippedCollections ==>
              var u := Apply(x, t, DeleteCollection(n, m)); Trimmed(x, n, wanted, s, u, rest - {m}) && Elsewhere(s, u, n)
  {
    hide FindCollection;
  }

  ghost predicate UniqueCollections(cs: seq<Collection>)
  {
    forall j, k | 0 <= j < k < |cs| :: CollectionName(cs[j]) != CollectionName(cs[k])
  }

  ghost predicate UniqueScopes(ss: seq<Scope>)
  {
    forall j, k | 0 <= j < k < |ss| :: ScopeName(ss[j]) != ScopeName(ss[k])
  }

  /** One scope once the first of its wanted collections have been seen to. */
  ghost predicate Advanced(x: Context, n: string, wanted: seq<Collection>, s: State, t: State, i: nat)
    requires i <= |wanted|
  {
    Elsewhere(s, t, n) &&
    forall m :: Held(t, n, m) ==
      if FindCollection(wanted, m).None? || m in NamesOf(wanted[..i], CollectionName) then
        CollectionAfter(x, wanted, m, Held(s, n, m))
      else Held(s, n, m)
  }

  lemma AdvancedStart(x: Context, n: string, wanted: seq<Collection>, s: State, t: State)
    requires Trimmed(x, n, wanted, s, t, {})
    ensures Advanced(x, n, wanted, s, t, 0)
  {
    hide FindCollection;
  }

  lemma AdvancedEnd(x: Context, n: string, wanted: seq<Collection>, s: State, t: State)
    requires Advanced(x, n, wanted, s, t, |wanted|)
    ensures Elsewhere(s, t, n) && forall m :: Held(t, n, m) == CollectionAfter(x, wanted, m, Held(s, n, m))
  {
    assert wanted[..|wanted|] == wanted;
    forall m ensures Held(t, n, m) == CollectionAfter(x, wanted, m, Held(s, n, m)) {
      assert FindCollection(wanted, m).Some? <==> m in NamesOf(wanted, CollectionName);
    }
  }

  /** What the next wanted collection finds, and what it needs to become. */
  lemma AdvancedStep(x: Context, n: string, wanted: seq<Collection>, s: State, t: State, i: nat)
    requires i < |wanted| && UniqueCollections(wanted) && Advanced(x, n, wanted, s, t, i)
    ensures FindCollection(wanted, CollectionName(wanted[i])) == Some(wanted[i])
    ensures Held(t, n, CollectionName(wanted[i])) == Held(s, n, CollectionName(wanted[i]))
    ensures wanted[i].resource in x.skippedCollections ==> Advanced(x, n, wanted, s, t, i + 1)
  {
    FindCollectionAt(wanted, i);
    SeenGrows(wanted, i);
    hide FindCollection, Ensured;
  }

  lemma SeenGrows(wanted: seq<Collection>, i: nat)
    requires i < |wanted|
    ensures NamesOf(wanted[..i + 1], CollectionName) == NamesOf(wanted[..i], CollectionName) + {CollectionName(wanted[i])}
  {
    assert wanted[..i + 1] == wanted[..i] + [wanted[i]];
    NamesAppend(wanted[..i], wanted[i], CollectionName);
  }

  lemma AdvancedNext(x: Context, n: string, wanted: seq<Collection>, s: State, t: State, u: State, i: nat)
    requires i < |wanted| && Advanced(x, n, wanted, s, t, i)
    requires FindCollection(wanted, CollectionName(wanted[i])) == Some(wanted[i]) && wanted[i].resource !in x.skippedCollections
    requires Elsewhere(t, u, n) && forall m | m != CollectionName(wanted[i]) :: Held(u, n, m) == Held(t, n, m)
    requires Held(u, n, CollectionName(wanted[i])) == Some(Ensured(x, wanted[i], Held(s, n, CollectionName(wanted[i]))))
    ensures Advanced(x, n, wanted, s, u, i + 1)
  {
    SeenGrows(wanted, i);
    hide FindCollection, Ensured, NamesOf;
  }

  /** A scope has the same collections. */
  ghost predicate SameAt(s: State, t: State, n: string)
  {
    forall m :: Held(s, n, m) == Held(t, n, m)
  }

  // ----- what can stop a pass -----

  /** A call about the collections of a scope that is missing and, because its name is skipped, not created. */
  predicate Stranded(x: Context, s: State, c: Call)
  {
    !c.CreateScope? && !c.DeleteScope? && c.scope in x.skippedScopes && c.scope !in s
  }

  /** The server refuses a call the state calls for, by itself or because the scope in question is not there. */
  ghost predicate Refusal(x: Context, s: State, accepts: Call -> bool)
  {
    exists c :: Needed(x, s, c) && (!accepts(c) || Stranded(x, s, c))
  }

  ghost predicate Halted(x: Context, s: State, there: set<string>, accepts: Call -> bool)
  {
    exists c :: Needed(x, s, c) && (!accepts(c) || !(c.CreateScope? || c.DeleteScope? || c.scope in there))
  }

  lemma RefusedBy(x: Context, s: State, accepts: Call -> bool, c: Call)
    requires Needed(x, s, c) && !accepts(c)
    ensures Refusal(x, s, accepts)
  {
    hide Needed;
  }

  lemma HaltedBy(x: Context, s: State, t: State, accepts: Call -> bool, c: Call)
    requires Needed(x, s, c) && !(accepts(c) && Accepts(t, c))
    ensures Halted(x, s, t.Keys, accepts)
  {
    hide Needed;
  }

  lemma HaltedUnless(x: Context, s: State, t: State, accepts: Call -> bool, c: Call)
    requires Needed(x, s, c)
    ensures !(accepts(c) && Accepts(t, c)) ==> Halted(x, s, t.Keys, accepts)
  {
    if !(accepts(c) && Accepts(t, c)) {
      HaltedBy(x, s, t, accepts, c);
    }
  }

  lemma ElsewhereKeys(s: State, t: State, n: string)
    requires Elsewhere(s, t, n)
    ensures t.Keys == s.Keys
  {}

  lemma KeysKept(x: Context, mid: State, t: State, i: nat)
    requires i <= |Gathered(x)| && ScopesDone(x, mid, t, i)
    ensures t.Keys == mid.Keys
  {}

  lemma HaltedRefusal(x: Context, s: State, mid: State, accepts: Call -> bool)
    requires Between(x, s, mid) && Halted(x, s, mid.Keys, accepts)
    ensures Refusal(x, s, accepts)
  {
    var c :| Needed(x, s, c) && (!accepts(c) || !(c.CreateScope? || c.DeleteScope? || c.scope in mid.Keys));
    if accepts(c) {
      assert ManagedAt(x, c.scope).Some?;
      ManagedGathered(x, c.scope);
      assert c.scope in mid <==> ScopeAfter(x, c.scope, c.scope in s);
      hide Needed, RequestedScopes;
    }
    hide Needed;
  }

  class Server {
    var state: State
    var log: seq<Call>

    /** One call, which may be refused. */
    method Send(x: Context, c: Call, accepts: Call -> bool) returns (ok: bool)
      modifies this
      ensures ok <==> accepts(c) && Accepts(old(state), c)
      ensures ok ==> state == Apply(x, old(state), c) && log == old(log) + [c]
      ensures !ok ==> state == old(state) && log == old(log)
    {
      ok := accepts(c) && Accepts(state, c);
      if ok {
        state := Apply(x, state, c);
        log := log + [c];
      }
    }

    /** Deletes every scope that is not requested. */
    method DeleteScopes(x: Context, accepts: Call -> bool) returns (ok: bool)
      modifies this
      ensures !ok ==> Refusal(x, old(state), accepts)
      ensures Warranted(x, old(state), old(log), log)
      ensures ok ==> state == Remaining(x, old(state), {})
    {
      var current := state;
      var rest := current.Keys;
      assert Remaining(x, current, rest) == current;
      while rest != {}
        invariant rest <= current.Keys
        invariant state == Remaining(x, current, rest)
        invariant Warranted(x, current, old(log), log)
      {
        hide Warranted, Remaining, RequestedScopes, Refusal;
        var n :| n in rest;
        RemainingStep(x, current, rest, n);
        rest := rest - {n};
        if n in RequestedScopes(x) || n in x.skippedScopes {
          continue;
        }
        WarrantedCall(x, current, old(log), log, DeleteScope(n));
        ok := Send(x, DeleteScope(n), accepts);
        if !ok {
          RefusedBy(x, current, accepts, DeleteScope(n));
          return;
        }
      }
      return true;
    }

    /** Creates every requested scope that was not there. */
    method CreateScopes(x: Context, current: State, accepts: Call -> bool) returns (ok: bool)
      requires forall n | n in RequestedScopes(x) :: n in current <==> n in state
      modifies this
      ensures !ok ==> Refusal(x, current, accepts)
      ensures Warranted(x, current, old(log), log)
      ensures ok ==> forall n :: n in state <==> n in old(state) || (n in RequestedScopes(x) && n !in x.skippedScopes)
      ensures ok ==> forall n | n in state :: state[n] == if n in old(state) then old(state)[n] else map[]
    {
      var rest := RequestedScopes(x);
      while rest != {}
        invariant rest <= RequestedScopes(x)
        invariant forall n :: n in state <==> n in old(state) || (n in RequestedScopes(x) && n !in rest && n !in x.skippedScopes)
        invariant forall n | n in state :: state[n] == if n in old(state) then old(state)[n] else map[]
        invariant Warranted(x, current, old(log), log)
      {
        hide Warranted, RequestedScopes, Refusal;
        var n :| n in rest;
        rest := rest - {n};
        if n in current || n in x.skippedScopes {
          continue;
        }
        WarrantedCall(x, current, old(log), log, CreateScope(n));
        ok := Send(x, CreateScope(n), accepts);
        if !ok {
          RefusedBy(x, current, accepts, CreateScope(n));
          return;
        }
      }
      return true;
    }

    /** Deletes the collections of a scope that are not wanted. */
    method DeleteCollections(x: Context, n: string, wanted: seq<Collection>, accepts: Call -> bool, ghost s: State) returns (ok: bool)
      requires ManagedAt(x, n) == Some(wanted) && SameAt(s, state, n)
      modifies this
      ensures !ok ==> Halted(x, s, old(state).Keys, accepts)
      ensures Warranted(x, s, old(log), log)
      ensures Elsewhere(old(state), state, n)
      ensures ok ==> Trimmed(x, n, wanted, old(state), state, {})
    {
      hide Warranted, FindCollection, ManagedAt, Trimmed, Elsewhere, Apply, Changes, Needed, CollectionAfter, Halted;
      var current := state;
      var rest := if n in current then current[n].Keys else {};
      TrimmedStart(x, n, wanted, s, current);
      WarrantedNone(x, s, log);
      while rest != {}
        invariant n in current ==> rest <= current[n].Keys
        invariant n !in current ==> rest == {}
        invariant Elsewhere(current, state, n) && Trimmed(x, n, wanted, current, state, rest)
        invariant Warranted(x, s, old(log), log)
      {
        var m :| m in rest;
        TrimmedStep(x, n, wanted, current, state, rest, m);
        rest := rest - {m};
        if m in x.skippedCollections || FindCollection(wanted, m).Some? {
          continue;
        }
        assert Held(s, n, m) == Held(current, n, m);
        DeletionNeeded(x, n, wanted, s, m);
        WarrantedCall(x, s, old(log), log, DeleteCollection(n, m));
        ElsewhereKeys(current, state, n);
        HaltedUnless(x, s, state, accepts, DeleteCollection(n, m));
        ok := Send(x, DeleteCollection(n, m), accepts);
        if !ok {
          return;
        }
      }
      return true;
    }

    /** Creates a wanted collection or brings its settings up to date. */
    method CreateOrChange(x: Context, n: string, c: Collection, current: State, accepts: Call -> bool,
                          ghost wanted: seq<Collection>, ghost s: State)
      returns (ok: bool)
      requires c.resource !in x.skippedCollections && Held(state, n, CollectionName(c)) == Held(current, n, CollectionName(c))
      requires SameAt(s, current, n)
      requires ManagedAt(x, n) == Some(wanted) && FindCollection(wanted, CollectionName(c)) == Some(c)
      modifies this
      ensures !ok ==> Halted(x, s, old(state).Keys, accepts)
      ensures Warranted(x, s, old(log), log)
      ensures Elsewhere(old(state), state, n)
      ensures forall m | m != CollectionName(c) :: Held(state, n, m) == Held(old(state), n, m)
      ensures ok ==> Held(state, n, CollectionName(c)) == Some(Ensured(x, c, Held(current, n, CollectionName(c))))
    {
      hide ManagedAt, FindCollection, WantedSettings, Halted;
      var m := CollectionName(c);
      var o := Held(current, n, m);
      if o.Some? {
        if Changes(x, c, o.value) {
          HaltedUnless(x, s, state, accepts, PatchCollection(n, m, WantedSettings(x, c, o.value)));
          ok := Send(x, PatchCollection(n, m, WantedSettings(x, c, o.value)), accepts);
          return;
        }
        return true;
      }
      HaltedUnless(x, s, state, accepts, CreateCollection(n, m, NewSettings(x, c)));
      ok := Send(x, CreateCollection(n, m, NewSettings(x, c)), accepts);
    }

    /** Sees to every wanted collection of a scope in turn. */
    method EnsureCollections(x: Context, n: string, wanted: seq<Collection>, current: State, accepts: Call -> bool, ghost s: State)
      returns (ok: bool)
      requires ManagedAt(x, n) == Some(wanted) && UniqueCollections(wanted) && SameAt(s, current, n)
      requires Elsewhere(current, state, n) && Advanced(x, n, wanted, current, state, 0)
      modifies this
      ensures !ok ==> Halted(x, s, current.Keys, accepts)
      ensures Warranted(x, s, old(log), log)
      ensures Elsewhere(current, state, n)
      ensures ok ==> Advanced(x, n, wanted, current, state, |wanted|)
    {
      hide FindCollection, ManagedAt, Advanced, Ensured, Warranted, Needed, SameAt, Halted;
      WarrantedNone(x, s, log);
      for i := 0 to |wanted|
        invariant Elsewhere(current, state, n) && Advanced(x, n, wanted, current, state, i)
        invariant Warranted(x, s, old(log), log)
      {
        AdvancedStep(x, n, wanted, current, state, i);
        if wanted[i].resource in x.skippedCollections {
          continue;
        }
        ghost var l, t := log, state;
        ok := CreateOrChange(x, n, wanted[i], current, accepts, wanted, s);
        WarrantedTrans(x, s, old(log), l, log);
        if !ok {
          return;
        }
        AdvancedNext(x, n, wanted, current, t, state, i);
      }
      return true;
    }

    /** Makes a managed scope's collections those wanted. */
    method ReconcileCollections(x: Context, n: string, wanted: seq<Collection>, accepts: Call -> bool, ghost s: State) returns (ok: bool)
      requires ManagedAt(x, n) == Some(wanted) && UniqueCollections(wanted) && SameAt(s, state, n)
      modifies this
      ensures !ok ==> Halted(x, s, old(state).Keys, accepts)
      ensures Warranted(x, s, old(log), log)
      ensures Elsewhere(old(state), state, n)
      ensures ok ==> forall m :: Held(state, n, m) == CollectionAfter(x, wanted, m, Held(old(state), n, m))
    {
      hide Warranted, FindCollection, ManagedAt, Advanced, CollectionAfter, SameAt, Halted;
      var current := state;
      ok := DeleteCollections(x, n, wanted, accepts, s);
      if !ok {
        return;
      }
      AdvancedStart(x, n, wanted, current, state);
      ghost var l := log;
      ok := EnsureCollections(x, n, wanted, current, accepts, s);
      WarrantedTrans(x, s, old(log), l, log);
      if ok {
        AdvancedEnd(x, n, wanted, current, state);
      }
    }

    /** Makes the bucket's scopes and collections those gathered. However far it gets it makes only calls that the
        state it found called for; and if none of those is refused, the server is brought to what should be. */
    method ReconcileScopes(x: Context, accepts: Call -> bool) returns (ok: bool)
      modifies this
      ensures !ok ==> Refusal(x, old(state), accepts)
      ensures Warranted(x, old(state), old(log), log)
      ensures ok ==> Settled(x, old(state), state)
    {
      hide Warranted, Needed, Settled, ScopesDone, Gathered, GatheredCollections, Refusal, Halted;
      ghost var s := state;
      var current := state;
      var gathered := GatherScopes(x);
      ok := DeleteScopes(x, accepts);
      if !ok {
        return;
      }
      ghost var l := log;
      ok := CreateScopes(x, current, accepts);
      WarrantedTrans(x, s, old(log), l, log);
      if !ok {
        return;
      }
      ghost var mid := state;
      ScopesStart(x, s, mid);
      for i := 0 to |gathered|
        invariant ScopesDone(x, mid, state, i)
        invariant Warranted(x, s, old(log), log)
      {
        var n := ScopeName(gathered[i]);
        ghost var t := state;
        l := log;
        ScopesNext(x, s, mid, t, i);
        if n == SYSTEM_SCOPE || gathered[i].chooser.None? || !gathered[i].chooser.value.managed {
          continue;
        }
        var wanted := GatherCollections(x, gathered[i]);
        KeysKept(x, mid, t, i);
        ok := ReconcileCollections(x, n, wanted, accepts, s);
        WarrantedTrans(x, s, old(log), l, log);
        if !ok {
          HaltedRefusal(x, s, mid, accepts);
          return;
        }
        ScopesReconciled(x, mid, t, state, i, wanted);
      }
      ScopesEnd(x, s, mid, state);
      return true;
    }
  }

  // ----- scope after scope -----

  /** The state between the scope calls and the collection calls. */
  ghost predicate Between(x: Context, s: State, mid: State)
  {
    (forall n :: n in mid <==> ScopeAfter(x, n, n in s)) &&
    forall n | n in mid :: mid[n] == if n in s then s[n] else map[]
  }

  function CollectionsAt(x: Context, n: string, m: string, o: Option<Settings>): Option<Settings>
  {
    match ManagedAt(x, n)
    case None => o
    case Some(wanted) => CollectionAfter(x, wanted, m, o)
  }

  /** The server once the first of the gathered scopes have been seen to. */
  ghost predicate ScopesDone(x: Context, mid: State, t: State, i: nat)
    requires i <= |Gathered(x)|
  {
    t.Keys == mid.Keys &&
    forall n, m :: Held(t, n, m) ==
      if n in NamesOf(Gathered(x)[..i], ScopeName) then CollectionsAt(x, n, m, Held(mid, n, m)) else Held(mid, n, m)
  }

  lemma GatheredUnique(x: Context)
    ensures UniqueScopes(Gathered(x))
    ensures forall s: Scope :: UniqueCollections(GatheredCollections(x, s))
  {}

  lemma ScopeSeen(x: Context, i: nat)
    requires i < |Gathered(x)|
    ensures NamesOf(Gathered(x)[..i + 1], ScopeName) == NamesOf(Gathered(x)[..i], ScopeName) + {ScopeName(Gathered(x)[i])}
  {
    assert Gathered(x)[..i + 1] == Gathered(x)[..i] + [Gathered(x)[i]];
    NamesAppend(Gathered(x)[..i], Gathered(x)[i], ScopeName);
  }

  lemma ScopesStart(x: Context, s: State, mid: State)
    ensures ScopesDone(x, mid, mid, 0)
  {
    hide Gathered, ManagedAt;
  }

  /** What is known when the next scope's turn comes. */
  lemma ScopesNext(x: Context, s: State, mid: State, t: State, i: nat)
    requires i < |Gathered(x)| && ScopesDone(x, mid, t, i) && Between(x, s, mid)
    ensures var g := Gathered(x)[i];
            ManagedAt(x, ScopeName(g)) == Managed(x, g) && SameAt(s, t, ScopeName(g)) &&
            ScopeName(g) !in NamesOf(Gathered(x)[..i], ScopeName) &&
            (forall c: Scope :: UniqueCollections(GatheredCollections(x, c))) &&
            (Managed(x, g).None? ==> ScopesDone(x, mid, t, i + 1))
  {
    NextScope(x, i);
    ScopeSeen(x, i);
    hide Gathered, CollectionAfter, GatheredCollections, ManagedAt, Managed, UniqueCollections, NamesOf;
  }

  lemma NextScope(x: Context, i: nat)
    requires i < |Gathered(x)|
    ensures var n := ScopeName(Gathered(x)[i]);
            ManagedAt(x, n) == Managed(x, Gathered(x)[i]) && n !in NamesOf(Gathered(x)[..i], ScopeName) && n in RequestedScopes(x)
    ensures forall c: Scope :: UniqueCollections(GatheredCollections(x, c))
  {
    GatheredUnique(x);
    FindScopeAt(Gathered(x), i);
    hide Gathered, GatheredCollections, Managed;
  }

  lemma ScopesReconciled(x: Context, mid: State, t: State, u: State, i: nat, wanted: seq<Collection>)
    requires i < |Gathered(x)| && ScopesDone(x, mid, t, i) && ManagedAt(x, ScopeName(Gathered(x)[i])) == Some(wanted)
    requires ScopeName(Gathered(x)[i]) !in NamesOf(Gathered(x)[..i], ScopeName)
    requires Elsewhere(t, u, ScopeName(Gathered(x)[i]))
    requires forall m :: Held(u, ScopeName(Gathered(x)[i]), m) == CollectionAfter(x, wanted, m, Held(t, ScopeName(Gathered(x)[i]), m))
    ensures ScopesDone(x, mid, u, i + 1)
  {
    hide Gathered, CollectionAfter, GatheredCollections, ManagedAt, NamesOf, ScopeName;
    ScopeSeen(x, i);
  }

  lemma ScopesEnd(x: Context, s: State, mid: State, t: State)
    requires Between(x, s, mid) && ScopesDone(x, mid, t, |Gathered(x)|)
    ensures Settled(x, s, t)
  {
    assert Gathered(x)[..|Gathered(x)|] == Gathered(x);
    hide Gathered, CollectionsAt, After, ScopeAfter, NamesOf, Held;
    forall n, m ensures Held(t, n, m) == After(x, s, n, m) {
      ManagedGathered(x, n);
      AfterBetween(x, s, mid, n, m);
      UnmanagedSame(x, n, m, Held(mid, n, m));
    }
  }

  lemma UnmanagedSame(x: Context, n: string, m: string, o: Option<Settings>)
    ensures ManagedAt(x, n).None? ==> CollectionsAt(x, n, m, o) == o
  {}

  lemma AfterBetween(x: Context, s: State, mid: State, n: string, m: string)
    requires n in mid <==> ScopeAfter(x, n, n in s)
    requires n in mid ==> mid[n] == if n in s then s[n] else map[]
    ensures CollectionsAt(x, n, m, Held(mid, n, m)) == After(x, s, n, m)
  {
    hide ManagedAt, CollectionAfter, ScopeAfter;
  }

  lemma ManagedGathered(x: Context, n: string)
    ensures ManagedAt(x, n).Some? ==> n in NamesOf(Gathered(x), ScopeName)
  {
    hide Gathered, GatheredCollections, NamesOf;
  }
}
