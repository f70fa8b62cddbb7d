/** Making the scopes and collections of one bucket on the server those that were gathered. */
module ScopeServer {
  import opened Topology
  import opened Scopes

  type State = map<string, map<string, Settings>>

  datatype Call =
    | CreateScope(scope: string)
    | DeleteScope(scope: string)
    | CreateCollection(scope: string, name: string, settings: Settings)
    | DeleteCollection(scope: string, name: string)
    | PatchCollection(scope: string, name: string, settings: Settings)

  function Or<T>(o: Option<T>, d: Option<T>): Option<T>
  {
    if o.Some? then o else d
  }

  /** What a call does; what it leaves unsaid stays or is defaulted by the server. Calls about a scope that does
      not exist are refused and have no effect. */
  function Apply(x: Context, s: State, c: Call): State
  {
    match c
    case CreateScope(n) => if n in s then s else s[n := map[]]
    case DeleteScope(n) => s - {n}
    case CreateCollection(n, m, st) =>
      if n in s then
        s[n := s[n][m := Settings(Or(st.ttl, x.serverDefaults.ttl), Or(st.history, x.serverDefaults.history))]]
      else s
    case DeleteCollection(n, m) => if n in s then s[n := s[n] - {m}] else s
    case PatchCollection(n, m, st) =>
      if n in s && m in s[n] then s[n := s[n][m := Settings(Or(st.ttl, s[n][m].ttl), Or(st.history, s[n][m].history))]] else s
  }

  predicate Accepts(s: State, c: Call)
  {
    c.CreateScope? || c.DeleteScope? || c.scope in s
  }

  function Held(s: State, n: string, m: string): Option<Settings>
  {
    if n in s && m in s[n] then Some(s[n][m]) else None
  }

  // ----- settings -----

  /** The settings a creation asks for. */
  function NewSettings(x: Context, c: Collection): Settings
  {
    Settings(if c.settings.ttl.Some? && c.settings.ttl.value < 0 && !x.hasSystemScope then None else c.settings.ttl,
             if x.patchesCollections && x.magma then c.settings.history else None)
  }

  /** The settings a change asks for. */
  function WantedSettings(x: Context, c: Collection, e: Settings): Settings
  {
    Settings(if x.hasSystemScope then Or(c.settings.ttl, e.ttl) else None,
             if !x.magma then None else if c.settings.history.Some? then c.settings.history else Some(x.historyByDefault))
  }

  /** The settings a change is compared with. */
  function ComparedSettings(x: Context, e: Settings): Settings
  {
    Settings(if x.hasSystemScope then e.ttl else None, if x.magma then e.history else None)
  }

  function Changes(x: Context, c: Collection, e: Settings): bool
  {
    x.patchesCollections && ComparedSettings(x, e) != WantedSettings(x, c, e)
  }

  function Patched(x: Context, c: Collection, e: Settings): Settings
  {
    if Changes(x, c, e) then
      Settings(Or(WantedSettings(x, c, e).ttl, e.ttl), Or(WantedSettings(x, c, e).history, e.history))
    else e
  }

  /** A change is not asked for twice. */
  lemma PatchedOnce(x: Context, c: Collection, e: Settings)
    ensures !Changes(x, c, Patched(x, c, e))
  {}

  // ----- what should be there -----

  function FindScope(ss: seq<Scope>, n: string): (r: Option<Scope>)
    ensures r.Some? <==> n in NamesOf(ss, ScopeName)
  {
    if ss == [] then None
    else if ScopeName(ss[|ss| - 1]) == n then Some(ss[|ss| - 1])
    else
      var k := |ss| - 1;
      NamesAppend(ss[..k], ss[k], ScopeName);
      assert ss == ss[..k] + [ss[k]];
      FindScope(ss[..k], n)
  }

  function FindCollection(cs: seq<Collection>, n: string): (r: Option<Collection>)
    ensures r.Some? <==> n in NamesOf(cs, CollectionName)
    ensures r.Some? ==> CollectionName(r.value) == n
  {
    if cs == [] then None
    else if CollectionName(cs[|cs| - 1]) == n then Some(cs[|cs| - 1])
    else
      var k := |cs| - 1;
      NamesAppend(cs[..k], cs[k], CollectionName);
      assert cs == cs[..k] + [cs[k]];
      FindCollection(cs[..k], n)
  }

  /** The collections a scope should have, if its collections are managed at all. The system scope's are not. */
  function Managed(x: Context, s: Scope): Option<seq<Collection>>
  {
    if ScopeName(s) == SYSTEM_SCOPE || s.chooser.None? || !s.chooser.value.managed then None
    else Some(GatheredCollections(x, s))
  }

  function ManagedAt(x: Context, n: string): Option<seq<Collection>>
  {
    match FindScope(Gathered(x), n)
    case None => None
    case Some(s) => Managed(x, s)
  }

  predicate ScopeAfter(x: Context, n: string, present: bool)
  {
    if n in x.skippedScopes then present else n in RequestedScopes(x)
  }

  /** The settings of a wanted collection after it has been created or changed. */
  function Ensured(x: Context, c: Collection, o: Option<Settings>): Settings
  {
    match o
    case Some(e) => Patched(x, c, e)
    case None => Settings(Or(NewSettings(x, c).ttl, x.serverDefaults.ttl), Or(NewSettings(x, c).history, x.serverDefaults.history))
  }

  /** What becomes of a collection of a managed scope. */
  function CollectionAfter(x: Context, wanted: seq<Collection>, m: string, o: Option<Settings>): Option<Settings>
  {
    match FindCollection(wanted, m)
    case None => if m in x.skippedCollections then o else None
    case Some(c) =>
      if c.resource in x.skippedCollections then o
      else Some(Ensured(x, c, o))
  }

  /** What should be on the server after a complete pass. */
  function After(x: Context, s: State, n: string, m: string): Option<Settings>
  {
    var o := if ScopeAfter(x, n, n in s) then Held(s, n, m) else None;
    match ManagedAt(x, n)
    case None => o
    case Some(wanted) => CollectionAfter(x, wanted, m, o)
  }

  ghost predicate Settled(x: Context, s: State, t: State)
  {
    (forall n :: n in t <==> ScopeAfter(x, n, n in s)) &&
    forall n, m :: Held(t, n, m) == After(x, s, n, m)
  }

  /** A new collection has the time to live that is asked for, unless that is negative where this is not supported, and
      on magma, where collections can be changed at all, the history that is asked for; all else is the server's. */
  lemma CreatedSettings(x: Context, c: Collection)
    ensures var made := Ensured(x, c, None);
            made.ttl == (if c.settings.ttl.Some? && (c.settings.ttl.value >= 0 || x.hasSystemScope) then c.settings.ttl
                         else x.serverDefaults.ttl) &&
            made.history == (if c.settings.history.Some? && x.magma && x.patchesCollections then c.settings.history
                             else x.serverDefaults.history)
  {}

  /** One that is there already keeps what it has where nothing can be changed; otherwise it gets the time to live that
      is asked for from the version on that can change it, and on magma the history that is asked for or the bucket's. */
  lemma ChangedSettings(x: Context, c: Collection, e: Settings)
    ensures var made := Ensured(x, c, Some(e));
            made.ttl == (if x.patchesCollections && x.hasSystemScope && c.settings.ttl.Some? then c.settings.ttl else e.ttl) &&
            made.history == (if !x.patchesCollections || !x.magma then e.history
                             else if c.settings.history.Some? then c.settings.history else Some(x.historyByDefault))
  {}

  // ----- which calls there may be -----

  /** Whether the state of the server calls for the call. */
  predicate Needed(x: Context, s: State, c: Call)
  {
    match c
    case CreateScope(n) => n in RequestedScopes(x) && n !in s && n !in x.skippedScopes
    case DeleteScope(n) => n in s && n !in RequestedScopes(x) && n !in x.skippedScopes
    case CreateCollection(n, m, _) =>
      ManagedAt(x, n).Some? &&
      var f := FindCollection(ManagedAt(x, n).value, m);
      f.Some? && f.value.resource !in x.skippedCollections && Held(s, n, m) == None
    case DeleteCollection(n, m) =>
      ManagedAt(x, n).Some? && FindCollection(ManagedAt(x, n).value, m).None? && Held(s, n, m).Some? && m !in x.skippedCollections
    case PatchCollection(n, m, _) =>
      ManagedAt(x, n).Some? &&
      var f := FindCollection(ManagedAt(x, n).value, m);
      f.Some? && f.value.resource !in x.skippedCollections && Held(s, n, m).Some? && Changes(x, f.value, Held(s, n, m).value)
  }

  /** However far a pass gets, no call of it removes the default scope, nor the system scope where there is one,
      nor touches a collection of the system scope. */
  lemma NeverRemoved(x: Context, s: State, c: Call)
    requires Needed(x, s, c)
    ensures c != DeleteScope(DEFAULT_NAME)
    ensures x.hasSystemScope ==> c != DeleteScope(SYSTEM_SCOPE)
    ensures c.CreateCollection? || c.DeleteCollection? || c.PatchCollection? ==> c.scope != SYSTEM_SCOPE
  {
    AlwaysRequested(x);
    if c.CreateCollection? || c.DeleteCollection? || c.PatchCollection? {
      FoundName(Gathered(x), c.scope);
    }
  }

  lemma {:induction false} FoundName(ss: seq<Scope>, n: string)
    ensures FindScope(ss, n).Some? ==> ScopeName(FindScope(ss, n).value) == n
  {
    if ss != [] {
      FoundName(ss[..|ss| - 1], n);
    }
  }

  /** With nothing skipped the server has exactly the scopes gathered, and every managed scope exactly the
      collections gathered for it. */
  lemma SettledNames(x: Context, s: State, t: State)
    requires Settled(x, s, t) && x.skippedScopes == {} && x.skippedCollections == {}
    ensures t.Keys == RequestedScopes(x)
    ensures forall n | n in t && ManagedAt(x, n).Some? :: t[n].Keys == NamesOf(ManagedAt(x, n).value, CollectionName)
  {
    forall n | n in t && ManagedAt(x, n).Some? ensures t[n].Keys == NamesOf(ManagedAt(x, n).value, CollectionName) {
      forall m ensures m in t[n] <==> m in NamesOf(ManagedAt(x, n).value, CollectionName) {
        assert Held(t, n, m) == After(x, s, n, m);
      }
    }
  }

  /** After a complete pass no scope or collection has to be created or deleted; and what may then still be
      changed, on collections created without some setting, has been changed after the next. */
  lemma SecondPass(x: Context, s: State, t: State, u: State, c: Call)
    requires Settled(x, s, t) && Settled(x, t, u)
    ensures Needed(x, t, c) ==> c.PatchCollection?
    ensures !Needed(x, u, c)
  {
    if c.CreateCollection? || c.DeleteCollection? || c.PatchCollection? {
      var n, m := c.scope, c.name;
      assert Held(t, n, m) == After(x, s, n, m);
      assert Held(u, n, m) == After(x, t, n, m);
      assert n in t <==> ScopeAfter(x, n, n in s);
      assert n in u <==> ScopeAfter(x, n, n in t);
      hide Settled;
      CollectionSettles(x, s, t, u, n, m);
    } else {
      assert c.scope in t <==> ScopeAfter(x, c.scope, c.scope in s);
      assert c.scope in u <==> ScopeAfter(x, c.scope, c.scope in t);
    }
  }

  lemma CollectionSettles(x: Context, s: State, t: State, u: State, n: string, m: string)
    requires Held(t, n, m) == After(x, s, n, m) && Held(u, n, m) == After(x, t, n, m)
    requires n in t <==> ScopeAfter(x, n, n in s)
    requires n in u <==> ScopeAfter(x, n, n in t)
    ensures ManagedAt(x, n).Some? ==>
              var f := FindCollection(ManagedAt(x, n).value, m);
              (f.None? ==> (Held(t, n, m).Some? ==> m in x.skippedCollections) && (Held(u, n, m).Some? ==> m in x.skippedCollections)) &&
              (f.Some? && f.value.resource !in x.skippedCollections ==>
                 Held(t, n, m).Some? && Held(u, n, m).Some? && !Changes(x, f.value, Held(u, n, m).value))
  {
    if ManagedAt(x, n).Some? {
      var f := FindCollection(ManagedAt(x, n).value, m);
      if f.Some? && Held(t, n, m).Some? {
        PatchedOnce(x, f.value, Held(t, n, m).value);
      }
    }
    hide ManagedAt, FindCollection, Changes, Patched, NewSettings;
  }
}
