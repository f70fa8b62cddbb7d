/** Creating and updating encryption keys on the server, deferring those that cannot be done yet. */
module KeyReconciler {
  import opened Topology
  import opened EncryptionKeys

  /** How the server answers a request to create or update a key. */
  datatype Answer = Accepted | CredentialFilePending | Refused

  /** How calls turn out during a pass: the first listing, the second one made for a key, the reading of a key's
      secrets, and the request made for a key. */
  datatype Answers = Answers(lists: bool, relists: string -> bool, secrets: string -> bool, reply: string -> Answer)

  datatype KeyError = ListFailed | ConversionFailed | KeyNotFound | RequestRefused

  // ----- keys on the server -----

  /** A key as the server lists it: its configuration, and the usages that something has been encrypted for. */
  datatype Stored = Stored(settings: string, usages: set<string>, inUse: set<string>)

  type Keys = map<string, Stored>

  /** The usage for all buckets, with which the usages for single buckets begin. */
  const ALL_BUCKETS := "bucket-encryption"

  /** The usage is granted, or covered by the wildcard for buckets. */
  predicate Permits(granted: set<string>, needed: string)
  {
    needed in granted || (ALL_BUCKETS <= needed && ALL_BUCKETS in granted)
  }

  /** The usages a request would drop although something is still encrypted for them. */
  function ToRetain(k: Key, e: Stored): set<string>
  {
    set u | u in e.inUse && !Permits(k.usages, u)
  }

  /** What a requested key is to be on the server. */
  function Wanted(s: Keys, k: Key): Stored
  {
    if k.name in s then Stored(k.settings, k.usages + ToRetain(k, s[k.name]), s[k.name].inUse)
    else Stored(k.settings, k.usages, {})
  }

  /** Whether a request has to be made for the key. */
  predicate Asks(s: Keys, k: Key)
  {
    k.name !in s || s[k.name] != Wanted(s, k)
  }

  /** No usage that something is encrypted for is ever lost, none that is requested is missing, and none is kept for
      nothing. */
  lemma UsagesKept(s: Keys, k: Key, u: string)
    requires k.name in s
    ensures var after := Wanted(s, k).usages;
            (u in s[k.name].inUse ==> Permits(after, u)) &&
            (u in k.usages ==> u in after) &&
            (u in after && u !in k.usages ==> u in s[k.name].inUse)
  {}

  /** Once a request has been accepted the key is as requested and none is made again. */
  lemma AskedOnce(s: Keys, k: Key)
    ensures !Asks(s[k.name := Wanted(s, k)], k)
    ensures Wanted(s, k).settings == k.settings
  {
    var after := s[k.name := Wanted(s, k)];
    assert ToRetain(k, after[k.name]) == if k.name in s then ToRetain(k, s[k.name]) else {};
  }

  function KeyNames(keys: seq<Key>): set<string>
  {
    set i | 0 <= i < |keys| :: keys[i].name
  }

  lemma KeyNamesGrow(keys: seq<Key>, i: nat)
    requires i < |keys|
    ensures KeyNames(keys[..i + 1]) == KeyNames(keys[..i]) + {keys[i].name}
    ensures UniqueNames(keys) ==> keys[i].name !in KeyNames(keys[..i])
    ensures UniqueNames(keys) ==> forall j | 0 <= j < i :: keys[j].name != keys[i].name
  {
    forall n | n in KeyNames(keys[..i]) ensures n in KeyNames(keys[..i + 1]) {
      var j :| 0 <= j < i && keys[..i][j].name == n;
      assert keys[..i + 1][j].name == n;
    }
    assert keys[..i + 1][i].name == keys[i].name;
    forall n | n in KeyNames(keys[..i + 1]) && n != keys[i].name ensures n in KeyNames(keys[..i]) {
      var j :| 0 <= j < i + 1 && keys[..i + 1][j].name == n;
      assert keys[..i][j].name == n;
    }
  }

  // ----- what a finished pass leaves behind -----

  /** The key a key depends on is missing from the requested set. */
  predicate MissingDependency(requested: seq<Key>, k: Key)
  {
    Dependency(k) != "" && Dependency(k) !in KeyNames(requested)
  }

  /** The key needs a request, and that meets a credential file which is not there yet. */
  predicate Pends(s: Keys, a: Answers, k: Key)
  {
    Asks(s, k) && a.reply(k.name) == CredentialFilePending
  }

  /** When a key is deferred: its own request is pending, or the key it depends on is missing or deferred. */
  ghost predicate DeferredRightly(requested: seq<Key>, deferred: set<string>, s: Keys, a: Answers, k: Key)
  {
    k.name in deferred <==>
    Pends(s, a, k) || MissingDependency(requested, k) || (Dependency(k) != "" && Dependency(k) in deferred)
  }

  /** The server has what is wanted of the requested keys that were not deferred, and is as it was otherwise. */
  ghost predicate Provisioned(requested: seq<Key>, deferred: set<string>, s: Keys, t: Keys)
  {
    (forall k | k in requested && k.name !in deferred :: k.name in t && t[k.name] == Wanted(s, k)) &&
    (forall n | n in s && (n in deferred || n !in KeyNames(requested)) :: n in t && t[n] == s[n]) &&
    (forall n | n in t :: n in s || (n in KeyNames(requested) && n !in deferred))
  }

  /** What a successful pass makes of the server's keys. */
  ghost predicate Settled(requested: seq<Key>, deferred: set<string>, s: Keys, a: Answers, t: Keys)
  {
    deferred <= KeyNames(requested) &&
    (forall k | k in requested :: DeferredRightly(requested, deferred, s, a, k)) &&
    Provisioned(requested, deferred, s, t)
  }

  /** In good order, what a key depends on is settled before the key's turn comes and stays settled after. */
  lemma DependencyEarlier(requested: seq<Key>, j: nat, i: nat)
    requires UniqueNames(requested) && DependenciesFirst(NameMap(requested), requested)
    requires j <= i < |requested|
    ensures Dependency(requested[j]) != requested[i].name || Dependency(requested[j]) == ""
    ensures Dependency(requested[j]) != "" && Dependency(requested[j]) in KeyNames(requested) ==>
              Dependency(requested[j]) in KeyNames(requested[..j])
  {
    var d := Dependency(requested[j]);
    if d != "" && d in KeyNames(requested) {
      assert DependencyPlaced(NameMap(requested), requested, j);
      var x :| 0 <= x < j && requested[x] == Next(NameMap(requested), requested[j]).value;
      assert requested[..j][x] == requested[x];
    }
  }

  /** Deferring another key changes nothing for a key that does not depend on it. */
  lemma RightlyKept(requested: seq<Key>, deferred: set<string>, s: Keys, a: Answers, k: Key, n: string)
    requires DeferredRightly(requested, deferred, s, a, k)
    requires k.name != n && (Dependency(k) != n || Dependency(k) == "")
    ensures DeferredRightly(requested, deferred + {n}, s, a, k)
  {
    hide MissingDependency, Dependency, Pends;
  }

  ghost predicate RightlyUpTo(requested: seq<Key>, i: nat, deferred: set<string>, s: Keys, a: Answers)
    requires i <= |requested|
  {
    forall j | 0 <= j < i :: DeferredRightly(requested, deferred, s, a, requested[j])
  }

  /** Settling one more key leaves the earlier ones rightly deferred or not. */
  lemma RightlyOne(requested: seq<Key>, i: nat, deferred: set<string>, s: Keys, a: Answers, put: bool)
    requires UniqueNames(requested) && DependenciesFirst(NameMap(requested), requested)
    requires i < |requested| && RightlyUpTo(requested, i, deferred, s, a) && deferred <= KeyNames(requested[..i])
    requires var k := requested[i]; var d := Dependency(k);
             put <==> Pends(s, a, k) || MissingDependency(requested, k) || (d != "" && d in deferred)
    ensures RightlyUpTo(requested, i + 1, if put then deferred + {requested[i].name} else deferred, s, a)
  {
    var n := requested[i].name;
    var longer := if put then deferred + {n} else deferred;
    KeyNamesGrow(requested, i);
    forall j | 0 <= j <= i ensures DeferredRightly(requested, longer, s, a, requested[j]) {
      DependencyEarlier(requested, j, i);
      if j < i && put {
        RightlyKept(requested, deferred, s, a, requested[j], n);
      }
      hide MissingDependency, Dependency, Pends, UniqueNames, DependenciesFirst;
    }
  }

  /** The first keys are settled. */
  ghost predicate SettledUpTo(requested: seq<Key>, i: nat, deferred: set<string>, s: Keys, a: Answers, t: Keys)
  {
    i <= |requested| && deferred <= KeyNames(requested[..i]) && RightlyUpTo(requested, i, deferred, s, a) &&
    Provisioned(requested[..i], deferred, s, t)
  }

  /** A key whose turn has not come is on the server as it was. */
  lemma KeyUntouched(requested: seq<Key>, i: nat, deferred: set<string>, s: Keys, t: Keys)
    requires UniqueNames(requested) && i < |requested| && deferred <= KeyNames(requested[..i])
    requires Provisioned(requested[..i], deferred, s, t)
    ensures var k := requested[i];
            k.name !in deferred && k.name !in KeyNames(requested[..i]) && (k.name in t <==> k.name in s) &&
            (k.name in t ==> t[k.name] == s[k.name]) && Wanted(t, k) == Wanted(s, k)
  {
    hide Wanted;
    KeyNamesGrow(requested, i);
    hide KeyNames, UniqueNames;
    SameWanted(s, t, requested[i]);
  }

  /** One more key on the server, or put off. */
  lemma ProvisionOne(requested: seq<Key>, i: nat, deferred: set<string>, s: Keys, t: Keys, put: bool)
    requires UniqueNames(requested) && i < |requested| && deferred <= KeyNames(requested[..i])
    requires Provisioned(requested[..i], deferred, s, t)
    ensures var k := requested[i];
            Provisioned(requested[..i + 1], if put then deferred + {k.name} else deferred, s, if put then t else t[k.name := Wanted(s, k)])
  {
    hide Wanted;
    KeyUntouched(requested, i, deferred, s, t);
    KeyNamesGrow(requested, i);
    OneMoreKey(requested, i);
    hide UniqueNames, KeyNames;
  }

  lemma OneMoreKey(requested: seq<Key>, i: nat)
    requires UniqueNames(requested) && i < |requested|
    ensures forall x | x in requested[..i + 1] :: x == requested[i] || (x in requested[..i] && x.name != requested[i].name)
    ensures forall x | x in requested[..i] :: x in requested[..i + 1] && x.name in KeyNames(requested[..i])
  {
    forall x | x in requested[..i + 1] ensures x == requested[i] || (x in requested[..i] && x.name != requested[i].name) {
      var j :| 0 <= j < i + 1 && requested[j] == x;
      assert j < i ==> requested[..i][j] == x;
    }
  }

  lemma SameWanted(s: Keys, t: Keys, k: Key)
    requires k.name in t <==> k.name in s
    requires k.name in t ==> t[k.name] == s[k.name]
    ensures Wanted(t, k) == Wanted(s, k)
  {}

  /** Settling one more key leaves the earlier ones settled. */
  lemma SettleOne(requested: seq<Key>, i: nat, deferred: set<string>, s: Keys, a: Answers, t: Keys, put: bool)
    requires UniqueNames(requested) && DependenciesFirst(NameMap(requested), requested)
    requires i < |requested| && SettledUpTo(requested, i, deferred, s, a, t)
    requires var k := requested[i]; var d := Dependency(k);
             put <==> Pends(s, a, k) || MissingDependency(requested, k) || (d != "" && d in deferred)
    ensures var k := requested[i];
            SettledUpTo(requested, i + 1, if put then deferred + {k.name} else deferred, s, a, if put then t else t[k.name := Wanted(s, k)])
  {
    hide KeyNames, UniqueNames, RightlyUpTo, DependenciesFirst, Dependency, MissingDependency, NameMap, Provisioned, Pends, Wanted;
    RightlyOne(requested, i, deferred, s, a, put);
    ProvisionOne(requested, i, deferred, s, t, put);
    KeyNamesGrow(requested, i);
  }

  // ----- the pass -----

  /** Whether a key's configuration can be filled in, given what has been listed. */
  predicate Converts(a: Answers, listed: Keys, k: Key)
  {
    match k.keyType
    case AWS => true
    case KMIP => a.secrets(k.name)
    case AutoGenerated => k.autoGenerated.None? || k.autoGenerated == Some("") || k.autoGenerated.value in listed || a.relists(k.name)
  }

  class Reconciler {
    /** The keys put off in this cycle. */
    var deferred: set<string>
    /** The keys the server holds, and those of the last listing. */
    var server: Keys
    var listed: Keys

    method List(works: bool) returns (err: Option<KeyError>)
      modifies this`listed
      ensures err == if works then None else Some(ListFailed)
      ensures listed == if works then server else old(listed)
    {
      if !works {
        return Some(ListFailed);
      }
      listed := server;
      return None;
    }

    /** Fills in the key's configuration; a key encrypted with another one needs that one to be listed,
        and a second listing is made before giving up. */
    method Convert(key: Key, a: Answers) returns (err: Option<KeyError>)
      requires Dependency(key) == "" || Dependency(key) in server
      modifies this`listed
      ensures err != Some(KeyNotFound) && err != Some(RequestRefused)
      ensures err.None? <==> Converts(a, old(listed), key)
      ensures listed == old(listed) || listed == server
    {
      match key.keyType {
        case AutoGenerated =>
          if key.autoGenerated.None? || key.autoGenerated.value == "" {
            return None;
          }
          if key.autoGenerated.value !in listed {
            err := List(a.relists(key.name));
            if err.Some? {
              return;
            }
          }
          return if key.autoGenerated.value in listed then None else Some(KeyNotFound);
        case AWS =>
          return None;
        case KMIP =>
          return if a.secrets(key.name) then None else Some(ConversionFailed);
      }
    }

    /** Creates one key, or updates it if the server's differs from what is wanted. */
    method ReconcileSingleEncryptionKey(key: Key, a: Answers) returns (err: Option<KeyError>)
      requires Dependency(key) == "" || Dependency(key) in server
      requires key.name in listed <==> key.name in server
      requires key.name in listed ==> listed[key.name] == server[key.name]
      modifies this
      ensures err != Some(KeyNotFound)
      ensures listed == old(listed) || listed == old(server)
      ensures err.None? <==> Converts(a, old(listed), key) && !(Asks(old(server), key) && a.reply(key.name) == Refused)
      ensures err == Some(RequestRefused) <==> Converts(a, old(listed), key) && Asks(old(server), key) && a.reply(key.name) == Refused
      ensures err.Some? ==> deferred == old(deferred) && server == old(server)
      ensures err.None? && !Asks(old(server), key) ==> server == old(server)
      ensures err.None? && Asks(old(server), key) ==>
                server == if a.reply(key.name) == Accepted then old(server)[key.name := Wanted(old(server), key)] else old(server)
      ensures err.None? ==> deferred == old(deferred) + (if Pends(old(server), a, key) then {key.name} else {})
    {
      var actual := if key.name in listed then Some(listed[key.name]) else None;
      err := Convert(key, a);
      if err.Some? {
        return;
      }
      if actual.Some? {
        var usages := key.usages + set u | u in actual.value.inUse && !Permits(key.usages, u);
        if actual.value == Stored(key.settings, usages, actual.value.inUse) {
          return;
        }
      }
      match a.reply(key.name) {
        case Accepted =>
          if actual.None? {
            server := server[key.name := Stored(key.settings, key.usages, {})];
          } else {
            server := server[key.name := Stored(key.settings, key.usages + ToRetain(key, actual.value), actual.value.inUse)];
          }
        case CredentialFilePending =>
          deferred := deferred + {key.name};
        case Refused =>
          err := Some(RequestRefused);
      }
    }

    /** Walks the requested keys in order. A key whose dependency is deferred or missing is deferred itself;
        looking at the direct dependency is enough because the order puts it first. */
    method CreateAndUpdateEncryptionKeys(requested: seq<Key>, a: Answers) returns (err: Option<KeyError>)
      requires UniqueNames(requested) && DependenciesFirst(NameMap(requested), requested)
      requires deferred == {}
      modifies this
      ensures err != Some(KeyNotFound)
      ensures err.None? ==> Settled(requested, deferred, old(server), a, server)
      ensures err.Some? ==> exists i :: 0 <= i <= |requested| && SettledUpTo(requested, i, deferred, old(server), a, server)
      ensures err == Some(RequestRefused) ==> exists k :: k in requested && Asks(old(server), k) && a.reply(k.name) == Refused
      ensures AllGoWell(requested, old(server), a) ==> err.None?
    {
      hide DependenciesFirst, DeferredRightly, SettledUpTo, MissingDependency, UniqueNames, NameMap, Settled, Wanted, Dependency;
      ghost var s := server;
      SettledNone(requested, s, a);
      err := List(a.lists);
      if err.Some? {
        assert SettledUpTo(requested, 0, deferred, s, a, server);
        return;
      }
      for i := 0 to |requested|
        invariant err.None? && SettledUpTo(requested, i, deferred, s, a, server)
        invariant FreshFrom(requested, i, listed, server)
      {
        var key := requested[i];
        var dependency := Dependency(key);
        ghost var was, before, heard := deferred, server, listed;
        Turn(requested, i, deferred, s, a, server, listed);
        if dependency != "" && dependency in deferred {
          deferred := deferred + {key.name};
        } else if MissingDependency(requested, key) {
          deferred := deferred + {key.name};
        } else {
          DependencyOnServer(requested, i, deferred, s, a, server);
          err := ReconcileSingleEncryptionKey(key, a);
          if err.Some? {
            assert key in requested;
            return;
          }
        }
        StaysFresh(requested, i, heard, before, listed, server);
        NothingAsked(before, key);
        assert deferred == if key.name in deferred then was + {key.name} else was;
        assert server == if key.name in deferred then before else before[key.name := Wanted(s, key)];
        SettleOne(requested, i, was, s, a, before, key.name in deferred);
      }
      SettledAll(requested, deferred, s, a, server);
    }
  }

  /** No listing, secret or request fails. */
  ghost predicate AllGoWell(requested: seq<Key>, s: Keys, a: Answers)
  {
    a.lists && forall k | k in requested :: a.relists(k.name) && a.secrets(k.name) && !(Asks(s, k) && a.reply(k.name) == Refused)
  }

  /** The listing agrees with the server about the keys still to come. */
  ghost predicate FreshFrom(requested: seq<Key>, i: nat, listed: Keys, t: Keys)
  {
    forall j | i <= j < |requested| :: FreshAt(listed, t, requested[j].name)
  }

  ghost predicate FreshAt(listed: Keys, t: Keys, n: string)
  {
    (n in listed <==> n in t) && (n in listed ==> listed[n] == t[n])
  }

  lemma StaysFresh(requested: seq<Key>, i: nat, listed: Keys, t: Keys, listed': Keys, t': Keys)
    requires UniqueNames(requested) && i < |requested| && FreshFrom(requested, i, listed, t)
    requires listed' == listed || listed' == t
    requires forall n | n != requested[i].name :: (n in t' <==> n in t) && (n in t' ==> t'[n] == t[n])
    ensures FreshFrom(requested, i + 1, listed', t')
  {
    forall j | i + 1 <= j < |requested| ensures FreshAt(listed', t', requested[j].name) {
      assert FreshAt(listed, t, requested[j].name);
      assert requested[i].name != requested[j].name;
    }
  }

  /** What is known when a key's turn comes. */
  lemma Turn(requested: seq<Key>, i: nat, deferred: set<string>, s: Keys, a: Answers, t: Keys, listed: Keys)
    requires UniqueNames(requested) && i < |requested| && SettledUpTo(requested, i, deferred, s, a, t)
    requires FreshFrom(requested, i, listed, t)
    ensures var k := requested[i];
            k.name !in deferred && FreshAt(listed, t, k.name) && Wanted(t, k) == Wanted(s, k) &&
            (Asks(t, k) <==> Asks(s, k)) && (Pends(t, a, k) <==> Pends(s, a, k))
  {
    KeyUntouched(requested, i, deferred, s, t);
    hide Wanted, Provisioned, KeyNames, RightlyUpTo;
  }

  lemma NothingAsked(t: Keys, k: Key)
    ensures !Asks(t, k) ==> t[k.name := Wanted(t, k)] == t
  {
    hide Wanted;
  }

  lemma DependencyOnServer(requested: seq<Key>, i: nat, deferred: set<string>, s: Keys, a: Answers, t: Keys)
    requires UniqueNames(requested) && DependenciesFirst(NameMap(requested), requested)
    requires i < |requested| && SettledUpTo(requested, i, deferred, s, a, t)
    requires Dependency(requested[i]) == "" || Dependency(requested[i]) !in deferred
    requires !MissingDependency(requested, requested[i])
    ensures Dependency(requested[i]) == "" || Dependency(requested[i]) in t
  {
    DependencyEarlier(requested, i, i);
    if Dependency(requested[i]) != "" {
      var j :| 0 <= j < i && requested[..i][j].name == Dependency(requested[i]);
      assert requested[..i][j] in requested[..i];
    }
  }

  lemma SettledNone(requested: seq<Key>, s: Keys, a: Answers)
    ensures SettledUpTo(requested, 0, {}, s, a, s)
  {}

  lemma SettledAll(requested: seq<Key>, deferred: set<string>, s: Keys, a: Answers, t: Keys)
    requires SettledUpTo(requested, |requested|, deferred, s, a, t)
    ensures Settled(requested, deferred, s, a, t)
  {
    assert requested[..|requested|] == requested;
    forall k | k in requested ensures DeferredRightly(requested, deferred, s, a, k) {
      var j :| 0 <= j < |requested| && requested[j] == k;
    }
  }

  // ----- what settling means along whole chains -----

  lemma ChainTail(m: KeyMap, c: seq<Key>)
    requires IsChain(m, c) && |c| > 1
    ensures IsChain(m, c[1..]) && Next(m, c[0]) == Some(c[1])
  {
    assert Linked(m, c, 0);
    forall x | 0 <= x < |c| - 2 ensures Linked(m, c[1..], x) {
      assert Linked(m, c, x + 1);
    }
  }

  lemma ChainCons(m: KeyMap, k: Key, c: seq<Key>)
    requires IsChain(m, c) && c != [] && k.name in m && m[k.name] == k && Next(m, k) == Some(c[0])
    ensures IsChain(m, [k] + c)
  {
    forall x | 0 <= x < |c| ensures Linked(m, [k] + c, x) {
      assert x > 0 ==> Linked(m, c, x - 1);
    }
  }

  /** A key cannot be provisioned in this cycle by itself: it is encrypted with a key that was never requested, or
      it is not on the server as it is to be and the request for it meets a credential file that is not there yet. */
  predicate Blocked(requested: seq<Key>, s: Keys, a: Answers, k: Key)
  {
    (k.keyType == AutoGenerated && k.autoGenerated.Some? && k.autoGenerated.value != "" &&
     forall x | x in requested :: x.name != k.autoGenerated.value) ||
    ((k.name in s ==> s[k.name] != Wanted(s, k)) && a.reply(k.name) == CredentialFilePending)
  }

  lemma BlockedExactly(requested: seq<Key>, s: Keys, a: Answers, k: Key)
    ensures Blocked(requested, s, a, k) <==> Pends(s, a, k) || MissingDependency(requested, k)
  {
    hide Wanted;
    forall x | x in requested ensures x.name in KeyNames(requested) {
      var i :| 0 <= i < |requested| && requested[i] == x;
    }
  }

  /** Some key on the way along the dependencies is blocked. */
  ghost predicate LeadsToBlocked(requested: seq<Key>, s: Keys, a: Answers, k: Key)
  {
    exists c: seq<Key> :: IsChain(NameMap(requested), c) && c != [] && c[0] == k && Blocked(requested, s, a, c[|c| - 1])
  }

  lemma {:induction false} BlockedChainDeferred(requested: seq<Key>, deferred: set<string>, s: Keys, a: Answers, t: Keys, c: seq<Key>)
    requires UniqueNames(requested) && Settled(requested, deferred, s, a, t)
    requires IsChain(NameMap(requested), c) && c != [] && Blocked(requested, s, a, c[|c| - 1])
    ensures c[0].name in deferred
    decreases |c|
  {
    hide Wanted, Provisioned, Blocked;
    assert c[0] in requested;
    assert DeferredRightly(requested, deferred, s, a, c[0]);
    if |c| > 1 {
      ChainTail(NameMap(requested), c);
      BlockedChainDeferred(requested, deferred, s, a, t, c[1..]);
    } else {
      BlockedExactly(requested, s, a, c[0]);
    }
  }

  /** A deferred key that is not blocked itself depends on an earlier deferred key. */
  lemma DeferredNext(requested: seq<Key>, deferred: set<string>, s: Keys, a: Answers, t: Keys, i: nat) returns (j: nat)
    requires UniqueNames(requested) && DependenciesFirst(NameMap(requested), requested)
    requires Settled(requested, deferred, s, a, t) && i < |requested| && requested[i].name in deferred
    requires !Blocked(requested, s, a, requested[i])
    ensures j < i && Next(NameMap(requested), requested[i]) == Some(requested[j]) && requested[j].name in deferred
  {
    hide Wanted, Provisioned, Blocked;
    var k := requested[i];
    BlockedExactly(requested, s, a, k);
    assert k in requested && DeferredRightly(requested, deferred, s, a, k);
    assert DependencyPlaced(NameMap(requested), requested, i);
    j :| 0 <= j < i && requested[j] == Next(NameMap(requested), k).value;
  }

  lemma LeadsOn(requested: seq<Key>, s: Keys, a: Answers, k: Key, next: Key)
    requires k.name in NameMap(requested) && NameMap(requested)[k.name] == k && Next(NameMap(requested), k) == Some(next)
    requires LeadsToBlocked(requested, s, a, next)
    ensures LeadsToBlocked(requested, s, a, k)
  {
    hide Blocked, NameMap, Next;
    var c: seq<Key> :| IsChain(NameMap(requested), c) && c != [] && c[0] == next && Blocked(requested, s, a, c[|c| - 1]);
    ChainCons(NameMap(requested), k, c);
    var longer := [k] + c;
    assert longer[|longer| - 1] == c[|c| - 1];
  }

  /** A deferred key is not deferred for nothing: its dependencies lead to a blocked key. */
  lemma {:induction false} DeferredLeadsToBlocked(requested: seq<Key>, deferred: set<string>, s: Keys, a: Answers, t: Keys, i: nat)
    requires UniqueNames(requested) && DependenciesFirst(NameMap(requested), requested)
    requires Settled(requested, deferred, s, a, t) && i < |requested| && requested[i].name in deferred
    ensures LeadsToBlocked(requested, s, a, requested[i])
    decreases i
  {
    hide Blocked, Wanted, Settled, DependenciesFirst, UniqueNames, LeadsToBlocked;
    var k := requested[i];
    KeyMapped(requested, i);
    if Blocked(requested, s, a, k) {
      BlockedLeads(requested, s, a, k);
    } else {
      var j := DeferredNext(requested, deferred, s, a, t, i);
      DeferredLeadsToBlocked(requested, deferred, s, a, t, j);
      LeadsOn(requested, s, a, k, requested[j]);
    }
  }

  lemma KeyMapped(requested: seq<Key>, i: nat)
    requires UniqueNames(requested) && i < |requested|
    ensures requested[i].name in NameMap(requested) && NameMap(requested)[requested[i].name] == requested[i]
  {
    UniqueInMap(requested);
    assert requested[i] in requested;
  }

  lemma BlockedLeads(requested: seq<Key>, s: Keys, a: Answers, k: Key)
    requires k.name in NameMap(requested) && NameMap(requested)[k.name] == k && Blocked(requested, s, a, k)
    ensures LeadsToBlocked(requested, s, a, k)
  {
    hide Blocked, NameMap;
    assert IsChain(NameMap(requested), [k]);
  }

  /** After a successful pass, checking only direct dependencies has deferred exactly the keys whose
      dependencies, however far down, lead to a key that was never requested or one whose own request is pending. */
  lemma DeferredExactly(requested: seq<Key>, deferred: set<string>, s: Keys, a: Answers, t: Keys, k: Key)
    requires UniqueNames(requested) && DependenciesFirst(NameMap(requested), requested)
    requires Settled(requested, deferred, s, a, t) && k in requested
    ensures k.name in deferred <==> LeadsToBlocked(requested, s, a, k)
  {
    hide Blocked, Wanted, Provisioned;
    if k.name in deferred {
      var i :| 0 <= i < |requested| && requested[i] == k;
      DeferredLeadsToBlocked(requested, deferred, s, a, t, i);
    } else if LeadsToBlocked(requested, s, a, k) {
      var c: seq<Key> :| IsChain(NameMap(requested), c) && c != [] && c[0] == k && Blocked(requested, s, a, c[|c| - 1]);
      BlockedChainDeferred(requested, deferred, s, a, t, c);
    }
  }

  /** After a successful pass, a key that was not deferred is on the server as requested, together with every key it
      depends on, directly or through others. */
  lemma {:induction false} WholeChainOnServer(requested: seq<Key>, deferred: set<string>, s: Keys, a: Answers, t: Keys, c: seq<Key>)
    requires UniqueNames(requested) && Settled(requested, deferred, s, a, t)
    requires IsChain(NameMap(requested), c) && c != [] && c[0].name !in deferred
    ensures forall k | k in c :: k.name in t && t[k.name].settings == k.settings && k.usages <= t[k.name].usages
    decreases |c|
  {
    assert c[0] in requested;
    assert DeferredRightly(requested, deferred, s, a, c[0]);
    assert t[c[0].name] == Wanted(s, c[0]);
    if |c| > 1 {
      ChainTail(NameMap(requested), c);
      WholeChainOnServer(requested, deferred, s, a, t, c[1..]);
    }
  }

  /** A pass on an empty server to which nothing is pending or missing creates every key. */
  lemma EverythingCreated(requested: seq<Key>, deferred: set<string>, a: Answers, t: Keys)
    requires UniqueNames(requested) && DependenciesFirst(NameMap(requested), requested)
    requires Settled(requested, deferred, map[], a, t)
    requires forall k | k in requested :: a.reply(k.name) == Accepted && !MissingDependency(requested, k)
    ensures deferred == {} && t.Keys == KeyNames(requested)
    ensures forall k | k in requested :: t[k.name] == Stored(k.settings, k.usages, {})
  {
    forall k | k in requested ensures k.name !in deferred {
      if k.name in deferred {
        DeferredExactly(requested, deferred, map[], a, t, k);
        var c: seq<Key> :| IsChain(NameMap(requested), c) && c != [] && c[0] == k && Blocked(requested, map[], a, c[|c| - 1]);
        BlockedExactly(requested, map[], a, c[|c| - 1]);
        assert false;
      }
    }
    forall n | n in KeyNames(requested) ensures n !in deferred && n in t {
      var i :| 0 <= i < |requested| && requested[i].name == n;
      assert requested[i] in requested;
    }
    assert deferred == {};
  }

  /** Nothing is asked again of a key that was not deferred. */
  lemma SecondPassAsksNothing(requested: seq<Key>, deferred: set<string>, s: Keys, a: Answers, t: Keys, k: Key)
    requires Settled(requested, deferred, s, a, t) && k in requested && k.name !in deferred
    ensures !Asks(t, k)
  {
    AskedOnce(s, k);
    SameWanted(s[k.name := Wanted(s, k)], t, k);
  }
}
