/** Ordering encryption keys so that a key comes after the key it is encrypted with, and reconciling them in
    that order while putting off what cannot be done yet. */
module EncryptionKeys {
  import opened Topology

  datatype KeyType = AutoGenerated | AWS | KMIP

  /** A requested key; an automatically generated one may name the key it is encrypted with. */
  datatype Key = Key(name: string, keyType: KeyType, autoGenerated: Option<string>, settings: string, usages: set<string>)

  /** The name of the key this key depends on, empty if there is none. */
  function Dependency(k: Key): string
  {
    if k.keyType != AutoGenerated then ""
    else match k.autoGenerated
         case None => ""
         case Some(encryptWith) => encryptWith
  }

  type KeyMap = map<string, Key>

  ghost predicate ByName(m: KeyMap)
  {
    forall n | n in m :: m[n].name == n
  }

  ghost predicate UniqueNames(keys: seq<Key>)
  {
    forall i, j | 0 <= i < j < |keys| :: keys[i].name != keys[j].name
  }

  /** The key this key depends on, if it is among the given ones. */
  function Next(m: KeyMap, k: Key): Option<Key>
  {
    if Dependency(k) != "" && Dependency(k) in m then Some(m[Dependency(k)]) else None
  }

  /** Keys of the map, each depending on the one after it. */
  ghost predicate IsChain(m: KeyMap, c: seq<Key>)
  {
    (forall i | 0 <= i < |c| :: c[i].name in m && m[c[i].name] == c[i]) &&
    (forall i | 0 <= i < |c| - 1 :: Linked(m, c, i))
  }

  ghost predicate Linked(m: KeyMap, c: seq<Key>, i: nat)
    requires i < |c| - 1
  {
    Next(m, c[i]) == Some(c[i + 1])
  }

  /** No key depends on itself, directly or through others. */
  ghost predicate Acyclic(m: KeyMap)
  {
    forall c | IsChain(m, c) && |c| > 1 :: c[0] != c[|c| - 1]
  }

  // ----- chains and cycles -----

  lemma ChainDistinct(m: KeyMap, c: seq<Key>)
    requires Acyclic(m) && IsChain(m, c)
    ensures forall i, j | 0 <= i < j < |c| :: c[i].name != c[j].name
  {
    forall i, j | 0 <= i < j < |c| ensures c[i].name != c[j].name {
      var part := c[i..j + 1];
      forall x | 0 <= x < |part| - 1 ensures Linked(m, part, x) {
        assert Linked(m, c, i + x);
      }
      assert IsChain(m, part);
      assert part[0] == c[i] && part[|part| - 1] == c[j];
    }
  }

  lemma {:induction false} DistinctFit(names: seq<string>, s: set<string>)
    requires forall i | 0 <= i < |names| :: names[i] in s
    requires forall i, j | 0 <= i < j < |names| :: names[i] != names[j]
    ensures |names| <= |s|
  {
    if names != [] {
      var last := names[|names| - 1];
      DistinctFit(names[..|names| - 1], s - {last});
    }
  }

  /** A chain without cycles is no longer than the map is large. */
  lemma ChainFits(m: KeyMap, c: seq<Key>)
    requires Acyclic(m) && IsChain(m, c)
    ensures |c| <= |m|
  {
    ChainDistinct(m, c);
    var names := seq(|c|, i requires 0 <= i < |c| => c[i].name);
    DistinctFit(names, m.Keys);
  }

  /** Following dependencies from a key for a number of steps. */
  function Walk(m: KeyMap, k: Key, steps: nat): Option<Key>
  {
    if steps == 0 then Some(k)
    else match Walk(m, k, steps - 1)
         case None => None
         case Some(last) => Next(m, last)
  }

  lemma {:induction false} WalkChain(m: KeyMap, k: Key, steps: nat) returns (c: seq<Key>)
    requires ByName(m) && k.name in m && m[k.name] == k && Walk(m, k, steps).Some?
    ensures IsChain(m, c) && |c| == steps + 1 && c[0] == k && Some(c[steps]) == Walk(m, k, steps)
  {
    if steps == 0 {
      c := [k];
    } else {
      var d := WalkChain(m, k, steps - 1);
      c := d + [Walk(m, k, steps).value];
      forall x | 0 <= x < |c| - 1 ensures Linked(m, c, x) {
        assert x < steps - 1 ==> Linked(m, d, x);
      }
    }
  }

  /** A walk that starts on a cycle stays on it. */
  lemma {:induction false} CycleGoesOn(m: KeyMap, c: seq<Key>, steps: nat) returns (at: nat)
    requires IsChain(m, c) && |c| > 1 && c[0] == c[|c| - 1]
    ensures at < |c| - 1 && Walk(m, c[0], steps) == Some(c[at])
  {
    if steps == 0 {
      at := 0;
    } else {
      var before := CycleGoesOn(m, c, steps - 1);
      assert Linked(m, c, before);
      at := if before + 1 == |c| - 1 then 0 else before + 1;
    }
  }

  ghost predicate WalkEnds(m: KeyMap, k: Key)
  {
    exists steps: nat :: Walk(m, k, steps).None?
  }

  /** Every walk along the dependencies comes to an end exactly when the keys have no cycle. OrderingLoop
      shows that so does the ordering below. */
  lemma WalksEndIffAcyclic(m: KeyMap)
    requires ByName(m)
    ensures Acyclic(m) <==> forall n | n in m :: WalkEnds(m, m[n])
  {
    if Acyclic(m) {
      forall n | n in m ensures WalkEnds(m, m[n]) {
        if Walk(m, m[n], |m|).Some? {
          var c := WalkChain(m, m[n], |m|);
          ChainFits(m, c);
        }
        assert Walk(m, m[n], |m|).None?;
      }
    } else {
      var c: seq<Key> :| IsChain(m, c) && |c| > 1 && c[0] == c[|c| - 1];
      forall steps: nat ensures Walk(m, m[c[0].name], steps).Some? {
        var at := CycleGoesOn(m, c, steps);
      }
      assert c[0].name in m && !WalkEnds(m, m[c[0].name]);
    }
  }

  // ----- the ordering loop as steps -----

  /** What the loop holds: the keys still waiting, the chain followed so far and the key it looks at. */
  datatype State = State(waiting: KeyMap, chain: seq<Key>, key: Option<Key>)

  function NamesIn(c: seq<Key>): set<string>
  {
    set i | 0 <= i < |c| :: c[i].name
  }

  /** Any waiting key, or none if none waits. */
  ghost predicate Picks(waiting: KeyMap, key: Option<Key>)
  {
    match key
    case None => waiting == map[]
    case Some(k) => k.name in waiting && waiting[k.name] == k
  }

  ghost predicate Starts(m: KeyMap, s: State)
  {
    s.waiting == m && s.chain == [] && Picks(m, s.key)
  }

  /** One turn of the loop: the key joins the chain; then either the key it depends on is looked at, or the chain
      is placed and any waiting key is picked. */
  ghost predicate Steps(s: State, t: State)
  {
    s.key.Some? &&
    var longer, next := s.chain + [s.key.value], Next(s.waiting, s.key.value);
    if next.Some? then t == State(s.waiting, longer, next)
    else t.waiting == s.waiting - NamesIn(longer) && t.chain == [] && Picks(t.waiting, t.key)
  }

  ghost predicate StepAt(ss: seq<State>, i: nat)
    requires i < |ss| - 1
  {
    Steps(ss[i], ss[i + 1])
  }

  ghost predicate Run(m: KeyMap, ss: seq<State>)
  {
    ss != [] && Starts(m, ss[0]) && forall i | 0 <= i < |ss| - 1 :: StepAt(ss, i)
  }

  lemma RunGrows(m: KeyMap, ss: seq<State>, t: State)
    requires Run(m, ss) && Steps(ss[|ss| - 1], t)
    ensures Run(m, ss + [t])
  {
    forall i | 0 <= i < |ss| ensures StepAt(ss + [t], i) {
      assert i < |ss| - 1 ==> StepAt(ss, i);
    }
  }

  // ----- ordering -----

  ghost predicate DependencyPlaced(m: KeyMap, ordered: seq<Key>, i: nat)
    requires i < |ordered|
  {
    Next(m, ordered[i]).Some? ==> exists j | 0 <= j < i :: ordered[j] == Next(m, ordered[i]).value
  }

  /** Every present dependency comes before the key that depends on it. */
  ghost predicate DependenciesFirst(m: KeyMap, ordered: seq<Key>)
  {
    forall i | 0 <= i < |ordered| :: DependencyPlaced(m, ordered, i)
  }

  /** The keys placed so far: those of the map that are no longer waiting, each once, in good order. */
  ghost predicate Placed(all: KeyMap, waiting: KeyMap, ordered: seq<Key>)
  {
    (forall n | n in waiting :: n in all && waiting[n] == all[n]) &&
    (forall k | k in ordered :: k.name in all && all[k.name] == k && k.name !in waiting) &&
    (forall n | n in all && n !in waiting :: all[n] in ordered) &&
    UniqueNames(ordered) && DependenciesFirst(all, ordered)
  }

  lemma PlaceOne(all: KeyMap, waiting: KeyMap, ordered: seq<Key>, k: Key)
    requires ByName(all) && Placed(all, waiting, ordered)
    requires k.name in waiting && waiting[k.name] == k
    requires Next(all, k).Some? ==> Next(all, k).value in ordered
    ensures Placed(all, waiting - {k.name}, ordered + [k])
  {
    var longer := ordered + [k];
    forall i | 0 <= i < |longer| ensures DependencyPlaced(all, longer, i) {
      if i < |ordered| {
        assert DependencyPlaced(all, ordered, i);
        if Next(all, ordered[i]).Some? {
          var j :| 0 <= j < i && ordered[j] == Next(all, ordered[i]).value;
          assert longer[j] == ordered[j];
        }
      } else if Next(all, k).Some? {
        var j :| 0 <= j < |ordered| && ordered[j] == Next(all, k).value;
        assert longer[j] == ordered[j];
      }
    }
    forall n | n in all && n !in waiting - {k.name} ensures all[n] in longer {
      if n == k.name {
        assert longer[|ordered|] == k;
      }
    }
  }

  /** What no longer waits has been placed. */
  lemma PlacedContains(all: KeyMap, waiting: KeyMap, ordered: seq<Key>, k: Key)
    requires ByName(all) && Placed(all, waiting, ordered)
    ensures Next(all, k).Some? && Next(all, k).value.name !in waiting ==> Next(all, k).value in ordered
  {}

  /** What a key of the chain depends on comes next in the chain or waits no more. */
  ghost predicate LinksOn(all: KeyMap, waiting: KeyMap, chain: seq<Key>, i: nat)
    requires i < |chain|
  {
    Next(all, chain[i]).Some? ==>
      Next(all, chain[i]).value.name !in waiting ||
      (i < |chain| - 1 && Next(all, chain[i]).value.name == chain[i + 1].name)
  }

  lemma ChainGrows(m: KeyMap, c: seq<Key>, k: Key)
    requires IsChain(m, c) && k.name in m && m[k.name] == k
    requires c != [] ==> Next(m, c[|c| - 1]) == Some(k)
    ensures IsChain(m, c + [k])
  {
    forall x | 0 <= x < |c| ensures Linked(m, c + [k], x) {
      assert x < |c| - 1 ==> Linked(m, c, x);
    }
  }

  /** The chain has been placed from position i on. */
  ghost predicate Placing(all: KeyMap, before: KeyMap, waiting: KeyMap, ordered: seq<Key>, chain: seq<Key>, i: nat)
  {
    i <= |chain| && Placed(all, waiting, ordered) && |waiting| + |chain| - i == |before| &&
    (forall x | x in waiting :: x in before) &&
    (forall j | 0 <= j < i :: chain[j].name in waiting && waiting[chain[j].name] == chain[j]) &&
    (forall j | i <= j < |chain| :: chain[j].name !in waiting)
  }

  lemma PlacingStep(all: KeyMap, before: KeyMap, waiting: KeyMap, ordered: seq<Key>, chain: seq<Key>, i: nat)
    requires ByName(all) && i < |chain| && Placing(all, before, waiting, ordered, chain, i + 1)
    requires LinksOn(all, before, chain, i)
    requires forall j, k | 0 <= j < k < |chain| :: chain[j].name != chain[k].name
    ensures Placing(all, before, waiting - {chain[i].name}, ordered + [chain[i]], chain, i)
  {
    PlacedContains(all, waiting, ordered, chain[i]);
    PlaceOne(all, waiting, ordered, chain[i]);
    RemovedOne(waiting, chain[i].name);
    hide Placed, ByName, Next;
  }

  lemma ChainLinksOn(all: KeyMap, waiting: KeyMap, chain: seq<Key>)
    requires IsChain(all, chain) && chain != []
    requires Next(all, chain[|chain| - 1]).Some? ==> Next(all, chain[|chain| - 1]).value.name !in waiting
    ensures forall i | 0 <= i < |chain| :: LinksOn(all, waiting, chain, i)
  {
    forall i | 0 <= i < |chain| ensures LinksOn(all, waiting, chain, i) {
      assert i < |chain| - 1 ==> Linked(all, chain, i);
    }
  }

  /** Places a finished chain back to front: the key at its end depends on nothing that still waits. */
  method PlaceChain(ghost all: KeyMap, waiting: KeyMap, ordered: seq<Key>, chain: seq<Key>)
    returns (waiting': KeyMap, ordered': seq<Key>)
    requires ByName(all) && Placed(all, waiting, ordered)
    requires IsChain(all, chain) && chain != [] && forall k | k in chain :: k.name in waiting
    requires forall i, j | 0 <= i < j < |chain| :: chain[i].name != chain[j].name
    requires Next(all, chain[|chain| - 1]).Some? ==> Next(all, chain[|chain| - 1]).value.name !in waiting
    ensures Placed(all, waiting', ordered') && |waiting'| < |waiting| && waiting' == waiting - NamesIn(chain)
  {
    waiting', ordered' := waiting, ordered;
    NothingAway(waiting, chain);
    ChainLinksOn(all, waiting, chain);
    assert Placing(all, waiting, waiting', ordered', chain, |chain|);
    hide Placing, Placed, IsChain, ByName, Next, LinksOn, NamesIn;
    for i := |chain| downto 0
      invariant Placing(all, waiting, waiting', ordered', chain, i)
      invariant waiting' == waiting - NamesIn(chain[i..])
    {
      LessWaiting(waiting, chain, i);
      PlacingStep(all, waiting, waiting', ordered', chain, i);
      ordered' := ordered' + [chain[i]];
      waiting' := waiting' - {chain[i].name};
    }
    PlacingDone(all, waiting, waiting', ordered', chain);
  }

  lemma NothingAway(m: KeyMap, c: seq<Key>)
    ensures m - NamesIn(c[|c|..]) == m && c[0..] == c
  {
    assert NamesIn(c[|c|..]) == {};
  }

  lemma LessWaiting(m: KeyMap, c: seq<Key>, i: nat)
    requires i < |c|
    ensures m - NamesIn(c[i + 1..]) - {c[i].name} == m - NamesIn(c[i..])
  {
    NamesInRest(c, i);
  }

  lemma NamesInRest(c: seq<Key>, i: nat)
    requires i < |c|
    ensures NamesIn(c[i..]) == NamesIn(c[i + 1..]) + {c[i].name}
  {
    forall n | n in NamesIn(c[i + 1..]) + {c[i].name} ensures n in NamesIn(c[i..]) {
      if n == c[i].name {
        assert c[i..][0].name == n;
      } else {
        var j :| 0 <= j < |c[i + 1..]| && c[i + 1..][j].name == n;
        assert c[i..][j + 1].name == n;
      }
    }
  }

  lemma PlacingDone(all: KeyMap, before: KeyMap, waiting: KeyMap, ordered: seq<Key>, chain: seq<Key>)
    requires Placing(all, before, waiting, ordered, chain, 0) && chain != []
    ensures Placed(all, waiting, ordered) && |waiting| < |before|
  {}

  lemma RemovedOne(m: KeyMap, n: string)
    requires n in m
    ensures |m - {n}| == |m| - 1
  {
    assert (m - {n}).Keys == m.Keys - {n};
  }

  function NameMap(keys: seq<Key>): (m: KeyMap)
    ensures ByName(m)
    ensures forall k | k in keys :: k.name in m
    ensures forall n | n in m :: m[n] in keys
  {
    if keys == [] then map[] else NameMap(keys[..|keys| - 1])[keys[|keys| - 1].name := keys[|keys| - 1]]
  }

  lemma UniqueInMap(keys: seq<Key>)
    requires UniqueNames(keys)
    ensures forall k | k in keys :: NameMap(keys)[k.name] == k
  {
    forall k | k in keys ensures NameMap(keys)[k.name] == k {
      var i :| 0 <= i < |keys| && keys[i] == k;
      var j :| 0 <= j < |keys| && keys[j] == NameMap(keys)[k.name];
    }
  }

  /** Distinct keys over the same keys are a rearrangement of each other. */
  lemma {:induction false} SamePermutation(xs: seq<Key>, ys: seq<Key>)
    requires UniqueNames(xs) && UniqueNames(ys)
    requires forall k :: k in xs <==> k in ys
    ensures multiset(xs) == multiset(ys)
  {
    forall k ensures multiset(xs)[k] == multiset(ys)[k] {
      OnceEach(xs, k);
      OnceEach(ys, k);
    }
  }

  lemma {:induction false} OnceEach(xs: seq<Key>, k: Key)
    requires UniqueNames(xs)
    ensures multiset(xs)[k] == if k in xs then 1 else 0
  {
    if xs != [] {
      var n := |xs| - 1;
      assert xs == xs[..n] + [xs[n]];
      OnceEach(xs[..n], k);
    }
  }

  /** In good order a key comes after the key it is encrypted with, if that is among them. */
  lemma EncryptersFirst(keys: seq<Key>, ordered: seq<Key>, i: nat, d: string)
    requires UniqueNames(keys) && DependenciesFirst(NameMap(keys), ordered) && i < |ordered|
    requires ordered[i].keyType == AutoGenerated && ordered[i].autoGenerated == Some(d) && d != ""
    requires exists k :: k in keys && k.name == d
    ensures exists j :: 0 <= j < i && ordered[j].name == d
  {
    UniqueInMap(keys);
    assert DependencyPlaced(NameMap(keys), ordered, i);
    var next := Next(NameMap(keys), ordered[i]).value;
    assert next.name == d;
    var j :| 0 <= j < i && ordered[j] == next;
  }

  /** Orders keys for creation: follows a chain of dependencies from any waiting key to its end, places the
      chain back to front, and starts over with any key still waiting. */
  method OrderKeysForCreation(keys: seq<Key>) returns (ordered: seq<Key>, ghost trace: seq<State>)
    requires UniqueNames(keys) && Acyclic(NameMap(keys))
    ensures multiset(ordered) == multiset(keys) && UniqueNames(ordered)
    ensures DependenciesFirst(NameMap(keys), ordered)
    ensures Run(NameMap(keys), trace) && trace[|trace| - 1].key.None?
  {
    ghost var all := NameMap(keys);
    var waiting := NameMap(keys);
    ordered := [];
    var chain: seq<Key> := [];
    var key := AnyKey(waiting);
    trace := [State(waiting, chain, key)];
    while key.Some?
      invariant Run(all, trace) && trace[|trace| - 1] == State(waiting, chain, key)
      invariant Placed(all, waiting, ordered)
      invariant key.Some? ==> key.value.name in waiting && waiting[key.value.name] == key.value
      invariant key.None? ==> waiting == map[]
      invariant IsChain(all, chain) && forall k | k in chain :: k.name in waiting
      invariant chain != [] && key.Some? ==> Next(all, chain[|chain| - 1]) == key
      invariant key.None? ==> chain == []
      decreases |waiting|, |all| - |chain|, if key.Some? then 1 else 0
    {
      hide Placed, IsChain, Next, ByName, Acyclic;
      hide Run;
      ghost var s := State(waiting, chain, key);
      FollowOne(all, waiting, ordered, chain, key.value);
      chain := chain + [key.value];
      var next := Next(waiting, key.value);
      if next.Some? {
        key := next;
      } else {
        waiting, ordered := PlaceChain(all, waiting, ordered, chain);
        chain := [];
        key := AnyKey(waiting);
      }
      RunGrows(all, trace, State(waiting, chain, key));
      trace := trace + [State(waiting, chain, key)];
    }
    UniqueInMap(keys);
    hide DependenciesFirst, Acyclic;
    SamePermutation(ordered, keys);
  }

  /** Following the chain to one more waiting key. */
  lemma FollowOne(all: KeyMap, waiting: KeyMap, ordered: seq<Key>, chain: seq<Key>, key: Key)
    requires ByName(all) && Acyclic(all) && Placed(all, waiting, ordered)
    requires key.name in waiting && waiting[key.name] == key
    requires IsChain(all, chain) && forall k | k in chain :: k.name in waiting
    requires chain != [] ==> Next(all, chain[|chain| - 1]) == Some(key)
    ensures var longer, next := chain + [key], Next(waiting, key);
            IsChain(all, longer) && |longer| <= |all| &&
            (forall i, j | 0 <= i < j < |longer| :: longer[i].name != longer[j].name) &&
            (next.Some? ==> next.value.name in waiting && waiting[next.value.name] == next.value && Next(all, key) == next) &&
            (next.None? && Next(all, key).Some? ==> Next(all, key).value.name !in waiting)
  {
    ChainGrows(all, chain, key);
    ChainFits(all, chain + [key]);
    ChainDistinct(all, chain + [key]);
    hide IsChain, Acyclic, UniqueNames, DependenciesFirst;
  }

  /** Some key of the map, whichever comes first. */
  method AnyKey(m: KeyMap) returns (k: Option<Key>)
    requires ByName(m)
    ensures k.None? <==> m == map[]
    ensures k.Some? ==> k.value.name in m && m[k.value.name] == k.value
  {
    if m == map[] {
      return None;
    }
    var n :| n in m;
    return Some(m[n]);
  }
}
