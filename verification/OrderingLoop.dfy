/** When the loop that orders encryption keys comes to an end. */
module OrderingLoop {
  import opened Topology
  import opened EncryptionKeys

  // ----- the loop never gets stuck -----

  lemma AnyPick(waiting: KeyMap) returns (key: Option<Key>)
    requires ByName(waiting)
    ensures Picks(waiting, key)
  {
    if waiting == map[] {
      key := None;
    } else {
      var n :| n in waiting;
      key := Some(waiting[n]);
    }
  }

  /** As long as there is a key to look at there is a next turn. */
  lemma CanStep(s: State) returns (t: State)
    requires s.key.Some? && ByName(s.waiting)
    ensures Steps(s, t) && ByName(t.waiting)
  {
    var longer, next := s.chain + [s.key.value], Next(s.waiting, s.key.value);
    if next.Some? {
      t := State(s.waiting, longer, next);
    } else {
      var rest := s.waiting - NamesIn(longer);
      var key := AnyPick(rest);
      t := State(rest, [], key);
    }
  }

  /** Runs can be made as long as one likes, unless they finish. */
  lemma {:induction false} LongRun(m: KeyMap, n: nat) returns (ss: seq<State>)
    requires ByName(m) && n > 0
    ensures Run(m, ss) && ByName(ss[|ss| - 1].waiting) && (|ss| == n || (|ss| < n && ss[|ss| - 1].key.None?))
  {
    if n == 1 {
      var key := AnyPick(m);
      ss := [State(m, [], key)];
    } else {
      ss := LongRun(m, n - 1);
      if ss[|ss| - 1].key.Some? {
        var t := CanStep(ss[|ss| - 1]);
        RunGrows(m, ss, t);
        ss := ss + [t];
      }
    }
  }

  // ----- without a cycle -----

  /** What holds at every turn: waiting keys are keys of the map, and the chain leads to the key looked at. */
  ghost predicate Sound(m: KeyMap, s: State)
  {
    (forall n | n in s.waiting :: n in m && s.waiting[n] == m[n]) &&
    IsChain(m, s.chain) && (forall k | k in s.chain :: k.name in s.waiting) &&
    (s.key.Some? ==> s.key.value.name in s.waiting && s.waiting[s.key.value.name] == s.key.value) &&
    (s.chain != [] ==> s.key.Some? && Next(m, s.chain[|s.chain| - 1]) == s.key)
  }

  lemma StepSound(m: KeyMap, s: State, t: State)
    requires ByName(m) && Sound(m, s) && Steps(s, t)
    ensures Sound(m, t)
  {
    var k := s.key.value;
    ChainGrows(m, s.chain, k);
    if Next(s.waiting, k).None? {
      assert IsChain(m, []);
    }
  }

  function Weight(n: nat, each: nat): nat
  {
    if n == 0 then 0 else Weight(n - 1, each) + each
  }

  lemma {:induction false} FewerWeighLess(a: nat, b: nat, each: nat)
    requires a < b
    ensures Weight(a, each) + each <= Weight(b, each)
  {
    if a < b - 1 {
      FewerWeighLess(a, b - 1, each);
    }
  }

  /** How much there is left to do. */
  function Work(m: KeyMap, s: State): int
  {
    Weight(|s.waiting|, |m| + 1) + |m| - |s.chain|
  }

  lemma FewerWaiting(waiting: KeyMap, names: set<string>, n: string)
    requires n in waiting && n in names
    ensures |waiting - names| < |waiting|
  {
    assert (waiting - names).Keys == waiting.Keys - names;
    assert waiting.Keys - names <= waiting.Keys - {n};
    assert waiting.Keys == (waiting.Keys - {n}) + {n};
    assert waiting.Keys - {n} == (waiting.Keys - names) + ((waiting.Keys - {n}) - (waiting.Keys - names));
  }

  lemma PlacingLess(m: KeyMap, waiting: KeyMap, names: set<string>, n: string, length: nat)
    requires n in waiting && n in names && length <= |m|
    ensures Weight(|waiting - names|, |m| + 1) < Weight(|waiting|, |m| + 1) - length
  {
    FewerWaiting(waiting, names, n);
    FewerWeighLess(|waiting - names|, |waiting|, |m| + 1);
    hide Weight;
  }

  lemma LessWork(m: KeyMap, s: State, t: State)
    requires ByName(m) && Acyclic(m) && Sound(m, s) && Steps(s, t)
    ensures Work(m, t) < Work(m, s)
  {
    var k, longer := s.key.value, s.chain + [s.key.value];
    ChainGrows(m, s.chain, k);
    ChainFits(m, longer);
    assert k.name in s.waiting;
    if Next(s.waiting, k).None? {
      assert longer[|s.chain|].name in NamesIn(longer);
      hide NamesIn, IsChain, Acyclic, ByName, Weight, Sound, Next;
      PlacingLess(m, s.waiting, NamesIn(longer), k.name, |s.chain|);
    }
  }

  lemma RunPrefix(m: KeyMap, ss: seq<State>)
    requires Run(m, ss) && |ss| > 1
    ensures Run(m, ss[..|ss| - 1]) && Steps(ss[|ss| - 2], ss[|ss| - 1])
  {
    var shorter := ss[..|ss| - 1];
    forall i | 0 <= i < |shorter| - 1 ensures StepAt(shorter, i) {
      assert StepAt(ss, i);
    }
    assert StepAt(ss, |ss| - 2);
    hide Steps;
  }

  lemma StartSound(m: KeyMap, s: State)
    requires Starts(m, s)
    ensures Sound(m, s)
  {
    assert IsChain(m, []);
  }

  lemma {:induction false} RunShrinks(m: KeyMap, ss: seq<State>)
    requires ByName(m) && Acyclic(m) && Run(m, ss)
    ensures Sound(m, ss[|ss| - 1]) && Work(m, ss[|ss| - 1]) + |ss| - 1 <= Work(m, ss[0])
  {
    hide IsChain, Acyclic, Work, Weight, Steps, Starts, Sound;
    var n := |ss| - 1;
    if n == 0 {
      StartSound(m, ss[0]);
    } else {
      RunPrefix(m, ss);
      hide Run;
      RunShrinks(m, ss[..n]);
      LessWork(m, ss[n - 1], ss[n]);
      StepSound(m, ss[n - 1], ss[n]);
    }
  }

  function Bound(m: KeyMap): nat
  {
    Weight(|m|, |m| + 1) + |m| + 2
  }

  lemma RunBounded(m: KeyMap, ss: seq<State>)
    requires ByName(m) && Acyclic(m) && Run(m, ss)
    ensures |ss| <= Bound(m)
  {
    RunShrinks(m, ss);
    var last := ss[|ss| - 1];
    assert |last.chain| <= |m| by {
      ChainFits(m, last.chain);
    }
    hide Acyclic, IsChain, Weight;
  }

  // ----- with a cycle -----

  ghost predicate Cycle(m: KeyMap, c: seq<Key>)
  {
    IsChain(m, c) && |c| > 1 && c[0] == c[|c| - 1]
  }

  /** The keys of the cycle all wait, and a chain that touches the cycle has not left it. */
  ghost predicate Caught(m: KeyMap, c: seq<Key>, s: State)
  {
    (forall n | n in s.waiting :: n in m && s.waiting[n] == m[n]) &&
    (forall k | k in c :: k.name in s.waiting) &&
    (forall k | k in s.chain :: k.name in m && m[k.name] == k) &&
    (s.key.Some? ==> s.key.value.name in s.waiting && s.waiting[s.key.value.name] == s.key.value) &&
    ((exists k :: k in s.chain && k in c) ==> s.key.Some? && s.key.value in c)
  }

  lemma CycleNext(m: KeyMap, c: seq<Key>, waiting: KeyMap, k: Key)
    requires ByName(m) && Cycle(m, c) && k in c
    requires (forall n | n in waiting :: n in m && waiting[n] == m[n]) && forall x | x in c :: x.name in waiting
    ensures Next(waiting, k).Some? && Next(waiting, k).value in c
  {
    var i :| 0 <= i < |c| && c[i] == k;
    var j := if i == |c| - 1 then 0 else i;
    assert Linked(m, c, j) && c[j] == k;
    assert c[j + 1] in c;
  }

  lemma StepCaught(m: KeyMap, c: seq<Key>, s: State, t: State)
    requires ByName(m) && Cycle(m, c) && Caught(m, c, s) && Steps(s, t)
    ensures Caught(m, c, t)
  {
    var k, longer := s.key.value, s.chain + [s.key.value];
    if k in c {
      CycleNext(m, c, s.waiting, k);
    } else if Next(s.waiting, k).None? {
      forall x | x in c ensures x.name in t.waiting {
        assert x.name in m && m[x.name] == x;
        assert x.name !in NamesIn(longer) by {
          forall i | 0 <= i < |longer| ensures longer[i].name != x.name {
            assert longer[i] in longer;
            assert longer[i] in s.chain || longer[i] == k;
          }
        }
      }
    }
  }

  lemma {:induction false} RunCaught(m: KeyMap, c: seq<Key>, ss: seq<State>)
    requires ByName(m) && Cycle(m, c) && Run(m, ss)
    ensures Caught(m, c, ss[|ss| - 1]) && ss[|ss| - 1].key.Some?
  {
    var n := |ss| - 1;
    if n > 0 {
      RunPrefix(m, ss);
      RunCaught(m, c, ss[..n]);
      StepCaught(m, c, ss[n - 1], ss[n]);
    }
    assert c[0] in c;
  }

  // ----- the result -----

  ghost predicate Finished(ss: seq<State>)
  {
    ss != [] && ss[|ss| - 1].key.None?
  }

  /** No run of the loop, whatever keys it picks, takes more than so many turns. */
  ghost predicate EndsWithin(m: KeyMap, turns: nat)
  {
    forall ss | Run(m, ss) :: |ss| <= turns
  }

  /** The loop comes to an end under every choice of keys if and only if no key depends on itself, directly or
      through others. If one does, it comes to an end under no choice at all. */
  lemma FinishesIffAcyclic(m: KeyMap)
    requires ByName(m)
    ensures Acyclic(m) <==> exists turns: nat :: EndsWithin(m, turns)
    ensures Acyclic(m) <==> exists ss :: Run(m, ss) && Finished(ss)
  {
    if Acyclic(m) {
      forall ss | Run(m, ss) ensures |ss| <= Bound(m) {
        RunBounded(m, ss);
      }
      assert EndsWithin(m, Bound(m));
      var ss := LongRun(m, Bound(m) + 1);
      assert Finished(ss);
    } else {
      var c: seq<Key> :| IsChain(m, c) && |c| > 1 && c[0] == c[|c| - 1];
      assert Cycle(m, c);
      forall ss | Run(m, ss) ensures !Finished(ss) {
        RunCaught(m, c, ss);
      }
      forall turns: nat ensures !EndsWithin(m, turns) {
        var ss := LongRun(m, turns + 1);
        assert !Finished(ss);
      }
    }
  }

  /** Two keys that are encrypted with each other are never ordered. */
  lemma TwoKeysNeverOrdered() returns (m: KeyMap)
    ensures ByName(m) && m.Keys == {"a", "b"} && !Acyclic(m)
    ensures forall ss | Run(m, ss) :: !Finished(ss)
  {
    var a, b := Key("a", AutoGenerated, Some("b"), "", {}), Key("b", AutoGenerated, Some("a"), "", {});
    assert "a" != "b";
    m := map["a" := a, "b" := b];
    var c := [a, b, a];
    assert Next(m, a) == Some(b) && Next(m, b) == Some(a);
    forall i | 0 <= i < |c| - 1 ensures Linked(m, c, i) {}
    assert Cycle(m, c);
    forall ss | Run(m, ss) ensures !Finished(ss) {
      RunCaught(m, c, ss);
    }
  }
}
