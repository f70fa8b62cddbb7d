/** Pruning generated custom resource definitions: rules by path decide what is dropped, changed or kept whole;
    of everything else only what leads to a value stays. */
module Prune {
  import opened Topology

  datatype Json =
    | Null
    | Scalar(text: string)
    | EmptyStruct
    | Object(fields: map<string, Json>)
    | Array(items: seq<Json>)

  // ----- rules -----

  datatype PathMatch = PathMatch(group: string, kind: string, path: string, mutate: Json -> Json)

  predicate HasSuffix(s: string, suffix: string)
  {
    |suffix| <= |s| && s[|s| - |suffix|..] == suffix
  }

  /** A rule matches if its group and kind are blank or equal and its path is equal or, after an asterisk,
      a suffix. */
  predicate Matches(m: PathMatch, group: string, kind: string, path: string)
    requires m.path != ""
  {
    (m.group == "" || m.group == group) && (m.kind == "" || m.kind == kind) &&
    (m.path == path || (m.path[0] == '*' && HasSuffix(path, m.path[1..])))
  }

  /** A rule without an asterisk stands for its own path alone, one with an asterisk for its own text and for every
      path that ends with the rest. */
  lemma MatchesExactly(m: PathMatch, group: string, kind: string, path: string)
    requires m.path != ""
    ensures Matches(m, group, kind, path) <==>
            m.group in {"", group} && m.kind in {"", kind} &&
            (path == m.path || (m.path[0] == '*' && exists before :: path == before + m.path[1..]))
  {
    var rest := m.path[1..];
    if HasSuffix(path, rest) {
      assert path == path[..|path| - |rest|] + rest;
    }
    if before :| path == before + rest {
      assert path[|path| - |rest|..] == rest;
    }
  }

  type Matcher = ms: seq<PathMatch> | forall i | 0 <= i < |ms| :: ms[i].path != "" witness []

  /** The first rule that matches. */
  function First(ms: Matcher, group: string, kind: string, path: string): (r: Option<PathMatch>)
    ensures r.Some? ==> exists i | 0 <= i < |ms| ::
                          r.value == ms[i] && Matches(ms[i], group, kind, path) &&
                          forall j | 0 <= j < i :: !Matches(ms[j], group, kind, path)
    ensures r.None? ==> forall i | 0 <= i < |ms| :: !Matches(ms[i], group, kind, path)
  {
    if ms == [] then None
    else if Matches(ms[0], group, kind, path) then Some(ms[0])
    else First(ms[1..], group, kind, path)
  }

  /** Looks the first match up. */
  method Get(ms: Matcher, group: string, kind: string, path: string) returns (r: Option<PathMatch>)
    ensures r == First(ms, group, kind, path)
  {
    for i := 0 to |ms|
      invariant First(ms, group, kind, path) == First(ms[i..], group, kind, path)
    {
      var m := ms[i];
      assert ms[i..][1..] == ms[i + 1..];
      if m.group != "" && m.group != group {
        continue;
      }
      if m.kind != "" && m.kind != kind {
        continue;
      }
      if m.path != path {
        if m.path[0] != '*' {
          continue;
        }
        if !HasSuffix(path, m.path[1..]) {
          continue;
        }
      }
      return Some(m);
    }
    return None;
  }

  /** The tables, and the resource they are applied to. */
  datatype Rules = Rules(discard: Matcher, mutators: Matcher, retain: Matcher, group: string, kind: string)

  datatype Ruling = Discards | Mutates(change: Json -> Json) | Retains | Free

  /** What the tables say about a path. Discarding comes first, then changing, then keeping. */
  function Rule(x: Rules, path: string): Ruling
  {
    if First(x.discard, x.group, x.kind, path).Some? then Discards
    else
      match First(x.mutators, x.group, x.kind, path)
      case Some(m) => Mutates(m.mutate)
      case None => if First(x.retain, x.group, x.kind, path).Some? then Retains else Free
  }

  /** Replaces the marker for an empty object. */
  function MutateEmptyObjectDefault(v: Json): Json
  {
    if v == Scalar("x-couchbase-object") then EmptyStruct else v
  }

  // ----- pruning -----

  function Step(path: string, key: string): string
  {
    path + "." + key
  }

  function NonNull(js: seq<Json>): (r: seq<Json>)
    ensures forall j | j in r :: j in js && j != Null
  {
    if js == [] then []
    else if js[|js| - 1] == Null then NonNull(js[..|js| - 1])
    else NonNull(js[..|js| - 1]) + [js[|js| - 1]]
  }

  function Pruned(x: Rules, j: Json, path: string): Json
    decreases j
  {
    match Rule(x, path)
    case Discards => Null
    case Mutates(f) => f(j)
    case Retains => j
    case Free =>
      match j
      case Object(m) =>
        var out := map k | k in m && Pruned(x, m[k], Step(path, k)) != Null :: Pruned(x, m[k], Step(path, k));
        if out == map[] then Null else Object(out)
      case Array(s) =>
        var out := NonNull(seq(|s|, i requires 0 <= i < |s| => Pruned(x, s[i], path)));
        if out == [] then Null else Array(out)
      case _ => j
  }

  function PrunedItems(x: Rules, s: seq<Json>, path: string): (r: seq<Json>)
    ensures |r| == |s|
  {
    seq(|s|, i requires 0 <= i < |s| => Pruned(x, s[i], path))
  }

  function PrunedFields(x: Rules, m: map<string, Json>, path: string): map<string, Json>
  {
    map k | k in m && Pruned(x, m[k], Step(path, k)) != Null :: Pruned(x, m[k], Step(path, k))
  }

  lemma PrunedFree(x: Rules, j: Json, path: string)
    requires Rule(x, path).Free?
    ensures Pruned(x, j, path) ==
            match j
            case Object(m) => if PrunedFields(x, m, path) == map[] then Null else Object(PrunedFields(x, m, path))
            case Array(s) => if NonNull(PrunedItems(x, s, path)) == [] then Null else Array(NonNull(PrunedItems(x, s, path)))
            case _ => j
  {
    hide Rule, First, Step, NonNull;
    if j.Array? {
      assert seq(|j.items|, i requires 0 <= i < |j.items| => Pruned(x, j.items[i], path)) == PrunedItems(x, j.items, path);
    }
  }

  lemma NonNullNext(js: seq<Json>, i: nat)
    requires i < |js|
    ensures NonNull(js[..i + 1]) == NonNull(js[..i]) + (if js[i] == Null then [] else [js[i]])
  {
    assert js[..i + 1][..i] == js[..i];
  }

  /** Prunes a value. */
  method PruneValue(x: Rules, j: Json, path: string) returns (r: Json)
    ensures r == Pruned(x, j, path)
    decreases j, 1
  {
    hide First, Matches, Step, NonNull, PrunedFields, PrunedItems;
    var found := Get(x.discard, x.group, x.kind, path);
    if found.Some? {
      return Null;
    }
    found := Get(x.mutators, x.group, x.kind, path);
    if found.Some? {
      return found.value.mutate(j);
    }
    found := Get(x.retain, x.group, x.kind, path);
    if found.Some? {
      return j;
    }
    PrunedFree(x, j, path);
    hide Pruned, Rule;
    match j
    case Object(_) =>
      var out := PruneFields(x, j, path);
      return if out == map[] then Null else Object(out);
    case Array(_) =>
      var out := PruneItems(x, j, path);
      return if out == [] then Null else Array(out);
    case _ =>
      return j;
  }

  /** Prunes an object's fields, in any order. */
  method PruneFields(x: Rules, j: Json, path: string) returns (out: map<string, Json>)
    requires j.Object?
    ensures out == PrunedFields(x, j.fields, path)
    decreases j, 0
  {
    hide Pruned, Step;
    var m := j.fields;
    out := map[];
    var rest := m.Keys;
    while rest != {}
      invariant rest <= m.Keys
      invariant out == map k | k in PrunedFields(x, m, path) && k !in rest :: PrunedFields(x, m, path)[k]
    {
      var k :| k in rest;
      rest := rest - {k};
      var pruned := PruneValue(x, m[k], Step(path, k));
      if pruned != Null {
        out := out[k := pruned];
      }
    }
  }

  /** Prunes a list's items in order. */
  method PruneItems(x: Rules, j: Json, path: string) returns (out: seq<Json>)
    requires j.Array?
    ensures out == NonNull(PrunedItems(x, j.items, path))
    decreases j, 0
  {
    hide Pruned;
    var s := j.items;
    out := [];
    ghost var all := PrunedItems(x, s, path);
    for i := 0 to |s|
      invariant out == NonNull(all[..i])
    {
      NonNullNext(all, i);
      var pruned := PruneValue(x, s[i], path);
      if pruned != Null {
        out := out + [pruned];
      }
    }
    assert all[..|s|] == all;
  }

  // ----- what is left -----

  /** Outside what is changed or kept whole there is no empty object or list and no null. */
  ghost predicate Full(x: Rules, j: Json, path: string)
    decreases j
  {
    Rule(x, path).Mutates? || Rule(x, path).Retains? ||
    (Rule(x, path).Free? &&
     match j
     case Null => false
     case Object(m) => m != map[] && forall k | k in m :: m[k] != Null && Full(x, m[k], Step(path, k))
     case Array(s) => s != [] && forall i | 0 <= i < |s| :: s[i] != Null && Full(x, s[i], path)
     case _ => true)
  }

  lemma {:induction false} PrunedFull(x: Rules, j: Json, path: string)
    ensures Pruned(x, j, path) != Null ==> Full(x, Pruned(x, j, path), path)
    decreases j
  {
    if Rule(x, path).Free? {
      PrunedFree(x, j, path);
      if j.Object? {
        forall k | k in PrunedFields(x, j.fields, path) ensures Full(x, PrunedFields(x, j.fields, path)[k], Step(path, k)) {
          PrunedFull(x, j.fields[k], Step(path, k));
        }
      } else if j.Array? {
        var ps := PrunedItems(x, j.items, path);
        forall i | 0 <= i < |ps| ensures ps[i] != Null ==> Full(x, ps[i], path) {
          PrunedFull(x, j.items[i], path);
        }
        forall i | 0 <= i < |NonNull(ps)| ensures Full(x, NonNull(ps)[i], path) {
          assert NonNull(ps)[i] in NonNull(ps);
        }
      }
    }
  }

  ghost predicate IdempotentMutators(x: Rules)
  {
    forall i, j | 0 <= i < |x.mutators| :: x.mutators[i].mutate(x.mutators[i].mutate(j)) == x.mutators[i].mutate(j)
  }

  /** The table in use is idempotent. */
  lemma EmptyObjectDefaultIdempotent(v: Json)
    ensures MutateEmptyObjectDefault(MutateEmptyObjectDefault(v)) == MutateEmptyObjectDefault(v)
  {}

  lemma {:induction false} NonNullSame(js: seq<Json>)
    requires forall i | 0 <= i < |js| :: js[i] != Null
    ensures NonNull(js) == js
  {
    if js != [] {
      NonNullSame(js[..|js| - 1]);
      assert js == js[..|js| - 1] + [js[|js| - 1]];
    }
  }

  /** Pruning twice is pruning once. */
  lemma {:induction false} PrunedTwice(x: Rules, j: Json, path: string)
    requires IdempotentMutators(x)
    ensures Pruned(x, Pruned(x, j, path), path) == Pruned(x, j, path)
    decreases j
  {
    hide First;
    match Rule(x, path)
    case Discards =>
    case Retains =>
    case Mutates(f) =>
      MutatorInTable(x, path, f);
      var i :| 0 <= i < |x.mutators| && x.mutators[i].mutate == f;
      assert x.mutators[i].mutate(x.mutators[i].mutate(j)) == x.mutators[i].mutate(j);
    case Free =>
      PrunedFree(x, j, path);
      var p := Pruned(x, j, path);
      PrunedFree(x, p, path);
      if j.Object? && p != Null {
        FieldsTwice(x, j, path);
      } else if j.Array? && p != Null {
        ItemsTwice(x, j, path);
      }
  }

  lemma MutatorInTable(x: Rules, path: string, f: Json -> Json)
    requires Rule(x, path) == Mutates(f)
    ensures exists i :: 0 <= i < |x.mutators| && x.mutators[i].mutate == f
  {}

  lemma {:induction false} FieldsTwice(x: Rules, j: Json, path: string)
    requires IdempotentMutators(x) && j.Object?
    ensures var p := PrunedFields(x, j.fields, path); PrunedFields(x, p, path) == p
    decreases j, 0
  {
    hide Rule, IdempotentMutators, Step;
    var p := PrunedFields(x, j.fields, path);
    forall k | k in p ensures Pruned(x, p[k], Step(path, k)) == p[k] && p[k] != Null {
      PrunedTwice(x, j.fields[k], Step(path, k));
    }
    hide Pruned;
    assert PrunedFields(x, p, path).Keys == p.Keys;
  }

  lemma {:induction false} ItemsTwice(x: Rules, j: Json, path: string)
    requires IdempotentMutators(x) && j.Array?
    ensures var p := NonNull(PrunedItems(x, j.items, path)); NonNull(PrunedItems(x, p, path)) == p
    decreases j, 0
  {
    hide Rule, IdempotentMutators;
    var ps := PrunedItems(x, j.items, path);
    var p := NonNull(ps);
    forall i | 0 <= i < |ps| ensures Pruned(x, ps[i], path) == ps[i] {
      PrunedTwice(x, j.items[i], path);
    }
    forall i | 0 <= i < |p| ensures PrunedItems(x, p, path)[i] == p[i] && p[i] != Null {
      assert p[i] in p;
    }
    hide Pruned;
    assert PrunedItems(x, p, path) == p;
    NonNullSame(p);
  }

  // ----- values that survive -----

  function Flat(ss: seq<seq<Json>>): seq<Json>
  {
    if ss == [] then [] else Flat(ss[..|ss| - 1]) + ss[|ss| - 1]
  }

  /** All values at a path of keys, in the order of the lists they lie in. */
  function ValuesAt(j: Json, keys: seq<string>): seq<Json>
    decreases j
  {
    match j
    case Null => []
    case Object(m) => if keys != [] && keys[0] in m then ValuesAt(m[keys[0]], keys[1..]) else []
    case Array(s) => Flat(seq(|s|, i requires 0 <= i < |s| => ValuesAt(s[i], keys)))
    case _ => if keys == [] then [j] else []
  }

  function AllValuesAt(s: seq<Json>, keys: seq<string>): (r: seq<seq<Json>>)
    ensures |r| == |s|
  {
    seq(|s|, i requires 0 <= i < |s| => ValuesAt(s[i], keys))
  }

  lemma ValuesAtArray(s: seq<Json>, keys: seq<string>)
    ensures ValuesAt(Array(s), keys) == Flat(AllValuesAt(s, keys))
  {
    hide Flat;
    assert seq(|s|, i requires 0 <= i < |s| => ValuesAt(s[i], keys)) == AllValuesAt(s, keys);
  }

  /** Leaving nulls out of a list changes no values. */
  lemma {:induction false} NonNullValues(s: seq<Json>, keys: seq<string>)
    ensures Flat(AllValuesAt(NonNull(s), keys)) == Flat(AllValuesAt(s, keys))
  {
    if s != [] {
      var k := |s| - 1;
      NonNullValues(s[..k], keys);
      assert AllValuesAt(s, keys)[..k] == AllValuesAt(s[..k], keys);
      if s[k] != Null {
        var r := NonNull(s[..k]);
        assert AllValuesAt(r + [s[k]], keys)[..|r|] == AllValuesAt(r, keys);
      }
    }
  }

  /** The first rule on the way, and how many keys lead to it. */
  function RuleOnTheWay(x: Rules, path: string, keys: seq<string>): (r: (Ruling, nat))
    ensures r.1 == 0 ==> r.0 == Rule(x, path)
    decreases |keys|
  {
    if !Rule(x, path).Free? || keys == [] then (Rule(x, path), 0)
    else
      var (r, n) := RuleOnTheWay(x, Step(path, keys[0]), keys[1..]);
      (r, n + 1)
  }

  /** What the values at a path become if everything some keys down is changed by a function. */
  function ChangedValuesAt(f: Json -> Json, j: Json, n: nat, keys: seq<string>): seq<Json>
    decreases j
  {
    if n == 0 then ValuesAt(f(j), keys)
    else match j
         case Object(m) => if keys != [] && keys[0] in m then ChangedValuesAt(f, m[keys[0]], n - 1, keys[1..]) else []
         case Array(s) => Flat(seq(|s|, i requires 0 <= i < |s| => ChangedValuesAt(f, s[i], n, keys)))
         case _ => []
  }

  /** The values left at a path of keys: none once a rule on the way discards, the changed ones if it changes,
      and otherwise every single one, in the order they had. */
  function Surviving(x: Rules, j: Json, path: string, keys: seq<string>): seq<Json>
  {
    var (r, n) := RuleOnTheWay(x, path, keys);
    match r
    case Discards => []
    case Mutates(f) => ChangedValuesAt(f, j, n, keys)
    case _ => ValuesAt(j, keys)
  }

  function AllSurviving(x: Rules, s: seq<Json>, path: string, keys: seq<string>): (r: seq<seq<Json>>)
    ensures |r| == |s|
  {
    seq(|s|, i requires 0 <= i < |s| => Surviving(x, s[i], path, keys))
  }

  lemma {:induction false} FlatEmpty(ss: seq<seq<Json>>)
    requires forall i | 0 <= i < |ss| :: ss[i] == []
    ensures Flat(ss) == []
  {
    if ss != [] {
      FlatEmpty(ss[..|ss| - 1]);
    }
  }

  lemma SurvivingArray(x: Rules, s: seq<Json>, path: string, keys: seq<string>)
    requires Rule(x, path).Free?
    ensures Surviving(x, Array(s), path, keys) == Flat(AllSurviving(x, s, path, keys))
  {
    hide Rule, Flat;
    var (r, n) := RuleOnTheWay(x, path, keys);
    match r
    case Discards =>
      FlatEmpty(AllSurviving(x, s, path, keys));
    case Mutates(f) =>
      assert n > 0;
      assert seq(|s|, i requires 0 <= i < |s| => ChangedValuesAt(f, s[i], n, keys)) == AllSurviving(x, s, path, keys);
    case _ =>
      ValuesAtArray(s, keys);
      assert AllValuesAt(s, keys) == AllSurviving(x, s, path, keys);
  }

  /** Pruning leaves at every path of keys exactly the values that survive there, in order. */
  lemma {:induction false} PrunedValues(x: Rules, j: Json, path: string, keys: seq<string>)
    ensures ValuesAt(Pruned(x, j, path), keys) == Surviving(x, j, path, keys)
    decreases j
  {
    hide First, Flat;
    if Rule(x, path).Free? {
      PrunedFree(x, j, path);
      match j
      case Object(m) =>
        if keys != [] && keys[0] in m {
          PrunedValues(x, m[keys[0]], Step(path, keys[0]), keys[1..]);
          assert ValuesAt(Null, keys[1..]) == [];
        }
        var out := PrunedFields(x, m, path);
        assert ValuesAt(Pruned(x, j, path), keys) ==
               if keys != [] && keys[0] in out then ValuesAt(out[keys[0]], keys[1..]) else [];
        FieldSurvives(x, m, path, keys);
      case Array(s) =>
        forall i | 0 <= i < |s|
          ensures AllValuesAt(PrunedItems(x, s, path), keys)[i] == AllSurviving(x, s, path, keys)[i]
        {
          PrunedValues(x, s[i], path, keys);
        }
        assert AllValuesAt(PrunedItems(x, s, path), keys) == AllSurviving(x, s, path, keys);
        SurvivingArray(x, s, path, keys);
        NonNullValues(PrunedItems(x, s, path), keys);
        ValuesAtArray(NonNull(PrunedItems(x, s, path)), keys);
        assert NonNull(PrunedItems(x, s, path)) == [] ==> AllValuesAt(NonNull(PrunedItems(x, s, path)), keys) == [];
        FlatEmpty([]);
      case _ =>
    }
  }

  lemma FieldSurvives(x: Rules, m: map<string, Json>, path: string, keys: seq<string>)
    requires Rule(x, path).Free?
    ensures Surviving(x, Object(m), path, keys) ==
            if keys != [] && keys[0] in m then Surviving(x, m[keys[0]], Step(path, keys[0]), keys[1..]) else []
  {
    hide Rule;
  }

  // ----- the paths that rules are written with -----

  /** The keys, each behind a dot. */
  function Joined(keys: seq<string>): string
  {
    if keys == [] then "" else Joined(keys[..|keys| - 1]) + "." + keys[|keys| - 1]
  }

  lemma {:induction false} RuleReached(x: Rules, before: seq<string>, keys: seq<string>)
    requires forall n | |before| <= n < |before + keys| :: Rule(x, Joined((before + keys)[..n])).Free?
    ensures RuleOnTheWay(x, Joined(before), keys) == (Rule(x, Joined(before + keys)), |keys|)
    decreases keys
  {
    if keys == [] {
      assert before + keys == before;
    } else {
      var next := before + [keys[0]];
      assert (before + keys)[..|before|] == before && next + keys[1..] == before + keys;
      assert next[..|next| - 1] == before;
      assert Joined(next) == Joined(before) + "." + keys[0];
      hide Joined, Rule;
      RuleReached(x, next, keys[1..]);
    }
  }

  /** Where no rule speaks of the way, a rule for the keys of a path decides what is left there: nothing where it
      discards, and otherwise every value, or what the rule makes of it. */
  lemma PathDecides(x: Rules, j: Json, keys: seq<string>)
    requires forall n | 0 <= n < |keys| :: Rule(x, Joined(keys[..n])).Free?
    ensures ValuesAt(Pruned(x, j, ""), keys) ==
            match Rule(x, Joined(keys))
            case Discards => []
            case Mutates(f) => ChangedValuesAt(f, j, |keys|, keys)
            case _ => ValuesAt(j, keys)
  {
    PrunedValues(x, j, "", keys);
    assert [] + keys == keys;
    RuleReached(x, [], keys);
    hide Pruned, Rule;
  }

  /** Discarding a path wins over everything said about it elsewhere, changing it over keeping it. */
  lemma RuleDecided(x: Rules, path: string)
    ensures Rule(x, path).Discards? <==> exists m :: m in x.discard && Matches(m, x.group, x.kind, path)
    ensures Rule(x, path).Mutates? <==>
            !Rule(x, path).Discards? && exists m :: m in x.mutators && Matches(m, x.group, x.kind, path)
    ensures Rule(x, path).Retains? <==>
            !Rule(x, path).Discards? && !Rule(x, path).Mutates? && exists m :: m in x.retain && Matches(m, x.group, x.kind, path)
  {
    hide Matches;
    FirstIff(x.discard, x.group, x.kind, path);
    FirstIff(x.mutators, x.group, x.kind, path);
    FirstIff(x.retain, x.group, x.kind, path);
    hide First;
  }

  lemma FirstIff(ms: Matcher, group: string, kind: string, path: string)
    ensures First(ms, group, kind, path).Some? <==> exists m :: m in ms && Matches(m, group, kind, path)
  {
    hide Matches;
    if m :| m in ms && Matches(m, group, kind, path) {
      var i :| 0 <= i < |ms| && ms[i] == m;
    }
  }

  /** The marker for an empty object is replaced where it is a default, and nothing else is. */
  lemma MarkerReplaced(x: Rules, v: Json, path: string)
    requires x.discard == [] && x.mutators == [PathMatch("", "", "*.default", MutateEmptyObjectDefault)] && x.retain == []
    ensures Pruned(x, v, path + ".default") == if v == Scalar("x-couchbase-object") then EmptyStruct else v
  {
    MatchesExactly(x.mutators[0], x.group, x.kind, path + ".default");
    assert "*.default"[1..] == ".default";
    assert Matches(x.mutators[0], x.group, x.kind, path + ".default");
    assert First(x.mutators, x.group, x.kind, path + ".default") == Some(x.mutators[0]);
  }
}
