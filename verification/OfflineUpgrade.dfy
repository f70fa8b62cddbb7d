/** Upgrading hibernating members offline: which of them are re-stamped to the target image when they wake. */
module OfflineUpgrade {
  import opened Listing
  import opened Topology

  datatype Member = Member(image: string, version: string)

  /** What a cluster asks for, how versions compare, and the upgrade order of a set of members. */
  datatype Policy = Policy(
    target: Member,
    keepOld: int,                             // pods to keep on the previous version; 0 if nothing is said
    known: string -> bool,
    before: (string, string) -> bool,         // whether one version is known to come before another
    order: set<string> -> seq<string>)

  type Members = map<string, Member>

  // ----- the choice -----

  /** Members of unknown version are told apart by their image. */
  function VersionKey(p: Policy, m: Member): string
  {
    if p.known(m.version) then m.version else m.image
  }

  function VersionKeys(p: Policy, ms: Members): set<string>
  {
    {VersionKey(p, p.target)} + set n | n in ms :: VersionKey(p, ms[n])
  }

  /** Members that could be re-stamped: not on the target image, and not known to be ahead of it. */
  predicate NeedsUpgrade(p: Policy, m: Member)
  {
    m.image != p.target.image && !p.before(p.target.version, m.version)
  }

  function Needs(p: Policy, ms: Members): set<string>
  {
    set n | n in ms && NeedsUpgrade(p, ms[n])
  }

  /** How many members stay as they are. */
  function Kept(p: Policy, ms: Members): int
  {
    if p.keepOld > |ms| then |ms| else p.keepOld
  }

  datatype Choice = Choice(candidates: seq<string>, blocked: bool)

  function Chosen(p: Policy, ms: Members): Choice
  {
    if |ms| == 0 then Choice([], false)
    else if |VersionKeys(p, ms)| > 2 then Choice([], true)
    else
      var remaining := |ms| - Kept(p, ms) - (|ms| - |Needs(p, ms)|);
      var ordered := p.order(Needs(p, ms));
      Choice(if remaining <= 0 then [] else if |ordered| > remaining then ordered[..remaining] else ordered, false)
  }

  predicate SameVersion(p: Policy, a: Member, b: Member)
  {
    if p.known(a.version) && p.known(b.version) then a.version == b.version
    else if p.known(a.version) then a.version == b.image
    else if p.known(b.version) then a.image == b.version
    else a.image == b.image
  }

  /** The upgrade is blocked exactly if among the target and the members there are three of different versions, where
      those of unknown version are told apart by their image. */
  lemma BlockedIff(p: Policy, ms: Members)
    ensures Chosen(p, ms).blocked <==>
            ms != map[] &&
            exists a, b, c :: {a, b, c} <= ms.Values + {p.target} && !SameVersion(p, a, b) && !SameVersion(p, b, c) && !SameVersion(p, a, c)
  {
    assert |ms| == 0 <==> ms == map[];
    if ms != map[] {
      forall k ensures k in VersionKeys(p, ms) <==> exists m :: m in ms.Values + {p.target} && VersionKey(p, m) == k {
        if k in VersionKeys(p, ms) && k != VersionKey(p, p.target) {
          var n :| n in ms && VersionKey(p, ms[n]) == k;
          assert ms[n] in ms.Values;
        }
      }
      if |VersionKeys(p, ms)| > 2 {
        var x, y, z := ThreeOf(VersionKeys(p, ms));
        var a :| a in ms.Values + {p.target} && VersionKey(p, a) == x;
        var b :| b in ms.Values + {p.target} && VersionKey(p, b) == y;
        var c :| c in ms.Values + {p.target} && VersionKey(p, c) == z;
        assert {a, b, c} <= ms.Values + {p.target};
      }
      if a, b, c :| {a, b, c} <= ms.Values + {p.target} && !SameVersion(p, a, b) && !SameVersion(p, b, c) && !SameVersion(p, a, c) {
        var three := {VersionKey(p, a), VersionKey(p, b), VersionKey(p, c)};
        assert a in {a, b, c} && b in {a, b, c} && c in {a, b, c};
        SubsetSize(three, VersionKeys(p, ms));
      }
    }
  }

  lemma ThreeOf(s: set<string>) returns (x: string, y: string, z: string)
    requires |s| > 2
    ensures {x, y, z} <= s && x != y && y != z && x != z
  {
    x :| x in s;
    var others := s - {x};
    assert |others| == |s| - 1 && others != {};
    y :| y in others;
    var rest := others - {y};
    assert |rest| == |others| - 1 && rest != {};
    z :| z in rest;
  }

  /** The upgrade order lists every member of the set once. */
  ghost predicate Orders(p: Policy)
  {
    forall s :: Lists(p.order(s), s)
  }

  /** The versions among the members and the target, collected in any order. */
  method CollectVersions(p: Policy, ms: Members) returns (versions: set<string>)
    ensures versions == VersionKeys(p, ms)
  {
    versions := {VersionKey(p, p.target)};
    var rest := ms.Keys;
    while rest != {}
      invariant rest <= ms.Keys
      invariant versions == {VersionKey(p, p.target)} + set n | n in ms && n !in rest :: VersionKey(p, ms[n])
    {
      var n :| n in rest;
      rest := rest - {n};
      versions := versions + {VersionKey(p, ms[n])};
    }
  }

  /** The members that could be re-stamped, collected in any order. */
  method CollectNeeds(p: Policy, ms: Members) returns (needsUpgrade: set<string>)
    ensures needsUpgrade == Needs(p, ms)
  {
    needsUpgrade := {};
    var rest := ms.Keys;
    while rest != {}
      invariant rest <= ms.Keys
      invariant needsUpgrade == set n | n in ms && n !in rest && NeedsUpgrade(p, ms[n])
    {
      var n :| n in rest;
      rest := rest - {n};
      if ms[n].image == p.target.image {
        continue;
      }
      if p.before(p.target.version, ms[n].version) {
        continue;
      }
      needsUpgrade := needsUpgrade + {n};
    }
  }

  /** Looks at all members and chooses those to re-stamp. */
  method OfflineUpgradeCandidates(p: Policy, ms: Members) returns (c: Choice)
    requires Orders(p)
    ensures c == Chosen(p, ms)
  {
    hide VersionKeys, Needs, Lists, Orders;
    if |ms| == 0 {
      return Choice([], false);
    }
    var versions := CollectVersions(p, ms);
    if |versions| > 2 {
      return Choice([], true);
    }
    var keepOld := p.keepOld;
    if keepOld > |ms| {
      keepOld := |ms|;
    }
    var numToUpgrade := |ms| - keepOld;
    var needsUpgrade := CollectNeeds(p, ms);
    var remaining := numToUpgrade - (|ms| - |needsUpgrade|);
    if remaining <= 0 {
      return Choice([], false);
    }
    var ordered := p.order(needsUpgrade);
    if |ordered| > remaining {
      ordered := ordered[..remaining];
    }
    return Choice(ordered, false);
  }

  // ----- what is chosen -----

  /** How many members are wanted on the previous version: as many as there are at most, and never less than none. */
  function Quota(p: Policy, ms: Members): nat
  {
    if p.keepOld < 0 then 0 else if p.keepOld > |ms| then |ms| else p.keepOld
  }

  /** Those chosen all need the upgrade and none of them is known to be ahead of the target; and if anybody is
      chosen, exactly as many of those needing it are left out as the cluster wants kept. */
  lemma ChosenLeavesOut(p: Policy, ms: Members)
    requires Orders(p)
    ensures var c := Chosen(p, ms).candidates;
            Lists(c, SetOf(c)) && SetOf(c) <= Needs(p, ms) &&
            (forall n | n in c :: n in ms && ms[n].image != p.target.image && !p.before(p.target.version, ms[n].version)) &&
            (c != [] ==> |Needs(p, ms) - SetOf(c)| == Quota(p, ms)) &&
            (c == [] && !Chosen(p, ms).blocked ==> |Needs(p, ms)| <= Quota(p, ms)) &&
            c <= p.order(Needs(p, ms))
  {
    var needs := Needs(p, ms);
    var ordered, c := p.order(needs), Chosen(p, ms).candidates;
    assert Lists(ordered, needs);
    ListSize(ordered, needs);
    assert c <= ordered;
    assert Lists(c, SetOf(c)) by {
      hide Chosen;
    }
    ListSize(c, SetOf(c));
    assert SetOf(c) <= needs;
    SubsetSize(SetOf(c), needs);
    if |ms| == 0 {
      assert needs == {};
    }
  }

  // ----- re-stamping -----

  function Stamped(p: Policy, ms: Members, names: seq<string>): (r: Members)
    ensures r.Keys == ms.Keys
  {
    map n | n in ms :: if n in names then p.target else ms[n]
  }

  lemma StampedEach(p: Policy, ms: Members, names: seq<string>)
    ensures forall n | n in Stamped(p, ms, names) :: n in ms && Stamped(p, ms, names)[n] == if n in names then p.target else ms[n]
  {}

  /** Re-stamping never adds a version. */
  lemma StampedVersions(p: Policy, ms: Members, names: seq<string>)
    ensures VersionKeys(p, Stamped(p, ms, names)) <= VersionKeys(p, ms)
  {}

  lemma StampedNeeds(p: Policy, ms: Members, names: seq<string>)
    ensures Needs(p, Stamped(p, ms, names)) == Needs(p, ms) - SetOf(names)
  {}

  lemma StampedKeeps(p: Policy, ms: Members, names: seq<string>)
    ensures |Stamped(p, ms, names)| == |ms| && Quota(p, Stamped(p, ms, names)) == Quota(p, ms)
    ensures |VersionKeys(p, Stamped(p, ms, names))| <= |VersionKeys(p, ms)|
  {
    assert |Stamped(p, ms, names)| == |Stamped(p, ms, names).Keys| == |ms.Keys|;
    StampedVersions(p, ms, names);
    SubsetSize(VersionKeys(p, Stamped(p, ms, names)), VersionKeys(p, ms));
  }

  /** A cluster that was not blocked has at most two versions after any part of a pass; and after a whole pass the
      next one finds nobody to re-stamp and is not blocked. */
  lemma PassSettles(p: Policy, ms: Members, k: nat)
    requires Orders(p) && !Chosen(p, ms).blocked && k <= |Chosen(p, ms).candidates|
    ensures ms != map[] ==> |VersionKeys(p, Stamped(p, ms, Chosen(p, ms).candidates[..k]))| <= 2
    ensures Chosen(p, Stamped(p, ms, Chosen(p, ms).candidates)) == Choice([], false)
  {
    var c := Chosen(p, ms).candidates;
    StampedKeeps(p, ms, c[..k]);
    StampedKeeps(p, ms, c);
    StampedNeeds(p, ms, c);
    ChosenLeavesOut(p, ms);
    var after := Stamped(p, ms, c);
    if c == [] {
      assert SetOf(c) == {};
    }
    assert ms != map[] ==> |VersionKeys(p, ms)| <= 2;
    assert after == map[] <==> ms == map[];
    hide Chosen, Kept, Stamped, VersionKeys, Needs, Lists, NeedsUpgrade;
    NobodyLeft(p, after);
  }

  /** Nobody is chosen once no more members are left than wanted. */
  lemma NobodyLeft(p: Policy, ms: Members)
    requires Orders(p) && |Needs(p, ms)| <= Quota(p, ms) && (ms != map[] ==> |VersionKeys(p, ms)| <= 2)
    ensures Chosen(p, ms) == Choice([], false)
  {
    if Needs(p, ms) == {} {
      assert Lists(p.order({}), {});
      ListSize(p.order({}), {});
    }
    hide VersionKeys, Needs, Lists, Orders;
  }

  // ----- interrupted passes -----

  /** A pass that gets through only some of the members it chose; the upgrade order may differ every time. */
  datatype Pass = Pass(order: set<string> -> seq<string>, done: nat)

  function AfterPass(p: Policy, ms: Members, s: Pass): Members
  {
    var c := Chosen(p.(order := s.order), ms).candidates;
    Stamped(p, ms, if s.done < |c| then c[..s.done] else c)
  }

  function AfterPasses(p: Policy, ms: Members, ss: seq<Pass>): Members
  {
    if ss == [] then ms else AfterPass(p, AfterPasses(p, ms, ss[..|ss| - 1]), ss[|ss| - 1])
  }

  function Least(a: nat, b: nat): nat
  {
    if a < b then a else b
  }

  /** However passes are interrupted, the members left on the previous version never get fewer than wanted. */
  lemma {:induction false} PassesKeep(p: Policy, ms: Members, ss: seq<Pass>)
    requires forall i | 0 <= i < |ss| :: Orders(p.(order := ss[i].order))
    ensures var after := AfterPasses(p, ms, ss);
            Least(|Needs(p, ms)|, Quota(p, ms)) <= |Needs(p, after)| <= |Needs(p, ms)| && Quota(p, after) == Quota(p, ms)
  {
    if ss != [] {
      var mid, s := AfterPasses(p, ms, ss[..|ss| - 1]), ss[|ss| - 1];
      PassesKeep(p, ms, ss[..|ss| - 1]);
      OnePassKeeps(p, mid, s);
    }
  }

  lemma OnePassKeeps(p: Policy, ms: Members, s: Pass)
    requires Orders(p.(order := s.order))
    ensures var after := AfterPass(p, ms, s);
            Least(|Needs(p, ms)|, Quota(p, ms)) <= |Needs(p, after)| <= |Needs(p, ms)| && Quota(p, after) == Quota(p, ms)
  {
    var q := p.(order := s.order);
    ChosenLeavesOut(q, ms);
    assert Needs(q, ms) == Needs(p, ms) && Quota(q, ms) == Quota(p, ms);
    assert Chosen(q, ms).blocked ==> Chosen(q, ms).candidates == [];
    var c := Chosen(q, ms).candidates;
    var names := if s.done < |c| then c[..s.done] else c;
    assert SetOf(names) <= SetOf(c);
    assert c == [] ==> SetOf(c) == {};
    hide Chosen, Kept, Orders, Lists, Needs, Stamped, Quota, SetOf;
    StampedNeeds(p, ms, names);
    StampedKeeps(p, ms, names);
    LeftBetween(Needs(p, ms), SetOf(c), SetOf(names), Quota(p, ms));
  }

  lemma LeftBetween(needs: set<string>, chosen: set<string>, done: set<string>, quota: nat)
    requires done <= chosen <= needs && (chosen != {} ==> |needs - chosen| == quota)
    ensures Least(|needs|, quota) <= |needs - done| <= |needs|
  {
    SubsetSize(needs - chosen, needs - done);
    SubsetSize(needs - done, needs);
    if chosen == {} {
      assert needs - done == needs;
    }
  }

  // ----- the volumes that carry the choice over -----

  /** A volume claim: the member it belongs to and the image and version written on it. */
  datatype Volume = Volume(node: Option<string>, image: Option<string>, version: Option<string>)

  function Lookup(o: Option<string>): string
  {
    match o case None => "" case Some(s) => s
  }

  /** Whether nothing need be written on a volume. A version that is not known is never written. */
  predicate Carries(p: Policy, v: Volume)
  {
    Lookup(v.image) == p.target.image &&
    (Lookup(v.version) == p.target.version || (!p.known(p.target.version) && v.version == None))
  }

  function Restamped(p: Policy, names: set<string>, v: Volume): Volume
  {
    if v.node.Some? && v.node.value in names && !Carries(p, v) then
      Volume(v.node, Some(p.target.image), if p.known(p.target.version) then Some(p.target.version) else None)
    else v
  }

  /** Every volume of the members carries the target afterwards, the others are as they were, and doing it again
      writes nothing. */
  lemma RestampedCarries(p: Policy, names: set<string>, v: Volume)
    ensures v.node.Some? && v.node.value in names ==> Carries(p, Restamped(p, names, v))
    ensures !(v.node.Some? && v.node.value in names) ==> Restamped(p, names, v) == v
    ensures Restamped(p, names, Restamped(p, names, v)) == Restamped(p, names, v)
  {}

  /** A member wakes up on the target: every volume of it names the target's image and, if that is known, its version,
      and else none. */
  lemma WakesOnTarget(p: Policy, names: set<string>, v: Volume)
    requires v.node.Some? && v.node.value in names && p.target.image != ""
    ensures var after := Restamped(p, names, v);
            after.node == v.node && after.image == Some(p.target.image) &&
            (p.known(p.target.version) && p.target.version != "" ==> after.version == Some(p.target.version)) &&
            (!p.known(p.target.version) ==> after.version == None || after.version == Some(p.target.version))
  {}

  function AllRestamped(p: Policy, names: set<string>, vs: seq<Volume>): (r: seq<Volume>)
    ensures |r| == |vs|
  {
    seq(|vs|, i requires 0 <= i < |vs| => Restamped(p, names, vs[i]))
  }

  class Cluster {
    var members: Members
    var volumes: seq<Volume>

    /** Writes the target on every volume of a member that does not carry it yet. A write may be refused. */
    method RestampVolumes(p: Policy, name: string, writes: (string, nat) -> bool) returns (ok: bool)
      modifies `volumes
      ensures ok <==> forall i | 0 <= i < |old(volumes)| && old(volumes)[i].node == Some(name) && !Carries(p, old(volumes)[i]) :: writes(name, i)
      ensures |volumes| == |old(volumes)|
      ensures forall i | 0 <= i < |volumes| ::
                volumes[i] == old(volumes)[i] || volumes[i] == Restamped(p, {name}, old(volumes)[i])
      ensures ok ==> volumes == AllRestamped(p, {name}, old(volumes))
    {
      for i := 0 to |volumes|
        invariant |volumes| == |old(volumes)|
        invariant forall j | 0 <= j < |volumes| ::
                    volumes[j] == if j < i then Restamped(p, {name}, old(volumes)[j]) else old(volumes)[j]
        invariant forall j | 0 <= j < i && old(volumes)[j].node == Some(name) && !Carries(p, old(volumes)[j]) :: writes(name, j)
      {
        var v := volumes[i];
        if v.node != Some(name) || Carries(p, v) {
          continue;
        }
        if !writes(name, i) {
          return false;
        }
        volumes := volumes[i := Volume(v.node, Some(p.target.image), if p.known(p.target.version) then Some(p.target.version) else None)];
      }
      return true;
    }

    /** Re-stamps the chosen members and their volumes one after the other. Nothing happens if the upgrade is
        blocked or nobody is chosen; a refused write leaves the members from there on alone. */
    method ApplyPendingHibernationUpgrade(p: Policy, blockers: bool, writes: (string, nat) -> bool) returns (ok: bool, ghost done: nat)
      requires Orders(p)
      modifies this
      ensures done <= |Chosen(p, old(members)).candidates|
      ensures members == Stamped(p, old(members), Chosen(p, old(members)).candidates[..done])
      ensures forall n | n in members :: n in old(members) &&
                members[n] == if n in Chosen(p, old(members)).candidates[..done] then p.target else old(members)[n]
      ensures !ok ==> exists n, i :: n in Chosen(p, old(members)).candidates && 0 <= i < |old(volumes)| && !writes(n, i)
      ensures blockers ==> ok && done == 0
      ensures ok && !blockers ==> done == |Chosen(p, old(members)).candidates|
      ensures done == 0 ==> volumes == old(volumes)
      ensures ok ==> volumes == AllRestamped(p, SetOf(Chosen(p, old(members)).candidates[..done]), old(volumes))
    {
      hide Orders;
      var c := OfflineUpgradeCandidates(p, members);
      ChosenLeavesOut(p, members);
      hide Chosen, Stamped, AllRestamped, SetOf, Needs, Lists, Quota;
      NothingStamped(p, members, volumes, c.candidates[..0]);
      if c.blocked || |c.candidates| == 0 || blockers {
        return true, 0;
      }
      ok, done := RestampAll(p, c.candidates, writes);
      StampedEach(p, old(members), c.candidates[..done]);
    }

    /** Re-stamps the given members in turn. */
    method RestampAll(p: Policy, names: seq<string>, writes: (string, nat) -> bool) returns (ok: bool, ghost done: nat)
      requires forall n | n in names :: n in members
      modifies this
      ensures done <= |names| && members == Stamped(p, old(members), names[..done])
      ensures !ok ==> exists n, i :: n in names && 0 <= i < |old(volumes)| && !writes(n, i)
      ensures done == 0 ==> volumes == old(volumes)
      ensures ok ==> done == |names| && volumes == AllRestamped(p, SetOf(names[..done]), old(volumes))
    {
      hide Stamped, AllRestamped, SetOf;
      done := 0;
      NothingStamped(p, members, volumes, names[..0]);
      for i := 0 to |names|
        invariant done == i
        invariant members == Stamped(p, old(members), names[..done])
        invariant volumes == AllRestamped(p, SetOf(names[..done]), old(volumes))
        invariant done == 0 ==> volumes == old(volumes)
      {
        var name := names[i];
        assert names[..done + 1] == names[..done] + [name];
        StampOneMore(p, old(members), names[..done], name);
        RestampOneMore(p, names[..done], name, old(volumes));
        members := members[name := p.target];
        done := done + 1;
        ok := RestampVolumes(p, name, writes);
        if !ok {
          return false, done;
        }
      }
      return true, done;
    }
  }

  lemma NothingStamped(p: Policy, ms: Members, vs: seq<Volume>, names: seq<string>)
    requires names == []
    ensures Stamped(p, ms, names) == ms && AllRestamped(p, SetOf(names), vs) == vs
  {
    assert SetOf(names) == {};
  }

  lemma StampOneMore(p: Policy, ms: Members, names: seq<string>, name: string)
    requires name in ms
    ensures Stamped(p, ms, names + [name]) == Stamped(p, ms, names)[name := p.target]
  {}

  lemma RestampOneMore(p: Policy, names: seq<string>, name: string, vs: seq<Volume>)
    ensures AllRestamped(p, {name}, AllRestamped(p, SetOf(names), vs)) == AllRestamped(p, SetOf(names + [name]), vs)
  {
    forall i | 0 <= i < |vs|
      ensures Restamped(p, {name}, Restamped(p, SetOf(names), vs[i])) == Restamped(p, SetOf(names + [name]), vs[i])
    {
      RestampedCarries(p, SetOf(names), vs[i]);
    }
  }
}
