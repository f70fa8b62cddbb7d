/** The periodic clean-up of log volumes: marking detached ones, then deleting those kept too long or too many. */
module Janitor {
  import opened Listing
  import opened Topology

  /** A log volume: the pod it is labelled with and the time it was marked as detached. */
  datatype Volume = Volume(pod: Option<string>, detached: Option<int>)

  type Volumes = map<string, Volume>

  /** The volume's mark follows from whether its pod exists. */
  function Marked(pods: set<string>, now: int, v: Volume): Volume
  {
    if v.pod.Some? && v.pod.value in pods then v.(detached := None)
    else if v.detached.None? then v.(detached := Some(now))
    else v
  }

  /** The cached volumes once some of them have been looked at. */
  function MarkedAmong(pods: set<string>, now: int, vs: Volumes, among: set<string>): Volumes
  {
    map n | n in vs :: if n in among then Marked(pods, now, vs[n]) else vs[n]
  }

  /** The stored volumes once those of some whose cached mark changes have been written. */
  function Written(pods: set<string>, now: int, vs: Volumes, stored: Volumes, among: set<string>): Volumes
  {
    map n | n in stored :: if n in vs && n in among && Marked(pods, now, vs[n]) != vs[n] then Marked(pods, now, vs[n]) else stored[n]
  }

  function OnlyOf(n: Option<string>): set<string>
  {
    match n case None => {} case Some(m) => {m}
  }

  function Detached(vs: Volumes): set<string>
  {
    set n | n in vs && vs[n].detached.Some?
  }

  function Expired(vs: Volumes, retention: int, now: int): set<string>
  {
    set n | n in vs && vs[n].detached.Some? && vs[n].detached.value + retention < now
  }

  /** How many volumes are over the count. */
  function Overflow(vs: Volumes, count: nat): nat
  {
    if |Detached(vs)| <= count then 0 else |Detached(vs)| - count
  }

  /** When a volume was marked as detached. */
  function Since(vs: Volumes, n: string): int
  {
    if n in vs && vs[n].detached.Some? then vs[n].detached.value else 0
  }

  /** None of the volumes left was detached earlier than one of those gone. */
  ghost predicate EarliestGone(vs: Volumes, gone: set<string>)
  {
    gone <= Detached(vs) && forall g, n | g in gone && n in Detached(vs) && n !in gone :: Since(vs, g) <= Since(vs, n)
  }

  ghost predicate InOrder(vs: Volumes, names: seq<string>)
  {
    forall i, j | 0 <= i < j < |names| :: Since(vs, names[i]) <= Since(vs, names[j])
  }

  /** Deleting from the front of an ordered list takes the earliest. */
  lemma FrontIsEarliest(vs: Volumes, names: seq<string>, k: nat)
    requires Lists(names, Detached(vs)) && InOrder(vs, names) && k <= |names|
    ensures EarliestGone(vs, SetOf(names[..k]))
    ensures |SetOf(names[..k])| == k
  {
    var gone := SetOf(names[..k]);
    assert Lists(names[..k], gone);
    ListSize(names[..k], gone);
    forall j | 0 <= j < k ensures names[j] in gone {
      assert names[..k][j] == names[j];
    }
    forall g, n | g in gone && n in Detached(vs) && n !in gone ensures Since(vs, g) <= Since(vs, n) {
      var i :| 0 <= i < k && names[i] == g;
      assert n in names;
      var j :| 0 <= j < |names| && names[j] == n;
    }
  }

  /** Which pods can be looked up, and which volumes be written and deleted. */
  datatype Answers = Answers(lookup: string -> bool, write: string -> bool, delete: string -> bool)

  /** Bringing the volume's mark in line fails: it belongs to no pod, the pod cannot be looked up, or a write is needed
      and refused. */
  predicate MarkFails(pods: set<string>, now: int, vs: Volumes, stored: Volumes, a: Answers, n: string)
    requires n in vs
  {
    vs[n].pod.None? || !a.lookup(n) ||
    ((vs[n].detached.Some? <==> vs[n].pod.value in pods) && !(n in stored && a.write(n)))
  }

  class Store {
    var volumes: Volumes    // as cached
    var stored: Volumes

    /** The names of some volumes, in the order the store happens to list them. */
    method ListNames(wanted: set<string>) returns (names: seq<string>)
      ensures Lists(names, wanted)
    {
      names := [];
      var rest := wanted;
      while rest != {}
        invariant rest <= wanted && Lists(names, wanted - rest)
      {
        var n :| n in rest;
        rest := rest - {n};
        names := names + [n];
      }
    }

    /** Brings one volume's mark in line with its pod. The pod may not be looked up, or the write be refused; by
        then the cached volume has its new mark. */
    method UpdateDetachedAnnotation(n: string, pods: set<string>, now: int, a: Answers) returns (ok: bool)
      requires n in volumes
      modifies this
      ensures ok <==> !MarkFails(pods, now, old(volumes), old(stored), a, n)
      ensures var v := Marked(pods, now, old(volumes)[n]);
              v.pod == old(volumes)[n].pod &&
              (ok ==> v.pod.Some? && volumes == old(volumes)[n := v]) &&
              (ok ==> stored == if v == old(volumes)[n] then old(stored) else old(stored)[n := v]) &&
              (ok && v != old(volumes)[n] ==> n in old(stored)) &&
              (!ok ==> stored == old(stored) && (volumes == old(volumes) || (v.pod.Some? && volumes == old(volumes)[n := v])))
    {
      var v := volumes[n];
      if v.pod.None? || !a.lookup(n) {
        return false;
      }
      if v.pod.value in pods {
        if v.detached.None? {
          return true;
        }
        v := v.(detached := None);
      } else {
        if v.detached.Some? {
          return true;
        }
        v := v.(detached := Some(now));
      }
      volumes := volumes[n := v];
      if n !in stored || !a.write(n) {
        return false;
      }
      stored := stored[n := v];
      return true;
    }

    /** Brings marks in line with pods, volume by volume, up to the first failure. That may have been the refusal of
        a write, whose volume is then marked in the cache alone. */
    method UpdateDetachedAnnotations(pods: set<string>, now: int, a: Answers)
      returns (ok: bool, ghost reached: set<string>, ghost refused: Option<string>)
      modifies this
      ensures reached <= old(volumes).Keys && forall n | n in reached || refused == Some(n) :: n in old(volumes) && old(volumes)[n].pod.Some?
      ensures volumes == MarkedAmong(pods, now, old(volumes), reached + OnlyOf(refused))
      ensures stored == Written(pods, now, old(volumes), old(stored), reached)
      ensures refused.Some? ==> refused.value !in reached
      ensures ok ==> reached == old(volumes).Keys && refused == None
      ensures ok <==> forall n | n in old(volumes) :: !MarkFails(pods, now, old(volumes), old(stored), a, n)
    {
      var rest := volumes.Keys;
      reached, refused := {}, None;
      ghost var vs, st := volumes, stored;
      NothingMarked(pods, now, vs, st);
      while rest != {}
        invariant rest <= vs.Keys && reached == vs.Keys - rest && volumes.Keys == vs.Keys
        invariant forall n | n in reached :: vs[n].pod.Some? && !MarkFails(pods, now, vs, st, a, n)
        invariant volumes == MarkedAmong(pods, now, vs, reached)
        invariant stored == Written(pods, now, vs, st, reached)
      {
        hide Marked, MarkFails, MarkedAmong, Written;
        var n :| n in rest;
        MarkOneMore(pods, now, vs, st, reached, n);
        SameFailure(pods, now, vs, volumes, st, stored, a, n);
        ok := UpdateDetachedAnnotation(n, pods, now, a);
        if !ok {
          if volumes[n] != vs[n] {
            refused := Some(n);
          }
          return;
        }
        rest := rest - {n};
        reached := reached + {n};
      }
      return true, reached, None;
    }

    /** Deletes volumes in turn, up to the first refusal. */
    method DeleteAll(names: seq<string>, a: Answers) returns (ok: bool, ghost done: nat)
      modifies this
      ensures done <= |names| && volumes == old(volumes) - SetOf(names[..done])
      ensures stored == old(stored) - SetOf(names[..done])
      ensures ok ==> done == |names|
      ensures !ok ==> exists n :: n in names && !a.delete(n)
    {
      done := 0;
      for i := 0 to |names|
        invariant done == i && volumes == old(volumes) - SetOf(names[..i])
        invariant stored == old(stored) - SetOf(names[..i])
      {
        if !a.delete(names[i]) {
          return false, done;
        }
        volumes, stored := volumes - {names[i]}, stored - {names[i]};
        done := done + 1;
        assert names[..i + 1] == names[..i] + [names[i]];
      }
      return true, done;
    }

    /** Deletes detached volumes past the retention time. No time, or zero, means none. */
    method DeleteTimedOutVolumes(retention: Option<int>, now: int, a: Answers) returns (ok: bool, ghost gone: set<string>)
      modifies this
      ensures volumes == old(volumes) - gone && stored == old(stored) - gone
      ensures retention.None? || retention.value == 0 ==> gone == {}
      ensures !ok ==> exists n :: n in Detached(old(volumes)) && !a.delete(n)
      ensures retention.Some? ==> gone <= Expired(old(volumes), retention.value, now)
      ensures forall n | n in gone :: old(volumes)[n].detached.Some? && old(volumes)[n].detached.value + retention.value < now
      ensures ok && retention.Some? && retention.value != 0 ==>
                forall n | n in volumes && volumes[n].detached.Some? :: now <= volumes[n].detached.value + retention.value
    {
      gone := {};
      if retention.None? || retention.value == 0 {
        return true, {};
      }
      var listed := ListNames(Detached(volumes));
      var names: seq<string> := [];
      for i := 0 to |listed|
        invariant forall n :: n in names <==> n in listed[..i] && n in Expired(volumes, retention.value, now)
      {
        assert listed[..i + 1] == listed[..i] + [listed[i]];
        assert listed[i] in listed;
        if volumes[listed[i]].detached.value + retention.value < now {
          names := names + [listed[i]];
        }
      }
      assert listed[..|listed|] == listed;
      ghost var done;
      ok, done := DeleteAll(names, a);
      gone := SetOf(names[..done]);
      assert ok ==> names[..done] == names;
    }

    /** The names by the time of detachment. */
    method SortByDetached(names: seq<string>) returns (sorted: seq<string>)
      requires Lists(names, Detached(volumes))
      ensures Lists(sorted, Detached(volumes)) && InOrder(volumes, sorted)
    {
      sorted := [];
      for i := 0 to |names|
        invariant Lists(sorted, SetOf(names[..i])) && InOrder(volumes, sorted)
      {
        assert names[i] in names;
        var k := |sorted|;
        while k > 0 && Since(volumes, names[i]) < Since(volumes, sorted[k - 1])
          invariant 0 <= k <= |sorted|
          invariant forall j | k <= j < |sorted| :: Since(volumes, names[i]) <= Since(volumes, sorted[j])
        {
          k := k - 1;
        }
        InsertInOrder(volumes, sorted, k, names[i]);
        InsertLists(names, sorted, k, i);
        sorted := sorted[..k] + [names[i]] + sorted[k..];
      }
      assert names[..|names|] == names;
      assert SetOf(names) == Detached(volumes);
    }

    /** Deletes the detached volumes over the count, those detached first first. A count of zero means none. */
    method DeleteOverCapacityVolumes(count: nat, a: Answers) returns (ok: bool, ghost gone: set<string>)
      modifies this
      ensures volumes == old(volumes) - gone && stored == old(stored) - gone && EarliestGone(old(volumes), gone)
      ensures count == 0 ==> gone == {}
      ensures !ok ==> exists n :: n in Detached(old(volumes)) && !a.delete(n)
      ensures |gone| <= Overflow(old(volumes), count)
      ensures ok && count != 0 ==> |gone| == Overflow(old(volumes), count)
      ensures gone != {} ==> count <= |Detached(old(volumes))| - |gone|
      ensures ok && count != 0 ==> |Detached(old(volumes))| - |gone| <= count
    {
      gone := {};
      if count == 0 {
        return true, {};
      }
      var listed := ListNames(Detached(volumes));
      ListSize(listed, Detached(volumes));
      if |listed| <= count {
        return true, {};
      }
      var sorted := SortByDetached(listed);
      ListSize(sorted, Detached(volumes));
      var first := sorted[..|sorted| - count];
      ghost var done;
      ok, done := DeleteAll(first, a);
      assert forall n | n in first :: n in sorted;
      assert first[..done] == sorted[..done];
      FrontIsEarliest(old(volumes), sorted, done);
      gone := SetOf(first[..done]);
    }

    /** One clean-up. However far it gets, no volume is deleted whose pod exists. If it succeeds, a cached volume is
        marked exactly if its pod does not exist, none is past its time, and no more are left than wanted. */
    method CleanPeriodic(pods: set<string>, retention: Option<int>, count: nat, now: int, later: int, a: Answers) returns (ok: bool)
      modifies this
      ensures !ok ==> exists n :: n in old(volumes) && (MarkFails(pods, now, old(volumes), old(stored), a, n) || !a.delete(n))
      ensures Spared(pods, now, old(volumes), volumes)
      ensures ok ==> AllMarked(pods, now, old(volumes), volumes)
      ensures ok ==> stored == Written(pods, now, old(volumes), old(stored), old(volumes).Keys) - (old(volumes).Keys - volumes.Keys)
      ensures ok && retention.Some? && retention.value != 0 ==>
                forall n | n in volumes && volumes[n].detached.Some? :: later <= volumes[n].detached.value + retention.value
      ensures ok && count != 0 ==> |Detached(volumes)| <= count
    {
      hide EarliestGone, Marked, MarkFails, AllMarked, Spared, Written, MarkedAmong, OnlyOf;
      ghost var reached, refused;
      ok, reached, refused := UpdateDetachedAnnotations(pods, now, a);
      MarkedSpares(pods, now, old(volumes), reached + OnlyOf(refused));
      if !ok {
        return;
      }
      ghost var marked, marks := volumes, stored;
      ghost var timedOut, over;
      ok, timedOut := DeleteTimedOutVolumes(retention, later, a);
      DeletionSpares(pods, now, old(volumes), marked, timedOut);
      if !ok {
        return;
      }
      ghost var mid := volumes;
      ok, over := DeleteOverCapacityVolumes(count, a);
      OverDetached(mid, over);
      DeletionSpares(pods, now, old(volumes), mid, over);
      TwoDeletions(marked, marks, timedOut, over);
    }
  }

  /** Volumes are as they were or newly marked, and those missing had no pod. */
  ghost predicate Spared(pods: set<string>, now: int, was: Volumes, vs: Volumes)
  {
    vs.Keys <= was.Keys &&
    (forall n | n in vs :: vs[n] == was[n] || vs[n] == Marked(pods, now, was[n])) &&
    forall n | n in was && n !in vs :: was[n].pod.Some? && was[n].pod.value !in pods
  }

  /** Every volume is marked exactly if its pod does not exist, with the time it was first found so. */
  ghost predicate AllMarked(pods: set<string>, now: int, was: Volumes, vs: Volumes)
  {
    vs.Keys <= was.Keys &&
    forall n | n in vs ::
      vs[n] == Marked(pods, now, was[n]) && vs[n].pod.Some? && (vs[n].detached.Some? <==> vs[n].pod.value !in pods) &&
      vs[n].pod == was[n].pod && (vs[n].detached.Some? ==> vs[n].detached == if was[n].detached.Some? then was[n].detached else Some(now))
  }

  lemma NothingMarked(pods: set<string>, now: int, vs: Volumes, stored: Volumes)
    ensures MarkedAmong(pods, now, vs, {}) == vs && Written(pods, now, vs, stored, {}) == stored
  {}

  /** One more volume, marked and, if its mark changes, written. */
  lemma MarkOneMore(pods: set<string>, now: int, vs: Volumes, stored: Volumes, reached: set<string>, n: string)
    requires n in vs && n !in reached
    ensures var v, cached, written := Marked(pods, now, vs[n]), MarkedAmong(pods, now, vs, reached), Written(pods, now, vs, stored, reached);
            cached.Keys == vs.Keys && cached[n] == vs[n] && (n in written <==> n in stored) &&
            MarkedAmong(pods, now, vs, reached + {n}) == cached[n := v] && (v == vs[n] ==> cached[n := v] == cached) &&
            (n in stored || v == vs[n] ==>
               Written(pods, now, vs, stored, reached + {n}) == if v == vs[n] then written else written[n := v])
  {
    hide Marked;
  }

  lemma SameFailure(pods: set<string>, now: int, vs: Volumes, ws: Volumes, stored: Volumes, written: Volumes, a: Answers, n: string)
    requires n in vs && n in ws && vs[n] == ws[n] && (n in stored <==> n in written)
    ensures MarkFails(pods, now, vs, stored, a, n) <==> MarkFails(pods, now, ws, written, a, n)
  {}

  lemma MarkedSpares(pods: set<string>, now: int, vs: Volumes, among: set<string>)
    ensures Spared(pods, now, vs, MarkedAmong(pods, now, vs, among)) && MarkedAmong(pods, now, vs, among).Keys == vs.Keys
    ensures vs.Keys <= among && (forall n | n in vs :: vs[n].pod.Some?) ==>
              AllMarked(pods, now, vs, MarkedAmong(pods, now, vs, among))
  {}

  lemma DeletionSpares(pods: set<string>, now: int, was: Volumes, vs: Volumes, gone: set<string>)
    requires Spared(pods, now, was, vs) && AllMarked(pods, now, was, vs) && gone <= Detached(vs)
    ensures Spared(pods, now, was, vs - gone) && AllMarked(pods, now, was, vs - gone)
  {}

  lemma TwoDeletions(vs: Volumes, stored: Volumes, a: set<string>, b: set<string>)
    requires a <= vs.Keys && b <= (vs - a).Keys
    ensures stored - a - b == stored - (vs.Keys - (vs - a - b).Keys)
  {
    assert vs.Keys - (vs - a - b).Keys == a + b;
  }

  lemma OverDetached(vs: Volumes, gone: set<string>)
    requires EarliestGone(vs, gone)
    ensures gone <= Detached(vs) && |Detached(vs - gone)| == |Detached(vs)| - |gone|
  {
    assert Detached(vs - gone) == Detached(vs) - gone;
    SubsetSize(gone, Detached(vs));
  }

  lemma InsertInOrder(vs: Volumes, sorted: seq<string>, k: nat, n: string)
    requires InOrder(vs, sorted) && k <= |sorted|
    requires forall j | k <= j < |sorted| :: Since(vs, n) <= Since(vs, sorted[j])
    requires k > 0 ==> Since(vs, sorted[k - 1]) <= Since(vs, n)
    ensures InOrder(vs, sorted[..k] + [n] + sorted[k..])
  {
    hide Since;
    var more := sorted[..k] + [n] + sorted[k..];
    forall j | 0 <= j < k ensures Since(vs, sorted[j]) <= Since(vs, n) {
      assert j < k - 1 ==> Since(vs, sorted[j]) <= Since(vs, sorted[k - 1]);
    }
    forall i, j | 0 <= i < j < |more| ensures Since(vs, more[i]) <= Since(vs, more[j]) {
      assert more[i] == if i < k then sorted[i] else if i == k then n else sorted[i - 1];
      assert more[j] == if j < k then sorted[j] else if j == k then n else sorted[j - 1];
    }
  }

  lemma InsertLists(names: seq<string>, sorted: seq<string>, k: nat, i: nat)
    requires i < |names| && k <= |sorted| && Lists(sorted, SetOf(names[..i]))
    requires forall a, b | 0 <= a < b < |names| :: names[a] != names[b]
    ensures Lists(sorted[..k] + [names[i]] + sorted[k..], SetOf(names[..i + 1]))
  {
    var s, t := SetOf(names[..i]), SetOf(names[..i + 1]);
    var more := sorted[..k] + [names[i]] + sorted[k..];
    assert names[..i + 1] == names[..i] + [names[i]];
    assert names[i] !in names[..i];
    assert names[i] !in sorted;
    assert sorted == sorted[..k] + sorted[k..];
    assert forall n :: n in more <==> n in sorted || n == names[i];
    assert forall n :: n in t <==> n in s || n == names[i];
  }
}
