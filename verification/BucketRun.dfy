/** Carrying a bucket plan out on the server, call by call, between granting and revoking credentials. */
module BucketRun {
  import opened Topology
  import opened Buckets

  datatype Server = Server(buckets: map<string, Bucket>, granted: set<string>)

  datatype Effect =
    | Grant(ids: set<string>)
    | DeleteBucket(bucket: Bucket)
    | CreateBucket(bucket: Bucket)
    | UpdateBucket(bucket: Bucket)
    | UpdateDuringMigration(bucket: Bucket)
    | Revoke(ids: set<string>)

  function Said(s: string, otherwise: string): string
  {
    if s != "" then s else otherwise
  }

  /** History retention, block sizes and continuous backup are reported of buckets on the magma backend only. One
      that comes to this backend without saying anything about them has the server's defaults, without a backup. */
  function OnBackend(b: Bucket, from: Bucket): Bucket
  {
    if b.storageBackend != MAGMA then b.(magmaSettings := "", continuousBackup := false, storageCredential := "", keyCredential := "")
    else if from.storageBackend != MAGMA then
      b.(magmaSettings := MAGMA_DEFAULTS, continuousBackup := false, storageCredential := "", keyCredential := "")
    else
      b.(magmaSettings := from.magmaSettings, continuousBackup := from.continuousBackup,
         storageCredential := from.storageCredential, keyCredential := from.keyCredential)
  }

  /** What the server makes of a creation request: of a sample bucket it only takes the name; versioning across
      clusters is asked for as off, and restarts are not mentioned. */
  function Created(b: Bucket): Bucket
  {
    if b.sample then Bucket(b.name, Couchbase, false, "", 0, "", Unsaid, "", Unsaid, "", "", false, "", "")
    else OnBackend(b.(noRestart := Unsaid, crossVersioning := if b.crossVersioning != Unsaid then Off else Unsaid), b)
  }

  /** A change of eviction policy without restart leaves the nodes differing from the bucket until they are
      replaced; one with a restart makes them agree. */
  function Overrides(old_: Bucket, b: Bucket): Flag
  {
    if b.noRestart != On then Unsaid else if b.eviction != old_.eviction then On else old_.noRestart
  }

  /** An ordinary update carries everything but the conflict resolution; what the request leaves empty stays, and
      versioning stays on once it is. */
  function Updated(old_: Bucket, b: Bucket): Bucket
  {
    var backend := Said(b.storageBackend, old_.storageBackend);
    OnBackend(
      b.(sample := old_.sample, storageBackend := backend,
         eviction := Said(b.eviction, old_.eviction),
         noRestart := if b.eviction == "" then old_.noRestart else Overrides(old_, b),
         conflictResolution := old_.conflictResolution,
         crossVersioning := if old_.crossVersioning == On || b.crossVersioning == Unsaid then old_.crossVersioning
                            else b.crossVersioning),
      if b.storageBackend == MAGMA then b else old_)
  }

  /** An update during a storage migration carries the backend, the quota and, if nodes need no restart for it, the
      eviction policy. */
  function Migrated(old_: Bucket, b: Bucket): Bucket
  {
    var backend := Said(b.storageBackend, old_.storageBackend);
    var evicts := b.eviction != "" && b.noRestart == On;
    OnBackend(
      old_.(storageBackend := backend, ramQuota := b.ramQuota,
            eviction := if evicts then b.eviction else old_.eviction,
            noRestart := if evicts then Overrides(old_, b) else old_.noRestart),
      old_)
  }

  function Apply(s: Server, e: Effect): Server
  {
    match e
    case Grant(ids) => s.(granted := s.granted + ids)
    case DeleteBucket(b) => s.(buckets := s.buckets - {b.name})
    case CreateBucket(b) => s.(buckets := s.buckets[b.name := Created(b)])
    case UpdateBucket(b) =>
      if b.name in s.buckets then s.(buckets := s.buckets[b.name := Updated(s.buckets[b.name], b)]) else s
    case UpdateDuringMigration(b) =>
      if b.name in s.buckets then s.(buckets := s.buckets[b.name := Migrated(s.buckets[b.name], b)]) else s
    case Revoke(ids) => s.(granted := ids)
  }

  function Run(s: Server, es: seq<Effect>): Server
  {
    if es == [] then s else Apply(Run(s, es[..|es| - 1]), es[|es| - 1])
  }

  lemma {:induction false} RunConcat(s: Server, a: seq<Effect>, b: seq<Effect>)
    ensures Run(s, a + b) == Run(Run(s, a), b)
  {
    if b == [] {
      assert a + b == a;
    } else {
      var n := |b| - 1;
      assert (a + b)[..|a + b| - 1] == a + b[..n];
      RunConcat(s, a, b[..n]);
    }
  }

  function Each(bs: seq<Bucket>, f: Bucket -> Effect): (r: seq<Effect>)
    ensures |r| == |bs|
  {
    seq(|bs|, i requires 0 <= i < |bs| => f(bs[i]))
  }

  function Deletion(b: Bucket): Effect { DeleteBucket(b) }

  function Creation(b: Bucket): Effect { CreateBucket(b) }

  function Change(b: Bucket): Effect { UpdateBucket(b) }

  function MigrationChange(b: Bucket): Effect { UpdateDuringMigration(b) }

  /** The calls between grant and revoke: deletions make room before anything is created. */
  function BucketCalls(p: Plan): seq<Effect>
  {
    Each(p.remove, Deletion) + Each(p.create, Creation) + Each(p.update, Change) + Each(p.migrate, MigrationChange)
  }

  /** All calls of one reconcile that manages roles. */
  function AllCalls(x: Context): seq<Effect>
  {
    var ids := AllCredentials(Requested(x));
    [Grant(ids)] + BucketCalls(PlanOf(x)) + [Revoke(ids)]
  }

  function Get(s: Server, n: string): Option<Bucket>
  {
    if n in s.buckets then Some(s.buckets[n]) else None
  }

  /** The server refuses one of the calls. */
  ghost predicate RefusedAmong(es: seq<Effect>, accepts: Effect -> bool)
  {
    exists e :: e in es && !accepts(e)
  }

  lemma RefusedOneOf(a: seq<Effect>, b: seq<Effect>, c: seq<Effect>, accepts: Effect -> bool)
    ensures RefusedAmong(a, accepts) || RefusedAmong(b, accepts) || RefusedAmong(c, accepts) <==> RefusedAmong(a + b + c, accepts)
  {}

  lemma BracketRefused(x: Context, accepts: Effect -> bool)
    ensures var ids := AllCredentials(Requested(x));
            !accepts(Grant(ids)) || RefusedAmong(BucketCalls(PlanOf(x)), accepts) || !accepts(Revoke(ids)) ==>
              RefusedAmong(AllCalls(x), accepts)
  {
    var ids := AllCredentials(Requested(x));
    var grant, revoke := [Grant(ids)], [Revoke(ids)];
    assert grant[0] in grant && revoke[0] in revoke;
    RefusedOneOf(grant, BucketCalls(PlanOf(x)), revoke, accepts);
    hide BucketCalls, PlanOf, AllCredentials, Requested;
  }

  // ----- the server object -----

  class BucketServer {
    var server: Server

    /** Where this object started and the effects its calls have had since. */
    ghost var start: Server
    ghost var log: seq<Effect>

    ghost predicate Valid()
      reads this
    {
      server == Run(start, log)
    }

    /** One call to the server, which may be refused. */
    method Call(e: Effect, accepts: Effect -> bool) returns (ok: bool)
      requires Valid()
      modifies this
      ensures Valid() && start == old(start) && ok == accepts(e)
      ensures log == if ok then old(log) + [e] else old(log)
    {
      ok := accepts(e);
      if ok {
        server := Apply(server, e);
        log := log + [e];
        assert log[..|log| - 1] == old(log);
      }
    }

    /** One call per bucket, stopping at the first refusal. */
    method CallEach(bs: seq<Bucket>, f: Bucket -> Effect, accepts: Effect -> bool) returns (ok: bool)
      requires Valid()
      modifies this
      ensures Valid() && start == old(start)
      ensures !ok ==> RefusedAmong(Each(bs, f), accepts)
      ensures old(log) <= log <= old(log) + Each(bs, f)
      ensures ok ==> log == old(log) + Each(bs, f)
    {
      ghost var es := Each(bs, f);
      assert es[..0] == [];
      for i := 0 to |bs|
        invariant Valid() && start == old(start) && log == old(log) + es[..i]
      {
        assert es[..i + 1] == es[..i] + [es[i]];
        assert es[i] in es;
        ok := Call(f(bs[i]), accepts);
        if !ok {
          return;
        }
      }
      assert es[..|bs|] == es;
      return true;
    }

    /** Gives access to the credentials that are not granted yet; nothing is written if none is missing. */
    method GrantBackupServiceCredentialRoles(ids: set<string>, accepts: Effect -> bool) returns (ok: bool)
      requires Valid()
      modifies this
      ensures ok <==> ids <= old(server).granted || accepts(Grant(ids))
      ensures Valid() && start == old(start)
      ensures log == if ok then old(log) + [Grant(ids)] else old(log)
    {
      if ids <= server.granted {
        assert server.granted + ids == server.granted;
        log := log + [Grant(ids)];
        assert log[..|log| - 1] == old(log);
        return true;
      }
      ok := Call(Grant(ids), accepts);
    }

    /** Takes back access to credentials no bucket names; nothing is written if there are none. */
    method RevokeBackupServiceCredentialRoles(ids: set<string>, accepts: Effect -> bool) returns (ok: bool)
      requires Valid() && ids <= server.granted
      modifies this
      ensures ok <==> ids == old(server).granted || accepts(Revoke(ids))
      ensures Valid() && start == old(start)
      ensures log == if ok then old(log) + [Revoke(ids)] else old(log)
    {
      if server.granted <= ids {
        assert server.granted == ids;
        log := log + [Revoke(ids)];
        assert log[..|log| - 1] == old(log);
        return true;
      }
      ok := Call(Revoke(ids), accepts);
    }

    /** Grants, changes the buckets, revokes. Whatever call is refused, the server has then seen a prefix of
        the calls, and all of them if none was; and the pass fails only if one of them is refused. */
    method ReconcileBuckets(x: Context, accepts: Effect -> bool) returns (ok: bool)
      requires Valid()
      modifies this
      ensures !ok ==> RefusedAmong(AllCalls(x), accepts)
      ensures Valid() && start == old(start)
      ensures old(log) <= log <= old(log) + AllCalls(x)
      ensures ok ==> log == old(log) + AllCalls(x)
    {
      var p, requested := InspectBuckets(x);
      var ids := AllCredentials(requested);
      ghost var l0, calls, revoke := log, BucketCalls(p), [Revoke(ids)];
      assert AllCalls(x) == [Grant(ids)] + calls + revoke;
      BracketRefused(x, accepts);
      hide RefusedAmong, BucketCalls, PlanOf, AllCredentials, Requested, AllCalls;
      ok := GrantBackupServiceCredentialRoles(ids, accepts);
      if !ok { return; }
      ok := ChangeBuckets(p, accepts);
      Within(l0, [Grant(ids)], calls, revoke, log);
      if !ok { return; }
      NoRolesInBucketCalls(p);
      assert log == l0 + ([Grant(ids)] + calls);
      GrantsKept(start, l0, [Grant(ids)] + calls, ids);
      ok := RevokeBackupServiceCredentialRoles(ids, accepts);
      assert l0 + ([Grant(ids)] + calls) + revoke == l0 + ([Grant(ids)] + calls + revoke);
    }

    /** Deletes, creates and updates buckets in that order. */
    method ChangeBuckets(p: Plan, accepts: Effect -> bool) returns (ok: bool)
      requires Valid()
      modifies this
      ensures !ok ==> RefusedAmong(BucketCalls(p), accepts)
      ensures Valid() && start == old(start)
      ensures old(log) <= log <= old(log) + BucketCalls(p)
      ensures ok ==> log == old(log) + BucketCalls(p)
    {
      hide Each, RefusedAmong;
      ghost var l0 := log;
      ghost var d, c, u, m := Each(p.remove, Deletion), Each(p.create, Creation), Each(p.update, Change), Each(p.migrate, MigrationChange);
      assert BucketCalls(p) == [] + d + (c + u + m) == d + c + (u + m) == d + c + u + m == (d + c + u) + m + [];
      assert l0 + [] == l0;
      RefusedOneOf(d, c, u, accepts);
      RefusedOneOf(d + c + u, m, [], accepts);
      ok := CallEach(p.remove, Deletion, accepts);
      Within(l0, [], d, c + u + m, log);
      if !ok { return; }
      ok := CallEach(p.create, Creation, accepts);
      Within(l0, d, c, u + m, log);
      if !ok { return; }
      assert l0 + d + c == l0 + (d + c);
      ok := CallEach(p.update, Change, accepts);
      Within(l0, d + c, u, m, log);
      if !ok { return; }
      assert l0 + (d + c) + u == l0 + (d + c + u);
      ok := CallEach(p.migrate, MigrationChange, accepts);
      Within(l0, d + c + u, m, [], log);
      assert l0 + (d + c + u) + m == l0 + (d + c + u + m);
    }
  }

  /** A log that has got somewhere into the next group of calls is a beginning of all calls. */
  lemma Within(l0: seq<Effect>, done: seq<Effect>, next: seq<Effect>, rest: seq<Effect>, l: seq<Effect>)
    requires l0 + done <= l <= l0 + done + next
    ensures l0 <= l <= l0 + (done + next + rest)
  {
    assert l0 + done + next + rest == l0 + (done + next + rest);
  }

  /** Bucket calls leave grants alone. */
  lemma {:induction false} BucketCallsKeepGrants(s: Server, es: seq<Effect>)
    requires forall e | e in es :: !e.Grant? && !e.Revoke?
    ensures Run(s, es).granted == s.granted
  {
    if es != [] {
      BucketCallsKeepGrants(s, es[..|es| - 1]);
    }
  }

  lemma NoRolesInBucketCalls(p: Plan)
    ensures forall e | e in BucketCalls(p) :: !e.Grant? && !e.Revoke?
  {
    var d, c, u, m := Each(p.remove, Deletion), Each(p.create, Creation), Each(p.update, Change), Each(p.migrate, MigrationChange);
    forall e | e in BucketCalls(p) ensures !e.Grant? && !e.Revoke? {
      assert e in d || e in c || e in u || e in m;
    }
  }

  lemma GrantsKept(s: Server, before: seq<Effect>, calls: seq<Effect>, ids: set<string>)
    requires calls != [] && calls[0] == Grant(ids) && forall e | e in calls[1..] :: !e.Grant? && !e.Revoke?
    ensures ids <= Run(s, before + calls).granted
  {
    assert before + calls == (before + [Grant(ids)]) + calls[1..];
    RunConcat(s, before + [Grant(ids)], calls[1..]);
    BucketCallsKeepGrants(Run(s, before + [Grant(ids)]), calls[1..]);
    assert (before + [Grant(ids)])[..|before|] == before;
  }
}
