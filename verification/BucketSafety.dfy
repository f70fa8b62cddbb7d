/** What holds of the server between and after bucket reconciles: which buckets there are, that a second look
    finds nothing to do, and that buckets keep access to their credentials. */
module BucketSafety {
  import opened Topology
  import opened Buckets
  import opened BucketRun
  import opened BucketOutcome

  // ----- which buckets there are -----

  /** The names that stay: those on the server that are selected, and those requested and not skipped. */
  lemma NamesAfter(x: Context, s: Server, n: string)
    requires Faces(x, s)
    ensures n in Run(s, BucketCalls(PlanOf(x))).buckets <==>
            (n in s.buckets && Find(x.unfiltered, n).Some?) || (n !in x.skipped && RequestedAs(x, n).Some?)
  {
    PlanOutcome(x, s, n);
    VerdictFits(x, n);
    assert Get(s, n) == Find(x.actual, n);
    hide PlanOf, BucketCalls, Run, UniqueBuckets;
  }

  /** A bucket whose type is to change is deleted and created anew, and no other bucket that is requested and known to
      the server's version ever is deleted. */
  lemma TypeChangeRecreates(x: Context, r: Bucket)
    requires UniqueBuckets(x.unfiltered) && UniqueBuckets(x.actual) && RequestedAs(x, r.name) == Some(r)
    ensures var a, p := Find(x.actual, r.name), PlanOf(x);
            (Find(p.remove, r.name).Some? <==> r.name !in x.skipped && !r.sample && a.Some? && a.value.bucketType != r.bucketType) &&
            (Find(p.create, r.name).Some? <==> r.name !in x.skipped && (a.None? || (!r.sample && a.value.bucketType != r.bucketType)))
  {
    PlanFinds(x, r.name);
    RequestedFind(x, r.name);
    FilterIn(x.unfiltered, b => Supported(x, b));
    hide PlanOf, Same;
  }

  /** The bucket a call is about. */
  function About(e: Effect): Option<string>
  {
    if e.Grant? || e.Revoke? then None else Some(e.bucket.name)
  }

  /** Where the calls of a plan come from. */
  predicate Planned(p: Plan, e: Effect)
  {
    match e
    case Grant(_) => false
    case Revoke(_) => false
    case DeleteBucket(b) => b in p.remove
    case CreateBucket(b) => b in p.create
    case UpdateBucket(b) => b in p.update
    case UpdateDuringMigration(b) => b in p.migrate
  }

  lemma EachIn(bs: seq<Bucket>, f: Bucket -> Effect)
    ensures forall e :: e in Each(bs, f) <==> exists b :: b in bs && e == f(b)
  {
    var es := Each(bs, f);
    forall b | b in bs ensures f(b) in es {
      var i :| 0 <= i < |bs| && bs[i] == b;
      assert es[i] == f(b);
    }
  }

  lemma CallsPlanned(p: Plan)
    ensures forall e :: e in BucketCalls(p) <==> Planned(p, e)
  {
    EachIn(p.remove, Deletion);
    EachIn(p.create, Creation);
    EachIn(p.update, Change);
    EachIn(p.migrate, MigrationChange);
    hide Each;
    var d, c, u, m := Each(p.remove, Deletion), Each(p.create, Creation), Each(p.update, Change), Each(p.migrate, MigrationChange);
    forall e ensures e in BucketCalls(p) <==> Planned(p, e) {
      assert e in BucketCalls(p) <==> e in d || e in c || e in u || e in m;
      match e
      case Grant(_) =>
      case Revoke(_) =>
      case DeleteBucket(b) => assert e == Deletion(b);
      case CreateBucket(b) => assert e == Creation(b);
      case UpdateBucket(b) => assert e == Change(b);
      case UpdateDuringMigration(b) => assert e == MigrationChange(b);
    }
  }

  /** A skipped bucket that is still selected is not touched by any call; a skipped one that nobody selects any
      more is removed. */
  lemma SkippedUntouched(x: Context, n: string)
    requires UniqueBuckets(x.unfiltered) && UniqueBuckets(x.actual) && n in x.skipped
    ensures Find(x.unfiltered, n).Some? ==> forall e | e in AllCalls(x) :: About(e) != Some(n)
    ensures Find(x.unfiltered, n).None? && Find(x.actual, n).Some? ==> DeleteBucket(Find(x.actual, n).value) in AllCalls(x)
  {
    var p := PlanOf(x);
    hide Decide, Requested, AllCredentials, PlanOf, UniqueBuckets;
    SkippedNotPlanned(x, n);
    CallsPlanned(p);
    NotFound(p.remove, n);
    NotFound(p.create, n);
    NotFound(p.update, n);
    NotFound(p.migrate, n);
    hide BucketCalls, Find;
    assert AllCalls(x) == [Grant(AllCredentials(Requested(x)))] + BucketCalls(p) + [Revoke(AllCredentials(Requested(x)))];
    hide AllCalls;
    if Find(x.unfiltered, n).Some? {
      forall e | e in AllCalls(x) ensures About(e) != Some(n) {
        assert e.Grant? || e.Revoke? || e in BucketCalls(p);
      }
    } else if Find(x.actual, n).Some? {
      assert Planned(p, DeleteBucket(Find(x.actual, n).value));
    }
  }

  lemma SkippedNotPlanned(x: Context, n: string)
    requires UniqueBuckets(x.unfiltered) && UniqueBuckets(x.actual) && n in x.skipped
    ensures var p := PlanOf(x);
            Find(p.create, n).None? && Find(p.update, n).None? && Find(p.migrate, n).None? &&
            (Find(x.unfiltered, n).Some? ==> Find(p.remove, n).None?) &&
            (Find(x.unfiltered, n).None? && Find(x.actual, n).Some? ==> Find(x.actual, n).value in p.remove)
  {
    PlanFinds(x, n);
    FilterIn(x.actual, a => Removes(x, a));
    assert forall a | a in x.actual && Removes(x, a) :: a in PlanOf(x).remove;
    hide UniqueBuckets;
  }

  lemma NotFound(bs: seq<Bucket>, n: string)
    ensures Find(bs, n).None? ==> forall b | b in bs :: b.name != n
  {}

  // ----- a second look -----

  /** What is on the server after a complete pass. */
  ghost predicate Follows(x: Context, y: Context, s: Server)
  {
    Faces(x, s) && Faces(y, Run(s, BucketCalls(PlanOf(x)))) && y == x.(actual := y.actual)
  }

  /** What a bucket that is not left alone becomes. */
  function Brought(x: Context, r: Bucket): Bucket
    requires Decide(x, r) == UpdateIt || Decide(x, r) == MigrateIt ==> Find(x.actual, r.name).Some?
  {
    match Decide(x, r)
    case UpdateIt => Updated(Find(x.actual, r.name).value, r)
    case MigrateIt => Migrated(Find(x.actual, r.name).value, r)
    case _ => Created(r)
  }

  /** Whether the calls made about a requested bucket do not bring it to what is requested. */
  predicate Unachieved(x: Context, r: Bucket)
  {
    Decide(x, r) != Leave && !r.sample && !Same(r, Brought(x, r))
  }

  lemma SecondVerdict(x: Context, y: Context, s: Server, n: string)
    requires Follows(x, y, s)
    ensures Find(y.actual, n) == OutcomeAt(x, n)
    ensures RequestedAs(y, n) == RequestedAs(x, n)
    ensures RequestedAs(x, n).Some? ==>
              var r := RequestedAs(x, n).value;
              Decide(y, r) == if Unachieved(x, r) then (if x.migrating then MigrateIt else UpdateIt) else Leave
  {
    PlanOutcome(x, s, n);
    VerdictFits(x, n);
    hide PlanOf, BucketCalls, Run, UniqueBuckets, Same, Decide;
    if RequestedAs(x, n).Some? {
      SecondDecision(x, y, RequestedAs(x, n).value);
    }
  }

  lemma BroughtType(x: Context, r: Bucket)
    requires Decide(x, r) != Leave && !r.sample
    ensures Brought(x, r).bucketType == r.bucketType
  {
    hide Same;
  }

  lemma SecondDecision(x: Context, y: Context, r: Bucket)
    requires y == x.(actual := y.actual)
    requires Decide(x, r) == Leave ==> Find(y.actual, r.name) == Find(x.actual, r.name)
    requires Decide(x, r) != Leave ==> Find(y.actual, r.name) == Some(Brought(x, r))
    ensures Decide(y, r) == if Unachieved(x, r) then (if x.migrating then MigrateIt else UpdateIt) else Leave
  {
    if Decide(x, r) != Leave && !r.sample {
      BroughtType(x, r);
    }
    hide Same, Brought, Find;
  }

  lemma {:induction false} SameFilter(bs: seq<Bucket>, f: Bucket -> bool, g: Bucket -> bool)
    requires forall b :: f(b) == g(b)
    ensures Filter(bs, f) == Filter(bs, g)
  {
    if bs != [] {
      SameFilter(bs[..|bs| - 1], f, g);
    }
  }

  lemma SameRequests(x: Context, y: Context)
    requires y == x.(actual := y.actual)
    ensures Requested(y) == Requested(x)
  {
    SameFilter(x.unfiltered, b => Supported(x, b), b => Supported(y, b));
  }

  /** After a complete pass a second inspection creates and removes nothing, and wants to update exactly the
      buckets that the calls of the first pass could not bring to what is requested. */
  lemma SecondInspection(x: Context, y: Context, s: Server)
    requires Follows(x, y, s)
    ensures var p := PlanOf(y);
            p.create == [] && p.remove == [] && (if x.migrating then p.update else p.migrate) == [] &&
            forall r :: r in p.update || r in p.migrate <==> r in Requested(x) && Unachieved(x, r)
  {
    var p := PlanOf(y);
    forall n: string
      ensures Find(p.create, n).None? && Find(p.remove, n).None? && Find(if x.migrating then p.update else p.migrate, n).None?
    {
      SecondPlanAt(x, y, s, n);
    }
    Emptied(p.create);
    Emptied(p.remove);
    Emptied(if x.migrating then p.update else p.migrate);
    SecondUpdates(x, y, s);
  }

  lemma SecondPlanAt(x: Context, y: Context, s: Server, n: string)
    requires Follows(x, y, s)
    ensures var p := PlanOf(y);
            Find(p.create, n).None? && Find(p.remove, n).None? && Find(if x.migrating then p.update else p.migrate, n).None?
  {
    SecondVerdict(x, y, s, n);
    PlanFinds(y, n);
    hide PlanOf, Decide, BucketCalls, Run, Unachieved;
  }

  lemma SecondUpdates(x: Context, y: Context, s: Server)
    requires Follows(x, y, s)
    ensures forall r :: r in PlanOf(y).update || r in PlanOf(y).migrate <==> r in Requested(x) && Unachieved(x, r)
  {
    SameRequests(x, y);
    FilterIn(Requested(y), r => Decide(y, r) == MigrateIt);
    FilterIn(Requested(y), r => Decide(y, r) == UpdateIt);
    assert forall r :: r in PlanOf(y).migrate <==> r in Requested(x) && Decide(y, r) == MigrateIt;
    assert forall r :: r in PlanOf(y).update <==> r in Requested(x) && Decide(y, r) == UpdateIt;
    hide PlanOf, Decide, Filter, Faces, BucketCalls, Run, Unachieved;
    forall r | r in Requested(x)
      ensures Decide(y, r) == UpdateIt || Decide(y, r) == MigrateIt <==> Unachieved(x, r)
    {
      var i :| 0 <= i < |Requested(x)| && Requested(x)[i] == r;
      RequestedFind(x, r.name);
      FindUnique(Requested(x), i);
      SecondVerdict(x, y, s, r.name);
    }
  }

  // ----- what each kind of request achieves -----

  /** A bucket as requests are gathered: history retention, block sizes and continuous backup are asked of magma
      buckets only, and how to back up only where that is on. */
  ghost predicate WellGathered(r: Bucket)
  {
    !r.sample && (r.storageBackend == MAGMA || (r.magmaSettings == "" && !r.continuousBackup)) &&
    (!r.continuousBackup ==> r.storageCredential == "" && r.keyCredential == "")
  }

  /** A bucket as the server's list has it. */
  ghost predicate WellReported(a: Bucket)
  {
    !a.sample && a.noRestart != Off && (a.storageBackend == MAGMA || (a.magmaSettings == "" && !a.continuousBackup)) &&
    (!a.continuousBackup ==> a.storageCredential == "" && a.keyCredential == "")
  }

  /** What being the same comes to, field by field. */
  lemma SameFields(r: Bucket, a: Bucket)
    ensures Same(r, a) <==>
            r.name == a.name && r.bucketType == a.bucketType && r.sample == a.sample &&
            r.storageBackend == a.storageBackend && r.ramQuota == a.ramQuota && r.eviction == a.eviction &&
            (r.noRestart == a.noRestart || (r.noRestart != Unsaid && a.noRestart == Unsaid)) &&
            r.conflictResolution == a.conflictResolution &&
            (r.crossVersioning == a.crossVersioning || a.crossVersioning == On) && r.settings == a.settings &&
            r.magmaSettings == a.magmaSettings && r.continuousBackup == a.continuousBackup && r.storageCredential == a.storageCredential &&
            r.keyCredential == a.keyCredential
  {
    var a1 := if r.noRestart != Unsaid && a.noRestart == Unsaid then a.(noRestart := r.noRestart) else a;
    assert r.Bucket? && a1.Bucket? && a.Bucket?;
  }

  /** Creation achieves all that is requested but versioning across clusters. */
  lemma CreationAchieves(r: Bucket)
    requires WellGathered(r)
    ensures Same(r, Created(r)) <==> r.crossVersioning != On
  {
    SameFields(r, Created(r));
    hide Same;
  }

  /** An ordinary update achieves all but a change of conflict resolution, as far as the request speaks of backend,
      policy and versioning where the server has them. */
  lemma UpdateAchieves(a: Bucket, r: Bucket)
    requires WellGathered(r) && WellReported(a) && a.name == r.name && a.bucketType == r.bucketType
    ensures Same(r, Updated(a, r)) <==>
            a.conflictResolution == r.conflictResolution &&
            (r.storageBackend == "" ==> a.storageBackend == "") &&
            (r.eviction == "" ==> a.eviction == "" && (a.noRestart == r.noRestart || (r.noRestart != Unsaid && a.noRestart == Unsaid))) &&
            (r.crossVersioning == Unsaid ==> a.crossVersioning != Off)
  {
    SameFields(r, Updated(a, r));
    hide Same;
  }

  /** An update during a storage migration achieves the backend, the quota and a change of policy without restart.
      With the backend go the settings of magma buckets: they are no difference any more when the bucket leaves that
      backend, nor when it comes to it and the server's defaults are requested. Any other difference is wanted again
      on every pass. */
  lemma MigrationAchieves(a: Bucket, r: Bucket)
    requires WellGathered(r) && WellReported(a) && a.name == r.name && a.bucketType == r.bucketType
    ensures Same(r, Migrated(a, r)) <==>
            a.settings == r.settings && a.conflictResolution == r.conflictResolution &&
            (a.crossVersioning == r.crossVersioning || a.crossVersioning == On) &&
            (r.storageBackend == "" ==> a.storageBackend == "") &&
            (r.eviction == "" || r.noRestart != On ==>
               a.eviction == r.eviction && (a.noRestart == r.noRestart || (r.noRestart != Unsaid && a.noRestart == Unsaid))) &&
            (r.storageBackend == MAGMA ==>
               r.magmaSettings == (if a.storageBackend == MAGMA then a.magmaSettings else MAGMA_DEFAULTS) &&
               a.continuousBackup == r.continuousBackup && a.storageCredential == r.storageCredential && a.keyCredential == r.keyCredential)
  {
    SameFields(r, Migrated(a, r));
    hide Same;
  }

  lemma Emptied(bs: seq<Bucket>)
    ensures bs != [] ==> Find(bs, bs[0].name).Some?
  {}

  // ----- credentials -----

  /** With continuous backup on, both the credential for the storage and that for the key manager are granted, as
      far as they are named. */
  predicate MayUse(b: Bucket, granted: set<string>)
  {
    b.continuousBackup ==>
      (b.storageCredential != "" ==> b.storageCredential in granted) && (b.keyCredential != "" ==> b.keyCredential in granted)
  }

  lemma MayUseCredentials()
    ensures forall b: Bucket, granted: set<string> :: MayUse(b, granted) <==> Credentials(b) <= granted
  {}

  /** Every bucket on the server may use the credentials it names. */
  ghost predicate Safe(s: Server)
  {
    forall n | n in s.buckets :: MayUse(s.buckets[n], s.granted)
  }

  /** A call to a server that can resolve what the bucket in question names. */
  predicate Covered(e: Effect, granted: set<string>)
  {
    (e.CreateBucket? || e.UpdateBucket? || e.UpdateDuringMigration?) ==> MayUse(e.bucket, granted)
  }

  lemma InAllCredentials(bs: seq<Bucket>, b: Bucket)
    requires b in bs
    ensures Credentials(b) <= AllCredentials(bs)
  {
    var i :| 0 <= i < |bs| && bs[i] == b;
  }

  lemma CallsCovered(x: Context)
    ensures forall e | e in BucketCalls(PlanOf(x)) :: Covered(e, AllCredentials(Requested(x)))
  {
    var p, rs := PlanOf(x), Requested(x);
    FilterIn(rs, r => Decide(x, r) == CreateIt || Decide(x, r) == RecreateIt);
    FilterIn(rs, r => Decide(x, r) == UpdateIt);
    FilterIn(rs, r => Decide(x, r) == MigrateIt);
    CallsPlanned(p);
    forall b | b in p.create || b in p.update || b in p.migrate ensures MayUse(b, AllCredentials(rs)) {
      InAllCredentials(rs, b);
      MayUseCredentials();
    }
  }

  lemma {:induction false} CoveredRun(s: Server, es: seq<Effect>, ids: set<string>)
    requires Safe(s) && ids <= s.granted
    requires forall e | e in es :: !e.Grant? && !e.Revoke? && Covered(e, ids)
    ensures Safe(Run(s, es)) && Run(s, es).granted == s.granted
  {
    if es != [] {
      var k := |es| - 1;
      CoveredRun(s, es[..k], ids);
      var t, e := Run(s, es[..k]), es[k];
      forall n | n in Apply(t, e).buckets ensures MayUse(Apply(t, e).buckets[n], s.granted) {
        assert e in es;
      }
    }
  }

  /** However far a reconcile gets before its last call, every bucket on the server keeps access to its
      credentials, and nothing is ever asked of the server that needs a credential not granted by then. */
  lemma BracketKeepsSafe(x: Context, s: Server, i: nat)
    requires Safe(s) && i < |AllCalls(x)|
    ensures Safe(Run(s, AllCalls(x)[..i]))
    ensures Covered(AllCalls(x)[i], Run(s, AllCalls(x)[..i]).granted)
  {
    var ids, cs := AllCredentials(Requested(x)), BucketCalls(PlanOf(x));
    if i == 0 {
      assert AllCalls(x)[..0] == [];
    } else {
      assert AllCalls(x)[..i] == [Grant(ids)] + cs[..i - 1];
      RunConcat(s, [Grant(ids)], cs[..i - 1]);
      assert [Grant(ids)][..0] == [];
      var s1 := Run(s, [Grant(ids)]);
      assert s1 == Apply(s, Grant(ids));
      CallsCovered(x);
      NoRolesInBucketCalls(PlanOf(x));
      forall e | e in cs[..i - 1] ensures !e.Grant? && !e.Revoke? && Covered(e, ids) {
        assert e in cs;
      }
      CoveredRun(s1, cs[..i - 1], ids);
      if i - 1 < |cs| {
        assert AllCalls(x)[i] == cs[i - 1] && cs[i - 1] in cs;
      }
    }
  }

  lemma {:induction false} NamedCredential(bs: seq<Bucket>, c: string)
    ensures c in AllCredentials(bs) <==>
            c != "" && exists b :: b in bs && b.continuousBackup && (c == b.storageCredential || c == b.keyCredential)
  {
    if c in AllCredentials(bs) {
      var i :| 0 <= i < |bs| && c in Credentials(bs[i]);
      assert bs[i] in bs;
    }
    if c != "" {
      if b :| b in bs && b.continuousBackup && (c == b.storageCredential || c == b.keyCredential) {
        InAllCredentials(bs, b);
      }
    }
  }

  /** Who is granted access to what after a complete pass: exactly the credentials that some bucket which is selected,
      and not of a type the server no longer knows, names for a continuous backup that is on. */
  lemma GrantedAfter(x: Context, s: Server, c: string)
    requires Faces(x, s)
    ensures c in Run(s, AllCalls(x)).granted <==>
            c != "" && exists b :: b in x.unfiltered && !(b.bucketType == Memcached && x.dropMemcached) &&
                                   b.continuousBackup && (c == b.storageCredential || c == b.keyCredential)
  {
    CompletePass(x, s, "");
    NamedCredential(Requested(x), c);
    FilterIn(x.unfiltered, b => Supported(x, b));
    hide AllCredentials, Run, AllCalls, Faces;
  }

  /** A complete pass grants exactly what the requested buckets name, and leaves under every name what the plan
      asks for. */
  lemma CompletePass(x: Context, s: Server, n: string)
    requires Faces(x, s)
    ensures Run(s, AllCalls(x)).granted == AllCredentials(Requested(x))
    ensures Get(Run(s, AllCalls(x)), n) == OutcomeAt(x, n)
  {
    var ids, cs := AllCredentials(Requested(x)), BucketCalls(PlanOf(x));
    assert AllCalls(x)[..|AllCalls(x)| - 1] == [Grant(ids)] + cs;
    RunConcat(s, [Grant(ids)], cs);
    assert [Grant(ids)][..0] == [];
    var s1 := Run(s, [Grant(ids)]);
    assert s1 == Apply(s, Grant(ids));
    assert Faces(x, s1) by {
      forall m: string ensures Get(s1, m) == Find(x.actual, m) {
        assert Get(s, m) == Find(x.actual, m);
      }
    }
    PlanOutcome(x, s1, n);
  }

  /** A bucket that stays on the server with the credentials it had there, whatever its request names now. */
  predicate KeepsCredentials(x: Context, n: string)
  {
    Find(x.actual, n).Some? && Find(x.unfiltered, n).Some? &&
    match RequestedAs(x, n)
    case None => true
    case Some(r) =>
      var a := Find(x.actual, n).value;
      var backend := Said(r.storageBackend, a.storageBackend);
      n in x.skipped || r.sample ||
      (Decide(x, r) == MigrateIt && a.storageBackend == backend == MAGMA) || (Decide(x, r) == UpdateIt && r.storageBackend != MAGMA && backend == MAGMA)
  }

  /** The last call leaves every bucket its credentials exactly if those of the buckets that were skipped, are
      samples, are migrating or are ignored are all still requested by somebody. */
  lemma SafeAfterIff(x: Context, s: Server)
    requires Faces(x, s)
    ensures Safe(Run(s, AllCalls(x))) <==>
            forall n | KeepsCredentials(x, n) :: Credentials(Find(x.actual, n).value) <= AllCredentials(Requested(x))
  {
    var t, ids := Run(s, AllCalls(x)), AllCredentials(Requested(x));
    assert UniqueBuckets(x.unfiltered);
    MayUseCredentials();
    hide AllCalls, Run, Faces, OutcomeAt, AllCredentials, Credentials, MayUse, UniqueBuckets;
    forall n: string
      ensures t.granted == ids && Get(t, n) == OutcomeAt(x, n)
      ensures KeepsCredentials(x, n) ==>
                n in t.buckets && Credentials(t.buckets[n]) == Credentials(Find(x.actual, n).value)
      ensures n in t.buckets && !KeepsCredentials(x, n) ==> Credentials(t.buckets[n]) <= ids
    {
      CompletePass(x, s, n);
      KeptOrRequested(x, n);
    }
  }

  lemma KeptOrRequested(x: Context, n: string)
    requires UniqueBuckets(x.unfiltered)
    ensures KeepsCredentials(x, n) ==>
              OutcomeAt(x, n).Some? && Credentials(OutcomeAt(x, n).value) == Credentials(Find(x.actual, n).value)
    ensures OutcomeAt(x, n).Some? && !KeepsCredentials(x, n) ==>
              Credentials(OutcomeAt(x, n).value) <= AllCredentials(Requested(x))
  {
    VerdictFits(x, n);
    RequestedFind(x, n);
    if RequestedAs(x, n).Some? {
      InAllCredentials(Requested(x), RequestedAs(x, n).value);
    }
    hide Requested, UniqueBuckets, AllCredentials, Find, Same;
  }

  lemma OnlyRequested(x: Context, b: Bucket)
    requires x.unfiltered == [b] && b.bucketType == Couchbase
    ensures Requested(x) == [b] && AllCredentials(Requested(x)) == Credentials(b)
    ensures RequestedAs(x, b.name) == Some(b) && Find(x.unfiltered, b.name) == Some(b)
  {
    assert x.unfiltered == [] + [b] && x.unfiltered[..0] == [];
    RequestedFind(x, b.name);
    FilterIn(x.unfiltered, b => Supported(x, b));
    assert |Filter([b][..0], b => Supported(x, b))| == 0;
    assert forall c :: c in AllCredentials([b]) <==> exists i :: 0 <= i < 1 && c in Credentials([b][i]);
    assert [b][0] == b;
  }

  /** A bucket that was moved to another credential in a change that got it skipped loses the old one, which
      the server still uses for it. */
  lemma SkippedLosesCredential() returns (x: Context, s: Server)
    ensures Faces(x, s) && Safe(s)
    ensures !Safe(Run(s, AllCalls(x)))
  {
    var was := Bucket("b", Couchbase, false, MAGMA, 1, "fullEviction", Unsaid, "seqno", Unsaid, "", MAGMA_DEFAULTS, true, "old", "");
    var now := was.(storageCredential := "new");
    x := Context([now], [was], {"b"}, false, false);
    s := Server(map["b" := was], {"old"});
    assert x.unfiltered == [] + [now] && x.unfiltered[..0] == [];
    OnlyRequested(x, now);
    assert Find(x.actual, "b") == Some(was);
    assert "old" in Credentials(was) && "old" !in Credentials(now) by {
      assert "old" != "new";
    }
    assert KeepsCredentials(x, "b");
    hide Credentials, KeepsCredentials, AllCredentials, Find, Decide, AllCalls, Run;
    SafeAfterIff(x, s);
  }

  // ----- many passes -----

  /** One pass: the circumstances it finds and how many of its calls get through. */
  datatype Pass = Pass(context: Context, calls: nat)

  function Reached(s: Server, p: Pass): Server
  {
    Run(s, if p.calls < |AllCalls(p.context)| then AllCalls(p.context)[..p.calls] else AllCalls(p.context))
  }

  function AfterPasses(s: Server, ps: seq<Pass>): Server
  {
    if ps == [] then s else Reached(AfterPasses(s, ps[..|ps| - 1]), ps[|ps| - 1])
  }

  /** A pass looks at the server it meets, and keeps only buckets whose credentials are requested. */
  ghost predicate OrderlyPass(s: Server, x: Context)
  {
    Faces(x, s) && forall n | KeepsCredentials(x, n) :: Credentials(Find(x.actual, n).value) <= AllCredentials(Requested(x))
  }

  ghost predicate Orderly(s: Server, ps: seq<Pass>)
  {
    ps == [] || (Orderly(s, ps[..|ps| - 1]) && OrderlyPass(AfterPasses(s, ps[..|ps| - 1]), ps[|ps| - 1].context))
  }

  lemma PassStaysSafe(s: Server, p: Pass)
    requires Safe(s) && OrderlyPass(s, p.context)
    ensures Safe(Reached(s, p))
  {
    hide AllCalls, Run;
    if p.calls < |AllCalls(p.context)| {
      BracketKeepsSafe(p.context, s, p.calls);
    } else {
      SafeAfterIff(p.context, s);
    }
  }

  /** Over any number of passes, each cut off after any of its calls, no bucket is ever without a credential it
      names. */
  lemma {:induction false} PassesStaySafe(s: Server, ps: seq<Pass>)
    requires Safe(s) && Orderly(s, ps)
    ensures Safe(AfterPasses(s, ps))
  {
    hide Safe, OrderlyPass, Reached;
    if ps != [] {
      PassesStaySafe(s, ps[..|ps| - 1]);
      PassStaysSafe(AfterPasses(s, ps[..|ps| - 1]), ps[|ps| - 1]);
    }
  }
}
