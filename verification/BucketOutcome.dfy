/** What a bucket reconcile leaves on the server, and that no bucket loses access to its credentials. */
module BucketOutcome {
  import opened Topology
  import opened Buckets
  import opened BucketRun

  /** The circumstances are those of the server the calls go to. */
  ghost predicate Faces(x: Context, s: Server)
  {
    UniqueBuckets(x.unfiltered) && UniqueBuckets(x.actual) && forall n :: Get(s, n) == Find(x.actual, n)
  }

  // ----- one bucket at a time -----

  /** What a call does to the bucket it is about. */
  function ApplyAt(e: Effect, o: Option<Bucket>): Option<Bucket>
    requires !e.Grant? && !e.Revoke?
  {
    match e
    case DeleteBucket(b) => None
    case CreateBucket(b) => Some(Created(b))
    case UpdateBucket(b) => if o.Some? then Some(Updated(o.value, b)) else None
    case UpdateDuringMigration(b) => if o.Some? then Some(Migrated(o.value, b)) else None
  }

  lemma ApplyGet(s: Server, e: Effect, n: string)
    requires !e.Grant? && !e.Revoke?
    ensures Get(Apply(s, e), n) == if n == e.bucket.name then ApplyAt(e, Get(s, n)) else Get(s, n)
  {}

  /** A group of calls about distinct buckets touches each bucket at most once. */
  lemma {:induction false} RunEach(s: Server, bs: seq<Bucket>, f: Bucket -> Effect, n: string)
    requires UniqueBuckets(bs)
    requires forall b :: !f(b).Grant? && !f(b).Revoke? && f(b).bucket == b
    ensures Get(Run(s, Each(bs, f)), n) ==
            match Find(bs, n) case None => Get(s, n) case Some(b) => ApplyAt(f(b), Get(s, n))
  {
    if bs != [] {
      var k := |bs| - 1;
      assert Each(bs, f)[..k] == Each(bs[..k], f);
      RunEach(s, bs[..k], f, n);
      ApplyGet(Run(s, Each(bs[..k], f)), f(bs[k]), n);
      assert bs == bs[..k] + [bs[k]];
      FindConcat(bs[..k], [bs[k]], n);
      if Find(bs[..k], n).Some? {
        assert bs[k].name != n;
      }
    }
  }

  lemma {:induction false} FindConcat(a: seq<Bucket>, b: seq<Bucket>, n: string)
    ensures Find(a + b, n) == if Find(a, n).Some? then Find(a, n) else Find(b, n)
  {
    if a == [] {
      assert a + b == b;
    } else {
      assert (a + b)[1..] == a[1..] + b;
      FindConcat(a[1..], b, n);
    }
  }

  lemma {:induction false} FindFilter(bs: seq<Bucket>, keep: Bucket -> bool, n: string)
    requires UniqueBuckets(bs)
    ensures Find(Filter(bs, keep), n) ==
            match Find(bs, n) case None => None case Some(b) => if keep(b) then Some(b) else None
  {
    if bs != [] {
      var k := |bs| - 1;
      FindFilter(bs[..k], keep, n);
      assert bs == bs[..k] + [bs[k]];
      FindConcat(bs[..k], [bs[k]], n);
      FindConcat(Filter(bs[..k], keep), [bs[k]], n);
      FilterIn(bs[..k], keep);
      if Find(bs[..k], n).Some? {
        assert bs[k].name != n;
      }
    }
  }

  lemma {:induction false} FindDisplaced(x: Context, bs: seq<Bucket>, n: string)
    requires UniqueBuckets(bs)
    ensures Find(Displaced(x, bs), n) ==
            match Find(bs, n) case None => None case Some(r) => if Decide(x, r) == RecreateIt then Find(x.actual, n) else None
  {
    if bs != [] {
      var k := |bs| - 1;
      FindDisplaced(x, bs[..k], n);
      assert bs == bs[..k] + [bs[k]];
      FindConcat(bs[..k], [bs[k]], n);
      if Decide(x, bs[k]) == RecreateIt {
        FindConcat(Displaced(x, bs[..k]), [Find(x.actual, bs[k].name).value], n);
      } else {
        assert Displaced(x, bs[..k]) + [] == Displaced(x, bs[..k]);
      }
      if Find(bs[..k], n).Some? {
        assert bs[k].name != n;
      }
    }
  }

  // ----- the outcome -----

  /** The bucket requested under a name, among those the server can know. */
  function RequestedAs(x: Context, n: string): Option<Bucket>
  {
    match Find(x.unfiltered, n)
    case None => None
    case Some(b) => if Supported(x, b) then Some(b) else None
  }

  /** What should be on the server under a name once the plan has been carried out. */
  function OutcomeAt(x: Context, n: string): Option<Bucket>
  {
    var a := Find(x.actual, n);
    match RequestedAs(x, n)
    case None => if Find(x.unfiltered, n).Some? then a else None
    case Some(r) =>
      match Decide(x, r)
      case Leave => a
      case CreateIt => Some(Created(r))
      case RecreateIt => Some(Created(r))
      case UpdateIt => Some(Updated(a.value, r))
      case MigrateIt => Some(Migrated(a.value, r))
  }

  lemma RequestedFind(x: Context, n: string)
    requires UniqueBuckets(x.unfiltered)
    ensures Find(Requested(x), n) == RequestedAs(x, n)
    ensures UniqueBuckets(Requested(x))
  {
    FindFilter(x.unfiltered, b => Supported(x, b), n);
    FilterIn(x.unfiltered, b => Supported(x, b));
  }

  lemma {:induction false} DisplacedUnique(x: Context, bs: seq<Bucket>)
    requires UniqueBuckets(bs)
    ensures UniqueBuckets(Displaced(x, bs))
    ensures forall a | a in Displaced(x, bs) :: exists r :: r in bs && r.name == a.name
  {
    if bs != [] {
      var k := |bs| - 1;
      DisplacedUnique(x, bs[..k]);
      var d := Displaced(x, bs[..k]);
      forall a | a in d ensures a.name != bs[k].name {
        var r :| r in bs[..k] && r.name == a.name;
      }
      assert bs == bs[..k] + [bs[k]];
    }
  }

  lemma ConcatUnique(a: seq<Bucket>, b: seq<Bucket>)
    requires UniqueBuckets(a) && UniqueBuckets(b)
    requires forall x, y | x in a && y in b :: x.name != y.name
    ensures UniqueBuckets(a + b)
  {
    var c := a + b;
    forall i, j | 0 <= i < j < |c| ensures c[i].name != c[j].name {
      if i < |a| <= j {
        assert c[i] in a && c[j] in b;
      }
    }
  }

  /** No bucket is deleted twice, and a bucket of a name that is selected is deleted only to be created again
      with another type. */
  lemma RemovedOnce(x: Context)
    requires UniqueBuckets(x.unfiltered) && UniqueBuckets(x.actual)
    ensures UniqueBuckets(PlanOf(x).remove)
    ensures forall a | a in PlanOf(x).remove && Find(x.unfiltered, a.name).Some? ::
              exists r :: r in PlanOf(x).create && r.name == a.name && r.bucketType != a.bucketType
  {
    var rs := Requested(x);
    FilterIn(x.unfiltered, b => Supported(x, b));
    DisplacedUnique(x, rs);
    FilterIn(x.actual, a => Removes(x, a));
    var keep := (r: Bucket) => Decide(x, r) == CreateIt || Decide(x, r) == RecreateIt;
    FilterIn(rs, keep);
    var d, u := Displaced(x, rs), Filter(x.actual, a => Removes(x, a));
    forall a | a in d
      ensures Find(x.unfiltered, a.name).Some?
      ensures exists r :: r in PlanOf(x).create && r.name == a.name && r.bucketType != a.bucketType
    {
      var r := DisplacedBy(x, rs, a);
      assert r in Filter(rs, keep) && r in x.unfiltered;
    }
    hide Displaced, Filter, UniqueBuckets, Decide;
    ConcatUnique(d, u);
  }

  lemma {:induction false} DisplacedBy(x: Context, bs: seq<Bucket>, a: Bucket) returns (r: Bucket)
    requires a in Displaced(x, bs)
    ensures r in bs && r.name == a.name && Decide(x, r) == RecreateIt && a.bucketType != r.bucketType
  {
    var k := |bs| - 1;
    if a in Displaced(x, bs[..k]) {
      r := DisplacedBy(x, bs[..k], a);
    } else {
      r := bs[k];
    }
  }

  lemma PlanFinds(x: Context, n: string)
    requires UniqueBuckets(x.unfiltered) && UniqueBuckets(x.actual)
    ensures var p := PlanOf(x);
            var r := RequestedAs(x, n);
            (Find(p.remove, n).Some? <==>
               Find(x.actual, n).Some? && ((r.Some? && Decide(x, r.value) == RecreateIt) || Find(x.unfiltered, n).None?)) &&
            Find(p.create, n) == (if r.Some? && (Decide(x, r.value) == CreateIt || Decide(x, r.value) == RecreateIt) then r else None) &&
            Find(p.update, n) == (if r.Some? && Decide(x, r.value) == UpdateIt then r else None) &&
            Find(p.migrate, n) == (if r.Some? && Decide(x, r.value) == MigrateIt then r else None)
    ensures UniqueBuckets(PlanOf(x).create) && UniqueBuckets(PlanOf(x).update) && UniqueBuckets(PlanOf(x).migrate)
  {
    RequestedFind(x, n);
    var rs := Requested(x);
    var cs, us, ms := (r: Bucket) => Decide(x, r) == CreateIt || Decide(x, r) == RecreateIt,
                      (r: Bucket) => Decide(x, r) == UpdateIt, (r: Bucket) => Decide(x, r) == MigrateIt;
    FindFilter(rs, cs, n);
    FindFilter(rs, us, n);
    FindFilter(rs, ms, n);
    FilterIn(rs, cs);
    FilterIn(rs, us);
    FilterIn(rs, ms);
    FindDisplaced(x, rs, n);
    FindFilter(x.actual, a => Removes(x, a), n);
    FindConcat(Displaced(x, rs), Filter(x.actual, a => Removes(x, a)), n);
    assert PlanOf(x).create == Filter(rs, cs) && PlanOf(x).update == Filter(rs, us) && PlanOf(x).migrate == Filter(rs, ms);
  }

  /** The four groups of calls, one after the other, at one name. */
  lemma CallsAt(s: Server, p: Plan, n: string)
    requires UniqueBuckets(p.remove) && UniqueBuckets(p.create) && UniqueBuckets(p.update) && UniqueBuckets(p.migrate)
    ensures var o1 := if Find(p.remove, n).Some? then None else Get(s, n);
            var o2 := if Find(p.create, n).Some? then Some(Created(Find(p.create, n).value)) else o1;
            var o3 := if Find(p.update, n).Some? && o2.Some? then Some(Updated(o2.value, Find(p.update, n).value)) else o2;
            Get(Run(s, BucketCalls(p)), n) ==
              match Find(p.migrate, n)
              case None => o3
              case Some(b) => if o3.Some? then Some(Migrated(o3.value, b)) else None
  {
    var d, c, u, m := Each(p.remove, Deletion), Each(p.create, Creation), Each(p.update, Change), Each(p.migrate, MigrationChange);
    assert BucketCalls(p) == d + c + u + m;
    hide BucketCalls, Created, Updated, Migrated, UniqueBuckets, Run, Find, Get, Each;
    RunConcat(s, d + c + u, m);
    RunConcat(s, d + c, u);
    RunConcat(s, d, c);
    var s1 := Run(s, d);
    var s2 := Run(s1, c);
    var s3 := Run(s2, u);
    RunEach(s, p.remove, Deletion, n);
    RunEach(s1, p.create, Creation, n);
    RunEach(s2, p.update, Change, n);
    RunEach(s3, p.migrate, MigrationChange, n);
  }

  /** Carrying the plan out leaves under every name exactly what the verdict on it asks for. */
  lemma PlanOutcome(x: Context, s: Server, n: string)
    requires Faces(x, s)
    ensures Get(Run(s, BucketCalls(PlanOf(x))), n) == OutcomeAt(x, n)
  {
    assert Get(s, n) == Find(x.actual, n);
    hide Decide, PlanOf, UniqueBuckets, Run, BucketCalls, Find, Get, Migrated, Updated, Created, Supported;
    RemovedOnce(x);
    PlanFinds(x, n);
    CallsAt(s, PlanOf(x), n);
    VerdictFits(x, n);
    var p := PlanOf(x);
    OutcomeFrom(x, n, Find(p.remove, n).Some?, Find(p.create, n), Find(p.update, n), Find(p.migrate, n));
    hide OutcomeAt, RequestedAs;
  }

  /** What the four lists come to under one name. */
  lemma OutcomeFrom(x: Context, n: string, removed: bool, c: Option<Bucket>, u: Option<Bucket>, m: Option<Bucket>)
    requires var a, r := Find(x.actual, n), RequestedAs(x, n);
             (removed <==> a.Some? && ((r.Some? && Decide(x, r.value) == RecreateIt) || Find(x.unfiltered, n).None?)) &&
             c == (if r.Some? && (Decide(x, r.value) == CreateIt || Decide(x, r.value) == RecreateIt) then r else None) &&
             u == (if r.Some? && Decide(x, r.value) == UpdateIt then r else None) &&
             m == (if r.Some? && Decide(x, r.value) == MigrateIt then r else None)
    ensures var o1 := if removed then None else Find(x.actual, n);
            var o2 := if c.Some? then Some(Created(c.value)) else o1;
            var o3 := if u.Some? && o2.Some? then Some(Updated(o2.value, u.value)) else o2;
            OutcomeAt(x, n) == match m case None => o3 case Some(b) => if o3.Some? then Some(Migrated(o3.value, b)) else None
  {
    VerdictFits(x, n);
    hide Decide, Find, Migrated, Updated, Created, Supported;
  }

  /** Verdicts match what the server holds. */
  lemma VerdictFits(x: Context, n: string)
    ensures var r := RequestedAs(x, n);
            r.Some? ==>
              r.value.name == n &&
              (Decide(x, r.value) == CreateIt ==> Find(x.actual, n).None?) &&
              (Decide(x, r.value) == RecreateIt || Decide(x, r.value) == UpdateIt || Decide(x, r.value) == MigrateIt ==>
                 Find(x.actual, n).Some?)
  {}
}
