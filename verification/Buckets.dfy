/** Planning bucket changes from what is requested and what the server has, and carrying the plan out between
    granting and revoking access to the credentials the buckets use. */
module Buckets {
  import opened Topology

  datatype BucketType = Couchbase | Ephemeral | Memcached

  const MAGMA := "magma"

  /** What the server gives a bucket that comes to the magma backend without saying anything about it. */
  const MAGMA_DEFAULTS := "server defaults"

  /** A setting that may be left unsaid. */
  datatype Flag = Unsaid | Off | On

  /** A bucket, as it is requested or as the server's list reports it. Fields are told apart by how requests
      carry them; text fields may be empty and options unset where a request says nothing. */
  datatype Bucket = Bucket(
    name: string, bucketType: BucketType, sample: bool,
    storageBackend: string, ramQuota: int,    // carried by every request
    eviction: string,                         // carried by updates during a migration only without restart
    noRestart: Flag,                  // asked of updates; reported if nodes still differ from the bucket
    conflictResolution: string,               // carried by creation only
    crossVersioning: Flag,            // never granted on creation and never taken back
    settings: string,                         // carried by ordinary requests, not by updates during a migration
    magmaSettings: string,                    // likewise, but asked and reported of magma buckets only
    continuousBackup: bool, storageCredential: string, keyCredential: string)

  /** The stored credentials a bucket's continuous backup authenticates with. */
  function Credentials(b: Bucket): set<string>
  {
    if b.continuousBackup then {b.storageCredential, b.keyCredential} - {""} else {}
  }

  function AllCredentials(bs: seq<Bucket>): set<string>
  {
    set i, c | 0 <= i < |bs| && c in Credentials(bs[i]) :: c
  }

  ghost predicate UniqueBuckets(bs: seq<Bucket>)
  {
    forall i, j | 0 <= i < j < |bs| :: bs[i].name != bs[j].name
  }

  /** The bucket of a name in a list. */
  function Find(bs: seq<Bucket>, name: string): (r: Option<Bucket>)
    ensures r.Some? ==> r.value in bs && r.value.name == name
    ensures r.None? ==> forall b | b in bs :: b.name != name
  {
    if bs == [] then None else if bs[0].name == name then Some(bs[0]) else Find(bs[1..], name)
  }

  lemma {:induction false} FindUnique(bs: seq<Bucket>, i: nat)
    requires UniqueBuckets(bs) && i < |bs|
    ensures Find(bs, bs[i].name) == Some(bs[i])
  {
    if i > 0 {
      assert bs[0].name != bs[i].name;
      FindUnique(bs[1..], i - 1);
    }
  }

  // ----- the plan -----

  /** The circumstances of one reconcile. */
  datatype Context = Context(
    unfiltered: seq<Bucket>,   // every selected bucket
    actual: seq<Bucket>,       // the server's buckets
    skipped: set<string>,      // buckets that failed validation
    dropMemcached: bool,       // the server no longer knows memcached buckets
    migrating: bool)           // a storage backend migration is under way

  datatype Plan = Plan(create: seq<Bucket>, update: seq<Bucket>, migrate: seq<Bucket>, remove: seq<Bucket>)

  datatype Verdict = Leave | CreateIt | RecreateIt | UpdateIt | MigrateIt

  predicate Supported(x: Context, b: Bucket)
  {
    !(b.bucketType == Memcached && x.dropMemcached)
  }

  function Requested(x: Context): seq<Bucket>
  {
    Filter(x.unfiltered, b => Supported(x, b))
  }

  function Filter(bs: seq<Bucket>, keep: Bucket -> bool): (r: seq<Bucket>)
  {
    if bs == [] then []
    else if keep(bs[|bs| - 1]) then Filter(bs[..|bs| - 1], keep) + [bs[|bs| - 1]]
    else Filter(bs[..|bs| - 1], keep)
  }

  lemma {:induction false} FilterIn(bs: seq<Bucket>, keep: Bucket -> bool)
    ensures forall b :: b in Filter(bs, keep) <==> b in bs && keep(b)
    ensures UniqueBuckets(bs) ==> UniqueBuckets(Filter(bs, keep))
  {
    if bs != [] {
      var n := |bs| - 1;
      FilterIn(bs[..n], keep);
      assert bs == bs[..n] + [bs[n]];
      assert UniqueBuckets(bs) ==> forall b | b in bs[..n] :: b.name != bs[n].name;
    }
  }

  /** Whether the server's bucket is what is requested. That nodes need no restart is not held against a bucket
      whose nodes all agree with it, nor is versioning once it is on. */
  predicate Same(r: Bucket, a: Bucket)
  {
    var a1 := if r.noRestart != Unsaid && a.noRestart == Unsaid then a.(noRestart := r.noRestart) else a;
    if a1.crossVersioning == On then r.(crossVersioning := Unsaid) == a1.(crossVersioning := Unsaid) else r == a1
  }

  /** What is to be done about a requested bucket. */
  function Decide(x: Context, r: Bucket): Verdict
  {
    if r.name in x.skipped then Leave
    else match Find(x.actual, r.name)
         case None => CreateIt
         case Some(a) =>
           if r.sample then Leave
           else if a.bucketType != r.bucketType then RecreateIt
           else if Same(r, a) then Leave
           else if x.migrating then MigrateIt
           else UpdateIt
  }

  /** The server's bucket of a name nobody requested. */
  predicate Removes(x: Context, a: Bucket)
  {
    Find(x.unfiltered, a.name).None?
  }

  /** The server's buckets that make way for requested ones of another type. */
  function Displaced(x: Context, requested: seq<Bucket>): (r: seq<Bucket>)
    ensures forall a | a in r :: a in x.actual
  {
    if requested == [] then []
    else
      var n := |requested| - 1;
      var r := requested[n];
      Displaced(x, requested[..n]) + (if Decide(x, r) == RecreateIt then [Find(x.actual, r.name).value] else [])
  }

  /** The plan, list by list. */
  function PlanOf(x: Context): Plan
  {
    var requested := Requested(x);
    Plan(Filter(requested, r => Decide(x, r) == CreateIt || Decide(x, r) == RecreateIt),
         Filter(requested, r => Decide(x, r) == UpdateIt),
         Filter(requested, r => Decide(x, r) == MigrateIt),
         Displaced(x, requested) + Filter(x.actual, a => Removes(x, a)))
  }

  lemma FilterNext(bs: seq<Bucket>, i: nat, keep: Bucket -> bool)
    requires i < |bs|
    ensures Filter(bs[..i + 1], keep) == Filter(bs[..i], keep) + (if keep(bs[i]) then [bs[i]] else [])
  {
    assert bs[..i + 1][..i] == bs[..i];
  }

  lemma DisplacedNext(x: Context, bs: seq<Bucket>, i: nat)
    requires i < |bs|
    ensures Displaced(x, bs[..i + 1]) ==
            Displaced(x, bs[..i]) + (if Decide(x, bs[i]) == RecreateIt then [Find(x.actual, bs[i].name).value] else [])
  {
    assert bs[..i + 1][..i] == bs[..i];
  }

  /** The requested buckets the server can know. */
  method FilterRequested(x: Context) returns (requested: seq<Bucket>)
    ensures requested == Requested(x)
  {
    requested := [];
    for i := 0 to |x.unfiltered|
      invariant requested == Filter(x.unfiltered[..i], b => Supported(x, b))
    {
      FilterNext(x.unfiltered, i, b => Supported(x, b));
      if Supported(x, x.unfiltered[i]) {
        requested := requested + [x.unfiltered[i]];
      }
    }
    assert x.unfiltered[..|x.unfiltered|] == x.unfiltered;
  }

  /** The lists as far as the first requested buckets decide them. */
  ghost predicate Planned(x: Context, bs: seq<Bucket>, create: seq<Bucket>, update: seq<Bucket>, migrate: seq<Bucket>, remove: seq<Bucket>)
  {
    create == Filter(bs, r => Decide(x, r) == CreateIt || Decide(x, r) == RecreateIt) &&
    update == Filter(bs, r => Decide(x, r) == UpdateIt) &&
    migrate == Filter(bs, r => Decide(x, r) == MigrateIt) &&
    remove == Displaced(x, bs)
  }

  lemma PlannedNext(x: Context, bs: seq<Bucket>, i: nat, create: seq<Bucket>, update: seq<Bucket>, migrate: seq<Bucket>, remove: seq<Bucket>)
    requires i < |bs| && Planned(x, bs[..i], create, update, migrate, remove)
    ensures var r := bs[i];
            var d := Decide(x, r);
            Planned(x, bs[..i + 1], if d == CreateIt || d == RecreateIt then create + [r] else create,
                    if d == UpdateIt then update + [r] else update, if d == MigrateIt then migrate + [r] else migrate,
                    if d == RecreateIt then remove + [Find(x.actual, r.name).value] else remove)
  {
    FilterNext(bs, i, r => Decide(x, r) == CreateIt || Decide(x, r) == RecreateIt);
    FilterNext(bs, i, r => Decide(x, r) == UpdateIt);
    FilterNext(bs, i, r => Decide(x, r) == MigrateIt);
    DisplacedNext(x, bs, i);
  }

  /** Compares every requested bucket with the server's and then every one of the server's with the requests. */
  method InspectBuckets(x: Context) returns (p: Plan, requested: seq<Bucket>)
    ensures requested == Requested(x)
    ensures p == PlanOf(x)
  {
    requested := FilterRequested(x);
    var create, update, migrate, remove: seq<Bucket> := [], [], [], [];
    for i := 0 to |requested|
      invariant Planned(x, requested[..i], create, update, migrate, remove)
    {
      PlannedNext(x, requested, i, create, update, migrate, remove);
      hide Planned;
      var r := requested[i];
      if r.name !in x.skipped {
        var a := FindBucket(x.actual, r.name);
        if a.None? {
          create := create + [r];
        } else if !r.sample {
          if a.value.bucketType != r.bucketType {
            remove, create := remove + [a.value], create + [r];
          } else if !Same(r, a.value) {
            if x.migrating {
              migrate := migrate + [r];
            } else {
              update := update + [r];
            }
          }
        }
      }
    }
    assert requested[..|requested|] == requested;
    var unwanted := Unwanted(x);
    p := Plan(create, update, migrate, remove + unwanted);
  }

  /** The server's buckets that nobody requested. */
  method Unwanted(x: Context) returns (remove: seq<Bucket>)
    ensures remove == Filter(x.actual, a => Removes(x, a))
  {
    remove := [];
    for i := 0 to |x.actual|
      invariant remove == Filter(x.actual[..i], a => Removes(x, a))
    {
      FilterNext(x.actual, i, a => Removes(x, a));
      var a := FindBucket(x.unfiltered, x.actual[i].name);
      if a.None? {
        remove := remove + [x.actual[i]];
      }
    }
    assert x.actual[..|x.actual|] == x.actual;
  }

  /** Searches a list for a bucket of the given name. */
  method FindBucket(bs: seq<Bucket>, name: string) returns (r: Option<Bucket>)
    ensures r == Find(bs, name)
  {
    for i := 0 to |bs|
      invariant Find(bs[i..], name) == Find(bs, name)
    {
      if bs[i].name == name {
        return Some(bs[i]);
      }
      assert bs[i..][1..] == bs[i + 1..];
    }
    return None;
  }
}
