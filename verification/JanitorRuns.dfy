/** What becomes of marks whose write was refused, over runs of passes and of changes to the cache. */
module JanitorRuns {
  import opened Topology
  import opened Janitor

  /** The volumes as cached and as stored. */
  datatype View = View(volumes: Volumes, stored: Volumes)

  datatype Event =
    | Pass(pods: set<string>, now: int, reached: set<string>, refused: Option<string>)
    | Refresh(name: string)                               // the watch brings the stored volume into the cache
    | Replace(name: string, volume: Option<Volume>)       // the volume is deleted or created anew

  function Put(vs: Volumes, n: string, v: Option<Volume>): Volumes
  {
    if v.Some? then vs[n := v.value] else vs - {n}
  }

  /** The volumes a pass looks at: those with the name of a pod on them, up to the first failure. */
  function LookedAt(w: View, e: Event): set<string>
    requires e.Pass?
  {
    set n | n in e.reached + OnlyOf(e.refused) && n in w.volumes && w.volumes[n].pod.Some?
  }

  function Happen(w: View, e: Event): View
  {
    match e
    case Pass(pods, now, reached, refused) =>
      View(MarkedAmong(pods, now, w.volumes, LookedAt(w, e)), Written(pods, now, w.volumes, w.stored, LookedAt(w, e) - OnlyOf(refused)))
    case Refresh(n) => if n in w.volumes && n in w.stored then w.(volumes := w.volumes[n := w.stored[n]]) else w
    case Replace(n, v) => View(Put(w.volumes, n, v), Put(w.stored, n, v))
  }

  function After(w: View, run: seq<Event>, k: nat): View
    requires k <= |run|
  {
    if k == 0 then w else Happen(After(w, run, k - 1), run[k - 1])
  }

  /** A call of the method is such a pass. */
  method RunPass(store: Store, pods: set<string>, now: int, a: Answers) returns (ok: bool, ghost e: Event)
    modifies store
    ensures e.Pass? && e.pods == pods && e.now == now
    ensures View(store.volumes, store.stored) == Happen(View(old(store.volumes), old(store.stored)), e)
    ensures ok ==> e.refused == None && e.reached == old(store.volumes).Keys
  {
    ghost var w := View(store.volumes, store.stored);
    ghost var reached, refused;
    ok, reached, refused := store.UpdateDetachedAnnotations(pods, now, a);
    e := Pass(pods, now, reached, refused);
    assert LookedAt(w, e) == reached + OnlyOf(refused);
    assert LookedAt(w, e) - OnlyOf(refused) == reached;
  }

  // ----- marks out of line -----

  /** Cached and stored volumes agree on which there are and on their pods. */
  ghost predicate Kept(w: View)
  {
    w.volumes.Keys == w.stored.Keys && forall n | n in w.volumes :: w.volumes[n].pod == w.stored[n].pod
  }

  lemma {:induction false} KeptAfter(w: View, run: seq<Event>, k: nat)
    requires Kept(w) && k <= |run|
    ensures Kept(After(w, run, k))
  {
    if k > 0 {
      KeptAfter(w, run, k - 1);
    }
  }

  /** One of the cached and the stored volume is marked as detached and the other is not. */
  predicate OutOfLine(w: View, n: string)
  {
    n in w.volumes && n in w.stored && w.volumes[n].detached.Some? != w.stored[n].detached.Some?
  }

  predicate Looks(w: View, e: Event, n: string)
  {
    e.Pass? && n in LookedAt(w, e)
  }

  /** Whether a pass that looks at the volume finds its pod. */
  predicate Finds(w: View, e: Event, n: string)
  {
    Looks(w, e, n) && w.volumes[n].pod.value in e.pods
  }

  /** The write of a mark that is due is refused. */
  predicate Refuses(w: View, e: Event, n: string)
  {
    Looks(w, e, n) && e.refused == Some(n) && n in w.stored && !OutOfLine(w, n) &&
    w.volumes[n].detached.Some? == Finds(w, e, n)
  }

  /** Nothing makes up for a missing write: the cached volume is not refreshed, the volume not replaced, and a pass
      that looks at it finds or misses its pod as one before did. */
  predicate Idle(w: View, e: Event, n: string, found: bool)
  {
    e != Refresh(n) && !(e.Replace? && e.name == n) && (Looks(w, e, n) ==> Finds(w, e, n) == found)
  }

  ghost predicate RefusedSince(w: View, run: seq<Event>, j: nat, k: nat, n: string)
    requires k <= |run|
  {
    j < k && Refuses(After(w, run, j), run[j], n) &&
    forall i | j < i < k :: Idle(After(w, run, i), run[i], n, Finds(After(w, run, j), run[j], n))
  }

  /** How one event moves a mark out of line or back. */
  lemma OutOfLineStep(w: View, e: Event, n: string)
    requires Kept(w)
    ensures Refuses(w, e, n) ==> OutOfLine(Happen(w, e), n) && Happen(w, e).volumes[n].detached.Some? == !Finds(w, e, n)
    ensures !OutOfLine(w, n) && OutOfLine(Happen(w, e), n) ==> Refuses(w, e, n)
    ensures OutOfLine(w, n) ==>
              (OutOfLine(Happen(w, e), n) <==> Idle(w, e, n, !w.volumes[n].detached.Some?)) &&
              (OutOfLine(Happen(w, e), n) ==> Happen(w, e).volumes[n].detached.Some? == w.volumes[n].detached.Some?)
  {}

  lemma {:induction false} RefusedStaysOut(w: View, run: seq<Event>, j: nat, k: nat, n: string)
    requires Kept(w) && k <= |run| && RefusedSince(w, run, j, k, n)
    ensures OutOfLine(After(w, run, k), n)
    ensures After(w, run, k).volumes[n].detached.Some? == !Finds(After(w, run, j), run[j], n)
    decreases k
  {
    hide Happen, OutOfLine, Refuses, Idle;
    KeptAfter(w, run, k - 1);
    OutOfLineStep(After(w, run, k - 1), run[k - 1], n);
    if j < k - 1 {
      RefusedStaysOut(w, run, j, k - 1, n);
      assert Idle(After(w, run, k - 1), run[k - 1], n, Finds(After(w, run, j), run[j], n));
    }
  }

  lemma {:induction false} OutTraced(w: View, run: seq<Event>, k: nat, n: string)
    requires Kept(w) && !OutOfLine(w, n) && k <= |run| && OutOfLine(After(w, run, k), n)
    ensures exists j: nat :: RefusedSince(w, run, j, k, n)
    decreases k
  {
    hide Happen, OutOfLine, Refuses, Idle;
    KeptAfter(w, run, k - 1);
    OutOfLineStep(After(w, run, k - 1), run[k - 1], n);
    if OutOfLine(After(w, run, k - 1), n) {
      OutTraced(w, run, k - 1, n);
      var j: nat :| RefusedSince(w, run, j, k - 1, n);
      RefusedStaysOut(w, run, j, k - 1, n);
      assert Idle(After(w, run, k - 1), run[k - 1], n, Finds(After(w, run, j), run[j], n));
      assert RefusedSince(w, run, j, k, n);
    } else {
      assert RefusedSince(w, run, k - 1, k, n);
    }
  }

  /** Over every run, a stored mark is out of line exactly if the write that was due has been refused and since then
      the cached volume has not been refreshed, the volume not replaced, and no pass has seen its pod come or go. */
  lemma OutOfLineIff(w: View, run: seq<Event>, k: nat, n: string)
    requires Kept(w) && !OutOfLine(w, n) && k <= |run|
    ensures OutOfLine(After(w, run, k), n) <==> exists j: nat :: RefusedSince(w, run, j, k, n)
  {
    if OutOfLine(After(w, run, k), n) {
      OutTraced(w, run, k, n);
    }
    if j: nat :| RefusedSince(w, run, j, k, n) {
      RefusedStaysOut(w, run, j, k, n);
    }
  }

  /** A refused write that no later pass makes up for while the volume stays detached. */
  lemma RefusedMarkStays(passes: nat)
    ensures var v := Volume(Some("p"), None);
            var w := View(map["v" := v], map["v" := v]);
            var run := [Pass({}, 0, {}, Some("v"))] + seq(passes, _ => Pass({}, 1, {"v"}, None));
            OutOfLine(After(w, run, |run|), "v")
  {
    var v := Volume(Some("p"), None);
    var w := View(map["v" := v], map["v" := v]);
    var run := [Pass({}, 0, {}, Some("v"))] + seq(passes, _ => Pass({}, 1, {"v"}, None));
    assert RefusedSince(w, run, 0, |run|, "v");
    RefusedStaysOut(w, run, 0, |run|, "v");
  }
}
