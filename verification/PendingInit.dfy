/** Initialising a pod that was created and flagged as pending, one attempt per reconcile cycle, with any
    call to the cluster or to Kubernetes free to fail. */
module PendingInit {

  /** One pod, as Kubernetes and the operator's cache of it have it, and the cluster it belongs to. */
  datatype World = World(
    uid: nat,               // tells a pod from its successors of the same name
    present: bool,          // the pod exists
    deleting: bool,         // it has a deletion timestamp
    pending: bool,          // it carries the pending-initialization condition
    annotated: bool,        // Kubernetes holds the initialized annotation
    cached: bool,           // the cached copy of the pod holds the initialized annotation
    joined: bool,           // Couchbase Server knows the node as part of the cluster
    recoverable: bool,      // its volumes hold a node of the cluster
    selfCallable: bool,     // the operator counts it among the callable members
    othersCallable: bool,   // there are other callable members
    id: string)             // the cluster identifier in the status, empty if unknown
  {
    predicate CallableEmpty() { !selfCallable && !othersCallable }

    /** The cache claims an annotation that Kubernetes never stored. */
    predicate Stale() { cached && !annotated }
  }

  /** How the deletion of a pod turns out: refused, or accepted with the pod still there until its grace period
      is over, or accepted and over; and whether its volumes could then be deleted. */
  datatype Removal = Refused | Terminating(volumes: bool) | Gone(volumes: bool)

  /** How each external call of one pass turns out. */
  datatype Calls = Calls(
    configFound: bool, addressChecked: bool, addressReachable: bool, initMember: bool, servicesParsed: bool,
    addNode: bool, nodeAdded: bool, initInitialMember: bool, remove: Removal, updateAnnotation: bool,
    uuid: string, persistUUID: bool, clearCondition: bool,
    createPod: bool, flagPending: bool, delete: Removal)
  {
    /** No call of a pass over a ready pod fails. */
    predicate FailureFree()
    {
      configFound && addressChecked && addressReachable && initMember && servicesParsed && addNode && nodeAdded &&
      initInitialMember && updateAnnotation && uuid != "" && persistUUID && clearCondition
    }
  }

  // ----- the steps as functions -----

  function ClearPending(w: World, c: Calls): World
  {
    if c.clearCondition then w.(pending := false) else w
  }

  /** Asks for the pod's deletion, and for that of its volumes if they are to go. It returns without waiting for
      the pod to go. */
  function Remove(w: World, r: Removal, volumes: bool): World
  {
    match r
    case Refused => w
    case Terminating(v) => w.(deleting := w.present, recoverable := w.recoverable && !(volumes && v))
    case Gone(v) => w.(present := false, deleting := false, recoverable := w.recoverable && !(volumes && v))
  }

  predicate RemoveOk(r: Removal, volumes: bool)
  {
    !r.Refused? && (volumes ==> r.volumes)
  }

  /** Annotates the cached pod first and Kubernetes second; only the second can fail. */
  function SetInitialized(w: World, c: Calls): World
  {
    if !w.present then w else w.(cached := true, annotated := w.annotated || c.updateAnnotation)
  }

  predicate SetInitializedOk(w: World, c: Calls)
  {
    w.present && c.updateAnnotation
  }

  function AlreadyInitialized(w: World, c: Calls): World
  {
    var marked := SetInitialized(w, c);
    if SetInitializedOk(w, c) then ClearPending(marked, c) else marked
  }

  function ForExistingCluster(w: World, c: Calls): World
  {
    if !c.addressChecked || !c.addressReachable || !c.initMember || !c.servicesParsed || !c.addNode then w
    else
      var added := w.(joined := true);
      if !c.nodeAdded then added else AlreadyInitialized(added, c)
  }

  function ForNewCluster(w: World, c: Calls): World
  {
    if !c.initMember then w
    else
      var member := w.(selfCallable := true);
      var configured := if w.cached then member
                        else if c.initInitialMember then SetInitialized(member.(joined := true), c)
                        else Remove(member, c.remove, true);
      if (!w.cached && !(c.initInitialMember && SetInitializedOk(w, c))) || c.uuid == "" || !c.persistUUID
      then configured.(selfCallable := false, othersCallable := false)
      else ClearPending(configured.(id := c.uuid), c)
  }

  /** The routing of a ready pending pod. */
  function HandleReady(w: World, c: Calls): World
  {
    if w.deleting || !c.configFound then w
    else if w.cached && w.id != "" then ClearPending(w, c)
    else if !w.CallableEmpty() && w.id != "" then
      if w.selfCallable then AlreadyInitialized(w, c) else ForExistingCluster(w, c)
    else if w.id != "" && w.recoverable then AlreadyInitialized(w, c)
    else ForNewCluster(w, c)
  }

  /** Removes the pod first. Once that is accepted the condition comes off, whether the pod has gone or not. */
  function HandleTimedOut(w: World, c: Calls): World
  {
    var removed := Remove(w, c.remove, true);
    if RemoveOk(c.remove, true) && removed.present then ClearPending(removed, c) else removed
  }

  /** Creating a pod flags it; a failed flag removes it again, if that works. */
  function CreatePod(w: World, c: Calls, volumes: bool, joined: bool): World
  {
    if w.present || !c.createPod then w
    else
      var created := w.(uid := w.uid + 1, present := true, deleting := false, pending := c.flagPending,
                       annotated := false, cached := false, joined := joined);
      if c.flagPending then created else Remove(created, c.remove, volumes)
  }

  predicate CreatePodOk(w: World, c: Calls)
  {
    !w.present && c.createPod && c.flagPending
  }

  /** Recreating waits for the old pod to go and keeps the volumes, so that Couchbase Server still knows the node;
      the new pod is marked initialized while it is still pending. */
  function RecreatePod(w: World, c: Calls): World
  {
    if !c.configFound || c.delete.Refused? then w
    else if c.delete.Terminating? then Remove(w, c.delete, false)
    else
      var gone := Remove(w, c.delete, false);
      var created := CreatePod(gone, c, false, w.joined);
      if CreatePodOk(gone, c) then SetInitialized(created, c) else created
  }

  // ----- the same steps on the operator's state -----

  class Operator {
    var world: World

    method ClearPodPendingInitialization(c: Calls)
      modifies this
      ensures world == ClearPending(old(world), c)
    {
      if c.clearCondition {
        world := world.(pending := false);
      }
    }

    method RemovePod(r: Removal, volumes: bool) returns (ok: bool)
      modifies this
      ensures world == Remove(old(world), r, volumes) && ok == RemoveOk(r, volumes)
    {
      if r.Refused? {
        return false;
      }
      world := if r.Gone? then world.(present := false, deleting := false) else world.(deleting := world.present);
      if volumes {
        if !r.volumes {
          return false;
        }
        world := world.(recoverable := false);
      }
      return true;
    }

    method SetPodInitialized(c: Calls) returns (ok: bool)
      modifies this
      ensures world == SetInitialized(old(world), c) && ok == SetInitializedOk(old(world), c)
    {
      if !world.present {
        return false;
      }
      world := world.(cached := true);
      if !c.updateAnnotation {
        return false;
      }
      world := world.(annotated := true);
      return true;
    }

    method HandlePendingPodAlreadyInitialized(c: Calls)
      modifies this
      ensures world == AlreadyInitialized(old(world), c)
    {
      var ok := SetPodInitialized(c);
      if !ok {
        return;
      }
      ClearPodPendingInitialization(c);
    }

    method HandlePendingPodForExistingCluster(c: Calls)
      modifies this
      ensures world == ForExistingCluster(old(world), c)
    {
      if !c.addressChecked || !c.addressReachable || !c.initMember || !c.servicesParsed || !c.addNode {
        return;
      }
      world := world.(joined := true);
      if !c.nodeAdded {
        return;
      }
      var ok := SetPodInitialized(c);
      if !ok {
        return;
      }
      ClearPodPendingInitialization(c);
    }

    method ConfigureInitialMember(c: Calls) returns (ok: bool)
      modifies this
      ensures ok == (c.initInitialMember && SetInitializedOk(old(world), c))
      ensures world == if c.initInitialMember then SetInitialized(old(world).(joined := true), c)
                       else Remove(old(world), c.remove, true)
    {
      if !c.initInitialMember {
        var _ := RemovePod(c.remove, true);
        return false;
      }
      world := world.(joined := true);
      ok := SetPodInitialized(c);
    }

    method HandlePendingPodForNewCluster(c: Calls)
      modifies this
      ensures world == ForNewCluster(old(world), c)
    {
      if !c.initMember {
        return;
      }
      world := world.(selfCallable := true);
      if !world.cached {
        var ok := ConfigureInitialMember(c);
        if !ok {
          world := world.(selfCallable := false, othersCallable := false);
          return;
        }
      }
      if c.uuid == "" || !c.persistUUID {
        world := world.(selfCallable := false, othersCallable := false);
        return;
      }
      world := world.(id := c.uuid);
      ClearPodPendingInitialization(c);
    }

    method HandleReadyPendingPod(c: Calls)
      modifies this
      ensures world == HandleReady(old(world), c)
    {
      if world.deleting || !c.configFound {
        return;
      }
      if world.cached && world.id != "" {
        ClearPodPendingInitialization(c);
        return;
      }
      if !world.CallableEmpty() && world.id != "" {
        if world.selfCallable {
          HandlePendingPodAlreadyInitialized(c);
          return;
        }
        HandlePendingPodForExistingCluster(c);
        return;
      }
      if world.id != "" && world.recoverable {
        HandlePendingPodAlreadyInitialized(c);
        return;
      }
      HandlePendingPodForNewCluster(c);
    }

    method HandleTimedOutPendingPod(c: Calls)
      modifies this
      ensures world == HandleTimedOut(old(world), c)
    {
      var ok := RemovePod(c.remove, true);
      if !ok {
        return;
      }
      if world.present {
        ClearPodPendingInitialization(c);
      }
    }

    method CreateAndFlagPod(c: Calls, volumes: bool, joined: bool) returns (ok: bool)
      modifies this
      ensures world == CreatePod(old(world), c, volumes, joined) && ok == CreatePodOk(old(world), c)
    {
      hide Remove;
      // A live pod owns the name: creation fails, and the pod is left alone.
      if world.present || !c.createPod {
        return false;
      }
      world := world.(uid := world.uid + 1, present := true, deleting := false, pending := false,
                      annotated := false, cached := false, joined := joined);
      if !c.flagPending {
        var _ := RemovePod(c.remove, volumes);
        return false;
      }
      world := world.(pending := true);
      return true;
    }

    method DeleteAndRecreatePod(c: Calls)
      modifies this
      ensures world == RecreatePod(old(world), c)
    {
      if !c.configFound {
        return;
      }
      var joined := world.joined;
      var ok := RemovePod(c.delete, false);
      if !ok || c.delete.Terminating? {
        return;
      }
      ok := CreateAndFlagPod(c, false, joined);
      if ok {
        ok := SetPodInitialized(c);
      }
    }
  }

  // ----- one step -----

  /** What asking for a pod's deletion can do. */
  lemma RemoveFacts(w: World, r: Removal, volumes: bool)
    ensures var after := Remove(w, r, volumes);
            after.uid == w.uid && after.pending == w.pending && after.annotated == w.annotated &&
            after.cached == w.cached && after.joined == w.joined && after.id == w.id
    ensures r.Refused? ==> Remove(w, r, volumes) == w
    ensures r.Terminating? ==> Remove(w, r, volumes).present == w.present && Remove(w, r, volumes).deleting == w.present
    ensures r.Gone? ==> !Remove(w, r, volumes).present
    ensures Remove(w, r, volumes).recoverable <==> w.recoverable && (r.Refused? || !volumes || !r.volumes)
  {}

  /** The step took the pending condition off a pod that still exists. */
  predicate Cleared(before: World, after: World)
  {
    before.uid == after.uid && before.present && before.pending && after.present && !after.pending
  }

  /** What marking and clearing can do to a pending pod. */
  lemma MarkedThenCleared(w: World, c: Calls)
    requires w.present && w.pending
    ensures var after := AlreadyInitialized(w, c);
            after.uid == w.uid && after.present && after.id == w.id && after.joined == w.joined &&
            (after.pending <==> !(c.updateAnnotation && c.clearCondition)) &&
            after.cached && after.annotated == (w.annotated || c.updateAnnotation)
  {}

  lemma ExistingClusterOutcome(w: World, c: Calls)
    requires w.present && w.pending
    ensures var after := ForExistingCluster(w, c);
            after.uid == w.uid && after.present && after.id == w.id &&
            (!after.pending ==> after.cached && after.annotated) &&
            (after.Stale() && !w.Stale() ==> !c.updateAnnotation) &&
            (c.FailureFree() ==> !after.pending)
  {
    hide AlreadyInitialized;
    MarkedThenCleared(w.(joined := true), c);
  }

  lemma NewClusterOutcome(w: World, c: Calls)
    requires w.present && w.pending
    ensures var after := ForNewCluster(w, c);
            after.uid == w.uid &&
            (!after.pending ==> after.cached && after.id != "" && (after.annotated <==> !w.Stale())) &&
            (after.Stale() && !w.Stale() ==> !c.updateAnnotation) &&
            (c.FailureFree() ==> after.present && !after.pending)
  {
    if !w.cached {
      if c.initInitialMember {
        ConfiguredOutcome(w, c);
      } else {
        NotConfigured(w, c);
      }
    }
    hide ForNewCluster, SetInitialized, Remove, ClearPending;
    if w.cached {
      AlreadyConfigured(w, c);
    }
  }

  lemma AlreadyConfigured(w: World, c: Calls)
    requires w.present && w.pending && w.cached
    ensures var after := ForNewCluster(w, c);
            after.uid == w.uid && after.cached && after.present && after.annotated == w.annotated &&
            (!after.pending ==> after.id != "") && (c.FailureFree() ==> !after.pending)
  {
    hide SetInitialized, Remove;
  }

  lemma NotConfigured(w: World, c: Calls)
    requires w.present && w.pending && !w.cached && !c.initInitialMember
    ensures var after := ForNewCluster(w, c);
            after.uid == w.uid && after.pending && after.cached == w.cached && after.annotated == w.annotated
  {
    RemoveFacts(w.(selfCallable := true), c.remove, true);
    hide SetInitialized, Remove, ClearPending;
  }

  lemma ConfiguredOutcome(w: World, c: Calls)
    requires w.present && w.pending && !w.cached && c.initInitialMember
    ensures var after := ForNewCluster(w, c);
            after.uid == w.uid && after.present &&
            (!after.pending ==> after.cached && after.id != "" && after.annotated) &&
            (after.Stale() ==> !c.updateAnnotation) && (c.FailureFree() ==> !after.pending)
  {
    hide Remove;
  }

  /** Whatever fails, a pass that clears the condition leaves the pod marked initialized in the operator's
      view and the cluster identifier known. What Kubernetes holds agrees exactly when the pass did not
      start from a stale cache. */
  lemma ClearedOnlyWhenDone(w: World, c: Calls)
    requires Cleared(w, HandleReady(w, c))
    ensures HandleReady(w, c).cached && HandleReady(w, c).id != ""
    ensures HandleReady(w, c).annotated <==> !w.Stale()
  {
    MarkedThenCleared(w, c);
    ExistingClusterOutcome(w, c);
    NewClusterOutcome(w, c);
    hide AlreadyInitialized, ForExistingCluster, ForNewCluster;
  }

  /** Whatever went wrong before, one failure-free pass over a pending pod finishes it: the condition is
      gone, the pod is marked initialized and the cluster identifier is known. The annotation is in
      Kubernetes exactly when the cache was not stale. */
  lemma OneGoodPassFinishes(w: World, c: Calls)
    requires w.present && !w.deleting && w.pending && c.FailureFree()
    ensures var after := HandleReady(w, c);
            after.present && !after.pending && after.cached && after.id != "" &&
            (after.annotated <==> !w.Stale())
  {
    MarkedThenCleared(w, c);
    ExistingClusterOutcome(w, c);
    NewClusterOutcome(w, c);
    hide AlreadyInitialized, ForExistingCluster, ForNewCluster;
    ClearedOnlyWhenDone(w, c);
  }

  /** Only a failed update of the annotation makes the cache stale. */
  lemma StaleOnlyAfterFailedUpdate(w: World, c: Calls)
    requires w.present && w.pending && !w.Stale()
    ensures HandleReady(w, c).Stale() ==> !c.updateAnnotation
  {
    MarkedThenCleared(w, c);
    ExistingClusterOutcome(w, c);
    NewClusterOutcome(w, c);
    hide AlreadyInitialized, ForExistingCluster, ForNewCluster;
  }

  // ----- runs -----

  /** What can happen to the pod and the cluster. The last ones are not the operator's doing: a deleted pod goes,
      somebody deletes the pod, the cache catches up with Kubernetes, the operator restarts, and other pods come
      and go. */
  datatype Event =
    | Ready(calls: Calls)
    | TimedOut(calls: Calls)
    | Create(calls: Calls)
    | Recreate(calls: Calls)
    | Terminated
    | DeletedByOthers
    | CacheSync
    | Restart
    | ClusterChange(selfCallable: bool, othersCallable: bool, recoverable: bool, id: string)

  function Happen(w: World, e: Event): World
  {
    match e
    case Ready(c) => if w.present && w.pending then HandleReady(w, c) else w
    case TimedOut(c) => if w.present && w.pending then HandleTimedOut(w, c) else w
    case Create(c) => CreatePod(w, c, true, false)
    case Recreate(c) => RecreatePod(w, c)
    case Terminated => if w.deleting then w.(present := false, deleting := false) else w
    case DeletedByOthers => w.(deleting := w.present)
    case CacheSync => w.(cached := w.annotated)
    case Restart => w.(cached := w.annotated, selfCallable := false, othersCallable := false)
    case ClusterChange(s, o, r, id) => w.(selfCallable := s, othersCallable := o, recoverable := r, id := id)
  }

  /** The world after the first k events. */
  function After(w: World, run: seq<Event>, k: nat): World
    requires k <= |run|
  {
    if k == 0 then w else Happen(After(w, run, k - 1), run[k - 1])
  }

  // ----- what the other events can do -----

  /** The same pod in the same condition. */
  predicate Unmoved(a: World, b: World)
  {
    a.uid == b.uid && a.present == b.present && a.deleting == b.deleting && a.pending == b.pending &&
    a.annotated == b.annotated && a.cached == b.cached && a.joined == b.joined
  }

  lemma CreateFacts(w: World, c: Calls, volumes: bool, joined: bool)
    ensures var after := CreatePod(w, c, volumes, joined);
            if w.present || !c.createPod then Unmoved(after, w)
            else
              after.uid == w.uid + 1 && !after.cached && !after.annotated && after.joined == joined &&
              (after.present && !after.deleting ==> if c.flagPending then after.pending else c.remove.Refused?)
  {
    if !w.present && c.createPod {
      RemoveFacts(w.(uid := w.uid + 1, present := true, deleting := false, pending := c.flagPending,
                     annotated := false, cached := false, joined := joined), c.remove, volumes);
    }
    hide Remove;
  }

  lemma RecreateFacts(w: World, c: Calls)
    ensures var after := RecreatePod(w, c);
            if !c.configFound || !c.delete.Gone? || !c.createPod then
              after.uid == w.uid && after.cached == w.cached && after.annotated == w.annotated && after.pending == w.pending &&
              (after.present && !after.deleting ==> Unmoved(after, w))
            else
              after.uid == w.uid + 1 && (after.Stale() ==> !c.updateAnnotation) &&
              (after.present && !after.deleting ==> if c.flagPending then after.pending else c.remove.Refused?)
  {
    CreateFacts(Remove(w, c.delete, false), c, false, w.joined);
    hide CreatePod;
  }

  lemma TimedOutFacts(w: World, c: Calls)
    requires w.present && w.pending
    ensures var after := HandleTimedOut(w, c);
            after.uid == w.uid && after.cached == w.cached && after.annotated == w.annotated &&
            (after.present && !after.deleting ==> Unmoved(after, w)) &&
            (after.present && !after.pending <==> ClearsByTimeout(TimedOut(c))) &&
            (ClearsByTimeout(TimedOut(c)) ==> after.deleting)
  {
    RemoveFacts(w, c.remove, true);
    hide Remove;
  }

  // ----- when the condition comes off -----

  /** A timeout takes the condition off a pod that is still terminating, marked or not. */
  predicate ClearsByTimeout(e: Event)
  {
    e.TimedOut? && e.calls.remove == Terminating(true) && e.calls.clearCondition
  }

  /** A pass over a ready pod takes the condition off because the cache holds a mark, be it stale or not. */
  predicate ClearsByCache(w: World, e: Event)
  {
    e.Ready? && w.cached && !w.deleting && e.calls.configFound && e.calls.clearCondition &&
    (w.id != "" || (e.calls.initMember && e.calls.uuid != "" && e.calls.persistUUID))
  }

  /** The condition comes off a pod that Kubernetes does not have marked in exactly two cases: a timeout whose pod
      is still terminating, and a pass that trusts a stale cache. */
  lemma ClearedUnmarkedIff(w: World, e: Event)
    ensures Cleared(w, Happen(w, e)) && !Happen(w, e).annotated <==>
            w.present && w.pending && !w.annotated && (ClearsByTimeout(e) || (w.Stale() && ClearsByCache(w, e)))
  {
    hide HandleReady, HandleTimedOut, CreatePod, RecreatePod;
    match e
    case Ready(c) =>
      if w.present && w.pending {
        ReadyClears(w, c);
      }
    case TimedOut(c) =>
      if w.present && w.pending {
        TimedOutFacts(w, c);
      }
    case Create(c) => CreateFacts(w, c, true, false);
    case Recreate(c) => RecreateFacts(w, c);
    case _ =>
  }

  lemma ReadyClears(w: World, c: Calls)
    requires w.present && w.pending
    ensures var after := HandleReady(w, c);
            Cleared(w, after) && !after.annotated <==> !w.annotated && w.cached && ClearsByCache(w, Ready(c))
  {
    ReadyKeepsPod(w, c);
    if Cleared(w, HandleReady(w, c)) {
      ClearedOnlyWhenDone(w, c);
    }
    if w.Stale() && !w.deleting && c.configFound && w.id == "" {
      assert HandleReady(w, c) == ForNewCluster(w, c);
    }
    hide AlreadyInitialized, ForExistingCluster;
  }

  lemma ClearedNotDeleting(w: World, c: Calls)
    requires Cleared(w, HandleReady(w, c))
    ensures !HandleReady(w, c).deleting
  {
    assert !w.deleting;
  }

  /** On every run a pod that is not terminating loses its condition only with the mark in the operator's view and
      the cluster identifier known; a terminating one loses it only through a timeout. */
  lemma RunsClearOnlyWhenDone(w: World, run: seq<Event>, k: nat)
    requires k < |run| && Cleared(After(w, run, k), After(w, run, k + 1))
    ensures var before, after := After(w, run, k), After(w, run, k + 1);
            if after.deleting then ClearsByTimeout(run[k])
            else after.cached && after.id != "" && (after.annotated <==> !before.Stale())
  {
    var before := After(w, run, k);
    hide HandleReady, HandleTimedOut, CreatePod, RecreatePod;
    match run[k]
    case Ready(c) =>
      ClearedOnlyWhenDone(before, c);
      ClearedNotDeleting(before, c);
    case TimedOut(c) => TimedOutFacts(before, c);
    case Create(c) => CreateFacts(before, c, true, false);
    case Recreate(c) => RecreateFacts(before, c);
    case _ =>
  }

  /** An update of the annotation that failed, with neither the cache nor the operator refreshed since. */
  ghost predicate FailedUpdateSince(run: seq<Event>, j: nat, k: nat)
    requires k <= |run|
  {
    j < k && (run[j].Ready? || run[j].Recreate?) && !run[j].calls.updateAnnotation &&
    forall i | j < i < k :: !run[i].CacheSync? && !run[i].Restart?
  }

  lemma StaleStep(w: World, e: Event)
    requires Happen(w, e).Stale()
    ensures !e.CacheSync? && !e.Restart?
    ensures w.Stale() || ((e.Ready? || e.Recreate?) && !e.calls.updateAnnotation)
  {
    hide HandleReady, HandleTimedOut, CreatePod, RecreatePod;
    match e
    case Ready(c) =>
      if w.present && w.pending && !w.Stale() {
        StaleOnlyAfterFailedUpdate(w, c);
      }
    case TimedOut(c) =>
      if w.present && w.pending {
        TimedOutFacts(w, c);
      }
    case Create(c) => CreateFacts(w, c, true, false);
    case Recreate(c) => RecreateFacts(w, c);
    case _ =>
  }

  /** However long a run, a stale cache goes back to one failed update that nothing has made up for since. */
  lemma {:induction false} StaleTraced(w: World, run: seq<Event>, k: nat)
    requires k <= |run| && !w.Stale() && After(w, run, k).Stale()
    ensures exists j :: FailedUpdateSince(run, j, k)
  {
    hide Happen;
    StaleStep(After(w, run, k - 1), run[k - 1]);
    if After(w, run, k - 1).Stale() {
      StaleTraced(w, run, k - 1);
      var j :| FailedUpdateSince(run, j, k - 1);
      assert FailedUpdateSince(run, j, k);
    } else {
      assert FailedUpdateSince(run, k - 1, k);
    }
  }

  /** On every run that starts with a fresh cache, a condition that comes off an unmarked pod is due to a timeout
      whose pod is still terminating, or to an earlier failed update of the annotation. */
  lemma UnmarkedTraced(w: World, run: seq<Event>, k: nat)
    requires k < |run| && !w.Stale()
    requires Cleared(After(w, run, k), After(w, run, k + 1)) && !After(w, run, k + 1).annotated
    ensures (ClearsByTimeout(run[k]) && After(w, run, k + 1).deleting) || exists j :: FailedUpdateSince(run, j, k)
  {
    ClearedUnmarkedIff(After(w, run, k), run[k]);
    if After(w, run, k).Stale() {
      StaleTraced(w, run, k);
    }
    hide HandleReady;
  }

  // ----- no node is lost -----

  /** Annotation updates succeed, and a recreated pod that cannot be flagged is at least being deleted. */
  predicate UpdatesSucceed(e: Event)
  {
    ((e.Ready? || e.Recreate?) ==> e.calls.updateAnnotation) &&
    (e.Recreate? ==> e.calls.flagPending || !e.calls.remove.Refused?)
  }

  /** A node Couchbase Server knows and that is no longer pending carries its mark, so that it cannot be
      taken for one that never was initialized; unless its pod is being deleted. */
  predicate Accounted(w: World)
  {
    w.present && !w.deleting ==> !w.Stale() && (w.joined && !w.pending ==> w.annotated)
  }

  lemma StepAccounted(w: World, e: Event)
    requires Accounted(w) && UpdatesSucceed(e)
    ensures Accounted(Happen(w, e))
  {
    hide HandleReady, HandleTimedOut, CreatePod, RecreatePod;
    match e
    case Ready(c) =>
      if w.present && w.pending {
        ReadyAccounted(w, c);
      }
    case TimedOut(c) =>
      if w.present && w.pending {
        TimedOutFacts(w, c);
      }
    case Create(c) => CreateFacts(w, c, true, false);
    case Recreate(c) => RecreateFacts(w, c);
    case _ =>
  }

  lemma ReadyAccounted(w: World, c: Calls)
    requires w.present && w.pending && Accounted(w) && c.updateAnnotation
    ensures Accounted(HandleReady(w, c))
  {
    if w.deleting {
      assert HandleReady(w, c) == w;
    } else {
      hide HandleReady;
      StaleOnlyAfterFailedUpdate(w, c);
      ReadyKeepsPod(w, c);
      if Cleared(w, HandleReady(w, c)) {
        ClearedOnlyWhenDone(w, c);
      }
    }
  }

  lemma ReadyKeepsPod(w: World, c: Calls)
    requires w.present && w.pending
    ensures HandleReady(w, c).uid == w.uid
  {
    MarkedThenCleared(w, c);
    ExistingClusterOutcome(w, c);
    NewClusterOutcome(w, c);
    hide AlreadyInitialized, ForExistingCluster, ForNewCluster;
  }

  /** On runs whose annotation updates succeed, and whatever else fails, every node that Couchbase Server
      knows and whose pod is not being deleted is either still pending or annotated in Kubernetes. */
  lemma {:induction false} GoodUpdatesAccountForNodes(w: World, run: seq<Event>, k: nat)
    requires k <= |run| && Accounted(w)
    requires forall i | 0 <= i < k :: UpdatesSucceed(run[i])
    ensures Accounted(After(w, run, k))
  {
    if k > 0 {
      GoodUpdatesAccountForNodes(w, run, k - 1);
      StepAccounted(After(w, run, k - 1), run[k - 1]);
    }
  }

  // ----- only nodes are taken for nodes -----

  /** Whatever is marked, callable or recoverable is a node that Couchbase Server knows. */
  predicate Known(w: World)
  {
    w.cached || w.annotated || w.selfCallable || w.recoverable ==> w.joined
  }

  /** The cluster calls only nodes it knows callable and only their volumes recoverable, only nodes it knows are
      recreated, and pods are created under names that are neither. */
  predicate Plausible(w: World, e: Event)
  {
    match e
    case ClusterChange(callable, _, recoverable, _) => callable || recoverable ==> w.joined
    case Create(_) => !w.selfCallable && !w.recoverable
    case Recreate(_) => w.joined
    case _ => true
  }

  lemma RemoveKnown(w: World, r: Removal, volumes: bool)
    requires Known(w)
    ensures Known(Remove(w, r, volumes))
  {}

  lemma CreateKnown(w: World, c: Calls, volumes: bool, joined: bool)
    requires Known(w) && (joined || (!w.selfCallable && !w.recoverable))
    ensures Known(CreatePod(w, c, volumes, joined))
    ensures CreatePodOk(w, c) ==> CreatePod(w, c, volumes, joined).joined == joined
  {
    if !w.present && c.createPod && !c.flagPending {
      RemoveKnown(w.(uid := w.uid + 1, present := true, deleting := false, pending := c.flagPending,
                     annotated := false, cached := false, joined := joined), c.remove, volumes);
    }
    hide Remove;
  }

  lemma ReadyKnown(w: World, c: Calls)
    requires w.present && w.pending && Known(w)
    ensures Known(HandleReady(w, c))
  {
    if !w.cached && !c.initInitialMember {
      RemoveFacts(w.(selfCallable := true), c.remove, true);
      assert Remove(w.(selfCallable := true), c.remove, true).recoverable ==> w.recoverable;
    }
    hide Remove;
  }

  lemma StepKnown(w: World, e: Event)
    requires Known(w) && Plausible(w, e)
    ensures Known(Happen(w, e))
  {
    hide HandleReady, CreatePod, Remove;
    match e
    case Ready(c) =>
      if w.present && w.pending {
        ReadyKnown(w, c);
      }
    case TimedOut(c) => RemoveKnown(w, c.remove, true);
    case Create(c) => CreateKnown(w, c, true, false);
    case Recreate(c) =>
      RemoveKnown(w, c.delete, false);
      RemoveFacts(w, c.delete, false);
      CreateKnown(Remove(w, c.delete, false), c, false, w.joined);
    case _ =>
  }

  predicate PlausibleAt(w: World, run: seq<Event>, i: nat)
    requires i < |run|
  {
    Plausible(After(w, run, i), run[i])
  }

  lemma {:induction false} RunsKnown(w: World, run: seq<Event>, k: nat)
    requires k <= |run| && Known(w) && forall i | 0 <= i < k :: PlausibleAt(w, run, i)
    ensures Known(After(w, run, k))
  {
    hide Happen, Known, Plausible;
    if k > 0 {
      assert PlausibleAt(w, run, k - 1);
      RunsKnown(w, run, k - 1);
      StepKnown(After(w, run, k - 1), run[k - 1]);
    }
  }

  /** On every such run a pod that loses its condition, other than by a timeout, is a node that Couchbase Server
      knows. */
  lemma ClearedIsNode(w: World, run: seq<Event>, k: nat)
    requires k < |run| && Known(w) && forall i | 0 <= i <= k :: PlausibleAt(w, run, i)
    requires Cleared(After(w, run, k), After(w, run, k + 1)) && !run[k].TimedOut?
    ensures After(w, run, k + 1).joined
  {
    RunsKnown(w, run, k + 1);
    RunsClearOnlyWhenDone(w, run, k);
    hide Happen;
  }

  /** One failure-free pass makes a node of a new pod, whether or not there is a cluster. */
  lemma NewPodJoins(w: World, c: Calls)
    requires w.present && !w.deleting && w.pending && c.FailureFree()
    requires !w.cached && !w.selfCallable && !w.recoverable
    ensures var after := HandleReady(w, c); after.joined && after.annotated && !after.pending && after.id != ""
  {}

  /** While the cluster has no identifier a pass that does not get one leaves everything as it was or counts no member
      as callable, so that the next one starts the cluster again; a pass that gets one counts the new member. */
  lemma FailedStartForgotten(w: World, c: Calls)
    requires w.present && w.pending && w.id == ""
    ensures var after := HandleReady(w, c);
            if after.id == "" then after == w || after.CallableEmpty() else after.selfCallable && after.id == c.uuid
  {
    RemoveFacts(w.(selfCallable := true), c.remove, true);
    hide Remove;
  }

  /** A node that is callable already is neither initialised nor added again, and needs nothing but its mark; nor
      is one whose volumes are recoverable while no member can be called. */
  lemma KnownNodeNotAdded(w: World, c: Calls)
    requires w.present && !w.deleting && w.pending && w.id != "" && c.configFound
    requires w.selfCallable || (w.recoverable && !w.othersCallable)
    ensures var after := HandleReady(w, c);
            after.joined == w.joined && (c.updateAnnotation && c.clearCondition ==> after.annotated == (w.annotated || !w.cached) && !after.pending)
  {}

  /** A run of two passes that leaves Kubernetes without the annotation: the first pass fails to store it but
      leaves it in the cache, the second trusts the cache and takes the condition off. */
  lemma StaleCacheClears(good: Calls)
    requires good.FailureFree()
    ensures var w := World(0, true, false, true, false, false, true, false, true, false, "uuid");
            var run := [Ready(good.(updateAnnotation := false)), Ready(good)];
            Accounted(w) && Cleared(After(w, run, 1), After(w, run, 2)) &&
            !Accounted(After(w, run, 2))
  {
    var w := World(0, true, false, true, false, false, true, false, true, false, "uuid");
    var run := [Ready(good.(updateAnnotation := false)), Ready(good)];
    var first := HandleReady(w, run[0].calls);
    assert first == w.(cached := true);
    assert After(w, run, 0) == w;
    assert After(w, run, 1) == first;
    assert After(w, run, 2) == HandleReady(first, good);
  }

  /** A pod that is deleted with a grace period, before it was ever marked and with the cache in step: its timeout
      takes the condition off while it is still there, whether or not Couchbase Server knows the node. */
  lemma TimeoutClearsUnmarked(c: Calls, joined: bool)
    requires c.remove == Terminating(true) && c.clearCondition
    ensures var w := World(0, true, false, true, false, false, joined, false, false, false, "");
            var after := Happen(w, TimedOut(c));
            !w.Stale() && Cleared(w, after) && after.deleting && !after.annotated && after.id == "" && after.joined == joined
  {}
}
