# Couchbase operator: what its restore, reconcile and allocation logic guarantees

This project models the parts of the Couchbase Kubernetes operator in which one step relies on what many earlier
steps have done, and proves what holds over all inputs, all orders of iteration, all failures between two calls, and
whole runs.

* **Data topology restore** (`Names`, `Topology`, `TreeNodes`, `Walk`, `Merge`, `DeadCode`, `Splice`, `Compact`,
  `MergeSplice`, `CompactNodes`, `Restore`). Buckets, scopes and collections form a tree of mutable nodes. A
  requested tree is spliced into a copy of the current one, the two are merged side by side, dead nodes are dropped,
  and look-alike siblings are compacted into groups, in place, in reverse breadth-first order. Each method on nodes is
  tied to a function on plain trees; the lemmas say what those functions mean path by path.
* **Resources** (`LinkBuild`, `BuildNodes`, `LinkNodes`, `RoundTrip`). A tree is named and linked into resources, and
  built back from them.
* **From resources to resources** (`BuiltShape`, `ResourceMeaning`, `RestoreResources`). Trees built from resources
  have the shape that merging and compacting need, splicing keeps it, and what is compacted can always be linked. The
  new resources, read back with references followed and groups written out, give exactly the wanted topology.
* **Encryption keys** (`EncryptionKeys`, `OrderingLoop`, `KeyReconciler`). Keys are ordered by following chains of
  dependencies from arbitrary starting points; the loop that creates and updates them looks at direct dependencies only. How listings,
  secrets and requests turn out is an input.
* **Pods that wait to be initialised** (`PendingInit`). A pod is created, flagged, initialised, added, annotated and
  cleared, one attempt per cycle, with any call free to fail. A pod that is deleted stays for as long as its grace
  period lasts.
* **Buckets** (`Buckets`, `BucketRun`, `BucketOutcome`, `BucketSafety`). A plan is made, and carried out between
  granting and revoking access to credentials.
* **Scopes and collections** (`Scopes`, `ScopeServer`, `ScopeReconciler`, `Gathering`,
  `SkippedScopes`).
* **Allocation and selection** (`Listing`, `PodIndex`, `OfflineUpgrade`, `Migration`, `Janitor`,
  `JanitorRuns`).
* **Pruning of generated resource definitions** (`Prune`).

Nodes, clusters and servers that the source updates in place are classes whose methods reassign their fields; loops are
loops with invariants. What the source reads from other systems, and how every call that can fail turns out, is a
parameter; orders of iteration over maps are nondeterministic choices. `dafny verify dfyconfig.toml` checks everything.

## Where the code does something else than it says or means to

Each of these is kept as the code has it, and shown by a concrete input or state, delimited by a condition that is
proved to be exact, or both.

* `DeepEqual` says that it compares names, but does not. Compaction therefore treats scopes as equal that hold
  differently named single collections, and swaps their collections (`Compact.CollectionSwapped`). The meaning of a
  tree is kept if and only if no bucket is confusable in this way (`Compact.CompactionMeaning`).
* A default scope counts as implied because building has already removed its collection selector; dropping it drops its
  collections (`DeadCode.DefaultScopeCollectionLost`, `DeadCode.DropsOnlyEmptyDefaultsIff`).
* Compaction fails if and only if there are two or more buckets and it takes them all for equal, or some memcached
  bucket has two or more scopes and it takes these all for equal (`Compact.RefusedIff`, `Compact.EqualBucketsRefused`,
  `Compact.MemcachedScopesRefused`). It takes buckets for equal by their settings and those of their scopes and
  collections, position by position, and by names only where these end up in a group.
* A memcached bucket gets scopes when the merge strategy lays it over a bucket of its name, or when a save is spliced in
  below it, and in no other way (`RestoreResources.StrayScopesIff`). If compaction does not refuse them, as in
  `RestoreResources.MergedMemcachedRefused`, they are written as resources to which nothing refers
  (`ResourceMeaning.StrayScopesUnread`).
* Ordering keys does not end on two keys that are encrypted with each other (`OrderingLoop.TwoKeysNeverOrdered`). It
  ends, whatever keys it picks, if and only if the set is acyclic (`OrderingLoop.FinishesIffAcyclic`). The admission
  validator refuses cyclic sets (pkg/validator/v2/validator.go:8038-8041, 8145-8174), so that the code meets one only
  where validation has been bypassed.
* Marking a pod as initialised changes the cached copy before the update that can fail. The next pass trusts the cache
  and clears the pending condition without the mark (`PendingInit.StaleCacheClears`). And a pod whose initialisation
  has timed out loses the condition as soon as its deletion has been accepted, while the pod, which may be a node of
  the cluster by then, is still terminating (`PendingInit.TimeoutClearsUnmarked`). These two are exactly the ways to
  lose the condition unmarked (`PendingInit.ClearedUnmarkedIff`, `PendingInit.UnmarkedTraced`).
* An update during a migration carries the storage backend, the quota and the eviction policy alone. Any other
  difference is found again by every inspection until the migration is over, unless it is one of settings that only
  magma buckets have and the change of backend itself settles it (`BucketSafety.MigrationAchieves`,
  `BucketSafety.SecondInspection`). Creating a bucket never turns cross-cluster versioning on
  (`BucketSafety.CreationAchieves`), and an ordinary update never changes the conflict resolution
  (`BucketSafety.UpdateAchieves`).
* A skipped bucket whose request names a new credential loses the old one, which the server still uses
  (`BucketSafety.SkippedLosesCredential`, `BucketSafety.SafeAfterIff`).
* Pods are created concurrently and share one error variable, so that a success can be recorded as a failure and its
  index be handed out again (`PodIndex.IndexUsedTwice`). Calls of a given size are safe if and only if they create one
  pod each (`PodIndex.HarmlessSizeIff`, `PodIndex.RunsKeepApartIff`); for a larger one what is recorded is true under
  every interleaving if and only if all creations end alike (`PodIndex.TruthfulIff`).
* Scopes and collections are skipped by resource name where they are gathered and by their name on the server where
  they are deleted. A skipped scope that goes by another name on the server is deleted unless something else requests
  it, and so are the members of a skipped group (`SkippedScopes.SkippedScopeDeleted`); a skipped collection goes with its scope
  (`SkippedScopes.SkippedCollectionDeleted`), and a scope chosen by label is not skipped at all
  (`SkippedScopes.SelectedScopeNotSkipped`). `SkippedScopes.ScopeLeftAloneIff` and
  `SkippedScopes.CollectionLeftAloneIff` say exactly when one is left alone.
* Marking a log volume as detached changes the cached volume before the write that can fail. The write is not made up
  for by later passes (`JanitorRuns.RefusedMarkStays`) until the cached volume is refreshed, the volume replaced, or a
  pass sees its pod come or go (`JanitorRuns.OutOfLineIff`).
* With nodes named one by one and no limit set, migration stops once the first node named has been moved, and the
  cluster is declared ready (`Migration.ReadyTooEarly`, `Migration.GetMigrationCandidates`). So it is where an order of
  server classes is as long as the list of classes and names none of those the members left belong to
  (`Migration.ReadyTooEarlyByClass`, `Migration.ClassOrderMissesIff`).

## Model

| member | source | states |
|---|---|---|
| Names.CompareTrichotomy | pkg/certification/save_restore.go:2768-2795 | the three-way name comparison of the merge is equal, before or after, exactly one of them, and antisymmetric |
| Names.LessExactly | pkg/certification/save_restore.go:1380-1382 | names are ordered by the first character in which they differ, and a proper beginning comes first |
| Topology.InsertKeepsOrdered | pkg/certification/save_restore.go:1534-1538 | adding a child keeps siblings in name order, whatever its name |
| TreeNodes.Node.constructor | pkg/certification/save_restore.go:1520-1525 | a new node has no action and no children |
| TreeNodes.Node.AddChild | pkg/certification/save_restore.go:1534-1538 | the child stands behind all siblings that are not larger; all else stays |
| TreeNodes.Node.GetChild | pkg/certification/save_restore.go:1552-1561 | the first child of the name, or none if there is none |
| TreeNodes.Node.ClearChildren | pkg/certification/save_restore.go:1563-1566 | only the children go |
| TreeNodes.Node.DeepCopy | pkg/certification/save_restore.go:1569-1581 | the copy is made of fresh nodes and is the same tree |
| TreeNodes.Node.SetMergeAction | pkg/certification/save_restore.go:1589-1596 | every node of the tree and only those gets the action |
| TreeNodes.LiveNodes | pkg/certification/save_restore.go:1460-1482 | nodes that are neither deleted nor implied, in their order |
| TreeNodes.Node.DeadCode | pkg/certification/save_restore.go:1656-1664 | in place, dead nodes go at every level |
| Walk.BreadthFirstSearch | pkg/certification/save_restore.go:2436-2444 | every node of the tree comes before its children, and every node but the first after its parent; none comes twice |
| Walk.DeepEqual | pkg/certification/save_restore.go:1606-1627 | holds exactly if specifications and descendants agree, whatever the names |
| Walk.ChildrenDeepEqual | pkg/certification/save_restore.go:1405-1424 | holds exactly if the children agree pairwise |
| Walk.ChildrenMergeable | pkg/certification/save_restore.go:1428-1456 | holds exactly if all siblings agree with the first in specification and descendants |
| Merge.MergeDecides | pkg/certification/save_restore.go:2730-2814 | every path of the merged tree carries the requested specification if there is one, else the current, and the action that membership and equality call for; no other path exists |
| Merge.MergeChildrenFrom | pkg/certification/save_restore.go:2765-2814 | every merged child comes from one of the two sides, or from both under one name |
| Merge.MergeSorted | pkg/certification/save_restore.go:2765-2814 | merging two sorted trees gives a sorted tree |
| MergeSplice.MergeNodes | pkg/certification/save_restore.go:2730-2814 | the two-index walk over mutable nodes builds exactly the merged tree from fresh nodes and leaves both inputs alone |
| MergeSplice.MergeWhileBoth | pkg/certification/save_restore.go:2768-2795 | the side-by-side walk stops when one side is exhausted with exactly the rest still to add |
| DeadCode.PrunedAt | pkg/certification/save_restore.go:1656-1664 | a path is left exactly if no node on it is dead, and then unchanged |
| DeadCode.StaysExactly | pkg/apis/couchbase/v2/helpers.go:1699-1724 | what is not marked for deletion stays unless it is the default scope and says nothing of its collections, leaves them unmanaged, or keeps just the default one |
| DeadCode.RestoreLeaves | pkg/certification/save_restore.go:2730-2824 | after merging and dropping dead nodes a path carries what the strategy wants unless it lies in an implied scope |
| DeadCode.MergeLosesNothing | pkg/certification/save_restore.go:2730-2824 | strategy merge keeps exactly the current paths outside implied scopes |
| DeadCode.DropsOnlyEmptyDefaultsIff | pkg/apis/couchbase/v2/helpers.go:1699-1724 | only empty default scopes are dropped if and only if no default scope has collections |
| DeadCode.DefaultScopeCollectionLost | pkg/certification/save_restore.go:2580-2584 | merging a tree with itself loses the collection of a default scope |
| Splice.SpliceAt | pkg/certification/save_restore.go:2698-2724 | splicing succeeds exactly if the path exists; paths below it lead into the requested children, all others are as before |
| Splice.SpliceSorted | pkg/certification/save_restore.go:2698-2724 | splicing keeps a tree sorted |
| Splice.SpliceMergeRetains | pkg/certification/save_restore.go:2698-2814 | merging the current tree with its splice marks everything not strictly below the splice point as retained, for both strategies |
| MergeSplice.SpliceNodes | pkg/certification/save_restore.go:2698-2724 | on nodes: a fresh spliced tree, or failure exactly if the path does not exist; the current tree stays as it was |
| MergeSplice.SpliceBelow | pkg/certification/save_restore.go:2703-2722 | the node the path leads to, and nothing else, has its children swapped |
| Compact.BucketMeaning | pkg/certification/save_restore.go:2828-2915 | expanding a compacted bucket's groups gives the bucket back if and only if it is not confusable |
| Compact.CompactionMeaning | pkg/certification/save_restore.go:2819-2918 | whenever compaction succeeds it keeps the meaning of the tree if and only if no bucket is confusable |
| Compact.CollectionSwapped | pkg/certification/save_restore.go:1428-1456 | a tree whose compaction moves one scope's collection name into another scope |
| Compact.RefusedIff | pkg/certification/save_restore.go:2828-2907 | on every topology, compaction fails if and only if some memcached bucket has two or more scopes that are all taken for equal, or there are two or more buckets and each is alike to the first: equal settings, scopes and collections of equal settings position by position, and equal names where a group would list them |
| Compact.MemcachedScopesRefused | pkg/certification/save_restore.go:2904-2907 | a single memcached bucket with two empty scopes makes compaction fail |
| Compact.EqualBucketsRefused | pkg/certification/save_restore.go:2904-2907 | two or more equal buckets without children make compaction fail |
| CompactNodes.GroupChildren | pkg/certification/save_restore.go:2848-2915 | one node's mergeable children become one group that shares the first one's children, in place |
| CompactNodes.CompactInPlace | pkg/certification/save_restore.go:2828-2917 | rewriting in place over the reversed breadth-first list gives what compacting bottom-up means, and fails exactly if that does |
| CompactNodes.CompactTree | pkg/certification/save_restore.go:2819-2918 | copy, drop dead nodes, compact; the merged tree stays as it was |
| CompactNodes.FailureReachesRoot | pkg/certification/save_restore.go:2904-2907 | a node that cannot be compacted fails the whole tree |
| Restore.RootsMerge | pkg/certification/save_restore.go:2730-2814 | merging keeps buckets, scopes and collections each under what they belong to |
| Restore.PrunedRoot | pkg/certification/save_restore.go:1656-1664 | so does dropping dead nodes |
| Restore.RestoreStandsFor | pkg/certification/save_restore.go:1130-1215 | end to end on trees of the right shape, the compacted result stands for exactly the wanted paths and specifications outside implied scopes |
| Restore.RestoreTopology | pkg/certification/save_restore.go:1130-1215 | the pipeline on nodes gives that result, or fails exactly if the path is missing or compaction is refused |
| LinkBuild.BuiltAsLinked | pkg/certification/save_restore.go:2511-2626 | at every level, building a resource takes back what linking made of its tree |
| LinkBuild.BuildUndoesLink | pkg/certification/save_restore.go:2632-2693 | building gives back names, specifications and children, in whatever order resources are handed over and roots are looked at |
| LinkBuild.BuildSucceeds | pkg/certification/save_restore.go:2649-2676 | the resources of a linked tree pass every check of building |
| LinkBuild.FiledFiles | pkg/certification/save_restore.go:2649-2665 | resources of distinct names are filed under their level and name in any order, and nothing else is |
| LinkBuild.BuiltQualifies | pkg/certification/save_restore.go:2511-2626 | every tree that building makes has what the round trip asks for |
| LinkBuild.BuiltIff | pkg/certification/save_restore.go:2511-2626 | a resource can be built exactly if it is no group, names its children without a label selector or groups, and these are there one level further down and can be built; it then goes by its stored name and has no collection selector |
| BuildNodes.RecurseBuild | pkg/certification/save_restore.go:2511-2626 | adds exactly the resource's tree below the root; fails exactly if a selector, a group or a missing child is met |
| BuildNodes.Build | pkg/certification/save_restore.go:2632-2693 | the tree of all resources of the base level in some order; fails exactly on an unknown kind, an empty save, a level mismatch or a resource that cannot be built |
| LinkNodes.LinkNode | pkg/certification/save_restore.go:1797-1828 | refers to every child in order; fails exactly on a child of the wrong kind |
| LinkNodes.GenerateResourceNames | pkg/certification/save_restore.go:3185-3189 | every node gets a name no other node has |
| LinkNodes.NodesDescribed | pkg/certification/save_restore.go:3191-3206 | every listed node's resource describes the node's whole tree |
| LinkNodes.LinkedResolved | pkg/certification/save_restore.go:3191-3206 | every reference leads to exactly one resource, of the kind it says and of a kind its owner can have |
| LinkNodes.LevelsListed | pkg/certification/save_restore.go:3183-3206 | only resources of the root's children belong to the base level |
| LinkNodes.Link | pkg/certification/save_restore.go:3177-3209 | succeeds exactly if every node has children it can refer to; then references resolve, the resources describe the tree, groups included, the bucket resources are those of the root's children, and every resource that can have children has them managed and chosen by name |
| LinkNodes.LinkedSelected | pkg/certification/save_restore.go:2083-2113 | a scope resource says that its collections are managed, that some are chosen exactly if it refers to any, and not that the default collection is to be kept |
| BuiltShape.BuiltRootShape | pkg/certification/save_restore.go:2632-2693 | every tree that building makes is sorted, has the shape of its level and neither selectors nor deletions, if no two siblings share a name |
| BuiltShape.SpliceKeepsRoot | pkg/certification/save_restore.go:2698-2724 | splicing children of the level the path leads to into a topology gives a topology |
| BuiltShape.RestoreOfBuilt | pkg/certification/save_restore.go:1130-1215 | the end-to-end result for trees built from resources, with the splice computed and no shape assumed |
| ResourceMeaning.MeantAsDescribed | pkg/certification/save_restore.go:1797-1828 | following the references of a linked resource, as far as it is said to be managed, and writing groups out gives the tree it was linked from with its groups written out |
| ResourceMeaning.CompactedLinkable | pkg/certification/save_restore.go:1204-1214 | whatever compaction makes of a topology can be linked |
| ResourceMeaning.StrayScopesUnread | pkg/certification/save_restore.go:2005-2010 | a linked memcached bucket is read as its tree if and only if the tree has no scopes |
| RestoreResources.LinkedReadAsWanted | pkg/certification/save_restore.go:1130-1215 | resources that describe the compacted tree are read as exactly the wanted paths and specifications |
| RestoreResources.RestoreAndLink | pkg/certification/save_restore.go:1163-1214 | fails exactly if the path is missing or compaction is refused, never in linking; otherwise references resolve and, if no bucket is confusable or has stray scopes, the resources are read as exactly the wanted topology |
| RestoreResources.RestoreFromResources | pkg/certification/save_restore.go:1131-1214 | the same from the resources of the cluster and of the save; building fails only for the reasons building has |
| RestoreResources.StrayScopesIff | pkg/certification/save_restore.go:2698-2824 | after splicing, merging and dropping dead nodes a memcached bucket has scopes if and only if the path leads to it, or the merge strategy lays it over a bucket of its name, and there is a scope that is not implied |
| RestoreResources.MergedMemcachedRefused | pkg/certification/save_restore.go:2730-2907 | laying a memcached bucket over one with two empty scopes is refused |
| RoundTrip.LayeredLinkable | pkg/certification/save_restore.go:1797-1828 | a tree without groups whose nodes lie in layers can be linked |
| RoundTrip.LinkThenBuild | pkg/certification/save_restore.go:3177-3209 | linking, storing, listing in any order and building gives the same topology |
| EncryptionKeys.OrderKeysForCreation | pkg/cluster/ear.go:729-776 | on every acyclic set, from whatever starting keys, the result is a permutation with every dependency before its dependents, reached by a finished run of the loop that OrderingLoop reasons about |
| EncryptionKeys.EncryptersFirst | pkg/cluster/ear.go:729-776 | an automatically generated key comes after the key it says it is encrypted with, if that is among them |
| EncryptionKeys.PlaceChain | pkg/cluster/ear.go:765-770 | placing a chain back to front keeps dependencies first |
| EncryptionKeys.WalksEndIffAcyclic | pkg/cluster/ear.go:750-763 | following dependencies ends from every key if and only if the set is acyclic |
| OrderingLoop.FinishesIffAcyclic | pkg/cluster/ear.go:729-776 | the ordering loop, which deletes keys as it goes and starts from any of those left, is bounded under every choice if and only if the set is acyclic, and on a cyclic one it finishes under no choice |
| OrderingLoop.RunBounded | pkg/cluster/ear.go:740-773 | on an acyclic set no run takes more turns than a bound computed from its size |
| OrderingLoop.RunCaught | pkg/cluster/ear.go:740-773 | on a cyclic set no run gets rid of the keys of the cycle or of its current key |
| OrderingLoop.TwoKeysNeverOrdered | pkg/cluster/ear.go:750-763 | two keys on which no run finishes |
| KeyReconciler.Reconciler.ReconcileSingleEncryptionKey | pkg/cluster/ear.go:544-622 | with its dependency on the server a key that is missing or differs is asked for: accepted, it is on the server as wanted; pending on a credential file, it is put off; refused, the pass fails; nothing else changes and a missing dependency is never reported |
| KeyReconciler.Reconciler.CreateAndUpdateEncryptionKeys | pkg/cluster/ear.go:509-541 | on success exactly the keys not deferred are on the server as wanted and all others as they were; a failure leaves the keys up to it settled, is due to a refusal where it says so, and does not occur if no call fails |
| KeyReconciler.DeferredExactly | pkg/cluster/ear.go:34-50 | after success a key is deferred if and only if a chain of dependencies leads from it to a key that depends on one never requested, or whose own request was needed and met a missing credential file |
| KeyReconciler.WholeChainOnServer | pkg/cluster/ear.go:509-541 | every key that a key not deferred depends on, through any number of others, is on the server with its settings and usages |
| KeyReconciler.EverythingCreated | pkg/cluster/ear.go:509-541 | if nothing is missing and every request accepted, an empty server ends with exactly the requested keys as requested and none is deferred |
| KeyReconciler.SecondPassAsksNothing | pkg/cluster/ear.go:576-604 | nothing is asked again of a key that was not deferred |
| KeyReconciler.UsagesKept | pkg/util/couchbaseutil/types.go:2687-2713 | an update keeps every usage something is encrypted for permitted, grants every requested one and keeps no other |
| PendingInit.Operator.SetPodInitialized | pkg/util/k8sutil/pod_util.go:2693-2719 | the cached pod is annotated first; only the update can fail |
| PendingInit.Operator.HandleReadyPendingPod | pkg/cluster/cluster.go:1650-1701 | the pass routes a ready pending pod as the machine does |
| PendingInit.Operator.HandlePendingPodForExistingCluster | pkg/cluster/cluster.go:1703-1788 | initialise, add, then mark and clear, stopping at the first failure |
| PendingInit.Operator.HandlePendingPodForNewCluster | pkg/cluster/cluster.go:1807-1852 | configure the first member, persist the cluster identifier, then clear; a member that cannot be configured is asked to go and may be terminating for a while |
| PendingInit.Operator.HandleTimedOutPendingPod | pkg/cluster/cluster.go:1855-1884 | once the deletion is accepted the condition is cleared, also on a pod that is still terminating; if it is refused nothing changes |
| PendingInit.Operator.CreateAndFlagPod | pkg/cluster/pod.go:46-86 | a pod that cannot be flagged is asked to go; until then it stays, unflagged |
| PendingInit.Operator.RemovePod | pkg/cluster/pod.go:156-165 | a deletion is refused, leaves the pod terminating, or finds it gone at once; removal of volumes can still fail |
| PendingInit.Operator.DeleteAndRecreatePod | pkg/cluster/pod.go:171-219 | the new pod is flagged, and marked initialised because its volumes are kept |
| PendingInit.ClearedOnlyWhenDone | pkg/cluster/cluster.go:1650-1852 | the condition is cleared only with the identifier set and the mark in the cache; Kubernetes holds the mark if and only if the cache was not ahead of it |
| PendingInit.OneGoodPassFinishes | pkg/cluster/cluster.go:1650-1852 | from any state one failure-free pass ends with the pod not pending, marked and the identifier set |
| PendingInit.StaleOnlyAfterFailedUpdate | pkg/util/k8sutil/pod_util.go:2693-2719 | the cache gets ahead only through an update that failed |
| PendingInit.RunsClearOnlyWhenDone | pkg/cluster/cluster.go:1672-1884 | over every run of passes, timeouts, deletions, creations, restarts and outside changes: a condition cleared on a pod that is not terminating is cleared with the identifier set and the mark in the cache, and the mark is in Kubernetes if and only if the cache was not ahead; on a terminating one only a timeout clears it |
| PendingInit.ClearedUnmarkedIff | pkg/cluster/cluster.go:1672-1884 | an event clears the condition without the mark exactly if the pod is pending and unmarked, and it is a timeout with the pod still terminating or a pass that trusts a cache ahead of Kubernetes |
| PendingInit.StaleTraced | pkg/util/k8sutil/pod_util.go:2693-2719 | whenever the cache is ahead in a run, an annotation update has failed earlier in it, with neither a cache refresh nor a restart since |
| PendingInit.UnmarkedTraced | pkg/cluster/cluster.go:1672-1884 | over every run, a condition cleared without the mark goes back to such a failed update or to a timeout of a pod still terminating |
| PendingInit.TimeoutClearsUnmarked | pkg/cluster/cluster.go:1855-1884 | with a fresh cache a timeout clears an unmarked pod, also one that is a node by then, while it terminates |
| PendingInit.GoodUpdatesAccountForNodes | pkg/cluster/cluster.go:1650-1884 | if annotation updates succeed, and a recreated pod that cannot be flagged is at least accepted for deletion, then whatever else fails every node whose pod is not being deleted is pending or marked |
| PendingInit.ClearedIsNode | pkg/cluster/cluster.go:1650-1852 | over every run in which the cluster calls only nodes it knows callable or recoverable, a pod that loses its condition other than by a timeout is a node of the cluster |
| PendingInit.NewPodJoins | pkg/cluster/cluster.go:1703-1852 | one failure-free pass makes a node of a new pod, with or without a cluster to join |
| PendingInit.KnownNodeNotAdded | pkg/cluster/cluster.go:1680-1696 | a node that can be called, or recovered while nobody can be called, needs only its mark, whatever adding it would do |
| PendingInit.FailedStartForgotten | pkg/cluster/cluster.go:1807-1843 | a pass that does not get a cluster identifier leaves nobody counted as callable, or everything as it was |
| PendingInit.StaleCacheClears | pkg/cluster/cluster.go:1672-1680 | a run of two passes that leaves a node neither pending nor marked in Kubernetes |
| Buckets.InspectBuckets | pkg/cluster/bucket.go:733-894 | the five lists are those the verdicts on all requested and all existing buckets give |
| Buckets.FilterRequested | pkg/cluster/bucket.go:754-762 | buckets the server cannot know are left out, in order |
| BucketRun.BucketServer.GrantBackupServiceCredentialRoles | pkg/cluster/bucket.go:1062-1104 | grants only ever grow, and nothing is written if none is missing |
| BucketRun.BucketServer.RevokeBackupServiceCredentialRoles | pkg/cluster/bucket.go:1118-1151 | the granted set becomes the given one |
| BucketRun.BucketServer.ReconcileBuckets | pkg/cluster/bucket.go:1173-1230 | whatever call is refused the server has seen a beginning of grant, delete, create, update, revoke in this order, and all of it on success; it fails only if one of these calls is refused |
| BucketOutcome.RunEach | pkg/cluster/bucket.go:1181-1224 | a group of calls on distinct buckets touches every bucket at most once |
| BucketOutcome.RemovedOnce | pkg/cluster/bucket.go:837-891 | no bucket is deleted twice, and a selected one only to be created again with another type |
| BucketOutcome.PlanOutcome | pkg/cluster/bucket.go:1173-1224 | under every name the server ends with what the fields sent by the call its verdict asks for make of what was there |
| BucketSafety.NamesAfter | pkg/cluster/bucket.go:1173-1224 | the names left are the existing selected ones and the requested ones that are not skipped |
| BucketSafety.TypeChangeRecreates | pkg/cluster/bucket.go:837-840 | a requested bucket is deleted if and only if its type is to change, and then created again; it is created if and only if that is so or it is missing |
| BucketSafety.SkippedUntouched | pkg/cluster/bucket.go:779-783 | a skipped bucket is touched by no call while it is selected, and removed when it is not |
| BucketSafety.SecondInspection | pkg/cluster/bucket.go:733-894 | after a complete pass a second inspection creates and removes nothing, and wants exactly the updates again whose calls do not carry what differs |
| BucketSafety.CreationAchieves | pkg/util/couchbaseutil/types.go:1080-1260 | a created bucket is as requested if and only if cross-cluster versioning is not asked for |
| BucketSafety.UpdateAchieves | pkg/util/couchbaseutil/types.go:1080-1260 | when exactly an update brings a bucket to what is requested, field by field |
| BucketSafety.MigrationAchieves | pkg/util/couchbaseutil/types.go:978-1097 | an update during a migration does so exactly if all that differs is what it carries (backend, quota and, where no restart is asked for, eviction) or are settings of magma buckets which the bucket loses with that backend, or gets as requested by coming to it |
| BucketSafety.BracketKeepsSafe | pkg/cluster/bucket.go:1173-1226 | at every point before the revoke each bucket with continuous backup on has both the storage and the key credential it names granted, and no call needs one that is not |
| BucketSafety.CompletePass | pkg/cluster/bucket.go:1118-1151 | on success exactly the credentials of the requested buckets are granted |
| BucketSafety.GrantedAfter | pkg/cluster/bucket.go:1001-1010 | on success a credential is granted if and only if some selected bucket of a known type with continuous backup on names it for storage or keys |
| BucketSafety.SafeAfterIff | pkg/cluster/bucket.go:1118-1151 | after the revoke every bucket keeps its credentials if and only if those of skipped, sample, migrating and ignored buckets are still requested |
| BucketSafety.SkippedLosesCredential | pkg/cluster/bucket.go:1118-1151 | a state and request in which a skipped bucket loses its credential |
| BucketSafety.PassesStaySafe | pkg/cluster/bucket.go:1156-1230 | over any number of passes cut off anywhere no bucket is without a credential it names |
| Scopes.AlwaysRequested | pkg/cluster/collections.go:204-241 | there is always a default scope, and a system scope where the version has one |
| Scopes.UniqueByCouchbaseName | pkg/cluster/collections.go:560-571 | the first item of each name, in order |
| Scopes.Unique | pkg/cluster/collections.go:560-571 | no name twice and no name lost |
| Scopes.GatherScopes | pkg/cluster/collections.go:204-241 | references, then selections, then the scopes that must exist; Gathering says which names that comes to |
| Scopes.GatherCollections | pkg/cluster/collections.go:536-556 | likewise for one scope, with the default collection where it is to be preserved |
| Scopes.GatherExplicit | pkg/cluster/collections.go:245-297 | references in order, groups expanded, missing and skipped ones left out; Gathering says which resources that comes to |
| Scopes.GatherImplicit | pkg/cluster/collections.go:302-348 | selected resources before selected groups |
| Gathering.FoundExactly | pkg/cluster/collections.go:245-348 | references and selectors come to exactly the stored resources, and members of stored groups, that are referred to and not skipped or that are selected |
| Gathering.RequestedExactly | pkg/cluster/collections.go:204-348 | the requested names are exactly those of scopes and members of scope groups asked for, the default scope, and the system scope where there is one |
| Gathering.DeletedExactly | pkg/cluster/collections.go:132-149 | a scope is deleted if and only if it is there, nothing asks for it, it is neither of those that must exist and no skipped resource has its name |
| Gathering.GatheredExactly | pkg/cluster/collections.go:536-670 | what is gathered for a scope is asked for, with the settings of its resource or group, and nothing asked for is missing by name |
| Gathering.CollectionDeletedExactly | pkg/cluster/collections.go:429-460 | a collection of a managed scope is deleted if and only if nothing the scope asks for goes by its name and no skipped resource does |
| Gathering.AskedScopeThere | pkg/cluster/collections.go:104-197 | after a complete pass every scope asked for is there unless its name is skipped |
| Gathering.AskedCollectionThere | pkg/cluster/collections.go:429-530 | after a complete pass every collection a managed scope asks for is there, with settings asked for under its name |
| ScopeServer.NeverRemoved | pkg/cluster/collections.go:132-149 | no call a state calls for deletes the default scope, nor the system scope where there is one, nor touches the latter's collections |
| ScopeServer.SettledNames | pkg/cluster/collections.go:104-197 | with nothing skipped the scopes, and the collections of every managed scope, are exactly those gathered |
| ScopeServer.CreatedSettings | pkg/cluster/collections.go:429-530 | a new collection gets the time to live and history asked for where the version and backend know them, and the server's otherwise |
| ScopeServer.ChangedSettings | pkg/cluster/collections.go:429-530 | one already there keeps what cannot be changed and gets what is asked for, or the bucket's history, where it can |
| ScopeServer.SecondPass | pkg/cluster/collections.go:104-197 | after a complete pass nothing is created or deleted any more, and after two nothing is changed either, also with resources skipped |
| SkippedScopes.ScopeLeftAloneIff | pkg/cluster/collections.go:132-187 | no call in any state concerns a scope if and only if a skipped resource has its server name and nothing gathered manages its collections |
| SkippedScopes.CollectionLeftAloneIff | pkg/cluster/collections.go:132-530 | no call in any state concerns a collection, the deletion of its scope included, if and only if the scope is requested or skipped by its server name, and its collections are not managed, or the collection is unwanted and skipped by its server name, or what is wanted is skipped |
| SkippedScopes.LeftAloneStays | pkg/cluster/collections.go:104-197 | a collection left alone has the same settings after a complete pass |
| SkippedScopes.SkippedCollectionDeleted | pkg/cluster/collections.go:132-149 | a skipped collection that goes with its scope |
| SkippedScopes.SkippedNotWanted | pkg/cluster/collections.go:575-670 | no skipped collection resource is gathered, group members aside |
| SkippedScopes.SkippedScopeDeleted | pkg/cluster/collections.go:132-149 | a skipped scope with another name on the server, or the member of a skipped group, is deleted |
| SkippedScopes.SelectedScopeNotSkipped | pkg/cluster/collections.go:302-348 | a scope chosen by label is wanted whether it is skipped or not |
| ScopeReconciler.Server.DeleteScopes | pkg/cluster/collections.go:132-149 | exactly the scopes neither requested nor skipped go |
| ScopeReconciler.Server.CreateScopes | pkg/cluster/collections.go:151-168 | exactly the requested scopes that were missing and are not skipped are added, empty |
| ScopeReconciler.Server.ReconcileCollections | pkg/cluster/collections.go:429-530 | one managed scope's collections become those wanted and nothing else changes |
| ScopeReconciler.Server.ReconcileScopes | pkg/cluster/collections.go:104-197 | only calls that the state it found called for, in any order of iteration and however far it gets; on success everything is as it should be; it fails only if a call that the state called for is refused, or its scope is missing because its name is skipped |
| PodIndex.AlikeRecorded | pkg/cluster/member.go:439-456 | creations that all end alike are recorded truthfully under every interleaving |
| PodIndex.RecordedExactly | pkg/cluster/member.go:439-445 | a creation records an error if and only if the shared variable holds one when it looks and again when it records |
| PodIndex.SharedExactly | pkg/cluster/member.go:439-445 | the shared variable holds what the creation that finished last has left |
| PodIndex.TruthfulIff | pkg/cluster/member.go:439-456 | outcomes are recorded truthfully under every interleaving if and only if all end alike |
| PodIndex.NoFalseRollbackIff | pkg/cluster/member.go:459-472 | no interleaving takes a created pod's index back if and only if all creations end alike |
| PodIndex.CallKeepsApartIff | pkg/cluster/member.go:400-475 | wherever a call stops and whatever its writes do, it keeps the indexes of successfully created pods unique and the persisted one beyond them if and only if it takes back no created pod's index |
| PodIndex.RunsKeepApart | pkg/cluster/member.go:400-475 | over every run of calls that do not, no two successfully created pods share an index and the persisted index exceeds all |
| PodIndex.HarmlessSizeIff | pkg/cluster/member.go:400-475 | all calls that create so many pods are harmless if and only if it is one |
| PodIndex.RunsKeepApartIff | pkg/cluster/member.go:400-475 | all runs of calls that create so many pods each keep indexes unique if and only if it is one |
| PodIndex.AlikeHarmless | pkg/cluster/member.go:862-870 | creating a single pod is never harmful |
| PodIndex.IndexUsedTwice | pkg/cluster/member.go:439-472 | two calls that hand the same index out twice |
| PodIndex.Cluster.GetAvailableIndexes | pkg/cluster/cluster.go:1413-1454 | consecutive indexes from the persisted one, committed before they are used |
| PodIndex.Cluster.RecordOutcomes | pkg/cluster/member.go:439-456 | what the interleaved steps record through the shared variable |
| PodIndex.Cluster.CreateMembers | pkg/cluster/member.go:400-475 | one call moves index and pods as the machine says |
| OfflineUpgrade.OfflineUpgradeCandidates | pkg/cluster/member.go:159-235 | the choice, whatever order members are looked at in |
| OfflineUpgrade.ChosenLeavesOut | pkg/cluster/member.go:159-235 | nobody known to be ahead is chosen, and if anybody is, exactly as many needing it are left out as are to be kept, and those chosen are the first in upgrade order |
| OfflineUpgrade.BlockedIff | pkg/cluster/member.go:171-189 | the upgrade is blocked if and only if three of the target and the members differ in version, or in image where the version is unknown |
| OfflineUpgrade.PassSettles | pkg/cluster/member.go:98-235 | at most two versions after any part of a pass, and after a whole one the next chooses nobody and is not blocked |
| OfflineUpgrade.PassesKeep | pkg/cluster/member.go:98-235 | over any number of interrupted passes, with any upgrade order each time, never fewer than wanted stay on the previous version |
| OfflineUpgrade.RestampedCarries | pkg/cluster/member.go:239-270 | a member's volumes carry the target afterwards, others are untouched, and doing it again writes nothing |
| OfflineUpgrade.WakesOnTarget | pkg/cluster/member.go:239-270 | afterwards every volume of a member names the target's image and its version if that is known |
| OfflineUpgrade.Cluster.RestampVolumes | pkg/cluster/member.go:239-270 | every volume is as before or re-stamped, and all of the member's are on success |
| OfflineUpgrade.Cluster.ApplyPendingHibernationUpgrade | pkg/cluster/member.go:98-155 | a beginning of the chosen members is re-stamped, all of them on success, and nobody if blocked; it fails only if a write on a chosen member's volume does |
| Migration.GetMigrationCandidatesByServerClass | pkg/cluster/migration.go:650-675 | all members of the first class in the order that has any; none exactly if no member's class is in the order |
| Migration.GetMigrationCandidatesByNode | pkg/cluster/migration.go:738-776 | a beginning of the nodes named, and others only if all of these are included, up to the limit; none exactly if no limit is set and the first node named is not external any more |
| Migration.GetMigrationCandidates | pkg/cluster/migration.go:605-648 | external members that the strategy offers, as many as may leave; none exactly if there are none to replace or the strategy offers nobody |
| Migration.ChooseMembers | pkg/cluster/migration.go:551-582 | whatever the order, at most the limit, never all data nodes, and nobody left out who could come along |
| Migration.DataNodeExactly | pkg/cluster/migration.go:551-582 | a member runs the data service exactly if the class of its name does |
| Migration.Machine.HandleMigrateNodes | pkg/cluster/migration.go:534-594 | what a pass moves is offered and may move together, also if it is cut short; a pass without failure moves as many as may go, and nobody exactly if there is nobody next; it fails only if a member's class is gone, no pod can be added in its place, or the server group cannot be found |
| Migration.Machine.HandleMarkReady | pkg/cluster/migration.go:838-848 | the cluster is declared ready exactly if nobody is next |
| Migration.UnmanagedStay | pkg/cluster/migration.go:605-613 | a pass leaves the members that are to stay unmanaged |
| Migration.ReadyTooEarly | pkg/cluster/migration.go:738-757 | members are left to move but nobody is next |
| Migration.ClassOrderMissesIff | pkg/cluster/migration.go:650-675 | members whose classes exist are offered by no class order if and only if it is as long as the list of classes and names none of theirs |
| Migration.ReadyTooEarlyByClass | pkg/cluster/migration.go:650-675 | members are left to move but no class in the order has any |
| Janitor.Store.UpdateDetachedAnnotations | pkg/cluster/janitor.go:134-187 | exactly the volumes reached get the mark that follows from their pods, and those of them whose cached mark changes are written; one more may be marked in the cache alone; it succeeds if and only if every volume has a pod that can be looked up and every write needed is accepted |
| Janitor.Store.UpdateDetachedAnnotation | pkg/cluster/janitor.go:134-170 | the cached volume is marked before the write; if that is refused the stored one is as before |
| JanitorRuns.RunPass | pkg/cluster/janitor.go:174-187 | a call that updates the marks is a pass as the runs have it |
| JanitorRuns.OutOfLineIff | pkg/cluster/janitor.go:134-187 | over every run of passes, refreshes of the cache and replacements of volumes, a stored mark is out of line with the cached one if and only if its write was refused and since then the cached volume has not been refreshed, the volume not replaced, and no pass has seen its pod come or go |
| JanitorRuns.RefusedMarkStays | pkg/cluster/janitor.go:152-169 | a refused mark that any number of later passes does not write |
| Janitor.Store.DeleteTimedOutVolumes | pkg/cluster/janitor.go:191-227 | only expired volumes go, all of them on success, none without a retention time |
| Janitor.Store.DeleteOverCapacityVolumes | pkg/cluster/janitor.go:231-269 | the overflow goes, none of it detached later than one that stays, also if deleting is cut short |
| Janitor.FrontIsEarliest | pkg/cluster/janitor.go:250-266 | deleting from the front of the sorted list takes the earliest |
| Janitor.Store.CleanPeriodic | pkg/cluster/janitor.go:272-285 | no volume of an existing pod is ever deleted; on success cached marks are right, none is expired, no more than wanted are left, and what is stored has changed by exactly the marks written and the volumes deleted; it fails only if a mark or a deletion does |
| Prune.Get | scripts/crd-transform.go:53-79 | the first rule that matches |
| Prune.First | scripts/crd-transform.go:53-79 | a rule that matches with none before it, or none at all |
| Prune.MatchesExactly | scripts/crd-transform.go:53-79 | a rule stands for its own path, or after an asterisk for every path that ends with the rest, where its group and kind are blank or equal |
| Prune.RuleDecided | scripts/crd-transform.go:227-245 | discarding comes before changing and changing before keeping |
| Prune.PathDecides | scripts/crd-transform.go:227-288 | a rule for a path of keys joined by dots decides what is left there if no rule speaks of the way |
| Prune.MarkerReplaced | scripts/crd-transform.go:207-225 | the marker for an empty object is replaced where it is a default, and nothing else is |
| Prune.PruneValue | scripts/crd-transform.go:227-288 | in any order of fields, what pruning means |
| Prune.PrunedFull | scripts/crd-transform.go:247-284 | outside what is changed or kept whole no empty object, empty list or null is left |
| Prune.PrunedTwice | scripts/crd-transform.go:227-288 | pruning twice is pruning once, for every idempotent change |
| Prune.EmptyObjectDefaultIdempotent | scripts/crd-transform.go:219-225 | the change in use is idempotent |
| Prune.PrunedValues | scripts/crd-transform.go:227-288 | at every path of keys exactly the values stay that no rule on the way discards, changed where a rule changes them, in list order |

## Left out

- MergeSplice.SpliceBelow: is recursive where the source loops down the path, because the trees recorded for the nodes passed are brought up to date on the way back.
- TreeNodes.Node.AddChild: keeps siblings of equal names in order of arrival, where the source's sort promises no order among them; the theorems about merging assume distinct sibling names.
- BuildNodes.Build: treats a bucket or scope without a selection, on which the source would crash, as a failure.
- LinkNodes.Link: keeps resource names in a map instead of on the nodes' resources, and does not show labels, which are the same for all buckets.
- RoundTrip.LinkThenBuild: asks for names that a resource can carry; `LinkBuild.BuiltQualifies` shows that every tree built from resources has them.
- EncryptionKeys.OrderKeysForCreation: asks for an acyclic set, since on a cyclic one it does not end, as `OrderingLoop.FinishesIffAcyclic` shows.
- KeyReconciler.Reconciler.CreateAndUpdateEncryptionKeys: assumes that the server lists the keys it has created and that their order in the list stays; a key's configuration apart from its usages is one value, compared without the rotation time and passphrase that the source copies from the server before comparing.
- Gathering.RequestedExactly: asks that no two resources of a kind share a name, which Kubernetes guarantees.
- PendingInit.ClearedIsNode: asks that pods are recreated for nodes only and created under names without volumes, as their callers do.
- RestoreResources.RestoreAndLink: asks that building gives no two siblings one name, which the server guarantees of the live cluster; of a save edited by hand it need not hold.
- PendingInit.RunsClearOnlyWhenDone: does not cover migration clusters, which clear the condition even if annotating failed; name resolution, readiness and waiting times are outcomes of calls.
- BucketRun.BucketServer.ReconcileBuckets: shows the run with roles managed and the feature supported; otherwise the first and last call are missing.
- Buckets.InspectBuckets: keeps the settings that every ordinary call carries as one value, and those asked and reported of magma buckets only as another; that auto-compaction is requested by backend, how fields are defaulted when buckets are gathered and normalised by version is not modelled.
- BucketSafety.UpdateAchieves: speaks of buckets as gathering and status reports leave them, with settings of magma buckets, continuous backup among them, asked and reported for that backend only; a bucket that comes to it is taken to get the server's defaults for them.
- PodIndex.RunsKeepApart: does not count a pod that a creation reported as failed has left behind because its removal failed too, and does not model that Kubernetes refuses a second pod of the same name, nor a reset of the persisted state.
- ScopeServer.SecondPass: uses one storage backend where the source reads it from the status for changes and from the request for creation, and assumes that the server keeps settings that a call does not mention.
- OfflineUpgrade.Cluster.ApplyPendingHibernationUpgrade: does not model a member some of whose volumes were re-stamped before a failure and which is then rebuilt from them.
- Migration.GetMigrationCandidates: takes the members of the server group that comes first from outside, as any set of external members.
- Janitor.Store.CleanPeriodic: assumes that the cache follows deletions at once, one view of pods during one pass and times that can be read; marks are compared as times.
- Merge patches and the differences reported with them, tree dumps, prompts, events, logs and metrics.
- Filtering and collecting resources for a save, and the switch to new resources at the end of a restore.
- Paths parsed from the command line: splicing is shown for any list of names, although the parser (pkg/certification/save_restore.go:134-183) fills a shadowed variable and so leaves the list empty for every path it accepts.
- Kubernetes and Couchbase Server themselves, certificates, the scheduler and the rebalance machine.
- User and role reconciliation, backups, auto-compaction and the remaining commands and scripts.
