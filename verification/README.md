# dcron in Dafny

dcron is a distributed cron. Each node keeps its own task maps and a cron table, learns about tasks,
tombstones and other nodes from a shared registry, and asks the registry for a short-lived marker before it
executes a firing, so that one firing runs on one node. This project models five parts of it and proves what
they are for:

- **Execution markers.** `MarkerLock` is the abstract lock with skewed clocks and latency; `EtcdMarkers` and
  `RedisMarkers` are the two protocols, each proved to refine it; `MarkerKeys` has the marker keys and string ranges of
  etcd, `PathKeys` its other keys, and `EtcdNames` the names whose cleanup reaches a marker; `Stamps` has the calendar
  and the RFC 3339 texts in Redis's keys; `MarkerStores` has the store operations as methods; `Cleaning` joins the event
  cleaner's goroutines to the etcd protocol, `Firings` the schedulers, and `RegistryKeys` their registry to etcd's keys. Main results:
  `EtcdAtMostOnceExactly` and `RedisRfc3339Exactly`, which say for which clusters no (task, second) is ever granted
  twice, and `FiringsAtMostOnce`, that the firings of the schedulers execute exactly what was granted.
- **The scheduler of one node.** `Scheduler` gives every operation as a function on the node's state and proves
  one invariant over all runs; `Dcron` is the same scheduler as objects that share task objects and change in
  place, each method proved to do what the function says. `Tombstones` puts nodes together and proves that an
  executed one-shot stays quiet until somebody revives it.
- **Assignment.** `Assigners` has the five in-repository strategies as classes, proved against one ownership
  function; `Rebalance` proves what the rebalance loop reaches on one node and that the nodes of a cluster
  partition the live tasks; `NodeView` has the node list they agree on.
- **The event cleaner.** `EventCleaner` is the binary heap and the tick; `Pipeline` is the whole set of
  goroutines as a step machine with channels, lock, cancellation and shutdown.
- **The Consul task watch.** `ConsulWatch` is the snapshot-diff handler, the replica its events build, and the
  node that consumes them.

`Division` ties quotients and remainders to multiplication; `Lex` holds Go's string order, sorted name lists and decimal numerals; `Options` the option type.

Times are unbounded integers in nanoseconds. The CRC, the JSON decoder and the test whether cron accepts a format
are arbitrary functions. Registry calls that may fail carry their outcome as a parameter, so every result holds for
every pattern of failures unless it says otherwise. A division by zero and a nil dereference are outcomes of
the model, not preconditions.

## Where the code does not do what its comments say

- `task.go:101` reads the id of the existing task even when there is none, so a Put event for an unknown name crashes
  the node. `FeedFollows` gives the exact condition under which a feed of events is survived.
- A Put that keeps the cron format leaves the old task object registered with cron: its new flags and payload are
  stored but not used (`PutKeepsRegistration`). `PutFreshExactly` says exactly when cron runs the metadata of the Put.
- `README.md:599` gives cleaning up precedence over marking; `dcron.go:158-165` does the reverse. `CleanupOnlyAlone`
  says exactly which flags lead to a cleanup.
- Marking an unknown name still writes a tombstone that reusing then refuses to remove (`MarkThenReuseExactly`).
- etcd's string range deletes more than the interval when timestamps differ in width (`RangeDeleteOvershoots`).
- `ForceCleanupTask` and `RemoveTaskDeleted` delete a live marker when a name is chosen so: etcd's for a name that reads
  like a marker or climbs to one with double dots (`SafeNamesExactly`, `ClimbingName`), Redis's for a name that ends in
  a stamp (`RedisRfc3339Exactly`).
- The weighted strategy divides by zero when the weights add up to a multiple of 2^32, zero included
  (`DividesAlways`, `Dcron.Node.DoRebalanced`).
- A change of node weights alone, and a change hidden by commas in node ids, is never noticed (`ChangeSeen`,
  `CommaHidesChange`).
- A name with an empty, dot or double-dot path element is not read back after it was marked deleted
  (`MarkListsExactly`): its tombstone stands for another name, or leaves the tombstone directory and lands on a task key
  or a marker.
- Consul's Delete event loses a leading slash of the name, so such a task never leaves the replica, and the task behind
  the slash is dropped though it is listed (`WatchFollowsExactly`, `InnocentDropped`).
- `README.md:786` says that only a few hash slots move when a node joins. `SlotStaysExactly` says which slots stay when
  it joins at any position, and `StayingSlots` how many: in an evenly divided table half of them move when it joins at
  either end of the sorted list (`HalfTheSlotsMove`), and at least a quarter wherever it joins.
- Shutdown of the cleaner hands over events that are not yet due (`ShutdownHandsEarly`, `ShutdownDueExactly`), and cancellation loses batches
  (`CancelDrops`, `NothingLostExactly`); `EtcdAtMostOnceExactly` counts cancellation among what breaks at-most-once.

## Model

| member | source | states |
|---|---|---|
| `MarkerLock.SkewBound` | driver.go:64-65 | Clock offsets within sigma and 1s + 2 sigma + latency at most 5s imply the pairwise bound of the lock |
| `MarkerLock.StepKeepsInv` | dcron.go:128-150 | Every step of the abstract lock keeps: no slot logged twice, and an executed slot is held or too old to be asked for again |
| `MarkerLock.LockAtMostOnce` | dcron.go:105-117 | In every run of a bounded cluster no (task, second) slot is executed twice |
| `MarkerKeys.MarkerKeyInjective` | etcd.go:425-428 | Marker keys of different (second, task) pairs differ, whatever the task name contains |
| `MarkerKeys.EraSuffixReads` | etcd.go:425-428 | Ten digits without a leading zero and a dash are read back as a marker's second and task |
| `MarkerKeys.CleanupKeyHits` | etcd.go:516-530 | The execution key deleted with a task is a marker exactly when the task's name reads timestamp, dash, name |
| `MarkerKeys.BoundOrder` | etcd.go:495-505 | Comparing a bound string with a marker string equals an arithmetic comparison of truncated timestamps, for all widths and names |
| `MarkerKeys.RangeDeleteRemoves` | etcd.go:495-505 | Exactly which markers the string range deletes, for every pair of bounds and every marker |
| `MarkerKeys.RangeDeleteIsInterval` | etcd.go:495-505 | With timestamps of one width the string range is the interval [start, end) |
| `MarkerKeys.RangeDeleteOvershoots` | etcd.go:495-505 | For all bounds of one width a marker far past the end is deleted too, if it has one more digit |
| `MarkerStores.EtcdStore.CanRunTask` | etcd.go:423-455 | True exactly when the slot was free; that slot and no other becomes held; the cleaner gets the sampled clock; it is the protocol's create step |
| `MarkerStores.EtcdStore.BatchDeleteExecKeys` | etcd.go:457-471 | Removes exactly the listed keys, or nothing when the transaction fails |
| `MarkerStores.EtcdStore.CleanupHistory` | etcd.go:495-513 | Which keys survive the history cleanup; which slots do, for timestamps of any width; an interval among ten-digit ones |
| `MarkerStores.EtcdStore.ForceCleanupTask` | etcd.go:516-530 | Deletes three keys; for a safe name every marker of the era stays |
| `MarkerStores.RedisStore.CanRunTask` | redis.go:456-465 | True exactly when the slot's key, built from task, colon and stamp, is not live; it then lives five seconds to the instant; no other slot's key is touched |
| `MarkerStores.EtcdStore.ForceCleanupAllTasks` | etcd.go:533-550 | Leaves no marker, no task and no tombstone, and every key outside their directories |
| `EtcdNames.JoinedHitsExactly` | etcd.go:516-520 | A joined key is a marker if and only if the name, resolved element by element on its directory, ends in the marker directory with a marker's text |
| `EtcdNames.SafeNamesExactly` | etcd.go:516-561 | Which names are safe to clean up and to reuse, read off the name alone |
| `EtcdNames.PlainNamesSafe` | etcd.go:516-561 | A plain name is safe to reuse, and safe to clean up unless it starts like a marker |
| `EtcdNames.ClimbingName` | etcd.go:516-520 | Every marker of a task without a slash is the task key of some name |
| `EtcdMarkers.HistoryTakesOldSlots` | etcd.go:495-505 | Every slot the history cleanup removes is old enough for the lock to release |
| `EtcdMarkers.StepRefines` | etcd.go:423-561 | Each etcd step, with all three deletes of a forced cleanup, the delete of a reuse and the puts of tasks and tombstones, is a step of the abstract lock on the slots whose keys exist |
| `EtcdMarkers.EtcdRefinesLock` | etcd.go:423-561 | Every etcd run, with cleaner, history cleanup, forced cleanup and reuse, is a run of the lock |
| `EtcdMarkers.EtcdAtMostOnce` | etcd.go:423-455 | No slot is executed twice in any etcd run of a bounded cluster whose cleanable and reusable names are safe, without full cleanup and cancellation |
| `EtcdMarkers.EtcdAtMostOnceExactly` | etcd.go:423-561 | All runs execute at most once if and only if the cluster is bounded, no name that may be cleaned up or reused reaches a marker, nobody calls `ForceCleanupAllTasks` and no cleaner is cancelled |
| `Cleaning.HandedBatchCleans` | event_cleaner.go:210-220 | A batch that a node's cleaner hands over before cancellation is a run of the protocol's pop and delete steps, enabled on that node's clock, that removes exactly its keys |
| `Firings.FiringExecutesExactly` | dcron.go:128-146 | A firing executes if and only if its task is not marked deleted and the protocol grants the marker; otherwise no node and no registry entry changes |
| `Firings.ExecutionsAreLog` | dcron.go:119-172 | In every run of schedulers and markers together the executions are exactly those the protocol granted |
| `Firings.FiringsAtMostOnce` | dcron.go:105-117 | In every such run of a bounded, undisturbed cluster no task is executed twice in one second |
| `Firings.RegistryIsInEtcd` | etcd.go:255-263 | In every such run over plain names, etcd holds the task key and the tombstone key of a name if and only if the registry that the schedulers see says so |
| `RegistryKeys.KeysApart` | etcd.go:20-24 | No key of the task, tombstone or marker directory is a key of another, and within one the name decides |
| `RegistryKeys.RangeSpares` | etcd.go:495-505 | The range of the history cleanup holds no task and no tombstone, whatever its bounds |
| `RegistryKeys.CleanAgrees` | etcd.go:516-530 | A forced cleanup of a plain name removes its task and its tombstone from registry and keys alike |
| `Stamps.TextReads` | redis.go:457 | The text of a valid time, read by position, is year, month, day, hour, minute, second and zone with the separators of RFC 3339 |
| `Stamps.SuffixReads` | redis.go:457 | The zone is Z, or a sign and the offset in hours and minutes |
| `Stamps.NextDateIsNextDay` | redis.go:457 | The date after a date is numbered one day later |
| `Stamps.MonthTable` | redis.go:457 | After how many days of the year each month ends |
| `Stamps.DaysBeforeClosed` | redis.go:457 | The days before a year, with every fourth year leap, but not the hundredth, but the four hundredth |
| `Stamps.ZeroIs1970` | redis.go:457 | The instant zero in UTC is midnight of the first of January 1970 |
| `Stamps.InstantCounts` | redis.go:457 | Instants count seconds, and a zone shifts the local time by its minutes |
| `RedisMarkers.Rfc3339KeyReads` | redis.go:456-457 | The key of a slot is prefix, task, colon and a text that reads as the local time of its second |
| `Stamps.DaysOfInjective` | redis.go:457 | Different calendar dates are different days |
| `Stamps.TimeOfInstant` | redis.go:457 | Every valid local time in a zone is the time of exactly its instant |
| `Stamps.StampedInjective` | redis.go:457 | Name, time and zone are read back from name, colon and RFC 3339 text |
| `Stamps.Rfc3339Readable` | redis.go:457 | RFC 3339 stamps are readable after any name, for every second and zone |
| `Stamps.EndsStampedExactly` | redis.go:457 | A name ends in a stamp if and only if it ends in a colon, the text of a valid time and the offset in force at that instant |
| `RedisMarkers.MarkerKeyInjective` | redis.go:456-457 | Marker keys of different tasks, seconds or zones differ, whatever the task name contains |
| `RedisMarkers.RedisRefinesLock` | redis.go:432-465 | Every Redis run, with forced cleanup, of a cluster whose nodes agree on the zone of each second, with safe names, is a run of the same lock, expiry being release |
| `RedisMarkers.RedisAtMostOnce` | redis.go:432-465 | No slot is executed twice in any Redis run of a bounded cluster whose nodes agree on the zone of each second, with safe names |
| `RedisMarkers.RedisAtMostOnceExactly` | redis.go:432-465 | For any readable stamps: all runs execute at most once if and only if the cluster is bounded, its nodes agree on the zone of every second they can write, daylight saving included, and no name that may be cleaned up ends in a stamp |
| `RedisMarkers.RedisRfc3339Exactly` | redis.go:432-465 | The same for RFC 3339 stamps, with the name condition read off the text |
| `Lex.SortNames` | task.go:226-230 | The names in strictly increasing order, each once, independent of map order |
| `Lex.ListsUnique` | task.go:226-230 | A set of names has one sorted listing |
| `Scheduler.MergeOnlyAdds` | task.go:129-156 | A reload adds each missing task once with id 0 and touches no known one |
| `Scheduler.MarkIsUnschedule` | dcron.go:425-448 | Marking through the id in allTasks removes the same cron entry as the id in assignedTasks |
| `Scheduler.DeleteEventIsForget` | task.go:116-124 | A Delete event does what a cleanup does locally, except that the tombstone stays |
| `Scheduler.PutReschedules` | task.go:87-114 | A Put that changes the format of a task with an id unschedules and replaces it |
| `Scheduler.PutKeepsRegistration` | task.go:87-114 | A Put that keeps the format leaves the old object in cron, and its flags decide what follows a firing |
| `Scheduler.PutFreshExactly` | task.go:87-114 | Every live entry of the name carries the metadata of the Put if and only if the task was unassigned, or the format changed, or nothing changed |
| `Scheduler.CleanupOnlyAlone` | dcron.go:156-172 | After an execution the task is gone from node and registry if and only if it asks for a cleanup and is neither a one-shot nor asks to be marked; it is marked if and only if one of those |
| `Scheduler.DoKeepsInv` | task.go:76-125 | Every operation keeps the scheduler invariant, whatever the registry answers |
| `Scheduler.RunKeepsInv` | dcron.go:119-172 | A firing with its mark or cleanup keeps the scheduler invariant |
| `Scheduler.ReachableKeepsInv` | dcron.go:245-469 | The invariant holds after any sequence of operations |
| `Scheduler.ReachableScheduling` | task.go:216-279 | In every reachable state live cron ids and assigned names correspond one to one, both maps agree, unassigned ids are dead, ids are distinct and at most the last one, and each entry runs on the format now stored |
| `Scheduler.IdsNeverReused` | task.go:259-265 | Once an id was given out and left cron, no sequence of operations brings it back |
| `Scheduler.OthersUntouched` | dcron.go:265-469 | An operation about one name leaves every other name's task, id, assignment, cron entries, tombstones and registry entry as they were |
| `Scheduler.FailureLeavesNode` | dcron.go:265-469 | A refusal changes nothing; after a failed registry call the node is as before, except exactly for a reuse |
| `Scheduler.SuccessMeans` | dcron.go:265-469 | Where the name stands, on the node, in cron and in the registry, after each operation that succeeded |
| `Scheduler.PutStores` | task.go:87-114 | A Put stores its metadata; the id survives unless the cron format changed |
| `Rebalance.RebalanceCountsIds` | task.go:259-265 | A rebalance gives out exactly as many new ids as it assigns tasks |
| `Scheduler.AnswersExactly` | dcron.go:265-469 | Which answer each operation gives, as an if-and-only-if on the state and the registry's replies |
| `Scheduler.FailureLeavesRegistry` | dcron.go:265-469 | What a failed operation leaves in the registry |
| `Scheduler.FailedFollowUp` | dcron.go:156-172 | After an execution whose registry call fails everything is as before |
| `Rebalance.AddedThenFired` | task.go:19-45 | A task added, scheduled and fired once is marked and unscheduled if and only if it was added as a one-shot |
| `Dcron.Node.AddTask` | task.go:11-45 | Adds an unknown, unmarked task with name, format and one-shot flag; answers deleted or existed otherwise |
| `Dcron.Node.AddTaskMeta` | dcron.go:265-297 | Checks, then registry, then the local map; a failed registry call changes nothing |
| `Dcron.Node.ForceAddTask` | dcron.go:300-324 | Unschedules and replaces the task, clears its tombstones; one-shots alike |
| `Dcron.Node.ForceAddTaskMeta` | dcron.go:364-401 | As force-add, and stores the metadata; a failed put leaves the node as it was and the registry cleaned |
| `Dcron.Node.ReuseDeletedTask` | dcron.go:404-422 | Refuses unmarked and unknown names; else drops the tombstone locally even if the registry fails |
| `Dcron.Node.MarkTaskDeleted` | dcron.go:425-448 | Registry tombstone first; a known task leaves cron and the assigned map and is marked |
| `Dcron.Node.CleanupTask` | dcron.go:451-469 | The task leaves cron, all three maps and the registry |
| `Dcron.Node.Run` | dcron.go:119-172 | Executes if and only if the marker was granted and the name is not marked deleted; else node and registry are unchanged; then marks, or else cleans up, by the registered object's flags |
| `Dcron.Node.ForceCleanupAllTasks` | dcron.go:580-597 | Empties the maps and the registry and removes the entries of all assigned tasks |
| `Dcron.Node.HandlePut` | task.go:80-114 | The Put handler on shared objects, with the crash on an unknown name |
| `Dcron.Node.HandleDelete` | task.go:116-124 | The Delete handler on shared objects |
| `Dcron.Node.ReloadTasks` | task.go:129-156 | The reload loop equals the merge of the listed tasks |
| `Dcron.Node.ReloadDeletedTasks` | task.go:187-197 | The local tombstones become exactly the names read |
| `Dcron.Node.Decide` | task.go:246-278 | One decision of the loop, in place, and what it adds to the counters |
| `Dcron.Node.DoRebalanced` | task.go:216-284 | The loop with its assigner reaches the specified state with the right counters, and panics exactly when a live task meets a division by zero |
| `Dcron.Node.ReloadNodes` | dcron_internal.go:77-114 | Takes over the sorted listing exactly when the checksum of the joined ids changed |
| `NodeView.JoinInjective` | dcron_internal.go:87-94 | Joined ids determine the id list when ids are non-empty and without commas |
| `NodeView.ChangeSeen` | dcron_internal.go:87-112 | A change is reported if and only if the set of ids changed and the two joined strings do not collide |
| `NodeView.CommaHidesChange` | dcron_internal.go:87-112 | An id with a comma and its two halves are indistinguishable under every checksum |
| `NodeView.SortById` | dcron_internal.go:85 | The listing in order of ids, as a permutation |
| `NodeView.SortedOrderUnique` | dcron_internal.go:85 | Nodes with distinct ids have one sorted order, so members given the same nodes hold the same list |
| `Tombstones.TombLostExactly` | etcd.go:516-561 | The exact set of steps that remove a registry tombstone |
| `Tombstones.BlockLostExactly` | dcron.go:404-469 | The exact set of steps that remove a local tombstone; a firing never does |
| `Tombstones.RunKeepsClusterInv` | dcron.go:245-469 | In every interleaved run every node keeps the scheduler invariant |
| `Tombstones.OwnNodeNeverAgain` | dcron.go:132-172 | A node that executed and marked a task executes it again only after one of its own steps removed the local tombstone, whatever the registry does |
| `Tombstones.NeverAgainUntilRevived` | dcron.go:132-172 | With fresh reads, neither that node nor any node that has reloaded since executes the task before a reuse, force-add or cleanup revives it |
| `PathKeys.KeyExactly` | etcd.go:255-262 | A joined key is the directory followed by the name if and only if the name has no empty, dot or double-dot element, for every directory |
| `PathKeys.MarkListsExactly` | etcd.go:347-381 | A name marked deleted is listed again if and only if it is plain, and then no other name changes |
| `PathKeys.RemoveUnlists` | etcd.go:552-561 | Removing the tombstone of a plain name removes that name from the listing and no other |
| `PathKeys.PutKeepsTombstones` | etcd.go:255-263 | Storing a task under a plain name leaves the listed tombstones alone |
| `PathKeys.TrailingSlashShares` | etcd.go:347-363 | Every name shares its tombstone key with the name and a slash |
| `PathKeys.TombstoneStore.MarkTaskDeleted` | etcd.go:347-363 | On plain names, adding to the set of listed names; a name that is not plain is not listed |
| `PathKeys.TombstoneStore.RemoveTaskDeleted` | etcd.go:552-561 | On plain names, removing from the set of listed names |
| `PathKeys.TombstoneStore.GetDeletedTaskNames` | etcd.go:366-381 | The names of exactly the keys under the tombstone directory |
| `Assigners.ResidueExactly` | assigner.go:100-112 | The residue is i if and only if the hash is i more than a multiple of the modulus |
| `Assigners.HashesShared` | assigner.go:100-112 | Of all 2^32 hashes any two residues get the same number, give or take one |
| `Assigners.ShardingPicks` | assigner.go:100-112 | When the hash is k times the node count and i more, node i owns the task |
| `Assigners.SlotsPick` | assigner.go:242-256 | When the hash is k times the slot count and s more, the node whose block holds slot s owns the task |
| `Assigners.WeightedPicks` | assigner.go:364-382 | When the hash is k times the total weight and r more, the node whose interval holds r owns the task |
| `Assigners.HashShardingAssigner.ShouldRun` | assigner.go:100-112 | Yes exactly for the node at the remainder of the hash, said by multiplication |
| `Assigners.BlockStartClosed` | assigner.go:216-233 | Node i's block starts at i*q + min(i, r) |
| `Assigners.BlocksFill` | assigner.go:216-233 | The blocks end exactly at the slot count, so the guard never cuts one short |
| `Assigners.BlocksPartition` | assigner.go:216-233 | Every slot lies in exactly one node's block |
| `Assigners.BlocksEven` | assigner.go:216-233 | Block sizes differ by at most one |
| `Assigners.SlotStaysExactly` | assigner.go:204-238 | When a node joins at any position of the sorted list, a slot keeps its owner if and only if it lies on its owner's side of the new boundary |
| `Assigners.TableKeepsExactly` | assigner.go:204-238 | In the tables built before and after, a slot holds the same id if and only if it stays |
| `Assigners.StayingSlots` | assigner.go:204-238 | In an evenly divided table, the exact number of slots that stay when a node joins at position p |
| `Assigners.HalfTheSlotsMove` | assigner.go:204-238 | Exactly half of all slots have the same owner with one more node at the end, for every number of nodes |
| `Assigners.HashSlotAssigner.UpdateNodes` | assigner.go:204-238 | Every slot holds the id of its block's node; without nodes the slots stay |
| `Assigners.HashSlotAssigner.ShouldRun` | assigner.go:242-256 | Yes exactly for the id in the slot at the remainder of the hash, said by multiplication, or a panic for a slot count that wraps to zero |
| `Assigners.RangeAssigner.UpdateNodes` | assigner.go:288-314 | The entries hold the neighbouring ids as bounds |
| `Assigners.RangeAssigner.ShouldRun` | assigner.go:316-331 | The scan answers for the first matching range |
| `Assigners.RangesPartition` | assigner.go:288-331 | Over sorted non-empty ids exactly one range matches each name, the owner's |
| `Assigners.RangeOwnerIsFirst` | assigner.go:288-331 | The first match is the lower bound of the name among the first N-1 ids |
| `Assigners.RangeMonotone` | assigner.go:288-331 | Later names never go to earlier nodes |
| `Assigners.WeightedAssigner.UpdateNodes` | assigner.go:353-362 | The total is the sum of the weights |
| `Assigners.WeightedAssigner.ShouldRun` | assigner.go:364-382 | Yes exactly for the node whose interval holds the remainder of the hash, said by multiplication, or a panic |
| `Assigners.WeightOwnerFound` | assigner.go:375-381 | The countdown stops at a node exactly when some prefix sum exceeds the residue |
| `Assigners.WeightedAlwaysOwned` | assigner.go:364-382 | When the final return is never reached, as a condition on weights and modulus |
| `Assigners.WeightedInterval` | assigner.go:375-381 | With non-negative weights the owner is the one node whose prefix-sum interval holds the residue |
| `Assigners.WeightedShare` | assigner.go:353-382 | Each node owns exactly as many residues as its weight |
| `Assigners.RoundRobinAssigner.ShouldRun` | assigner.go:409-420 | The k-th question is answered for node k modulo N and the index advances |
| `Assigners.DividesAlways` | assigner.go:100-112 | A strategy divides by zero on one question exactly when it does on every question |
| `Assigners.ExactlyOneYes` | assigner.go:100-112 | Under each usable strategy exactly one of the nodes with distinct ids answers yes |
| `Rebalance.RebalanceReachesTarget` | task.go:216-279 | After the loop the assigned names are exactly the live, owned tasks with an accepted format, whatever was assigned before |
| `Rebalance.RebalanceCounts` | task.go:231-284 | The counters are the owned tasks, the newly assigned and the unassigned ones |
| `Rebalance.MovedBalances` | task.go:231-284 | Assigned before, plus assigned, minus unassigned, is assigned after |
| `Rebalance.RebalanceIdempotent` | task.go:216-279 | A second rebalance with unchanged inputs changes nothing |
| `Rebalance.RebalanceForgetsHistory` | task.go:216-279 | The assigned set depends on tasks, tombstones and nodes alone |
| `Rebalance.AssignedToOwner` | task.go:216-279 | In an agreeing cluster a live task is assigned to exactly the node the strategy names |
| `Rebalance.ClusterPartition` | task.go:216-279 | The nodes' assigned sets are pairwise disjoint and together are the live tasks, for all five strategies |
| `Rebalance.RoundRobinClosedForm` | assigner.go:401-420 | The k-th live task in sorted order goes to node k modulo N in every rebalance |
| `Rebalance.MarkThenReuseRestores` | dcron.go:404-448 | Mark, any rebalances, reuse, rebalance: the assigned set, the other tombstones and the registry are as if nothing had happened |
| `Rebalance.MarkThenReuseExactly` | dcron.go:404-448 | The registry is restored exactly when the node knows the name |
| `EventCleaner.SiftUp` | event_cleaner.go:16-24 | Pushing keeps heap order and the events |
| `EventCleaner.SiftDown` | event_cleaner.go:26-32 | Popping keeps heap order and the events |
| `EventCleaner.RootIsEarliest` | event_cleaner.go:165 | No event of a heap precedes its root |
| `EventCleaner.EventCleaner.Push` | event_cleaner.go:142-144 | The heap gains exactly the event |
| `EventCleaner.EventCleaner.Pop` | event_cleaner.go:165-167 | The heap loses exactly its root, which no event precedes |
| `EventCleaner.StopMissesNone` | event_cleaner.go:164-182 | Stopping at the first event that is not due leaves no due event |
| `EventCleaner.EventCleaner.Tick` | event_cleaner.go:159-190 | A tick takes out exactly the events whose time plus delay has come, with multiplicity, earliest first, in full batches and possibly one shorter, none empty |
| `Pipeline.MoveConserves` | event_cleaner.go:124-243 | No step of any goroutine creates or loses an event without accounting for it |
| `Pipeline.MoveKeepsInv` | event_cleaner.go:124-243 | Every step keeps conservation, channel bounds, batch sizes and due-ness |
| `Pipeline.NothingLostBeforeCancel` | event_cleaner.go:124-190 | Before cancellation the sent events are those in channels, hand, heap, batch and handed over, with multiplicity |
| `Pipeline.NeverHandedTwice` | event_cleaner.go:151-243 | In every run, shutdown included, no event is handed over more often than sent |
| `Pipeline.HandedOnlyWhenDue` | event_cleaner.go:159-190 | Before cancellation an event is handed over only when it is at least the delay old |
| `Pipeline.TickLeavesNoneDue` | event_cleaner.go:164-182 | When a tick ends no event due at its start is left in the heap |
| `Pipeline.TickTakesExactlyDue` | event_cleaner.go:159-190 | In every interleaved run a tick pops exactly those events of the heap it locked whose time plus delay is at most the clock it read before, earliest first |
| `Pipeline.FirstInFirstOut` | event_cleaner.go:124-243 | In every run events are received in the order accepted and batches handed over in the order sent |
| `Pipeline.NothingLostExactly` | event_cleaner.go:124-243 | In every run the sent events are those in flight and handed over if and only if no earlier move gave up a waiting batch or shut down with a non-empty heap and a full channel |
| `Pipeline.ShutdownDueExactly` | event_cleaner.go:192-204 | Shutdown sends on due events only if and only if the whole heap is due or the channel is full |
| `Pipeline.ShutdownHandsEarly` | event_cleaner.go:192-204 | For every event there is a run whose shutdown hands it over at once |
| `Pipeline.CancelDrops` | event_cleaner.go:170-190 | For every due event and every batch size there is a run in which cancellation loses it |
| `ConsulWatch.TaskWatch.Begin` | consul.go:435-459 | The first listing: decodable pairs are stored and announced in order |
| `ConsulWatch.TaskWatch.CollectPuts` | consul.go:487-514 | One Put for each new or changed decodable key and nothing else |
| `ConsulWatch.TaskWatch.CollectDeletes` | consul.go:517-533 | One Delete for each key that is gone and nothing else |
| `ConsulWatch.AnnouncesOnce` | consul.go:444-459 | The first listing is announced with one Put for each decodable pair |
| `ConsulWatch.BatchMinimal` | consul.go:487-533 | A Put in a batch has a key that is new or a value that changed, a Delete a key that went, and between equal listings the batch is empty |
| `ConsulWatch.TaskWatch.Handle` | consul.go:475-537 | The handler sends exactly the changes between the listings, tells nothing twice, and keeps the new one |
| `ConsulWatch.TaskWatch.Watch` | consul.go:427-537 | The first listing and then the handler on each further one: whoever replays the channel follows the last listing |
| `ConsulWatch.TrimExactly` | consul.go:521-524 | Trimming gives the name back if and only if it does not start with a slash |
| `ConsulWatch.FirstIsBatch` | consul.go:444-459 | The first announcements are the changes from nothing |
| `ConsulWatch.BatchFollows` | consul.go:475-537 | One batch, replayed in any order, carries a replica from one listing to the next |
| `ConsulWatch.WatchFollows` | consul.go:444-537 | After any sequence of listings over names without a leading slash the replica agrees with the last one on every decodable key and holds no key it lacks |
| `ConsulWatch.WatchFollowsExactly` | consul.go:444-537 | Over a set of names that is right in every history if and only if none of them starts with a slash |
| `ConsulWatch.InnocentDropped` | consul.go:517-533 | Between any two listings, when a slashed name goes, the task behind the slash is dropped from the replica though it is listed and unchanged |
| `ConsulWatch.AnyOrder` | consul.go:487-533 | A batch in another order is as good |
| `ConsulWatch.DeleteReplayedExactly` | consul.go:517-533 | A task listed and then gone leaves the replica if and only if its name does not start with a slash |
| `ConsulWatch.FeedFollows` | task.go:76-125 | A node survives a feed if and only if every Put names a task known at the start and not deleted earlier in the feed; its tasks are then the replica |

## Left out

- The consistent-hash strategy: its ring is in a library that is not part of this model.
- The CRC polynomial: an arbitrary 32-bit function of the string stands for it; ids and names are taken byte by byte.
- Cron expressions and firing times: cron is a table with increasing ids, an add that may be refused, and a remove; a firing may happen at any time.
- Execution of the task's own handler, error handlers and panics in it: a firing is one step, the handler's effect is not modelled.
- Interleaving inside one node's operations: each operation, and each registry call with the local change that follows it, is one step.
- Network plumbing of the registries (clients, sessions, leases, health checks, watch reconnection, JSON), the ZooKeeper registry, and Consul's markers.
- Consul's node watch (consul.go:267-366): the same diff without decoding and trimming, whose events only prompt a reload; it would add easy members.
- Scheduler, Dcron and Tombstones keep tasks and tombstones by name, which is what etcd does for plain names (`RegistryIsInEtcd`); `PathKeys` says which names are plain and what happens to the others.
- Redis's `RemoveTaskDeleted` (redis.go:467-472), which removes every tombstone: tombstones follow etcd.
- Redis's task scan (redis.go:260-300) and node update (redis.go:110-150).
- Start, Stop, signals, logging, options, and a node that restarts with empty maps.
- Go's 64-bit overflow of times and of summed weights; the uint32 conversion of moduli is modelled.
- EtcdMarkers.EtcdAtMostOnceExactly: timestamps are those of the years 2001 to 2286, and node keys, whose ids the program makes itself, are not in the store.
- RedisMarkers.RedisRfc3339Exactly: years have four digits and zones are whole minutes; `ForceCleanupAllTasks` and `RemoveTaskDeleted` delete hashes outside the marker prefix and are not among the steps.
- MarkerStores.RedisStore.CanRunTask: stamps are readable, which excludes years of more than four digits.
- Tombstones.TombLostExactly: tombstones are kept by name, so two names that share a key are not seen to share it.
- Tombstones.NeverAgainUntilRevived: every reload reads the registry's tombstones at that step; a failed or stale read is covered by OwnNodeNeverAgain, where it counts as a step that may remove a local tombstone.
- Pipeline.NothingLostBeforeCancel: the handler is called on another goroutine and may fail; handed over means passed to it.
- ConsulWatch.WatchFollows: values decode to a task of the key's name, as `PutTask` stores them, and the watch is not cancelled.
- ConsulWatch.TaskWatch.Begin: the list call itself may fail, and then no watch exists.
