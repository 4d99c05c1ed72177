/** The etcd form of the lock: string keys created in a transaction, deleted by the delayed cleaner, by the
    ten-minute history cleanup, by `ForceCleanupTask` and by `RemoveTaskDeleted`. Task and tombstone keys live in the
    same store, and a name may place them on a marker. */
module EtcdMarkers {
  import opened MarkerKeys
  import opened EtcdNames
  import PathKeys
  import Lock = MarkerLock

  const YEAR: int := 365 * 24 * 3600 * Lock.SECOND
  const HISTORY: int := 600 * Lock.SECOND

  /** `cleanable` holds the names anyone may pass to `ForceCleanupTask`, by a cleanup or a force-add; `reusable` those
      that anyone may pass to `RemoveTaskDeleted`, by a reuse. Any name may be stored or marked deleted. `wipes` says
      that somebody may call `ForceCleanupAllTasks`, `cancels` that a cleaner may be cancelled while the cluster runs. */
  datatype Cluster = Cluster(
    timing: Lock.Cluster,
    cleanable: set<string>,
    reusable: set<string>,
    wipes: bool,
    cancels: bool)

  /** `queued` events wait in the cleaner of the node that created the marker; `due` events were
      popped and their deletion is on its way. An event is named by the attempt that sent it. */
  datatype State = State(
    now: int,
    keys: set<string>,
    pending: multiset<Lock.Attempt>,
    queued: multiset<Lock.Attempt>,
    due: multiset<Lock.Attempt>,
    log: seq<Lock.Execution>)

  /** A history cleanup has read the clock for each of its two bounds some time before it deletes. */
  datatype Action =
    | Advance(elapsed: nat)
    | Sample(node: string, task: string)
    | Abandon(attempt: Lock.Attempt)
    | CanRunTask(attempt: Lock.Attempt)
    | CanRunTaskUnseen(attempt: Lock.Attempt)
    | PopDue(event: Lock.Attempt)
    | DeleteKey(event: Lock.Attempt)
    | HistoryCleanup(node: string, start: nat, end: nat)
    | ForceCleanupTask(name: string)
    | RemoveTaskDeleted(name: string)
    | PutTask(name: string)
    | MarkTaskDeleted(name: string)
    | ForceCleanupAllTasks
    | ShutdownPop(event: Lock.Attempt)
    | LoseEvent(event: Lock.Attempt)

  ghost function KeyOf(a: Lock.Attempt): string
    requires Era(Lock.Unix(a.clock))
  {
    MarkerKey(Lock.Unix(a.clock), a.task)
  }

  /** What the range delete of the history cleanup leaves. */
  ghost function Surviving(keys: set<string>, start: int, end: int): set<string> {
    set k | k in keys && !InKeyRange(k, BoundKey(start), BoundKey(end))
  }

  /** What the three prefix deletes of `ForceCleanupAllTasks` leave. */
  ghost function Unwiped(keys: set<string>): set<string> {
    set k | k in keys && !(PathKeys.DirOf(PathKeys.TASK_DIR) <= k) && !(PathKeys.DirOf(PathKeys.DELETED_DIR) <= k)
            && !(EXEC_PREFIX <= k)
  }

  ghost predicate FromCluster(c: Cluster, a: Lock.Attempt) {
    a.node in c.timing.offset && Era(Lock.Unix(a.clock))
  }

  /** The cleaner's test, on the clock of the node that created the marker. */
  ghost predicate Due(c: Cluster, now: int, e: Lock.Attempt) {
    e.node in c.timing.offset && now + c.timing.offset[e.node] - e.clock >= Lock.HOLD
  }

  ghost predicate Enabled(c: Cluster, s: State, a: Action) {
    match a
    case Advance(_) => true
    case Sample(node, _) =>
      node in c.timing.offset && Era(Lock.Unix(s.now + c.timing.offset[node]))
    case Abandon(t) => t in s.pending
    case CanRunTask(t) => t in s.pending && FromCluster(c, t) && Lock.Timely(c.timing, s.now, t)
    case CanRunTaskUnseen(t) => t in s.pending && FromCluster(c, t) && Lock.Timely(c.timing, s.now, t)
    case PopDue(e) => e in s.queued && Due(c, s.now, e)
    case DeleteKey(e) => e in s.due && FromCluster(c, e)
    case HistoryCleanup(node, start, end) =>
      && node in c.timing.offset && Era(start) && Era(end)
      && end <= Lock.Unix(s.now + c.timing.offset[node] - HISTORY)
    case ForceCleanupTask(name) => name in c.cleanable
    case RemoveTaskDeleted(name) => name in c.reusable
    case PutTask(_) => true
    case MarkTaskDeleted(_) => true
    case ForceCleanupAllTasks => c.wipes
    case ShutdownPop(e) => c.cancels && e in s.queued
    case LoseEvent(e) => c.cancels && e in s.queued
  }

  ghost function Apply(c: Cluster, s: State, a: Action): State
    requires Enabled(c, s, a)
  {
    match a
    case Advance(elapsed) => s.(now := s.now + elapsed)
    case Sample(node, task) =>
      s.(pending := s.pending + multiset{Lock.Attempt(node, task, s.now + c.timing.offset[node])})
    case Abandon(t) => s.(pending := s.pending - multiset{t})
    case CanRunTask(t) =>
      if KeyOf(t) in s.keys then s.(pending := s.pending - multiset{t})
      else s.(pending := s.pending - multiset{t},
              keys := s.keys + {KeyOf(t)},
              queued := s.queued + multiset{t},
              log := s.log + [Lock.Execution(t.node, Lock.SlotOf(t))])
    case CanRunTaskUnseen(t) =>
      s.(pending := s.pending - multiset{t}, keys := s.keys + {KeyOf(t)})
    case PopDue(e) => s.(queued := s.queued - multiset{e}, due := s.due + multiset{e})
    case DeleteKey(e) => s.(due := s.due - multiset{e}, keys := s.keys - {KeyOf(e)})
    case HistoryCleanup(_, start, end) => s.(keys := Surviving(s.keys, start, end))
    case ForceCleanupTask(name) => s.(keys := s.keys - ForceKeys(name))
    case RemoveTaskDeleted(name) => s.(keys := s.keys - {PathKeys.DeletedKey(name)})
    case PutTask(name) => s.(keys := s.keys + {PathKeys.TaskKey(name)})
    case MarkTaskDeleted(name) => s.(keys := s.keys + {PathKeys.DeletedKey(name)})
    case ForceCleanupAllTasks => s.(keys := Unwiped(s.keys))
    case ShutdownPop(e) => s.(queued := s.queued - multiset{e}, due := s.due + multiset{e})
    case LoseEvent(e) => s.(queued := s.queued - multiset{e})
  }

  ghost predicate Init(s: State) {
    && s.keys == {} && s.pending == multiset{} && s.queued == multiset{}
    && s.due == multiset{} && s.log == []
  }

  ghost predicate Runs(c: Cluster, s: State, acts: seq<Action>, end: State)
    decreases |acts|
  {
    if acts == [] then end == s
    else Enabled(c, s, acts[0]) && Runs(c, Apply(c, s, acts[0]), acts[1..], end)
  }

  // ---------- refinement of the lock ----------

  /** A slot is held while its key exists. */
  ghost function View(s: State): Lock.State {
    Lock.State(s.now, Held(s.keys), s.pending, s.log)
  }

  ghost function Held(keys: set<string>): iset<Lock.Slot> {
    iset slot: Lock.Slot | Era(slot.second) && MarkerKey(slot.second, slot.task) in keys
  }

  /** No cleanup and no reuse that somebody may ask for deletes a marker of the era. */
  ghost predicate SafeNames(c: Cluster) {
    && (forall name :: name in c.cleanable ==> SafeToClean(name))
    && (forall name :: name in c.reusable ==> SafeToReuse(name))
  }

  /** Nothing in the cluster deletes a marker before its time. */
  ghost predicate Undisturbed(c: Cluster) {
    SafeNames(c) && !c.wipes && !c.cancels
  }

  ghost predicate WellFormed(c: Cluster, s: State) {
    && (forall e :: e in s.pending || e in s.queued || e in s.due ==> FromCluster(c, e))
    && (forall e :: e in s.due ==> Due(c, s.now, e))
  }

  /** What the lock does while etcd takes a step; bookkeeping steps are not seen. */
  ghost function Seen(c: Cluster, s: State, a: Action): seq<Lock.Action>
    requires Enabled(c, s, a)
  {
    match a
    case Advance(elapsed) => [Lock.Advance(elapsed)]
    case Sample(node, task) => [Lock.Sample(node, task)]
    case Abandon(t) => [Lock.Abandon(t)]
    case CanRunTask(t) => [Lock.Acquire(t)]
    case CanRunTaskUnseen(t) => [Lock.AcquireUnseen(t)]
    case PopDue(_) => []
    case DeleteKey(e) => [Lock.Release(iset{Lock.SlotOf(e)})]
    case HistoryCleanup(_, _, _) => [Lock.Release(Held(s.keys) - Held(Apply(c, s, a).keys))]
    case ForceCleanupTask(_) => []
    case RemoveTaskDeleted(_) => []
    case PutTask(_) => [Lock.Occupy(Held(Apply(c, s, a).keys))]
    case MarkTaskDeleted(_) => [Lock.Occupy(Held(Apply(c, s, a).keys))]
    case ForceCleanupAllTasks => []
    case ShutdownPop(_) => []
    case LoseEvent(_) => []
  }

  lemma HeldAfterCreate(keys: set<string>, t: Lock.Attempt)
    requires Era(Lock.Unix(t.clock))
    ensures Held(keys + {KeyOf(t)}) == Held(keys) + iset{Lock.SlotOf(t)}
    ensures Lock.SlotOf(t) in Held(keys) <==> KeyOf(t) in keys
  {
    forall slot: Lock.Slot | Era(slot.second) && MarkerKey(slot.second, slot.task) == KeyOf(t)
      ensures slot == Lock.SlotOf(t)
    {
      MarkerKeyInjective(slot.second, slot.task, Lock.Unix(t.clock), t.task);
    }
  }

  lemma HeldAfterDelete(keys: set<string>, t: Lock.Attempt)
    requires Era(Lock.Unix(t.clock))
    ensures Held(keys - {KeyOf(t)}) == Held(keys) - iset{Lock.SlotOf(t)}
  {
    forall slot: Lock.Slot | Era(slot.second) && MarkerKey(slot.second, slot.task) == KeyOf(t)
      ensures slot == Lock.SlotOf(t)
    {
      MarkerKeyInjective(slot.second, slot.task, Lock.Unix(t.clock), t.task);
    }
  }

  /** Deleting keys that are no markers releases nothing. */
  lemma HeldAfterOther(keys: set<string>, gone: set<string>)
    requires forall key :: key in gone ==> !IsEraMarker(key)
    ensures Held(keys - gone) == Held(keys)
  {
    forall slot: Lock.Slot | Era(slot.second) ensures MarkerKey(slot.second, slot.task) !in gone {
      MarkerIsEraMarker(slot.second, slot.task);
    }
  }

  lemma TakenBeforeEnd(keys: set<string>, start: nat, end: nat, slot: Lock.Slot)
    requires Era(start) && Era(end) && slot in Held(keys) && slot !in Held(Surviving(keys, start, end))
    ensures slot.second < end
  {
    EraWidth(start);
    EraWidth(end);
    EraWidth(slot.second);
    RangeDeleteIsInterval(start, end, slot.second, slot.task);
  }

  lemma OldEnough(c: Cluster, now: int, node: string, end: int, slot: Lock.Slot)
    requires node in c.timing.offset && slot.second < end <= Lock.Unix(now + c.timing.offset[node] - HISTORY)
    ensures Lock.Releasable(c.timing, now, slot)
  {
    Lock.UnixAbove(slot.second, now + c.timing.offset[node] - HISTORY);
  }

  /** The string range of the history cleanup only takes slots ten minutes old on the cleaning node. */
  lemma HistoryTakesOldSlots(c: Cluster, s: State, a: Action, slot: Lock.Slot)
    requires a.HistoryCleanup? && Enabled(c, s, a) && slot in Held(s.keys) && slot !in Held(Apply(c, s, a).keys)
    ensures Lock.Releasable(c.timing, s.now, slot)
  {
    TakenBeforeEnd(s.keys, a.start, a.end, slot);
    OldEnough(c, s.now, a.node, a.end, slot);
  }

  lemma StepKeepsWellFormed(c: Cluster, s: State, a: Action)
    requires Undisturbed(c) && WellFormed(c, s) && Enabled(c, s, a)
    ensures WellFormed(c, Apply(c, s, a))
  {
    var s' := Apply(c, s, a);
    forall e | e in s'.pending || e in s'.queued || e in s'.due ensures FromCluster(c, e) {
      assert e in s.pending || e in s.queued || e in s.due || a.Sample?;
    }
    forall e | e in s'.due ensures Due(c, s'.now, e) {
      assert e in s.due || a.PopDue?;
    }
  }

  /** One etcd step is zero or one step of the lock. */
  lemma StepRefines(c: Cluster, s: State, a: Action)
    requires Undisturbed(c) && WellFormed(c, s) && Enabled(c, s, a)
    ensures Lock.Runs(c.timing, View(s), Seen(c, s, a), View(Apply(c, s, a)))
  {
    match a
    case Advance(_) => SeenOnce(c, s, a);
    case Sample(_, _) => SeenOnce(c, s, a);
    case Abandon(_) => SeenOnce(c, s, a);
    case CanRunTask(t) => CreateRefines(c, s, a);
    case CanRunTaskUnseen(t) => CreateRefines(c, s, a);
    case PopDue(_) =>
    case DeleteKey(e) => DeleteRefines(c, s, e);
    case HistoryCleanup(_, _, _) => HistoryRefines(c, s, a);
    case ForceCleanupTask(_) => RemoveRefines(c, s, a);
    case RemoveTaskDeleted(_) => RemoveRefines(c, s, a);
    case PutTask(_) => PutRefines(c, s, a);
    case MarkTaskDeleted(_) => PutRefines(c, s, a);
    case _ =>
  }

  lemma RemoveRefines(c: Cluster, s: State, a: Action)
    requires SafeNames(c) && Enabled(c, s, a) && (a.ForceCleanupTask? || a.RemoveTaskDeleted?)
    ensures Lock.Runs(c.timing, View(s), [], View(Apply(c, s, a)))
  {
    HeldAfterOther(s.keys, if a.ForceCleanupTask? then ForceKeys(a.name) else {PathKeys.DeletedKey(a.name)});
  }

  /** A stored key may stand where a marker would; that only keeps a slot from being taken. */
  lemma PutRefines(c: Cluster, s: State, a: Action)
    requires a.PutTask? || a.MarkTaskDeleted?
    ensures Lock.Runs(c.timing, View(s), Seen(c, s, a), View(Apply(c, s, a)))
  {
    var s' := Apply(c, s, a);
    assert Held(s.keys) + Held(s'.keys) == Held(s'.keys);
    SeenOnce(c, s, a);
  }

  lemma CreateRefines(c: Cluster, s: State, a: Action)
    requires Enabled(c, s, a) && (a.CanRunTask? || a.CanRunTaskUnseen?)
    ensures Lock.Runs(c.timing, View(s), Seen(c, s, a), View(Apply(c, s, a)))
  {
    HeldAfterCreate(s.keys, a.attempt);
    SeenOnce(c, s, a);
  }

  lemma DeleteRefines(c: Cluster, s: State, e: Lock.Attempt)
    requires WellFormed(c, s) && Enabled(c, s, DeleteKey(e))
    ensures Lock.Runs(c.timing, View(s), Seen(c, s, DeleteKey(e)), View(Apply(c, s, DeleteKey(e))))
  {
    HeldAfterDelete(s.keys, e);
    assert Due(c, s.now, e);
    assert s.now + c.timing.offset[e.node] >= Lock.SlotOf(e).second * Lock.SECOND + Lock.HOLD;
    SeenOnce(c, s, DeleteKey(e));
  }

  lemma HistoryRefines(c: Cluster, s: State, a: Action)
    requires a.HistoryCleanup? && Enabled(c, s, a)
    ensures Lock.Runs(c.timing, View(s), Seen(c, s, a), View(Apply(c, s, a)))
  {
    var s' := Apply(c, s, a);
    assert Held(s'.keys) == Held(s.keys) - (Held(s.keys) - Held(s'.keys));
    forall slot | slot in Held(s.keys) - Held(s'.keys)
      ensures Lock.Releasable(c.timing, s.now, slot)
    {
      HistoryTakesOldSlots(c, s, a, slot);
    }
    SeenOnce(c, s, a);
  }

  /** A run of the lock with one action. */
  lemma SeenOnce(c: Cluster, s: State, a: Action)
    requires Enabled(c, s, a) && |Seen(c, s, a)| == 1
    requires Lock.Enabled(c.timing, View(s), Seen(c, s, a)[0])
    requires Lock.Apply(c.timing, View(s), Seen(c, s, a)[0]) == View(Apply(c, s, a))
    ensures Lock.Runs(c.timing, View(s), Seen(c, s, a), View(Apply(c, s, a)))
  {
    assert Seen(c, s, a)[1..] == [];
  }

  /** Every etcd run is a run of the lock. */
  lemma {:induction false} EtcdRefinesLock(c: Cluster, s: State, acts: seq<Action>, end: State)
    returns (seen: seq<Lock.Action>)
    requires Undisturbed(c) && WellFormed(c, s) && Runs(c, s, acts, end)
    ensures Lock.Runs(c.timing, View(s), seen, View(end))
    decreases |acts|
  {
    if acts == [] {
      seen := [];
    } else {
      StepKeepsWellFormed(c, s, acts[0]);
      StepRefines(c, s, acts[0]);
      var rest := EtcdRefinesLock(c, Apply(c, s, acts[0]), acts[1..], end);
      seen := Seen(c, s, acts[0]) + rest;
      Lock.RunsCompose(c.timing, View(s), Seen(c, s, acts[0]), View(Apply(c, s, acts[0])), rest, View(end));
    }
  }

  // ---------- at most once, and exactly when ----------

  ghost predicate AlwaysAtMostOnce(c: Cluster) {
    forall s, acts, end :: Init(s) && Runs(c, s, acts, end) ==> Lock.AtMostOnce(end.log)
  }

  lemma EtcdAtMostOnce(c: Cluster, s: State, acts: seq<Action>, end: State)
    requires Lock.Bounded(c.timing) && Undisturbed(c)
    requires Init(s) && Runs(c, s, acts, end)
    ensures Lock.AtMostOnce(end.log)
  {
    var seen := EtcdRefinesLock(c, s, acts, end);
    assert Held({}) == iset{};
    Lock.LockAtMostOnce(c.timing, View(s), seen, View(end));
  }

  lemma {:induction false} Extend(c: Cluster, s: State, acts: seq<Action>, mid: State, a: Action)
    requires Runs(c, s, acts, mid) && Enabled(c, mid, a)
    ensures Runs(c, s, acts + [a], Apply(c, mid, a))
    decreases |acts|
  {
    if acts == [] {
      assert ([] + [a])[1..] == [];
    } else {
      Extend(c, Apply(c, s, acts[0]), acts[1..], mid, a);
      assert (acts + [a])[1..] == acts[1..] + [a];
    }
  }

  ghost function Start(now: int): State {
    State(now, {}, multiset{}, multiset{}, multiset{}, [])
  }

  const WITNESS: int := 1_700_000_000

  /** Extends a run by sampling the clock now. */
  lemma SampleNow(c: Cluster, s0: State, acts0: seq<Action>, s: State, t: Lock.Attempt)
    returns (acts: seq<Action>, s': State)
    requires Runs(c, s0, acts0, s) && FromCluster(c, t) && t.clock == s.now + c.timing.offset[t.node]
    ensures Runs(c, s0, acts, s') && s' == s.(pending := s.pending + multiset{t})
  {
    Extend(c, s0, acts0, s, Sample(t.node, t.task));
    acts, s' := acts0 + [Sample(t.node, t.task)], Apply(c, s, Sample(t.node, t.task));
  }

  /** Extends a run by a timely create on a free slot. */
  lemma RunNow(c: Cluster, s0: State, acts0: seq<Action>, s: State, t: Lock.Attempt)
    returns (acts: seq<Action>, s': State)
    requires Runs(c, s0, acts0, s) && Enabled(c, s, CanRunTask(t)) && KeyOf(t) !in s.keys
    ensures Runs(c, s0, acts, s')
    ensures s' == s.(pending := s.pending - multiset{t}, keys := s.keys + {KeyOf(t)},
                     queued := s.queued + multiset{t}, log := s.log + [Lock.Execution(t.node, Lock.SlotOf(t))])
  {
    Extend(c, s0, acts0, s, CanRunTask(t));
    acts, s' := acts0 + [CanRunTask(t)], Apply(c, s, CanRunTask(t));
  }

  /** Extends a run by a sample and its create, both in the present instant, on a free slot. */
  lemma SampleAndRun(c: Cluster, s0: State, acts0: seq<Action>, s: State, t: Lock.Attempt)
    returns (acts: seq<Action>, s': State)
    requires Runs(c, s0, acts0, s)
    requires FromCluster(c, t) && t.clock == s.now + c.timing.offset[t.node] && KeyOf(t) !in s.keys
    ensures Runs(c, s0, acts, s')
    ensures s' == s.(keys := s.keys + {KeyOf(t)}, queued := s.queued + multiset{t},
                     log := s.log + [Lock.Execution(t.node, Lock.SlotOf(t))])
  {
    var acts1, s1 := SampleNow(c, s0, acts0, s, t);
    acts, s' := RunNow(c, s0, acts1, s1, t);
    assert s'.pending == s.pending;
  }

  /** Extends a run by waiting until the event of `t` is due, popping it and deleting its key. */
  lemma WaitAndClean(c: Cluster, s0: State, acts0: seq<Action>, s: State, t: Lock.Attempt)
    returns (acts: seq<Action>, s': State)
    requires Runs(c, s0, acts0, s)
    requires FromCluster(c, t) && t in s.queued && s.now <= t.clock + Lock.HOLD - c.timing.offset[t.node]
    ensures Runs(c, s0, acts, s')
    ensures s'.now == t.clock + Lock.HOLD - c.timing.offset[t.node]
    ensures s'.keys == s.keys - {KeyOf(t)} && s'.pending == s.pending && s'.log == s.log
  {
    var wait := Advance(t.clock + Lock.HOLD - c.timing.offset[t.node] - s.now);
    Extend(c, s0, acts0, s, wait);
    var s1 := Apply(c, s, wait);
    Extend(c, s0, acts0 + [wait], s1, PopDue(t));
    var s2 := Apply(c, s1, PopDue(t));
    Extend(c, s0, acts0 + [wait] + [PopDue(t)], s2, DeleteKey(t));
    acts, s' := acts0 + [wait] + [PopDue(t)] + [DeleteKey(t)], Apply(c, s2, DeleteKey(t));
  }

  /** Extends a run by waiting until the clock of `u` and sampling it. */
  lemma WaitAndSample(c: Cluster, s0: State, acts0: seq<Action>, s: State, u: Lock.Attempt)
    returns (acts: seq<Action>, s': State)
    requires Runs(c, s0, acts0, s)
    requires FromCluster(c, u) && s.now <= u.clock - c.timing.offset[u.node]
    ensures Runs(c, s0, acts, s')
    ensures s' == s.(now := u.clock - c.timing.offset[u.node], pending := s.pending + multiset{u})
  {
    var wait := Advance(u.clock - c.timing.offset[u.node] - s.now);
    Extend(c, s0, acts0, s, wait);
    acts, s' := SampleNow(c, s0, acts0 + [wait], Apply(c, s, wait), u);
  }

  /** Extends a run by sampling `u` and cleaning the marker of `t`, in whichever order time puts them. */
  lemma SampleAndClean(c: Cluster, s0: State, acts0: seq<Action>, s: State, t: Lock.Attempt, u: Lock.Attempt)
    returns (acts: seq<Action>, s': State)
    requires Runs(c, s0, acts0, s) && FromCluster(c, t) && FromCluster(c, u)
    requires t in s.queued && s.now <= t.clock + Lock.HOLD - c.timing.offset[t.node]
    requires s.now <= u.clock - c.timing.offset[u.node]
    ensures Runs(c, s0, acts, s')
    ensures var cleaned, sampled := t.clock + Lock.HOLD - c.timing.offset[t.node], u.clock - c.timing.offset[u.node];
            s'.now == if sampled <= cleaned then cleaned else sampled
    ensures s'.keys == s.keys - {KeyOf(t)} && u in s'.pending && s'.log == s.log
  {
    if u.clock - c.timing.offset[u.node] <= t.clock + Lock.HOLD - c.timing.offset[t.node] {
      var acts1, s1 := WaitAndSample(c, s0, acts0, s, u);
      acts, s' := WaitAndClean(c, s0, acts1, s1, t);
    } else {
      var acts1, s1 := WaitAndClean(c, s0, acts0, s, t);
      acts, s' := WaitAndSample(c, s0, acts1, s1, u);
    }
  }

  /** Past the bound two nodes execute one slot: the second samples at the last instant of the second
      and its create arrives after the first node's cleaner. */
  lemma SecondRun(c: Cluster, a: string, b: string)
    requires a in c.timing.offset && b in c.timing.offset
    requires c.timing.offset[a] >= c.timing.offset[b]
    requires Lock.SECOND + c.timing.offset[a] - c.timing.offset[b] + c.timing.latency > Lock.HOLD
    ensures !AlwaysAtMostOnce(c)
  {
    var t := Lock.Attempt(a, "job", WITNESS * Lock.SECOND);
    var u := Lock.Attempt(b, "job", WITNESS * Lock.SECOND + Lock.SECOND - 1);
    Lock.UnixWithin(WITNESS, 0);
    Lock.UnixWithin(WITNESS, Lock.SECOND - 1);
    assert Lock.SlotOf(u) == Lock.SlotOf(t) == Lock.Slot("job", WITNESS);
    var s0 := Start(t.clock - c.timing.offset[a]);
    var acts1, s1 := SampleAndRun(c, s0, [], s0, t);
    var acts2, s2 := SampleAndClean(c, s0, acts1, s1, t, u);
    var acts3, s3 := RunNow(c, s0, acts2, s2, u);
    Lock.ExecutedTwice(s3.log);
  }

  /** The attempt of a node at the start of a second. */
  ghost function AttemptAt(node: string, second: nat, task: string): Lock.Attempt {
    Lock.Attempt(node, task, second * Lock.SECOND)
  }

  /** A run that ends with one execution of the slot, its marker in place. */
  lemma FirstRun(c: Cluster, node: string, second: nat, task: string)
    returns (s0: State, acts: seq<Action>, s: State)
    requires node in c.timing.offset && Era(second)
    ensures var t := AttemptAt(node, second, task);
      && Init(s0) && Runs(c, s0, acts, s) && FromCluster(c, t) && t.clock == s.now + c.timing.offset[node]
      && KeyOf(t) == MarkerKey(second, task) && t in s.queued && s.log == [Lock.Execution(node, Lock.SlotOf(t))]
  {
    var t := AttemptAt(node, second, task);
    Lock.UnixWithin(second, 0);
    s0 := Start(t.clock - c.timing.offset[node]);
    acts, s := SampleAndRun(c, s0, [], s0, t);
  }

  /** A step that takes the marker away lets the node execute the slot again. */
  lemma RunAgain(c: Cluster, s0: State, acts: seq<Action>, s: State, a: Action, t: Lock.Attempt)
    requires Init(s0) && Runs(c, s0, acts, s) && FromCluster(c, t) && t.clock == s.now + c.timing.offset[t.node]
    requires s.log == [Lock.Execution(t.node, Lock.SlotOf(t))]
    requires Enabled(c, s, a) && Apply(c, s, a).now == s.now && Apply(c, s, a).log == s.log
    requires KeyOf(t) !in Apply(c, s, a).keys
    ensures !AlwaysAtMostOnce(c)
  {
    Extend(c, s0, acts, s, a);
    var acts', s' := SampleAndRun(c, s0, acts + [a], Apply(c, s, a), t);
    Lock.ExecutedTwice(s'.log);
  }

  lemma UnsafeCleanRun(c: Cluster, node: string, name: string)
    requires node in c.timing.offset && name in c.cleanable && !SafeToClean(name)
    ensures !AlwaysAtMostOnce(c)
  {
    var key :| key in ForceKeys(name) && IsEraMarker(key);
    var second, task := EraMarkerReads(key);
    var s0, acts, s := FirstRun(c, node, second, task);
    RunAgain(c, s0, acts, s, ForceCleanupTask(name), AttemptAt(node, second, task));
  }

  lemma UnsafeReuseRun(c: Cluster, node: string, name: string)
    requires node in c.timing.offset && name in c.reusable && !SafeToReuse(name)
    ensures !AlwaysAtMostOnce(c)
  {
    var second, task := EraMarkerReads(PathKeys.DeletedKey(name));
    var s0, acts, s := FirstRun(c, node, second, task);
    RunAgain(c, s0, acts, s, RemoveTaskDeleted(name), AttemptAt(node, second, task));
  }

  lemma WipeRun(c: Cluster, node: string)
    requires node in c.timing.offset && c.wipes
    ensures !AlwaysAtMostOnce(c)
  {
    var s0, acts, s := FirstRun(c, node, WITNESS, "job");
    assert EXEC_PREFIX <= MarkerKey(WITNESS, "job");
    RunAgain(c, s0, acts, s, ForceCleanupAllTasks, AttemptAt(node, WITNESS, "job"));
  }

  lemma CancelRun(c: Cluster, node: string)
    requires node in c.timing.offset && c.cancels
    ensures !AlwaysAtMostOnce(c)
  {
    var t := AttemptAt(node, WITNESS, "job");
    var s0, acts, s := FirstRun(c, node, WITNESS, "job");
    Extend(c, s0, acts, s, ShutdownPop(t));
    RunAgain(c, s0, acts + [ShutdownPop(t)], Apply(c, s, ShutdownPop(t)), DeleteKey(t), t);
  }

  lemma DisturbedRun(c: Cluster, node: string)
    requires node in c.timing.offset && !Undisturbed(c)
    ensures !AlwaysAtMostOnce(c)
  {
    if c.wipes {
      WipeRun(c, node);
    } else if c.cancels {
      CancelRun(c, node);
    } else if name :| name in c.cleanable && !SafeToClean(name) {
      UnsafeCleanRun(c, node, name);
    } else {
      var name :| name in c.reusable && !SafeToReuse(name);
      UnsafeReuseRun(c, node, name);
    }
  }

  /** A cluster executes every slot at most once, in all its runs, exactly when its clock spread and latency leave
      room inside the cleaner delay, no name that may be cleaned up or reused reaches a marker, nobody wipes the
      registry and no cleaner is cancelled. */
  lemma EtcdAtMostOnceExactly(c: Cluster)
    requires c.timing.offset != map[]
    ensures AlwaysAtMostOnce(c) <==> Lock.Bounded(c.timing) && SafeNames(c) && !c.wipes && !c.cancels
  {
    if !Lock.Bounded(c.timing) {
      var a, b :| a in c.timing.offset && b in c.timing.offset
        && Lock.SECOND + c.timing.offset[a] - c.timing.offset[b] + c.timing.latency > Lock.HOLD;
      SecondRun(c, a, if c.timing.offset[a] >= c.timing.offset[b] then b else a);
    } else if !Undisturbed(c) {
      var node :| node in c.timing.offset;
      DisturbedRun(c, node);
    } else {
      forall s, acts, end | Init(s) && Runs(c, s, acts, end) ensures Lock.AtMostOnce(end.log) {
        EtcdAtMostOnce(c, s, acts, end);
      }
    }
  }
}
