/** The Redis form of the lock: `SetNX` with a five-second expiry, counted from the create, and the delete of
    `ForceCleanupTask`. The key is the task, a colon and the local time stamp of the node that asks. */
module RedisMarkers {
  import opened Stamps
  import Lock = MarkerLock

  const EXEC_PREFIX := "distributed_cron:last_exec:"

  /** `cleanable` holds the names anyone may pass to `ForceCleanupTask`, by a cleanup or a force-add. */
  datatype Cluster = Cluster(timing: Lock.Cluster, stamp: Formatter, zone: string -> Zones, cleanable: set<string>)

  /** `expiry` maps each key that was set and not deleted to the instant it expires. */
  datatype State = State(
    now: int,
    expiry: map<string, int>,
    pending: multiset<Lock.Attempt>,
    log: seq<Lock.Execution>)

  datatype Action =
    | Advance(elapsed: nat)
    | Sample(node: string, task: string)
    | Abandon(attempt: Lock.Attempt)
    | SetNX(attempt: Lock.Attempt)
    | SetNXUnseen(attempt: Lock.Attempt)
    | ForceCleanupTask(name: string)

  // ---------- keys ----------

  /** The key `CanRunTask` sets for a task, in a second, seen from a zone. */
  function MarkerKey(f: Formatter, task: string, second: int, zone: Zone): string
    requires Written(f, second, zone)
  {
    EXEC_PREFIX + Stamped(f, task, second, zone)
  }

  /** The execution key that `ForceCleanupTask` deletes: it holds no stamp. */
  function CleanupKey(name: string): string {
    EXEC_PREFIX + name
  }

  lemma AfterPrefix(a: string, b: string)
    requires EXEC_PREFIX + a == EXEC_PREFIX + b
    ensures a == b
  {
    assert (EXEC_PREFIX + a)[|EXEC_PREFIX|..] == a && (EXEC_PREFIX + b)[|EXEC_PREFIX|..] == b;
  }

  /** Different tasks, seconds or zones never share a key, whatever colons or stamps the task name holds. */
  lemma MarkerKeyInjective(f: Formatter, a: string, s: int, z: Zone, b: string, r: int, y: Zone)
    requires Readable(f) && Written(f, s, z) && Written(f, r, y) && MarkerKey(f, a, s, z) == MarkerKey(f, b, r, y)
    ensures a == b && s == r && z == y
  {
    AfterPrefix(Stamped(f, a, s, z), Stamped(f, b, r, y));
  }

  /** With Go's stamps the key is the prefix, the task, a colon and a text that reads, by position, as the local date and
      time of the second, followed by the zone. */
  lemma Rfc3339KeyReads(task: string, second: int, zone: Zone) returns (t: Time)
    requires Written(Rfc3339(), second, zone)
    ensures ValidTime(t) && Instant(t, zone) == second
    ensures exists text :: MarkerKey(Rfc3339(), task, second, zone) == EXEC_PREFIX + (task + (":" + text)) && ReadsAs(text, t, zone)
  {
    t := TimeOf(second, zone);
    TextReads(t, zone);
    assert MarkerKey(Rfc3339(), task, second, zone) == EXEC_PREFIX + (task + (":" + Text(t, zone)));
  }

  /** The cleanup of a name hits a marker exactly when the name ends in a stamp. */
  lemma StampedHits(f: Formatter, name: string, zones: Zones) returns (task: string, second: int)
    requires EndsStamped(f, name, zones)
    ensures Written(f, second, zones(second)) && CleanupKey(name) == MarkerKey(f, task, second, zones(second))
  {
    task, second :| Written(f, second, zones(second)) && name == Stamped(f, task, second, zones(second));
  }

  lemma UnstampedMisses(f: Formatter, name: string, task: string, second: int, zones: Zones)
    requires !EndsStamped(f, name, zones) && Written(f, second, zones(second))
    ensures CleanupKey(name) != MarkerKey(f, task, second, zones(second))
  {
    if CleanupKey(name) == MarkerKey(f, task, second, zones(second)) {
      AfterPrefix(name, Stamped(f, task, second, zones(second)));
    }
  }

  // ---------- steps ----------

  /** The zone in force on a node's clock. */
  function ZoneOn(c: Cluster, node: string, second: int): Zone {
    c.zone(node)(second)
  }

  /** The node can write the second. */
  predicate Writes(c: Cluster, node: string, second: int) {
    Written(c.stamp, second, ZoneOn(c, node, second))
  }

  ghost predicate FromCluster(c: Cluster, t: Lock.Attempt) {
    t.node in c.timing.offset && Writes(c, t.node, Lock.Unix(t.clock))
  }

  ghost function KeyOf(c: Cluster, t: Lock.Attempt): string
    requires FromCluster(c, t)
  {
    MarkerKey(c.stamp, t.task, Lock.Unix(t.clock), ZoneOn(c, t.node, Lock.Unix(t.clock)))
  }

  ghost predicate Live(s: State, k: string) {
    k in s.expiry && s.now < s.expiry[k]
  }

  ghost predicate Enabled(c: Cluster, s: State, a: Action) {
    match a
    case Advance(_) => true
    case Sample(node, _) =>
      node in c.timing.offset && Writes(c, node, Lock.Unix(s.now + c.timing.offset[node]))
    case Abandon(t) => t in s.pending
    case SetNX(t) => t in s.pending && FromCluster(c, t) && Lock.Timely(c.timing, s.now, t)
    case SetNXUnseen(t) => t in s.pending && FromCluster(c, t) && Lock.Timely(c.timing, s.now, t)
    case ForceCleanupTask(name) => name in c.cleanable
  }

  ghost function Apply(c: Cluster, s: State, a: Action): State
    requires Enabled(c, s, a)
  {
    match a
    case Advance(elapsed) => s.(now := s.now + elapsed)
    case Sample(node, task) =>
      s.(pending := s.pending + multiset{Lock.Attempt(node, task, s.now + c.timing.offset[node])})
    case Abandon(t) => s.(pending := s.pending - multiset{t})
    case SetNX(t) =>
      if Live(s, KeyOf(c, t)) then s.(pending := s.pending - multiset{t})
      else s.(pending := s.pending - multiset{t},
              expiry := s.expiry[KeyOf(c, t) := s.now + Lock.HOLD],
              log := s.log + [Lock.Execution(t.node, Lock.SlotOf(t))])
    case SetNXUnseen(t) =>
      if Live(s, KeyOf(c, t)) then s.(pending := s.pending - multiset{t})
      else s.(pending := s.pending - multiset{t}, expiry := s.expiry[KeyOf(c, t) := s.now + Lock.HOLD])
    case ForceCleanupTask(name) => s.(expiry := s.expiry - {CleanupKey(name)})
  }

  ghost predicate Init(s: State) {
    s.expiry == map[] && s.pending == multiset{} && s.log == []
  }

  ghost predicate Runs(c: Cluster, s: State, acts: seq<Action>, end: State)
    decreases |acts|
  {
    if acts == [] then end == s
    else Enabled(c, s, acts[0]) && Runs(c, Apply(c, s, acts[0]), acts[1..], end)
  }

  // ---------- refinement of the lock ----------

  /** Whenever two nodes can both write a second, they see it in the same zone. */
  ghost predicate AgreeOnZones(c: Cluster) {
    forall a, b, second :: a in c.timing.offset && b in c.timing.offset && Writes(c, a, second) && Writes(c, b, second) ==>
      ZoneOn(c, a, second) == ZoneOn(c, b, second)
  }

  /** All nodes format times in these zones, and at each second the zone is that of some node. */
  ghost predicate SameZone(c: Cluster, zones: Zones) {
    && (forall n, second :: n in c.timing.offset && Writes(c, n, second) ==> ZoneOn(c, n, second) == zones(second))
    && (forall second :: exists n :: n in c.timing.offset && ZoneOn(c, n, second) == zones(second))
  }

  ghost predicate OneZone(c: Cluster, zones: Zones) {
    SameZone(c, zones) && Readable(c.stamp)
  }

  /** The zone of a node that can write the second, if there is one. */
  ghost function ZoneAt(c: Cluster, second: int): Zone
    requires c.timing.offset != map[]
  {
    if exists n :: n in c.timing.offset && Writes(c, n, second) then
      var n :| n in c.timing.offset && Writes(c, n, second);
      ZoneOn(c, n, second)
    else
      var n :| n in c.timing.offset;
      ZoneOn(c, n, second)
  }

  /** Nodes that agree share the zones of all seconds. */
  lemma SharedZones(c: Cluster) returns (zones: Zones)
    requires c.timing.offset != map[] && AgreeOnZones(c)
    ensures SameZone(c, zones)
  {
    zones := (second: int) => ZoneAt(c, second);
  }

  /** No name that may be cleaned up ends in a stamp of the zone of a node. */
  ghost predicate SafeNames(c: Cluster) {
    forall name, n :: name in c.cleanable && n in c.timing.offset ==> !EndsStamped(c.stamp, name, c.zone(n))
  }

  ghost predicate KeyHas(c: Cluster, slot: Lock.Slot, zones: Zones, k: string) {
    Written(c.stamp, slot.second, zones(slot.second)) && MarkerKey(c.stamp, slot.task, slot.second, zones(slot.second)) == k
  }

  ghost predicate HeldAt(c: Cluster, s: State, zones: Zones, slot: Lock.Slot) {
    Written(c.stamp, slot.second, zones(slot.second)) && Live(s, MarkerKey(c.stamp, slot.task, slot.second, zones(slot.second)))
  }

  ghost function Held(c: Cluster, s: State, zones: Zones): iset<Lock.Slot> {
    iset slot: Lock.Slot | HeldAt(c, s, zones, slot)
  }

  ghost function View(c: Cluster, s: State, zones: Zones): Lock.State {
    Lock.State(s.now, Held(c, s, zones), s.pending, s.log)
  }

  /** Clocks of pending attempts lie in the past, and markers outlive the hold time of their slot. */
  ghost predicate WellFormed(c: Cluster, s: State, zones: Zones) {
    && (forall t :: t in s.pending ==> Sampled(c, s.now, t))
    && (forall slot, k :: k in s.expiry && KeyHas(c, slot, zones, k) ==> Lock.Releasable(c.timing, s.expiry[k], slot))
  }

  ghost predicate Sampled(c: Cluster, now: int, t: Lock.Attempt) {
    t.node in c.timing.offset && t.clock <= now + c.timing.offset[t.node]
  }

  lemma KeyHasOne(c: Cluster, zones: Zones, t: Lock.Attempt, slot: Lock.Slot)
    requires OneZone(c, zones) && FromCluster(c, t) && KeyHas(c, slot, zones, KeyOf(c, t))
    ensures slot == Lock.SlotOf(t)
  {
    var second := Lock.Unix(t.clock);
    MarkerKeyInjective(c.stamp, slot.task, slot.second, zones(slot.second), t.task, second, zones(second));
  }

  lemma OutlivesHold(c: Cluster, s: State, t: Lock.Attempt)
    requires Sampled(c, s.now, t)
    ensures Lock.Releasable(c.timing, s.now + Lock.HOLD, Lock.SlotOf(t))
  {
    assert s.now + Lock.HOLD + c.timing.offset[t.node] >= Lock.Unix(t.clock) * Lock.SECOND + Lock.HOLD;
  }

  lemma SetKeepsWellFormed(c: Cluster, s: State, zones: Zones, t: Lock.Attempt)
    requires WellFormed(c, s, zones) && OneZone(c, zones) && t in s.pending && FromCluster(c, t)
    ensures WellFormed(c, s.(expiry := s.expiry[KeyOf(c, t) := s.now + Lock.HOLD]), zones)
  {
    OutlivesHold(c, s, t);
    forall slot | KeyHas(c, slot, zones, KeyOf(c, t)) ensures slot == Lock.SlotOf(t) { KeyHasOne(c, zones, t, slot); }
  }

  lemma StepKeepsWellFormed(c: Cluster, s: State, zones: Zones, a: Action)
    requires WellFormed(c, s, zones) && OneZone(c, zones) && Enabled(c, s, a)
    ensures WellFormed(c, Apply(c, s, a), zones)
  {
    var s' := Apply(c, s, a);
    if a.SetNX? || a.SetNXUnseen? { SetKeepsWellFormed(c, s, zones, a.attempt); }
    forall t | t in s'.pending ensures Sampled(c, s'.now, t) {
      assert t in s.pending || a.Sample?;
    }
  }

  /** What the lock does while Redis takes a step: passing time also releases what expired. */
  ghost function Seen(c: Cluster, s: State, zones: Zones, a: Action): seq<Lock.Action>
    requires Enabled(c, s, a)
  {
    match a
    case Advance(elapsed) =>
      [Lock.Advance(elapsed), Lock.Release(Held(c, s, zones) - Held(c, Apply(c, s, a), zones))]
    case Sample(node, task) => [Lock.Sample(node, task)]
    case Abandon(t) => [Lock.Abandon(t)]
    case SetNX(t) => [Lock.Acquire(t)]
    case SetNXUnseen(t) => [Lock.AcquireUnseen(t)]
    case ForceCleanupTask(_) => []
  }

  lemma HeldAfterSet(c: Cluster, s: State, zones: Zones, t: Lock.Attempt)
    requires OneZone(c, zones) && FromCluster(c, t)
    ensures Held(c, s.(expiry := s.expiry[KeyOf(c, t) := s.now + Lock.HOLD]), zones)
         == Held(c, s, zones) + iset{Lock.SlotOf(t)}
    ensures Lock.SlotOf(t) in Held(c, s, zones) <==> Live(s, KeyOf(c, t))
  {
    var s' := s.(expiry := s.expiry[KeyOf(c, t) := s.now + Lock.HOLD]);
    forall slot: Lock.Slot
      ensures HeldAt(c, s', zones, slot) <==> HeldAt(c, s, zones, slot) || slot == Lock.SlotOf(t)
    {
      if KeyHas(c, slot, zones, KeyOf(c, t)) { KeyHasOne(c, zones, t, slot); }
    }
  }

  lemma HeldAfterCleanup(c: Cluster, s: State, zones: Zones, name: string)
    requires !EndsStamped(c.stamp, name, zones)
    ensures Held(c, s.(expiry := s.expiry - {CleanupKey(name)}), zones) == Held(c, s, zones)
  {
    var s' := s.(expiry := s.expiry - {CleanupKey(name)});
    forall slot: Lock.Slot ensures HeldAt(c, s', zones, slot) <==> HeldAt(c, s, zones, slot) {
      if Written(c.stamp, slot.second, zones(slot.second)) { UnstampedMisses(c.stamp, name, slot.task, slot.second, zones); }
    }
  }

  lemma ExpiredReleasable(c: Cluster, s: State, zones: Zones, later: int, slot: Lock.Slot)
    requires WellFormed(c, s, zones) && HeldAt(c, s, zones, slot) && !HeldAt(c, s.(now := later), zones, slot)
    ensures Lock.Releasable(c.timing, later, slot)
  {
    var k := MarkerKey(c.stamp, slot.task, slot.second, zones(slot.second));
    assert KeyHas(c, slot, zones, k);
    Lock.ReleasableLater(c.timing, s.expiry[k], later - s.expiry[k], slot);
  }

  lemma AdvanceRefines(c: Cluster, s: State, zones: Zones, elapsed: nat)
    requires WellFormed(c, s, zones)
    ensures Lock.Runs(c.timing, View(c, s, zones), Seen(c, s, zones, Advance(elapsed)),
                      View(c, Apply(c, s, Advance(elapsed)), zones))
  {
    var s' := Apply(c, s, Advance(elapsed));
    var expired := Held(c, s, zones) - Held(c, s', zones);
    forall slot ensures HeldAt(c, s', zones, slot) ==> HeldAt(c, s, zones, slot) {}
    assert Held(c, s', zones) == Held(c, s, zones) - expired;
    forall slot | slot in expired ensures Lock.Releasable(c.timing, s'.now, slot) {
      ExpiredReleasable(c, s, zones, s'.now, slot);
    }
    var l1 := Lock.Apply(c.timing, View(c, s, zones), Lock.Advance(elapsed));
    var acts := Seen(c, s, zones, Advance(elapsed));
    assert Lock.Apply(c.timing, l1, Lock.Release(expired)) == View(c, s', zones);
    assert acts[1..] == [Lock.Release(expired)] && acts[1..][1..] == [];
    assert Lock.Runs(c.timing, l1, acts[1..], View(c, s', zones));
  }

  lemma SetRefines(c: Cluster, s: State, zones: Zones, a: Action)
    requires OneZone(c, zones) && Enabled(c, s, a) && (a.SetNX? || a.SetNXUnseen?)
    ensures View(c, Apply(c, s, a), zones) == Lock.Apply(c.timing, View(c, s, zones), Seen(c, s, zones, a)[0])
  {
    var t := a.attempt;
    HeldAfterSet(c, s, zones, t);
    if Live(s, KeyOf(c, t)) {
      assert Held(c, s, zones) + iset{Lock.SlotOf(t)} == Held(c, s, zones);
      assert Held(c, Apply(c, s, a), zones) == Held(c, s, zones);
    } else {
      assert Held(c, Apply(c, s, a), zones) == Held(c, s.(expiry := s.expiry[KeyOf(c, t) := s.now + Lock.HOLD]), zones);
    }
  }

  /** A stamp in the shared zones is a stamp on some node. */
  lemma SharedStamp(c: Cluster, zones: Zones, name: string)
    requires SameZone(c, zones)
    ensures EndsStamped(c.stamp, name, zones) ==>
      exists n :: n in c.timing.offset && EndsStamped(c.stamp, name, c.zone(n))
  {
    if EndsStamped(c.stamp, name, zones) {
      var task, second :| Written(c.stamp, second, zones(second)) && name == Stamped(c.stamp, task, second, zones(second));
      var n :| n in c.timing.offset && ZoneOn(c, n, second) == zones(second);
      assert EndsStamped(c.stamp, name, c.zone(n));
    }
  }

  lemma CleanupRefines(c: Cluster, s: State, zones: Zones, name: string)
    requires OneZone(c, zones) && SafeNames(c) && name in c.cleanable
    ensures View(c, Apply(c, s, ForceCleanupTask(name)), zones) == View(c, s, zones)
  {
    SharedStamp(c, zones, name);
    HeldAfterCleanup(c, s, zones, name);
  }

  /** One Redis step is up to two steps of the lock. */
  lemma StepRefines(c: Cluster, s: State, zones: Zones, a: Action)
    requires OneZone(c, zones) && SafeNames(c) && WellFormed(c, s, zones) && Enabled(c, s, a)
    ensures Lock.Runs(c.timing, View(c, s, zones), Seen(c, s, zones, a), View(c, Apply(c, s, a), zones))
  {
    if a.Advance? {
      AdvanceRefines(c, s, zones, a.elapsed);
    } else if a.ForceCleanupTask? {
      CleanupRefines(c, s, zones, a.name);
    } else {
      if a.SetNX? || a.SetNXUnseen? {
        SetRefines(c, s, zones, a);
      } else {
        forall slot ensures HeldAt(c, Apply(c, s, a), zones, slot) <==> HeldAt(c, s, zones, slot) {}
        assert Held(c, Apply(c, s, a), zones) == Held(c, s, zones);
      }
      assert Seen(c, s, zones, a)[1..] == [];
    }
  }

  /** Every Redis run of a cluster in one zone is a run of the lock. */
  lemma {:induction false} RedisRefinesLock(c: Cluster, s: State, zones: Zones, acts: seq<Action>, end: State)
    returns (seen: seq<Lock.Action>)
    requires OneZone(c, zones) && SafeNames(c) && WellFormed(c, s, zones) && Runs(c, s, acts, end)
    ensures Lock.Runs(c.timing, View(c, s, zones), seen, View(c, end, zones))
    decreases |acts|
  {
    if acts == [] {
      seen := [];
    } else {
      StepKeepsWellFormed(c, s, zones, acts[0]);
      StepRefines(c, s, zones, acts[0]);
      var next := Apply(c, s, acts[0]);
      var rest := RedisRefinesLock(c, next, zones, acts[1..], end);
      seen := Seen(c, s, zones, acts[0]) + rest;
      Lock.RunsCompose(c.timing, View(c, s, zones), Seen(c, s, zones, acts[0]), View(c, next, zones), rest, View(c, end, zones));
    }
  }

  // ---------- at most once, and exactly when ----------

  ghost predicate AlwaysAtMostOnce(c: Cluster) {
    forall s, acts, end :: Init(s) && Runs(c, s, acts, end) ==> Lock.AtMostOnce(end.log)
  }

  lemma RedisAtMostOnce(c: Cluster, zones: Zones, s: State, acts: seq<Action>, end: State)
    requires Lock.Bounded(c.timing) && OneZone(c, zones) && SafeNames(c)
    requires Init(s) && Runs(c, s, acts, end)
    ensures Lock.AtMostOnce(end.log)
  {
    var seen := RedisRefinesLock(c, s, zones, acts, end);
    forall slot ensures !HeldAt(c, s, zones, slot) {}
    assert Held(c, s, zones) == iset{};
    Lock.LockAtMostOnce(c.timing, View(c, s, zones), seen, View(c, end, zones));
  }

  lemma {:induction false} Extend(c: Cluster, s: State, acts: seq<Action>, mid: State, a: Action)
    requires Runs(c, s, acts, mid) && Enabled(c, mid, a)
    ensures Runs(c, s, acts + [a], Apply(c, mid, a))
    decreases |acts|
  {
    if acts == [] {
      assert ([] + [a])[1..] == [];
    } else {
      Extend(c, Apply(c, s, acts[0]), acts[1..], mid, a);
      assert (acts + [a])[1..] == acts[1..] + [a];
    }
  }

  /** Extends a run by waiting until the clock of `t` and sampling it. */
  lemma WaitAndSample(c: Cluster, s0: State, acts0: seq<Action>, s: State, t: Lock.Attempt)
    returns (acts: seq<Action>, s': State)
    requires Runs(c, s0, acts0, s)
    requires FromCluster(c, t) && s.now <= t.clock - c.timing.offset[t.node]
    ensures Runs(c, s0, acts, s')
    ensures s' == s.(now := t.clock - c.timing.offset[t.node], pending := s.pending + multiset{t})
  {
    var wait, sample := Advance(t.clock - c.timing.offset[t.node] - s.now), Sample(t.node, t.task);
    Extend(c, s0, acts0, s, wait);
    var s1 := Apply(c, s, wait);
    Extend(c, s0, acts0 + [wait], s1, sample);
    acts, s' := acts0 + [wait] + [sample], Apply(c, s1, sample);
  }

  /** Extends a run by a timely `SetNX` on a key that is not live. */
  lemma Set(c: Cluster, s0: State, acts0: seq<Action>, s: State, t: Lock.Attempt)
    returns (acts: seq<Action>, s': State)
    requires Runs(c, s0, acts0, s)
    requires t in s.pending && FromCluster(c, t) && Lock.Timely(c.timing, s.now, t) && !Live(s, KeyOf(c, t))
    ensures Runs(c, s0, acts, s')
    ensures s' == s.(pending := s.pending - multiset{t},
                     expiry := s.expiry[KeyOf(c, t) := s.now + Lock.HOLD],
                     log := s.log + [Lock.Execution(t.node, Lock.SlotOf(t))])
  {
    Extend(c, s0, acts0, s, SetNX(t));
    acts, s' := acts0 + [SetNX(t)], Apply(c, s, SetNX(t));
  }

  /** `t` is sampled and set at once; later `u` is sampled. */
  lemma SetThenSample(c: Cluster, t: Lock.Attempt, u: Lock.Attempt)
    returns (s0: State, acts: seq<Action>, s: State)
    requires FromCluster(c, t) && FromCluster(c, u)
    requires t.clock - c.timing.offset[t.node] <= u.clock - c.timing.offset[u.node]
    ensures Init(s0) && Runs(c, s0, acts, s)
    ensures s == State(u.clock - c.timing.offset[u.node],
                       map[KeyOf(c, t) := t.clock - c.timing.offset[t.node] + Lock.HOLD],
                       multiset{u}, [Lock.Execution(t.node, Lock.SlotOf(t))])
  {
    s0 := State(t.clock - c.timing.offset[t.node], map[], multiset{}, []);
    var acts1, s1 := WaitAndSample(c, s0, [], s0, t);
    var acts2, s2 := Set(c, s0, acts1, s1, t);
    acts, s := WaitAndSample(c, s0, acts2, s2, u);
  }

  /** Past the bound, a create that was sampled at the end of the second finds the marker expired. */
  lemma LateSet(c: Cluster, a: string, b: string)
    requires Readable(c.stamp) && a in c.timing.offset && b in c.timing.offset
    requires c.timing.offset[a] >= c.timing.offset[b]
    requires Lock.SECOND + c.timing.offset[a] - c.timing.offset[b] + c.timing.latency > Lock.HOLD
    ensures !AlwaysAtMostOnce(c)
  {
    var t := Lock.Attempt(a, "job", 0);
    var u := Lock.Attempt(b, "job", Lock.SECOND - 1);
    assert Writes(c, a, 0) && Writes(c, b, 0);
    var s0, acts1, s1 := SetThenSample(c, t, u);
    var wait := Advance(c.timing.latency);
    Extend(c, s0, acts1, s1, wait);
    var acts2, s2 := Set(c, s0, acts1 + [wait], Apply(c, s1, wait), u);
    Lock.ExecutedTwice(s2.log);
  }

  /** Nodes that see a second in two zones write two keys for one slot. */
  lemma TwoZones(c: Cluster, a: string, b: string, second: int)
    requires Readable(c.stamp) && a in c.timing.offset && b in c.timing.offset
    requires Writes(c, a, second) && Writes(c, b, second) && ZoneOn(c, a, second) != ZoneOn(c, b, second)
    requires c.timing.offset[a] >= c.timing.offset[b]
    ensures !AlwaysAtMostOnce(c)
  {
    var t, u := Lock.Attempt(a, "job", second * Lock.SECOND), Lock.Attempt(b, "job", second * Lock.SECOND);
    Lock.UnixWithin(second, 0);
    if KeyOf(c, t) == KeyOf(c, u) {
      MarkerKeyInjective(c.stamp, "job", second, ZoneOn(c, a, second), "job", second, ZoneOn(c, b, second));
    }
    var s0, acts1, s1 := SetThenSample(c, t, u);
    var acts2, s2 := Set(c, s0, acts1, s1, u);
    Lock.ExecutedTwice(s2.log);
  }

  /** A stamped name lets one node execute the slot of the stamp twice. */
  lemma StampedNameRun(c: Cluster, node: string, name: string)
    requires node in c.timing.offset && name in c.cleanable && EndsStamped(c.stamp, name, c.zone(node))
    ensures !AlwaysAtMostOnce(c)
  {
    var task, second := StampedHits(c.stamp, name, c.zone(node));
    var t := Lock.Attempt(node, task, second * Lock.SECOND);
    Lock.UnixWithin(second, 0);
    var s0, acts1, s1 := SetThenSample(c, t, t);
    Extend(c, s0, acts1, s1, ForceCleanupTask(name));
    var acts2, s2 := Set(c, s0, acts1 + [ForceCleanupTask(name)], Apply(c, s1, ForceCleanupTask(name)), t);
    Lock.ExecutedTwice(s2.log);
  }

  /** A cluster executes every slot at most once, in all its runs, exactly when its clock spread and latency leave room
      inside the expiry, nodes agree on the zone of every second, and no name that may be cleaned up ends in a stamp. */
  lemma RedisAtMostOnceExactly(c: Cluster)
    requires c.timing.offset != map[] && Readable(c.stamp)
    ensures AlwaysAtMostOnce(c) <==> Lock.Bounded(c.timing) && AgreeOnZones(c) && SafeNames(c)
  {
    if !AgreeOnZones(c) {
      var a, b, second :| a in c.timing.offset && b in c.timing.offset && Writes(c, a, second) && Writes(c, b, second)
        && ZoneOn(c, a, second) != ZoneOn(c, b, second);
      if c.timing.offset[a] >= c.timing.offset[b] { TwoZones(c, a, b, second); } else { TwoZones(c, b, a, second); }
    } else if !Lock.Bounded(c.timing) {
      var a, b :| a in c.timing.offset && b in c.timing.offset
        && Lock.SECOND + c.timing.offset[a] - c.timing.offset[b] + c.timing.latency > Lock.HOLD;
      LateSet(c, a, if c.timing.offset[a] >= c.timing.offset[b] then b else a);
    } else if !SafeNames(c) {
      var name, n :| name in c.cleanable && n in c.timing.offset && EndsStamped(c.stamp, name, c.zone(n));
      StampedNameRun(c, n, name);
    } else {
      var zones := SharedZones(c);
      forall s, acts, end | Init(s) && Runs(c, s, acts, end) ensures Lock.AtMostOnce(end.log) {
        RedisAtMostOnce(c, zones, s, acts, end);
      }
    }
  }

  /** The same for the stamps Go writes: no name that may be cleaned up ends in a colon, a valid date and time and the
      offset in force on a node at that instant. */
  lemma RedisRfc3339Exactly(c: Cluster)
    requires c.timing.offset != map[] && c.stamp == Rfc3339()
    ensures AlwaysAtMostOnce(c) <==>
      && Lock.Bounded(c.timing) && AgreeOnZones(c)
      && (forall name, n :: name in c.cleanable && n in c.timing.offset ==> !ReadsStamped(name, c.zone(n)))
  {
    Rfc3339Readable();
    RedisAtMostOnceExactly(c);
    forall name, n | name in c.cleanable && n in c.timing.offset
      ensures EndsStamped(c.stamp, name, c.zone(n)) <==> ReadsStamped(name, c.zone(n)) {
      EndsStampedExactly(name, c.zone(n));
    }
  }
}
