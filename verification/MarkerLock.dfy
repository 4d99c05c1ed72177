/** The abstract execution lock behind `CanRunTask`: a cluster of nodes with skewed clocks that
    race to take one slot per (task, second).

    Time is global and in nanoseconds. A node reads the global time plus its own fixed offset.
    A run samples the clock first and asks for the slot afterwards, at most `latency` later. */
module MarkerLock {

  const SECOND: int := 1_000_000_000

  /** `CleanerDelay` and the expiry of a Redis marker: five seconds. */
  const HOLD: int := 5 * SECOND

  datatype Cluster = Cluster(offset: map<string, int>, latency: nat)

  datatype Slot = Slot(task: string, second: int)

  /** A run that has sampled its node's clock and not yet asked the registry. */
  datatype Attempt = Attempt(node: string, task: string, clock: int)

  datatype Execution = Execution(node: string, slot: Slot)

  /** `time.Time.Unix()`: whole seconds, rounded down. */
  function Unix(clock: int): int {
    clock / SECOND
  }

  lemma UnixWithin(second: int, rest: int)
    requires 0 <= rest < SECOND
    ensures Unix(second * SECOND + rest) == second
  {
  }

  lemma UnixAbove(second: int, clock: int)
    requires second < Unix(clock)
    ensures second * SECOND + SECOND <= clock
  {
  }

  function SlotOf(a: Attempt): Slot {
    Slot(a.task, Unix(a.clock))
  }

  ghost predicate AtMostOnce(log: seq<Execution>) {
    forall i, j :: 0 <= i < j < |log| ==> log[i].slot != log[j].slot
  }

  lemma ExecutedTwice(log: seq<Execution>)
    requires |log| == 2 && log[0].slot == log[1].slot
    ensures !AtMostOnce(log)
  {
  }

  /** The attempt comes from a node of the cluster and its latency bound has not passed. */
  ghost predicate Timely(c: Cluster, now: int, a: Attempt) {
    a.node in c.offset && now <= a.clock - c.offset[a.node] + c.latency
  }

  /** Some node's clock has moved HOLD past the start of the slot's second. */
  ghost predicate Releasable(c: Cluster, now: int, slot: Slot) {
    exists n :: n in c.offset && now + c.offset[n] >= slot.second * SECOND + HOLD
  }

  /** The bound on clock spread and latency, checkable from the configuration. */
  ghost predicate Bounded(c: Cluster) {
    forall a, b :: a in c.offset && b in c.offset ==>
      SECOND + c.offset[a] - c.offset[b] + c.latency <= HOLD
  }

  /** Offsets within sigma give the familiar form of the bound. */
  lemma SkewBound(c: Cluster, sigma: int)
    requires forall n :: n in c.offset ==> -sigma <= c.offset[n] <= sigma
    requires 1_000_000_000 + 2 * sigma + c.latency <= 5_000_000_000
    ensures Bounded(c)
  {
  }

  datatype State = State(now: int, held: iset<Slot>, pending: multiset<Attempt>, log: seq<Execution>)

  /** A slot is occupied when its place is taken without an attempt. */
  datatype Action =
    | Advance(elapsed: nat)
    | Sample(node: string, task: string)
    | Abandon(attempt: Attempt)
    | Acquire(attempt: Attempt)
    | AcquireUnseen(attempt: Attempt)
    | Release(slots: iset<Slot>)
    | Occupy(slots: iset<Slot>)

  ghost predicate Enabled(c: Cluster, s: State, a: Action) {
    match a
    case Advance(_) => true
    case Sample(node, _) => node in c.offset
    case Abandon(t) => t in s.pending
    case Acquire(t) => t in s.pending && Timely(c, s.now, t)
    case AcquireUnseen(t) => t in s.pending && Timely(c, s.now, t)
    case Release(slots) => forall slot :: slot in slots ==> Releasable(c, s.now, slot)
    case Occupy(_) => true
  }

  ghost function Apply(c: Cluster, s: State, a: Action): State
    requires Enabled(c, s, a)
  {
    match a
    case Advance(elapsed) => s.(now := s.now + elapsed)
    case Sample(node, task) =>
      s.(pending := s.pending + multiset{Attempt(node, task, s.now + c.offset[node])})
    case Abandon(t) => s.(pending := s.pending - multiset{t})
    case Acquire(t) =>
      if SlotOf(t) in s.held then s.(pending := s.pending - multiset{t})
      else s.(pending := s.pending - multiset{t},
              held := s.held + iset{SlotOf(t)},
              log := s.log + [Execution(t.node, SlotOf(t))])
    case AcquireUnseen(t) =>
      s.(pending := s.pending - multiset{t}, held := s.held + iset{SlotOf(t)})
    case Release(slots) => s.(held := s.held - slots)
    case Occupy(slots) => s.(held := s.held + slots)
  }

  ghost predicate Init(s: State) {
    s.held == iset{} && s.pending == multiset{} && s.log == []
  }

  ghost predicate Runs(c: Cluster, s: State, acts: seq<Action>, end: State)
    decreases |acts|
  {
    if acts == [] then end == s
    else Enabled(c, s, acts[0]) && Runs(c, Apply(c, s, acts[0]), acts[1..], end)
  }

  lemma {:induction false} RunsCompose(
      c: Cluster, s: State, first: seq<Action>, mid: State, second: seq<Action>, end: State)
    requires Runs(c, s, first, mid) && Runs(c, mid, second, end)
    ensures Runs(c, s, first + second, end)
    decreases |first|
  {
    if first == [] {
      assert first + second == second;
    } else {
      RunsCompose(c, Apply(c, s, first[0]), first[1..], mid, second, end);
      assert (first + second)[1..] == first[1..] + second;
    }
  }

  /** Every executed slot is still held, or it is too late for anyone to ask for it again. */
  ghost predicate Inv(c: Cluster, s: State) {
    && AtMostOnce(s.log)
    && (forall i :: 0 <= i < |s.log| ==> s.log[i].slot in s.held || Releasable(c, s.now, s.log[i].slot))
  }

  lemma ReleasableLater(c: Cluster, now: int, elapsed: nat, slot: Slot)
    requires Releasable(c, now, slot)
    ensures Releasable(c, now + elapsed, slot)
  {
    var n :| n in c.offset && now + c.offset[n] >= slot.second * SECOND + HOLD;
    assert n in c.offset && now + elapsed + c.offset[n] >= slot.second * SECOND + HOLD;
  }

  /** A timely attempt and a released slot exclude each other under the bound. */
  lemma TooLate(c: Cluster, now: int, t: Attempt)
    requires Bounded(c) && Timely(c, now, t)
    ensures !Releasable(c, now, SlotOf(t))
  {
    forall n | n in c.offset ensures now + c.offset[n] < SlotOf(t).second * SECOND + HOLD {
      assert SECOND + c.offset[n] - c.offset[t.node] + c.latency <= HOLD;
      assert t.clock < SlotOf(t).second * SECOND + SECOND;
    }
  }

  lemma StepKeepsInv(c: Cluster, s: State, a: Action)
    requires Bounded(c) && Inv(c, s) && Enabled(c, s, a)
    ensures Inv(c, Apply(c, s, a))
  {
    var s' := Apply(c, s, a);
    match a
    case Advance(elapsed) =>
      forall i | 0 <= i < |s.log| && s.log[i].slot !in s.held
        ensures Releasable(c, s'.now, s.log[i].slot)
      {
        ReleasableLater(c, s.now, elapsed, s.log[i].slot);
      }
    case Acquire(t) =>
      if SlotOf(t) !in s.held {
        forall i | 0 <= i < |s.log| ensures s.log[i].slot != SlotOf(t) {
          TooLate(c, s.now, t);
        }
      }
    case _ =>
  }

  lemma {:induction false} RunKeepsInv(c: Cluster, s: State, acts: seq<Action>, end: State)
    requires Bounded(c) && Inv(c, s) && Runs(c, s, acts, end)
    ensures Inv(c, end)
    decreases |acts|
  {
    if acts != [] {
      StepKeepsInv(c, s, acts[0]);
      RunKeepsInv(c, Apply(c, s, acts[0]), acts[1..], end);
    }
  }

  /** No (task, second) slot is executed twice in any run of a bounded cluster. */
  lemma LockAtMostOnce(c: Cluster, s: State, acts: seq<Action>, end: State)
    requires Bounded(c) && Init(s) && Runs(c, s, acts, end)
    ensures AtMostOnce(end.log)
  {
    RunKeepsInv(c, s, acts, end);
  }
}
