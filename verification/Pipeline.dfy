/** The event cleaner's goroutines as one step machine: senders, the receiver, the ticking heap goroutine and
    the batch goroutine, with their channels, the heap lock, cancellation and shutdown. */
module Pipeline {
  import opened EventCleaner

  /** Channel capacities, the size at which a batch is sent, and the delay. */
  datatype Config = Config(eventCap: nat, batchCap: nat, batchSize: int, delay: int)

  /** Where the heap goroutine stands. It reads the clock before it takes the heap lock, and holds the lock while
      `Popping` and `SendingFull`. */
  datatype Phase = Idle | Sampled | Popping | SendingFull | Flushing | Stopped

  /** `tickNow`, `tickHeap` and `tickOut` remember the clock the current tick read, the heap it found and the events it has
      popped; `sent`, `handed` and `dropped` are the history, and so are the last four, in order: events accepted and
      received, batches sent and handed over. */
  datatype State = State(
    now: int,
    cancelled: bool,
    eventCh: seq<Event>,
    inHand: seq<Event>,
    heap: multiset<Event>,
    phase: Phase,
    tickNow: int,
    tickHeap: multiset<Event>,
    tickOut: seq<Event>,
    batch: seq<Event>,
    batchCh: seq<seq<Event>>,
    sent: multiset<Event>,
    handed: multiset<Event>,
    dropped: multiset<Event>,
    accepted: seq<Event>,
    received: seq<Event>,
    batchesSent: seq<seq<Event>>,
    batchesHanded: seq<seq<Event>>)

  function Init(now: int): State {
    State(now, false, [], [], multiset{}, Idle, now, multiset{}, [], [], [], multiset{}, multiset{}, multiset{}, [], [], [], [])
  }

  datatype Move =
    | Advance(now: int)
    | Cancel
    | Send(e: Event)
    | SendDirect(e: Event)
    | Receive
    | Push
    | TickSample
    | TickLock
    | Pop(e: Event)
    | SendFull
    | EndLoop
    | Flush
    | GiveUp
    | Shutdown(remaining: seq<Event>)
    | Hand

  predicate Locked(s: State) {
    s.phase == Popping || s.phase == SendingFull
  }

  ghost predicate Earliest(s: State, e: Event) {
    e in s.heap && forall x :: x in s.heap ==> e.time <= x.time
  }

  /** When a move can be made. Which goroutines are still running is left open: a goroutine that has
      returned makes no more moves, and every run of the program is a run here. */
  ghost predicate Enabled(c: Config, s: State, m: Move) {
    match m
    case Advance(now) => s.now <= now
    case Cancel => true
    case Send(_) => |s.eventCh| < c.eventCap
    case SendDirect(_) => s.eventCh == [] && s.inHand == []
    case Receive => s.eventCh != [] && s.inHand == []
    case Push => s.inHand != [] && !Locked(s)
    case TickSample => s.phase == Idle
    case TickLock => s.phase == Sampled
    case Pop(e) => s.phase == Popping && Earliest(s, e) && Due(e, s.tickNow, c.delay)
    case SendFull => s.phase == SendingFull && |s.batchCh| < c.batchCap
    case EndLoop => s.phase == Popping && (s.heap == multiset{} || exists e :: Earliest(s, e) && !Due(e, s.tickNow, c.delay))
    case Flush => s.phase == Flushing && |s.batchCh| < c.batchCap
    case GiveUp => s.cancelled && (s.phase == SendingFull || s.phase == Flushing)
    case Shutdown(remaining) => s.cancelled && s.phase == Idle && multiset(remaining) == s.heap && ByTime(remaining)
    case Hand => s.batchCh != []
  }

  function SendBatch(s: State): State {
    s.(batchCh := s.batchCh + [s.batch], batchesSent := s.batchesSent + [s.batch], batch := [])
  }

  function Apply(c: Config, s: State, m: Move): State {
    match m
    case Advance(now) => s.(now := now)
    case Cancel => s.(cancelled := true)
    case Send(e) => s.(eventCh := s.eventCh + [e], sent := s.sent + multiset{e}, accepted := s.accepted + [e])
    case SendDirect(e) =>
      s.(inHand := [e], sent := s.sent + multiset{e}, accepted := s.accepted + [e], received := s.received + [e])
    case Receive =>
      if s.eventCh == [] then s
      else s.(inHand := [s.eventCh[0]], eventCh := s.eventCh[1..], received := s.received + [s.eventCh[0]])
    case Push => s.(heap := s.heap + multiset(s.inHand), inHand := [])
    case TickSample => s.(phase := Sampled, tickNow := s.now)
    case TickLock => s.(phase := Popping, tickHeap := s.heap, tickOut := [], batch := [])
    case Pop(e) =>
      var batch := s.batch + [e];
      s.(heap := s.heap - multiset{e}, tickOut := s.tickOut + [e], batch := batch,
         phase := if |batch| >= c.batchSize then SendingFull else Popping)
    case SendFull => SendBatch(s).(phase := Popping)
    case EndLoop => s.(phase := if s.batch == [] then Idle else Flushing)
    case Flush => SendBatch(s).(phase := Idle)
    case GiveUp => s.(dropped := s.dropped + multiset(s.batch), batch := [], phase := Stopped)
    case Shutdown(remaining) =>
      var s1 := s.(heap := multiset{}, phase := Stopped);
      if remaining == [] then s1
      else if |s.batchCh| < c.batchCap then
        s1.(batchCh := s.batchCh + [remaining], batchesSent := s.batchesSent + [remaining])
      else s1.(dropped := s.dropped + multiset(remaining))
    case Hand =>
      if s.batchCh == [] then s
      else s.(handed := s.handed + multiset(s.batchCh[0]), batchCh := s.batchCh[1..],
              batchesHanded := s.batchesHanded + [s.batchCh[0]])
  }

  ghost predicate Run(c: Config, start: int, ss: seq<State>, ms: seq<Move>) {
    && |ss| == |ms| + 1 && ss[0] == Init(start)
    && forall i :: 0 <= i < |ms| ==> Enabled(c, ss[i], ms[i]) && ss[i + 1] == Apply(c, ss[i], ms[i])
  }

  // ---------- where the events are ----------

  /** The events of a list of batches. */
  function Bag(batches: seq<seq<Event>>): multiset<Event> {
    if batches == [] then multiset{} else multiset(batches[0]) + Bag(batches[1..])
  }

  lemma {:induction false} BagPush(batches: seq<seq<Event>>, batch: seq<Event>)
    ensures Bag(batches + [batch]) == Bag(batches) + multiset(batch)
  {
    if batches == [] {
      assert [batch][1..] == [];
    } else {
      assert (batches + [batch])[1..] == batches[1..] + [batch];
      BagPush(batches[1..], batch);
    }
  }

  /** Every event still on its way. */
  function InFlight(s: State): multiset<Event> {
    multiset(s.eventCh) + multiset(s.inHand) + s.heap + multiset(s.batch) + Bag(s.batchCh)
  }

  ghost predicate Conserves(s: State) {
    s.sent == InFlight(s) + s.handed + s.dropped
  }

  /** The batch being filled, as the phases leave it. */
  ghost predicate BatchFits(c: Config, s: State) {
    && |s.inHand| <= 1 && |s.eventCh| <= c.eventCap && |s.batchCh| <= c.batchCap
    && (s.phase == Idle || s.phase == Sampled || s.phase == Stopped ==> s.batch == [])
    && (s.phase == Popping ==> |s.batch| < Cap(c.batchSize))
    && (s.phase == SendingFull ==> |s.batch| == Cap(c.batchSize))
    && (s.phase == Flushing ==> 0 < |s.batch| < Cap(c.batchSize))
  }

  ghost predicate AllDue(events: multiset<Event>, now: int, delay: int) {
    forall e :: e in events ==> e.time + delay <= now
  }

  /** Until cancellation nothing is dropped, and whatever has left the heap is due. */
  ghost predicate Orderly(c: Config, s: State) {
    && s.dropped == multiset{} && s.phase != Stopped
    && s.tickNow <= s.now && AllDue(multiset(s.batch), s.tickNow, c.delay)
    && AllDue(Bag(s.batchCh), s.now, c.delay) && AllDue(s.handed, s.now, c.delay)
  }

  /** Batches in the channel are never empty, and before cancellation no longer than a full one. */
  ghost predicate BatchesFit(c: Config, s: State) {
    forall i :: 0 <= i < |s.batchCh| ==>
      0 < |s.batchCh[i]| && (!s.cancelled ==> |s.batchCh[i]| <= Cap(c.batchSize))
  }

  ghost predicate Inv(c: Config, s: State) {
    Conserves(s) && BatchFits(c, s) && BatchesFit(c, s) && (!s.cancelled ==> Orderly(c, s))
  }

  // ---------- every move keeps the invariant ----------

  lemma FrontBack<T>(s: seq<T>)
    requires s != []
    ensures multiset(s) == multiset{s[0]} + multiset(s[1..])
  {
    assert s == [s[0]] + s[1..];
  }

  lemma AppendOne<T>(s: seq<T>, x: T)
    ensures multiset(s + [x]) == multiset(s) + multiset{x}
  {
  }

  /** The balance for one event. */
  ghost predicate Balanced(s: State, x: Event) {
    s.sent[x] == InFlight(s)[x] + s.handed[x] + s.dropped[x]
  }

  predicate Intake(m: Move) {
    m.Send? || m.SendDirect? || m.Receive? || m.Push?
  }

  predicate Ticking(m: Move) {
    m.TickSample? || m.TickLock? || m.SendFull? || m.EndLoop? || m.Flush?
  }

  lemma IntakeBalances(c: Config, s: State, m: Move, x: Event)
    requires Enabled(c, s, m) && BatchFits(c, s) && Balanced(s, x) && Intake(m)
    ensures Balanced(Apply(c, s, m), x)
  {
    match m
    case Send(e) => AppendOne(s.eventCh, e);
    case Receive => FrontBack(s.eventCh);
    case _ =>
  }

  lemma TickBalances(c: Config, s: State, m: Move, x: Event)
    requires Enabled(c, s, m) && BatchFits(c, s) && Balanced(s, x) && Ticking(m)
    ensures Balanced(Apply(c, s, m), x)
  {
    match m
    case SendFull => BagPush(s.batchCh, s.batch);
    case Flush => BagPush(s.batchCh, s.batch);
    case _ =>
  }

  lemma PopBalances(c: Config, s: State, e: Event, x: Event)
    requires Enabled(c, s, Pop(e)) && Balanced(s, x)
    ensures Balanced(Apply(c, s, Pop(e)), x)
  {
    AppendOne(s.batch, e);
  }

  lemma ShutdownBalances(c: Config, s: State, remaining: seq<Event>, x: Event)
    requires Enabled(c, s, Shutdown(remaining)) && Balanced(s, x)
    ensures Balanced(Apply(c, s, Shutdown(remaining)), x)
  {
    if remaining != [] && |s.batchCh| < c.batchCap { BagPush(s.batchCh, remaining); }
  }

  lemma OtherBalances(c: Config, s: State, m: Move, x: Event)
    requires Enabled(c, s, m) && BatchFits(c, s) && Balanced(s, x)
    requires m.Advance? || m.Cancel? || m.GiveUp? || m.Hand?
    ensures Balanced(Apply(c, s, m), x)
  {
  }

  lemma BalancedEach(s: State)
    requires forall x :: Balanced(s, x)
    ensures Conserves(s)
  {
    forall x ensures s.sent[x] == (InFlight(s) + s.handed + s.dropped)[x] { assert Balanced(s, x); }
  }

  /** Moves pass events on; none appears or vanishes. */
  lemma MoveConserves(c: Config, s: State, m: Move)
    requires Enabled(c, s, m) && Conserves(s) && BatchFits(c, s)
    ensures Conserves(Apply(c, s, m))
  {
    forall x ensures Balanced(Apply(c, s, m), x) {
      if Intake(m) {
        IntakeBalances(c, s, m, x);
      } else if Ticking(m) {
        TickBalances(c, s, m, x);
      } else if m.Pop? {
        PopBalances(c, s, m.e, x);
      } else if m.Shutdown? {
        ShutdownBalances(c, s, m.remaining, x);
      } else {
        OtherBalances(c, s, m, x);
      }
    }
    BalancedEach(Apply(c, s, m));
  }

  lemma TickFits(c: Config, s: State, m: Move)
    requires Enabled(c, s, m) && BatchFits(c, s) && (Ticking(m) || m.Pop?)
    ensures BatchFits(c, Apply(c, s, m))
  {
  }

  lemma OtherFits(c: Config, s: State, m: Move)
    requires Enabled(c, s, m) && BatchFits(c, s) && !Ticking(m) && !m.Pop?
    ensures BatchFits(c, Apply(c, s, m))
  {
  }

  lemma MoveFits(c: Config, s: State, m: Move)
    requires Enabled(c, s, m) && BatchFits(c, s)
    ensures BatchFits(c, Apply(c, s, m))
  {
    if Ticking(m) || m.Pop? { TickFits(c, s, m); } else { OtherFits(c, s, m); }
  }

  lemma MoveBatchesFit(c: Config, s: State, m: Move)
    requires Enabled(c, s, m) && BatchFits(c, s) && BatchesFit(c, s)
    ensures BatchesFit(c, Apply(c, s, m))
  {
  }

  lemma AllDuePlus(a: multiset<Event>, b: multiset<Event>, early: int, late: int, delay: int)
    requires AllDue(a, early, delay) && AllDue(b, late, delay) && early <= late
    ensures AllDue(a + b, late, delay) && AllDue(a, late, delay)
  {
  }

  lemma SendOrderly(c: Config, s: State, m: Move)
    requires (m.SendFull? || m.Flush?) && Enabled(c, s, m) && Orderly(c, s)
    ensures Orderly(c, Apply(c, s, m))
  {
    BagPush(s.batchCh, s.batch);
    AllDuePlus(multiset(s.batch), Bag(s.batchCh), s.tickNow, s.now, c.delay);
  }

  lemma PopOrderly(c: Config, s: State, e: Event)
    requires Enabled(c, s, Pop(e)) && Orderly(c, s)
    ensures Orderly(c, Apply(c, s, Pop(e)))
  {
    AppendOne(s.batch, e);
  }

  lemma HandOrderly(c: Config, s: State)
    requires s.batchCh != [] && Orderly(c, s)
    ensures Orderly(c, Apply(c, s, Hand))
  {
    AllDuePlus(s.handed, multiset(s.batchCh[0]), s.now, s.now, c.delay);
  }

  lemma MoveOrderly(c: Config, s: State, m: Move)
    requires Enabled(c, s, m) && BatchFits(c, s) && Orderly(c, s) && !Apply(c, s, m).cancelled
    ensures Orderly(c, Apply(c, s, m))
  {
    match m
    case Pop(e) => PopOrderly(c, s, e);
    case Hand => HandOrderly(c, s);
    case SendFull => SendOrderly(c, s, m);
    case Flush => SendOrderly(c, s, m);
    case _ =>
  }

  lemma MoveKeepsInv(c: Config, s: State, m: Move)
    requires Enabled(c, s, m) && Inv(c, s)
    ensures Inv(c, Apply(c, s, m))
  {
    MoveConserves(c, s, m);
    MoveFits(c, s, m);
    MoveBatchesFit(c, s, m);
    if !Apply(c, s, m).cancelled { MoveOrderly(c, s, m); }
  }

  lemma {:induction false} RunKeepsInv(c: Config, start: int, ss: seq<State>, ms: seq<Move>, i: nat)
    requires Run(c, start, ss, ms) && i <= |ms|
    ensures Inv(c, ss[i])
  {
    if i > 0 {
      RunKeepsInv(c, start, ss, ms, i - 1);
      MoveKeepsInv(c, ss[i - 1], ms[i - 1]);
    }
  }

  // ---------- what this means ----------

  /** Before cancellation every event sent is in a channel, in hand, in the heap, in the tick's batch or
      handed over, as often as it was sent. */
  lemma NothingLostBeforeCancel(c: Config, start: int, ss: seq<State>, ms: seq<Move>, i: nat)
    requires Run(c, start, ss, ms) && i <= |ms| && !ss[i].cancelled
    ensures ss[i].sent == InFlight(ss[i]) + ss[i].handed
  {
    RunKeepsInv(c, start, ss, ms, i);
  }

  /** In every run, shutdown included, no event is handed over more often than it was sent. */
  lemma NeverHandedTwice(c: Config, start: int, ss: seq<State>, ms: seq<Move>, i: nat)
    requires Run(c, start, ss, ms) && i <= |ms|
    ensures ss[i].handed <= ss[i].sent
  {
    RunKeepsInv(c, start, ss, ms, i);
  }

  /** Before cancellation an event is handed over only when it is at least `delay` old. */
  lemma HandedOnlyWhenDue(c: Config, start: int, ss: seq<State>, ms: seq<Move>, i: nat, e: Event)
    requires Run(c, start, ss, ms) && i <= |ms| && !ss[i].cancelled && e in ss[i].handed
    ensures ss[i].now - e.time >= c.delay
  {
    RunKeepsInv(c, start, ss, ms, i);
  }

  /** When a tick ends, no event that was due at its start is left in the heap. */
  lemma TickLeavesNoneDue(c: Config, s: State, e: Event)
    requires Enabled(c, s, EndLoop) && e in s.heap
    ensures !Due(e, s.tickNow, c.delay)
  {
  }

  // ---------- order ----------

  /** What has left a channel, followed by what waits in it, is what was put in. */
  ghost predicate InOrder(s: State) {
    s.accepted == s.received + s.eventCh && s.batchesSent == s.batchesHanded + s.batchCh
  }

  lemma MoveKeepsOrder(c: Config, s: State, m: Move)
    requires Enabled(c, s, m) && InOrder(s)
    ensures InOrder(Apply(c, s, m))
  {
    match m
    case Send(e) => assert s.received + s.eventCh + [e] == s.received + (s.eventCh + [e]);
    case SendFull => assert s.batchesHanded + s.batchCh + [s.batch] == s.batchesHanded + (s.batchCh + [s.batch]);
    case Flush => assert s.batchesHanded + s.batchCh + [s.batch] == s.batchesHanded + (s.batchCh + [s.batch]);
    case Shutdown(b) => assert s.batchesHanded + s.batchCh + [b] == s.batchesHanded + (s.batchCh + [b]);
    case _ =>
  }

  /** In every run, shutdown included, events are received in the order in which they were accepted, and batches are handed
      over in the order in which they were sent. */
  lemma {:induction false} FirstInFirstOut(c: Config, start: int, ss: seq<State>, ms: seq<Move>, i: nat)
    requires Run(c, start, ss, ms) && i <= |ms|
    ensures InOrder(ss[i]) && ss[i].received <= ss[i].accepted && ss[i].batchesHanded <= ss[i].batchesSent
  {
    if i > 0 {
      FirstInFirstOut(c, start, ss, ms, i - 1);
      MoveKeepsOrder(c, ss[i - 1], ms[i - 1]);
    }
  }

  // ---------- one tick, interleaved with everything else ----------

  /** While the lock is held, the tick has taken due events from the heap it found, earliest first. */
  ghost predicate InTick(c: Config, s: State) {
    Locked(s) ==> Taken(s.tickHeap, s.tickOut, s.heap, s.tickNow, c.delay)
  }

  lemma PopKeepsTick(c: Config, s: State, e: Event)
    requires Enabled(c, s, Pop(e)) && InTick(c, s)
    ensures Taken(s.tickHeap, s.tickOut + [e], s.heap - multiset{e}, s.tickNow, c.delay)
  {
    assert s.heap == (s.heap - multiset{e}) + multiset{e};
    TakeOne(s.tickHeap, s.tickOut, s.heap, s.heap - multiset{e}, e, s.tickNow, c.delay);
  }

  lemma LockStartsTick(c: Config, s: State)
    ensures Taken(s.heap, [], s.heap, s.tickNow, c.delay)
  {
    assert multiset([]) + s.heap == s.heap;
  }

  lemma MoveKeepsTick(c: Config, s: State, m: Move)
    requires Enabled(c, s, m) && InTick(c, s)
    ensures InTick(c, Apply(c, s, m))
  {
    if m.Pop? { PopKeepsTick(c, s, m.e); }
    if m.TickLock? { LockStartsTick(c, s); }
  }

  lemma {:induction false} RunKeepsTick(c: Config, start: int, ss: seq<State>, ms: seq<Move>, i: nat)
    requires Run(c, start, ss, ms) && i <= |ms|
    ensures InTick(c, ss[i])
  {
    if i > 0 {
      RunKeepsTick(c, start, ss, ms, i - 1);
      MoveKeepsTick(c, ss[i - 1], ms[i - 1]);
    }
  }

  /** The move is the one that locked the heap for the tick that the state is in. */
  ghost predicate LockedBy(s: State, m: Move, later: State) {
    m.TickLock? && s.phase == Sampled && s.heap == later.tickHeap && s.tickNow == later.tickNow
  }

  lemma LockedStep(c: Config, s: State, m: Move)
    requires Enabled(c, s, m) && Locked(Apply(c, s, m))
    ensures m.TickLock? ==> LockedBy(s, m, Apply(c, s, m))
    ensures !m.TickLock? ==> Locked(s) && Apply(c, s, m).tickHeap == s.tickHeap && Apply(c, s, m).tickNow == s.tickNow
  {
  }

  lemma {:induction false} LockedSince(c: Config, start: int, ss: seq<State>, ms: seq<Move>, i: nat) returns (j: nat)
    requires Run(c, start, ss, ms) && i <= |ms| && Locked(ss[i])
    ensures j < i && LockedBy(ss[j], ms[j], ss[i])
  {
    assert !Locked(ss[0]);
    assert ss[i] == Apply(c, ss[i - 1], ms[i - 1]) && Enabled(c, ss[i - 1], ms[i - 1]);
    LockedStep(c, ss[i - 1], ms[i - 1]);
    if ms[i - 1].TickLock? {
      j := i - 1;
    } else {
      j := LockedSince(c, start, ss, ms, i - 1);
    }
  }

  lemma SampledStep(c: Config, s: State, m: Move)
    requires Enabled(c, s, m) && Apply(c, s, m).phase == Sampled
    ensures m.TickSample? ==> s.now == Apply(c, s, m).tickNow
    ensures !m.TickSample? ==> s.phase == Sampled && Apply(c, s, m).tickNow == s.tickNow
  {
  }

  lemma {:induction false} SampledSince(c: Config, start: int, ss: seq<State>, ms: seq<Move>, i: nat) returns (k: nat)
    requires Run(c, start, ss, ms) && i <= |ms| && ss[i].phase == Sampled
    ensures k < i && ms[k].TickSample? && ss[k].now == ss[i].tickNow
  {
    assert ss[0].phase == Idle;
    assert ss[i] == Apply(c, ss[i - 1], ms[i - 1]) && Enabled(c, ss[i - 1], ms[i - 1]);
    SampledStep(c, ss[i - 1], ms[i - 1]);
    if ms[i - 1].TickSample? {
      k := i - 1;
    } else {
      k := SampledSince(c, start, ss, ms, i - 1);
    }
  }

  lemma EndSplitsDue(c: Config, s: State)
    requires Enabled(c, s, EndLoop) && InTick(c, s)
    ensures SplitsDue(s.tickHeap, multiset(s.tickOut), s.heap, s.tickNow, c.delay) && ByTime(s.tickOut)
  {
    forall e ensures e in multiset(s.tickOut) ==> Due(e, s.tickNow, c.delay)
             ensures e in s.heap ==> !Due(e, s.tickNow, c.delay) {
      if e in s.heap { TickLeavesNoneDue(c, s, e); }
    }
  }

  /** In every run, when a tick ends, what it popped is exactly those events of the heap it locked that were due at
      the clock it had read before, earliest first, and the heap holds the others. */
  lemma TickTakesExactlyDue(c: Config, start: int, ss: seq<State>, ms: seq<Move>, i: nat) returns (k: nat, j: nat)
    requires Run(c, start, ss, ms) && i < |ms| && ms[i].EndLoop?
    ensures k < j < i && ms[k].TickSample? && ms[j].TickLock?
    ensures SplitsDue(ss[j].heap, multiset(ss[i].tickOut), ss[i].heap, ss[k].now, c.delay) && ByTime(ss[i].tickOut)
    ensures forall e :: multiset(ss[i].tickOut)[e] == if e.time + c.delay <= ss[k].now then ss[j].heap[e] else 0
    ensures forall e :: ss[i].heap[e] == if e.time + c.delay <= ss[k].now then 0 else ss[j].heap[e]
  {
    RunKeepsTick(c, start, ss, ms, i);
    j := LockedSince(c, start, ss, ms, i);
    k := SampledSince(c, start, ss, ms, j);
    EndSplitsDue(c, ss[i]);
  }

  // ---------- what cancellation breaks ----------

  /** The two branches that lose events: giving up a batch that waits, and shutting down with events in the heap and no
      room in the channel. */
  ghost predicate Loses(c: Config, s: State, m: Move) {
    m.GiveUp? || (m.Shutdown? && s.heap != multiset{} && |s.batchCh| >= c.batchCap)
  }

  lemma AddsNothing(a: multiset<Event>, b: seq<Event>)
    ensures a + multiset(b) == multiset{} <==> a == multiset{} && b == []
  {
    if b != [] { assert b[0] in multiset(b) && b[0] in a + multiset(b); }
  }

  lemma MoveDrops(c: Config, s: State, m: Move)
    ensures Apply(c, s, m).dropped ==
      if m.GiveUp? then s.dropped + multiset(s.batch)
      else if m.Shutdown? && m.remaining != [] && |s.batchCh| >= c.batchCap then s.dropped + multiset(m.remaining)
      else s.dropped
  {
  }

  lemma MoveLosesExactly(c: Config, s: State, m: Move)
    requires Enabled(c, s, m) && BatchFits(c, s)
    ensures Apply(c, s, m).dropped == multiset{} <==> s.dropped == multiset{} && !Loses(c, s, m)
  {
    MoveDrops(c, s, m);
    if m.GiveUp? { AddsNothing(s.dropped, s.batch); }
    if m.Shutdown? {
      AddsNothing(s.dropped, m.remaining);
      AddsNothing(multiset{}, m.remaining);
    }
  }

  lemma {:induction false} DroppedExactly(c: Config, start: int, ss: seq<State>, ms: seq<Move>, i: nat)
    requires Run(c, start, ss, ms) && i <= |ms|
    ensures ss[i].dropped == multiset{} <==> forall j :: 0 <= j < i ==> !Loses(c, ss[j], ms[j])
  {
    if i > 0 {
      DroppedExactly(c, start, ss, ms, i - 1);
      RunKeepsInv(c, start, ss, ms, i - 1);
      MoveLosesExactly(c, ss[i - 1], ms[i - 1]);
    }
  }

  lemma MissingIsDropped(s: State)
    requires Conserves(s)
    ensures s.sent == InFlight(s) + s.handed <==> s.dropped == multiset{}
  {
    var kept := InFlight(s) + s.handed;
    if kept + s.dropped == kept {
      forall e ensures s.dropped[e] == 0 { assert (kept + s.dropped)[e] == kept[e] + s.dropped[e]; }
    }
  }

  /** In every run, cancelled or not, the sent events are those in flight and handed over exactly when no earlier move
      took one of the two losing branches. */
  lemma NothingLostExactly(c: Config, start: int, ss: seq<State>, ms: seq<Move>, i: nat)
    requires Run(c, start, ss, ms) && i <= |ms|
    ensures ss[i].sent == InFlight(ss[i]) + ss[i].handed <==> forall j :: 0 <= j < i ==> !Loses(c, ss[j], ms[j])
  {
    RunKeepsInv(c, start, ss, ms, i);
    MissingIsDropped(ss[i]);
    DroppedExactly(c, start, ss, ms, i);
  }

  /** Shutdown sends on due events only, exactly when all events of the heap are due or the channel is full. */
  lemma ShutdownDueExactly(c: Config, s: State, remaining: seq<Event>)
    requires Enabled(c, s, Shutdown(remaining)) && AllDue(Bag(s.batchCh), s.now, c.delay)
    ensures AllDue(Bag(Apply(c, s, Shutdown(remaining)).batchCh), s.now, c.delay) <==>
      AllDue(s.heap, s.now, c.delay) || |s.batchCh| >= c.batchCap
  {
    BagPush(s.batchCh, remaining);
    if remaining != [] && |s.batchCh| < c.batchCap {
      forall e ensures e in Bag(s.batchCh + [remaining]) <==> e in Bag(s.batchCh) || e in s.heap {}
    }
  }

  ghost predicate EndsIn(c: Config, start: int, ss: seq<State>, ms: seq<Move>, last: State) {
    Run(c, start, ss, ms) && ss[|ms|] == last
  }

  lemma Extend(c: Config, start: int, ss: seq<State>, ms: seq<Move>, last: State, m: Move)
    requires EndsIn(c, start, ss, ms, last) && Enabled(c, last, m)
    ensures EndsIn(c, start, ss + [Apply(c, last, m)], ms + [m], Apply(c, last, m))
  {
    var ss', ms' := ss + [Apply(c, last, m)], ms + [m];
    forall i | 0 <= i < |ms'| ensures Enabled(c, ss'[i], ms'[i]) && ss'[i + 1] == Apply(c, ss'[i], ms'[i]) {
      if i < |ms| { assert ss'[i] == ss[i] && ss'[i + 1] == ss[i + 1] && ms'[i] == ms[i]; }
    }
  }

  function OneState(now: int, e: Event): State {
    Init(now).(heap := multiset{e}, sent := multiset{e}, accepted := [e], received := [e])
  }

  /** A run that leaves one event in the heap. */
  lemma OneInHeap(c: Config, now: int, e: Event) returns (ss: seq<State>, ms: seq<Move>)
    ensures EndsIn(c, now, ss, ms, OneState(now, e))
  {
    var s0 := Init(now);
    assert EndsIn(c, now, [s0], [], s0);
    Extend(c, now, [s0], [], s0, SendDirect(e));
    var s1 := Apply(c, s0, SendDirect(e));
    Extend(c, now, [s0] + [s1], [] + [SendDirect(e)], s1, Push);
    ss, ms := [s0] + [s1] + [Apply(c, s1, Push)], [] + [SendDirect(e)] + [Push];
    assert multiset{} + multiset{e} == multiset{e};
  }

  /** After cancellation due-ness fails: shutdown sends on whatever the heap holds. For every event there is a run that
      hands it over at once, however young it is. */
  lemma ShutdownHandsEarly(c: Config, now: int, e: Event) returns (ss: seq<State>, ms: seq<Move>, last: State)
    requires c.batchCap > 0
    ensures EndsIn(c, now, ss, ms, last) && last.now == now && e in last.handed
  {
    ss, ms := OneInHeap(c, now, e);
    last := OneState(now, e);
    ss, ms, last := Then(c, now, ss, ms, last, Cancel);
    ss, ms, last := Then(c, now, ss, ms, last, Shutdown([e]));
    ss, ms, last := Then(c, now, ss, ms, last, Hand);
  }

  lemma Then(c: Config, now: int, ss: seq<State>, ms: seq<Move>, last: State, m: Move)
    returns (ss': seq<State>, ms': seq<Move>, last': State)
    requires EndsIn(c, now, ss, ms, last) && Enabled(c, last, m)
    ensures EndsIn(c, now, ss', ms', last') && last' == Apply(c, last, m)
  {
    Extend(c, now, ss, ms, last, m);
    ss', ms', last' := ss + [Apply(c, last, m)], ms + [m], Apply(c, last, m);
  }

  /** A run that locks the heap with one event in it. */
  lemma OneLocked(c: Config, now: int, e: Event) returns (ss: seq<State>, ms: seq<Move>, last: State)
    ensures EndsIn(c, now, ss, ms, last)
    ensures last == OneState(now, e).(phase := Popping, tickHeap := multiset{e})
  {
    ss, ms := OneInHeap(c, now, e);
    last := OneState(now, e);
    ss, ms, last := Then(c, now, ss, ms, last, TickSample);
    ss, ms, last := Then(c, now, ss, ms, last, TickLock);
  }

  /** A run that stops with the due event in a batch that waits for the channel: full, or the rest of a tick. */
  lemma BatchWaits(c: Config, now: int, e: Event) returns (ss: seq<State>, ms: seq<Move>, last: State)
    requires Due(e, now, c.delay)
    ensures EndsIn(c, now, ss, ms, last) && last.batch == [e] && (last.phase == SendingFull || last.phase == Flushing)
  {
    ss, ms, last := OneLocked(c, now, e);
    ss, ms, last := Then(c, now, ss, ms, last, Pop(e));
    if last.phase == Popping { ss, ms, last := Then(c, now, ss, ms, last, EndLoop); }
  }

  /** Cancelling while a batch waits loses it, whatever the batch size: for every due event there is a run after which it
      was sent and is neither in flight nor handed over. */
  lemma CancelDrops(c: Config, now: int, e: Event) returns (ss: seq<State>, ms: seq<Move>, last: State)
    requires Due(e, now, c.delay)
    ensures EndsIn(c, now, ss, ms, last) && last.sent != InFlight(last) + last.handed && e in last.dropped
  {
    ss, ms, last := BatchWaits(c, now, e);
    ss, ms, last := Then(c, now, ss, ms, last, Cancel);
    ss, ms, last := Then(c, now, ss, ms, last, GiveUp);
    RunKeepsInv(c, now, ss, ms, |ms|);
    assert last.dropped[e] >= 1;
    assert last.sent[e] == (InFlight(last) + last.handed)[e] + last.dropped[e];
  }
}
