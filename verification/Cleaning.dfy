/** The cleaner inside the marker protocol: the batches its goroutines hand over are the protocol's cleaning steps. */
module Cleaning {
  import EC = EventCleaner
  import opened EtcdMarkers
  import MarkerKeys
  import P = Pipeline
  import Lock = MarkerLock

  /** The event that `CanRunTask` sends for an attempt: the key it created and the clock it sampled. */
  ghost function EventOf(t: Lock.Attempt): EC.Event
    requires MarkerKeys.Era(Lock.Unix(t.clock))
  {
    EC.Event(KeyOf(t), t.clock)
  }

  /** The batch holds the events of these attempts, in order. */
  ghost predicate BatchOf(c: Cluster, node: string, ts: seq<Lock.Attempt>, batch: seq<EC.Event>) {
    && |batch| == |ts|
    && forall i :: 0 <= i < |ts| ==> FromCluster(c, ts[i]) && ts[i].node == node && batch[i] == EventOf(ts[i])
  }

  ghost function Pops(ts: seq<Lock.Attempt>): seq<Action> {
    if ts == [] then [] else [PopDue(ts[0])] + Pops(ts[1..])
  }

  ghost function Deletes(ts: seq<Lock.Attempt>): seq<Action> {
    if ts == [] then [] else [DeleteKey(ts[0])] + Deletes(ts[1..])
  }

  ghost function KeysOf(ts: seq<Lock.Attempt>): set<string> {
    if ts == [] then {} else {MarkerKeys.MarkerKey(Lock.Unix(ts[0].clock), ts[0].task)} + KeysOf(ts[1..])
  }

  /** Taking the first attempt out of a bag that holds them all leaves the others. */
  lemma TakeFront(ts: seq<Lock.Attempt>, bag: multiset<Lock.Attempt>)
    requires ts != [] && multiset(ts) <= bag
    ensures ts[0] in bag && multiset(ts[1..]) <= bag - multiset{ts[0]}
    ensures bag - multiset{ts[0]} - multiset(ts[1..]) == bag - multiset(ts)
  {
    assert ts == [ts[0]] + ts[1..];
  }

  lemma AddFront(ts: seq<Lock.Attempt>, bag: multiset<Lock.Attempt>)
    requires ts != []
    ensures bag + multiset{ts[0]} + multiset(ts[1..]) == bag + multiset(ts)
  {
    assert ts == [ts[0]] + ts[1..];
  }

  /** Popping a batch of due events, one step each. */
  lemma {:induction false} PopsRun(c: Cluster, s: State, ts: seq<Lock.Attempt>)
    requires multiset(ts) <= s.queued && forall i :: 0 <= i < |ts| ==> Due(c, s.now, ts[i])
    ensures Runs(c, s, Pops(ts), s.(queued := s.queued - multiset(ts), due := s.due + multiset(ts)))
    decreases |ts|
  {
    if ts == [] {
      assert s.queued - multiset(ts) == s.queued && s.due + multiset(ts) == s.due;
    } else {
      TakeFront(ts, s.queued);
      AddFront(ts, s.due);
      PopsRun(c, Apply(c, s, PopDue(ts[0])), ts[1..]);
      assert Pops(ts)[1..] == Pops(ts[1..]);
    }
  }

  /** The transaction of the handler deletes the keys of the batch, one step each. */
  lemma {:induction false} DeletesRun(c: Cluster, s: State, ts: seq<Lock.Attempt>)
    requires multiset(ts) <= s.due && forall i :: 0 <= i < |ts| ==> FromCluster(c, ts[i])
    ensures Runs(c, s, Deletes(ts), s.(due := s.due - multiset(ts), keys := s.keys - KeysOf(ts)))
    decreases |ts|
  {
    if ts == [] {
      assert s.due - multiset(ts) == s.due && s.keys - KeysOf(ts) == s.keys;
    } else {
      TakeFront(ts, s.due);
      var s1 := Apply(c, s, DeleteKey(ts[0]));
      DeletesRun(c, s1, ts[1..]);
      assert s1.keys - KeysOf(ts[1..]) == s.keys - KeysOf(ts);
      assert Deletes(ts)[1..] == Deletes(ts[1..]);
    }
  }

  /** Every event of a batch that is about to be handed over is due on the node's clock. */
  lemma WaitingIsDue(pc: P.Config, start: int, ss: seq<P.State>, ms: seq<P.Move>, i: nat, e: EC.Event)
    requires P.Run(pc, start, ss, ms) && i < |ms| && ms[i].Hand? && !ss[i].cancelled && e in ss[i].batchCh[0]
    ensures EC.Due(e, ss[i].now, pc.delay)
  {
    P.RunKeepsInv(pc, start, ss, ms, i);
    assert e in multiset(ss[i].batchCh[0]);
    assert e in P.Bag(ss[i].batchCh);
  }

  /** Cleaning up after a batch of due events. */
  lemma BatchCleans(c: Cluster, s: State, ts: seq<Lock.Attempt>)
    requires multiset(ts) <= s.queued && forall k :: 0 <= k < |ts| ==> FromCluster(c, ts[k]) && Due(c, s.now, ts[k])
    ensures var popped := s.(queued := s.queued - multiset(ts), due := s.due + multiset(ts));
      && Runs(c, s, Pops(ts), popped)
      && Runs(c, popped, Deletes(ts), popped.(due := s.due, keys := s.keys - KeysOf(ts)))
  {
    PopsRun(c, s, ts);
    var popped := s.(queued := s.queued - multiset(ts), due := s.due + multiset(ts));
    DeletesRun(c, popped, ts);
    assert popped.due - multiset(ts) == s.due;
  }

  /** The attempts of a batch that is about to be handed over are due in the protocol. */
  lemma BatchIsDue(
      c: Cluster, now: int, node: string, ts: seq<Lock.Attempt>,
      pc: P.Config, start: int, ss: seq<P.State>, ms: seq<P.Move>, i: nat, k: nat)
    requires P.Run(pc, start, ss, ms) && i < |ms| && ms[i].Hand? && !ss[i].cancelled && pc.delay == Lock.HOLD
    requires node in c.timing.offset && ss[i].now == now + c.timing.offset[node]
    requires BatchOf(c, node, ts, ss[i].batchCh[0]) && k < |ts|
    ensures FromCluster(c, ts[k]) && Due(c, now, ts[k])
  {
    var batch := ss[i].batchCh[0];
    assert batch[k] in batch && batch[k] == EventOf(ts[k]);
    WaitingIsDue(pc, start, ss, ms, i, batch[k]);
  }

  /** A batch that a node's cleaner hands over before cancellation is a run of cleaning steps of the protocol: each of
      its events may be popped on that node's clock, and the handler's transaction deletes exactly their keys. */
  lemma HandedBatchCleans(
      c: Cluster, s: State, node: string, ts: seq<Lock.Attempt>,
      pc: P.Config, start: int, ss: seq<P.State>, ms: seq<P.Move>, i: nat)
    requires P.Run(pc, start, ss, ms) && i < |ms| && ms[i].Hand? && !ss[i].cancelled && pc.delay == Lock.HOLD
    requires node in c.timing.offset && ss[i].now == s.now + c.timing.offset[node]
    requires BatchOf(c, node, ts, ss[i].batchCh[0]) && multiset(ts) <= s.queued
    ensures var popped := s.(queued := s.queued - multiset(ts), due := s.due + multiset(ts));
      && Runs(c, s, Pops(ts), popped)
      && Runs(c, popped, Deletes(ts), popped.(due := s.due, keys := s.keys - KeysOf(ts)))
  {
    forall k | 0 <= k < |ts| ensures FromCluster(c, ts[k]) && Due(c, s.now, ts[k]) {
      BatchIsDue(c, s.now, node, ts, pc, start, ss, ms, i, k);
    }
    BatchCleans(c, s, ts);
  }
}
