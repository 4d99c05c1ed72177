/** The event cleaner's heap and its tick: which events leave, in what order, in which batches. */
module EventCleaner {

  datatype Event = Event(key: string, time: int)

  // ---------- the binary heap ----------

  function Parent(i: int): (p: int)
    ensures i > 0 ==> 0 <= p < i
  {
    (i - 1) / 2
  }

  ghost predicate Ordered(h: seq<Event>) {
    forall i :: 0 < i < |h| ==> h[Parent(i)].time <= h[i].time
  }

  function Swap(h: seq<Event>, i: nat, j: nat): (r: seq<Event>)
    requires i < |h| && j < |h|
    ensures |r| == |h| && r[i] == h[j] && r[j] == h[i] && multiset(r) == multiset(h)
    ensures forall k :: 0 <= k < |h| && k != i && k != j ==> r[k] == h[k]
  {
    h[i := h[j]][j := h[i]]
  }

  /** The root of a heap is one of its earliest events. */
  lemma {:induction false} RootIsEarliest(h: seq<Event>, i: nat)
    requires Ordered(h) && i < |h|
    ensures h[0].time <= h[i].time
  {
    if i > 0 { RootIsEarliest(h, Parent(i)); }
  }

  /** Only `j` may be too early for its place. */
  ghost predicate TooEarlyAt(h: seq<Event>, j: nat) {
    && (forall i :: 0 < i < |h| && i != j ==> h[Parent(i)].time <= h[i].time)
    && (forall i :: 0 < i < |h| && Parent(i) == j && j > 0 ==> h[Parent(j)].time <= h[i].time)
  }

  /** Only `j` may be too late for its place. */
  ghost predicate TooLateAt(h: seq<Event>, j: nat) {
    && (forall i :: 0 < i < |h| && Parent(i) != j ==> h[Parent(i)].time <= h[i].time)
    && (forall i :: 0 < i < |h| && Parent(i) == j && j > 0 ==> h[Parent(j)].time <= h[i].time)
  }

  lemma RiseStep(h: seq<Event>, j: nat)
    requires TooEarlyAt(h, j) && 0 < j < |h| && h[j].time < h[Parent(j)].time
    ensures TooEarlyAt(Swap(h, Parent(j), j), Parent(j))
  {
  }

  /** Let the event at `j` rise to its place. */
  method SiftUp(h: seq<Event>, j: nat) returns (r: seq<Event>)
    requires j < |h| && TooEarlyAt(h, j)
    ensures Ordered(r) && multiset(r) == multiset(h)
  {
    r := h;
    var k: nat := j;
    while k > 0 && r[k].time < r[Parent(k)].time
      invariant k < |r| && TooEarlyAt(r, k) && multiset(r) == multiset(h)
    {
      RiseStep(r, k);
      r, k := Swap(r, Parent(k), k), Parent(k);
    }
  }

  /** `c` is the earlier child of `j`. */
  ghost predicate EarlierChild(h: seq<Event>, j: nat, c: nat) {
    && 0 < c < |h| && Parent(c) == j
    && forall i :: 0 < i < |h| && Parent(i) == j ==> h[c].time <= h[i].time
  }

  lemma SinkStep(h: seq<Event>, j: nat, c: nat)
    requires TooLateAt(h, j) && j < |h| && EarlierChild(h, j, c) && h[c].time < h[j].time
    ensures TooLateAt(Swap(h, j, c), c)
  {
  }

  /** The earlier child of `k`, which has one. */
  method PickChild(h: seq<Event>, k: nat) returns (c: nat)
    requires 2 * k + 1 < |h|
    ensures EarlierChild(h, k, c)
  {
    c := 2 * k + 1;
    if c + 1 < |h| && h[c + 1].time < h[c].time { c := c + 1; }
  }

  lemma Settled(h: seq<Event>, k: nat)
    requires TooLateAt(h, k) && k < |h|
    requires forall i :: 0 < i < |h| && Parent(i) == k ==> h[k].time <= h[i].time
    ensures Ordered(h)
  {
  }

  /** Let the event at the root sink to its place. */
  method SiftDown(h: seq<Event>) returns (r: seq<Event>)
    requires TooLateAt(h, 0)
    ensures Ordered(r) && multiset(r) == multiset(h) && |r| == |h|
  {
    r := h;
    var k: nat := 0;
    while 2 * k + 1 < |r|
      invariant TooLateAt(r, k) && multiset(r) == multiset(h) && |r| == |h|
      decreases |r| - k
    {
      var c := PickChild(r, k);
      if r[c].time >= r[k].time {
        Settled(r, k);
        return;
      }
      SinkStep(r, k, c);
      r, k := Swap(r, k, c), c;
    }
    assert forall i :: 0 < i < |r| ==> Parent(i) != k;
  }

  // ---------- batches ----------

  /** All events of a list of batches, in order. */
  function Concat(batches: seq<seq<Event>>): seq<Event>
    decreases |batches|
  {
    if batches == [] then [] else Concat(batches[..|batches| - 1]) + batches[|batches| - 1]
  }

  lemma ConcatPush(batches: seq<seq<Event>>, batch: seq<Event>)
    ensures Concat(batches + [batch]) == Concat(batches) + batch
  {
    assert (batches + [batch])[..|batches|] == batches;
  }

  /** The size at which a batch is sent: the check comes after the append, so at least one. */
  function Cap(batchSize: int): (n: nat)
    ensures n >= 1
  {
    if batchSize < 1 then 1 else batchSize
  }

  predicate Due(e: Event, now: int, delay: int) {
    now - e.time >= delay
  }

  ghost predicate ByTime(s: seq<Event>) {
    forall i, j :: 0 <= i < j < |s| ==> s[i].time <= s[j].time
  }

  /** Full batches, then possibly a shorter one; none is empty. */
  ghost predicate WellCut(batches: seq<seq<Event>>, cap: nat) {
    forall i :: 0 <= i < |batches| ==>
      0 < |batches[i]| <= cap && (i < |batches| - 1 ==> |batches[i]| == cap)
  }

  /** `out` is cut into the full batches sent and the batch being filled. */
  ghost predicate CutInto(out: seq<Event>, sent: seq<seq<Event>>, batch: seq<Event>, cap: nat) {
    && out == Concat(sent) + batch && |batch| <= cap
    && forall i :: 0 <= i < |sent| ==> |sent[i]| == cap
  }

  lemma CutMore(out: seq<Event>, sent: seq<seq<Event>>, batch: seq<Event>, cap: nat, e: Event)
    requires CutInto(out, sent, batch, cap) && |batch| < cap
    ensures CutInto(out + [e], sent, batch + [e], cap)
  {
  }

  lemma CutFull(out: seq<Event>, sent: seq<seq<Event>>, batch: seq<Event>, cap: nat)
    requires CutInto(out, sent, batch, cap) && |batch| == cap
    ensures CutInto(out, sent + [batch], [], cap)
  {
    ConcatPush(sent, batch);
  }

  lemma CutEnd(out: seq<Event>, sent: seq<seq<Event>>, batch: seq<Event>, cap: nat)
    requires CutInto(out, sent, batch, cap) && cap > 0
    ensures var all := if batch == [] then sent else sent + [batch];
      Concat(all) == out && WellCut(all, cap)
  {
    ConcatPush(sent, batch);
  }

  /** `out` and `rest` split `all` into the due events and the others. */
  ghost predicate SplitsDue(all: multiset<Event>, out: multiset<Event>, rest: multiset<Event>, now: int, delay: int) {
    forall e :: out[e] == (if Due(e, now, delay) then all[e] else 0)
             && rest[e] == (if Due(e, now, delay) then 0 else all[e])
  }

  /** `out` lists due events taken from `all` earliest first, and `heap` holds the others. */
  ghost predicate Taken(all: multiset<Event>, out: seq<Event>, heap: multiset<Event>, now: int, delay: int) {
    && all == multiset(out) + heap && ByTime(out)
    && (forall i :: 0 <= i < |out| ==> Due(out[i], now, delay))
    && (forall i, x :: 0 <= i < |out| && x in heap ==> out[i].time <= x.time)
  }

  /** Taking out one more due event that no other precedes. */
  lemma TakeOne(all: multiset<Event>, out: seq<Event>, heap: multiset<Event>, heap': multiset<Event>, e: Event, now: int, delay: int)
    requires Taken(all, out, heap, now, delay) && heap == heap' + multiset{e} && Due(e, now, delay)
    requires forall x :: x in heap ==> e.time <= x.time
    ensures Taken(all, out + [e], heap', now, delay)
  {
    assert e in heap;
    assert multiset(out + [e]) == multiset(out) + multiset{e};
  }

  /** Stopping when the earliest event is not due misses none. */
  lemma StopMissesNone(all: multiset<Event>, out: seq<Event>, heap: seq<Event>, now: int, delay: int)
    requires Taken(all, out, multiset(heap), now, delay) && Ordered(heap)
    requires heap != [] ==> !Due(heap[0], now, delay)
    ensures SplitsDue(all, multiset(out), multiset(heap), now, delay)
  {
    forall e ensures e in multiset(out) ==> Due(e, now, delay)
             ensures e in multiset(heap) ==> !Due(e, now, delay) {
      if e in multiset(out) { var i :| 0 <= i < |out| && out[i] == e; }
      if e in multiset(heap) {
        var i :| 0 <= i < |heap| && heap[i] == e;
        RootIsEarliest(heap, i);
      }
    }
  }

  class EventCleaner {
    const batchSize: int
    const eventDelay: int
    var heap: seq<Event>
    var batchCh: seq<seq<Event>>

    ghost predicate Valid()
      reads this
    {
      Ordered(heap)
    }

    /** A zero batch size or delay stands for the default. */
    constructor (batchSize: int, eventDelay: int)
      ensures Valid() && heap == [] && batchCh == []
      ensures this.batchSize == (if batchSize == 0 then 64 else batchSize)
      ensures this.eventDelay == (if eventDelay == 0 then 5_000_000_000 else eventDelay)
    {
      this.batchSize := if batchSize == 0 then 64 else batchSize;
      this.eventDelay := if eventDelay == 0 then 5_000_000_000 else eventDelay;
      heap, batchCh := [], [];
    }

    method Push(e: Event)
      requires Valid()
      modifies this`heap
      ensures Valid() && multiset(heap) == multiset(old(heap)) + multiset{e}
    {
      heap := SiftUp(heap + [e], |heap|);
    }

    /** Take out the root, which no event precedes. */
    method Pop() returns (e: Event)
      requires Valid() && heap != []
      modifies this`heap
      ensures Valid() && e == old(heap[0]) && multiset(old(heap)) == multiset(heap) + multiset{e}
      ensures |heap| == |old(heap)| - 1
      ensures forall x :: x in multiset(old(heap)) ==> e.time <= x.time
    {
      var n := |heap| - 1;
      var swapped := Swap(heap, 0, n);
      e := swapped[n];
      assert swapped == swapped[..n] + [e];
      forall i | 0 <= i < |heap| ensures e.time <= heap[i].time { RootIsEarliest(heap, i); }
      heap := SiftDown(swapped[..n]);
    }

    /** Take the root of the heap when it is due. */
    method PopDue(now: int, ghost all: multiset<Event>, ghost out: seq<Event>) returns (e: Event)
      requires Valid() && heap != [] && Due(heap[0], now, eventDelay)
      requires Taken(all, out, multiset(heap), now, eventDelay)
      modifies this`heap
      ensures Valid() && |heap| == |old(heap)| - 1
      ensures Taken(all, out + [e], multiset(heap), now, eventDelay)
    {
      e := Pop();
      TakeOne(all, out, multiset(old(heap)), multiset(heap), e, now, eventDelay);
    }

    /** Hand a batch to the batch channel. */
    method SendBatch(sent: seq<seq<Event>>, batch: seq<Event>, ghost before: seq<seq<Event>>) returns (r: seq<seq<Event>>)
      requires batchCh == before + sent
      modifies this`batchCh
      ensures r == sent + [batch] && batchCh == before + r
    {
      batchCh := batchCh + [batch];
      r := sent + [batch];
    }

    /** The part of a tick under the heap lock: take due events, send every batch that fills up. */
    method DrainDue(now: int) returns (sent: seq<seq<Event>>, batch: seq<Event>, ghost out: seq<Event>)
      requires Valid()
      modifies this`heap, this`batchCh
      ensures Valid() && batchCh == old(batchCh) + sent && CutInto(out, sent, batch, Cap(batchSize))
      ensures SplitsDue(multiset(old(heap)), multiset(out), multiset(heap), now, eventDelay) && ByTime(out)
    {
      sent, batch, out := [], [], [];
      while |heap| > 0 && Due(heap[0], now, eventDelay)
        invariant Valid() && batchCh == old(batchCh) + sent
        invariant Taken(multiset(old(heap)), out, multiset(heap), now, eventDelay)
        invariant CutInto(out, sent, batch, Cap(batchSize)) && |batch| < Cap(batchSize)
        decreases |heap|
      {
        var e := PopDue(now, multiset(old(heap)), out);
        CutMore(out, sent, batch, Cap(batchSize), e);
        batch, out := batch + [e], out + [e];
        if |batch| >= batchSize {
          CutFull(out, sent, batch, Cap(batchSize));
          sent := SendBatch(sent, batch, old(batchCh));
          batch := [];
        }
      }
      StopMissesNone(multiset(old(heap)), out, heap, now, eventDelay);
    }

    /** A tick: the due events leave the heap earliest first, cut into batches. */
    method Tick(now: int) returns (sent: seq<seq<Event>>)
      requires Valid()
      modifies this`heap, this`batchCh
      ensures Valid() && batchCh == old(batchCh) + sent
      ensures SplitsDue(multiset(old(heap)), multiset(Concat(sent)), multiset(heap), now, eventDelay)
      ensures ByTime(Concat(sent)) && WellCut(sent, Cap(batchSize))
      ensures forall e :: multiset(Concat(sent))[e] == if e.time + eventDelay <= now then multiset(old(heap))[e] else 0
      ensures forall e :: multiset(heap)[e] == if e.time + eventDelay <= now then 0 else multiset(old(heap))[e]
      ensures forall i :: 0 <= i < |sent| ==>
        var full := if batchSize < 1 then 1 else batchSize;
        0 < |sent[i]| <= full && (i < |sent| - 1 ==> |sent[i]| == full)
    {
      var batch;
      ghost var out;
      sent, batch, out := DrainDue(now);
      CutEnd(out, sent, batch, Cap(batchSize));
      if |batch| > 0 { sent := SendBatch(sent, batch, old(batchCh)); }
    }
  }
}
