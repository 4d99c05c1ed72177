/** Consul's task watch: a handler that turns listings of the task keys into Put and Delete events by
    comparing each listing with the last, and what a replica fed with those events holds. */
module ConsulWatch {
  import opened Options
  import opened Scheduler

  const TASKS_PREFIX: string := "distributed_cron/tasks/"

  /** `strings.TrimPrefix`. */
  function TrimPrefix(s: string, p: string): string {
    if p <= s then s[|p|..] else s
  }

  /** The name a Delete event carries: the key without the prefix, and without one leading slash. */
  function TaskName(key: string): string {
    TrimPrefix(TrimPrefix(key, TASKS_PREFIX), "/")
  }

  datatype Pair = Pair(key: string, value: string)

  datatype Change = Put(task: TaskMeta) | Delete(name: string)

  /** Keys and their stored bytes. */
  type Snapshot = map<string, string>

  /** JSON decoding of a stored value. */
  type Decoder = string -> Option<TaskMeta>

  /** The task name a change is about. */
  function About(e: Change): string {
    match e
    case Put(task) => task.name
    case Delete(name) => name
  }

  /** The key is new or its value changed, and the value can be decoded. */
  predicate Renewed(decode: Decoder, before: Snapshot, after: Snapshot, key: string) {
    && key in after && decode(after[key]).Some?
    && (key in before ==> before[key] != after[key])
  }

  ghost function RenewedKeys(decode: Decoder, before: Snapshot, after: Snapshot): set<string> {
    set key | key in after && Renewed(decode, before, after, key)
  }

  predicate Gone(before: Snapshot, after: Snapshot, key: string) {
    key in before && key !in after
  }

  /** The change is one the two listings call for. */
  ghost predicate Owed(decode: Decoder, before: Snapshot, after: Snapshot, e: Change) {
    || (exists key :: Renewed(decode, before, after, key) && e == Put(decode(after[key]).value))
    || (exists key :: Gone(before, after, key) && e == Delete(TaskName(key)))
  }

  /** The batch holds the changes the listings call for, in any order. */
  ghost predicate Batch(decode: Decoder, before: Snapshot, after: Snapshot, es: seq<Change>) {
    forall e :: e in es <==> Owed(decode, before, after, e)
  }

  // ---------- the handler ----------

  /** The pairs as a map; a later pair wins. */
  function MapOf(pairs: seq<Pair>): Snapshot
    decreases |pairs|
  {
    if pairs == [] then map[]
    else
      var last := pairs[|pairs| - 1];
      MapOf(pairs[..|pairs| - 1])[last.key := last.value]
  }

  lemma MapOfPush(pairs: seq<Pair>, p: Pair)
    ensures MapOf(pairs + [p]) == MapOf(pairs)[p.key := p.value]
  {
    assert (pairs + [p])[..|pairs|] == pairs;
  }

  function Decodable(decode: Decoder, pairs: seq<Pair>): seq<Pair>
    decreases |pairs|
  {
    if pairs == [] then []
    else
      var last := pairs[|pairs| - 1];
      var before := Decodable(decode, pairs[..|pairs| - 1]);
      if decode(last.value).Some? then before + [last] else before
  }

  /** The Put events of the first listing. */
  function Announced(decode: Decoder, pairs: seq<Pair>): seq<Change>
    decreases |pairs|
  {
    if pairs == [] then []
    else
      var task := decode(pairs[|pairs| - 1].value);
      var before := Announced(decode, pairs[..|pairs| - 1]);
      if task.Some? then before + [Put(task.value)] else before
  }

  lemma ListedNext(decode: Decoder, pairs: seq<Pair>, i: nat)
    requires i < |pairs|
    ensures var task := decode(pairs[i].value);
      var es, m := Announced(decode, pairs[..i]), MapOf(Decodable(decode, pairs[..i]));
      && Announced(decode, pairs[..i + 1]) == (if task.Some? then es + [Put(task.value)] else es)
      && MapOf(Decodable(decode, pairs[..i + 1])) == (if task.Some? then m[pairs[i].key := pairs[i].value] else m)
  {
    assert pairs[..i + 1][..i] == pairs[..i];
    MapOfPush(Decodable(decode, pairs[..i]), pairs[i]);
  }

  ghost predicate DeletesOf(es: seq<Change>, keys: set<string>) {
    forall e :: e in es <==> exists key :: key in keys && e == Delete(TaskName(key))
  }

  lemma DeletesMore(es: seq<Change>, keys: set<string>, key: string)
    requires DeletesOf(es, keys)
    ensures DeletesOf(es + [Delete(TaskName(key))], keys + {key})
  {
  }

  class TaskWatch {
    const decode: Decoder
    var currentPairs: Snapshot
    var eventChan: seq<Change>

    constructor (decode: Decoder)
      ensures this.decode == decode && currentPairs == map[] && eventChan == []
    {
      this.decode, currentPairs, eventChan := decode, map[], [];
    }

    /** The first listing: store and announce what can be decoded, in the order listed. */
    method Begin(pairs: seq<Pair>)
      requires currentPairs == map[]
      modifies this
      ensures currentPairs == MapOf(Decodable(decode, pairs))
      ensures eventChan == old(eventChan) + Announced(decode, pairs)
    {
      for i := 0 to |pairs|
        invariant currentPairs == MapOf(Decodable(decode, pairs[..i]))
        invariant eventChan == old(eventChan) + Announced(decode, pairs[..i])
      {
        ListedNext(decode, pairs, i);
        var task := decode(pairs[i].value);
        if task.Some? {
          currentPairs := currentPairs[pairs[i].key := pairs[i].value];
          eventChan := eventChan + [Put(task.value)];
        }
      }
      assert pairs[..|pairs|] == pairs;
    }

    method BuildMap(pairs: seq<Pair>) returns (m: Snapshot)
      ensures m == MapOf(pairs)
    {
      m := map[];
      for i := 0 to |pairs|
        invariant m == MapOf(pairs[..i])
      {
        assert pairs[..i + 1][..i] == pairs[..i];
        m := m[pairs[i].key := pairs[i].value];
      }
      assert pairs[..|pairs|] == pairs;
    }

    /** Put events for the new and the changed keys, in whatever order the map yields them. */
    method CollectPuts(after: Snapshot) returns (es: seq<Change>)
      ensures forall e :: e in es <==>
        exists key :: Renewed(decode, currentPairs, after, key) && e == Put(decode(after[key]).value)
      ensures |es| == |RenewedKeys(decode, currentPairs, after)|
    {
      es := [];
      var rest := after.Keys;
      ghost var done: set<string> := {};
      while rest != {}
        invariant rest <= after.Keys && done == RenewedKeys(decode, currentPairs, after) - rest && |es| == |done|
        invariant forall e :: e in es <==>
          exists key :: key !in rest && Renewed(decode, currentPairs, after, key) && e == Put(decode(after[key]).value)
        decreases rest
      {
        var key :| key in rest;
        rest := rest - {key};
        var task := decode(after[key]);
        if task.Some? && (key !in currentPairs || currentPairs[key] != after[key]) {
          es := es + [Put(task.value)];
          done := done + {key};
        }
      }
    }

    /** Delete events for the keys that are gone. */
    method CollectDeletes(after: Snapshot) returns (es: seq<Change>)
      ensures forall e :: e in es <==> exists key :: Gone(currentPairs, after, key) && e == Delete(TaskName(key))
      ensures |es| == |currentPairs.Keys - after.Keys|
    {
      es := [];
      var rest := currentPairs.Keys;
      ghost var gone, done := currentPairs.Keys - after.Keys, {};
      while rest != {}
        invariant rest <= currentPairs.Keys && done == gone - rest && |es| == |done|
        invariant DeletesOf(es, done)
        decreases rest
      {
        var key :| key in rest;
        rest := rest - {key};
        if key !in after {
          DeletesMore(es, done, key);
          es := es + [Delete(TaskName(key))];
          done := done + {key};
        }
      }
      forall key ensures key in done <==> Gone(currentPairs, after, key) {}
    }

    /** The watch handler: send the changes since the last listing and keep the new one. */
    method Handle(pairs: seq<Pair>) returns (batch: seq<Change>)
      modifies this
      ensures Batch(decode, old(currentPairs), MapOf(pairs), batch)
      ensures |batch| == |RenewedKeys(decode, old(currentPairs), MapOf(pairs))| + |old(currentPairs).Keys - MapOf(pairs).Keys|
      ensures eventChan == old(eventChan) + batch && currentPairs == MapOf(pairs)
      ensures MapOf(pairs) == old(currentPairs) ==> batch == []
      ensures WellKeyed(decode, MapOf(pairs)) ==> forall task :: Put(task) in batch ==>
        && KeyOf(task.name) in MapOf(pairs)
        && (KeyOf(task.name) !in old(currentPairs) || old(currentPairs)[KeyOf(task.name)] != MapOf(pairs)[KeyOf(task.name)])
      ensures WellKeyed(decode, old(currentPairs)) ==> forall name :: Delete(name) in batch ==>
        KeyOf(name) in old(currentPairs) && KeyOf(name) !in MapOf(pairs)
    {
      var after := BuildMap(pairs);
      ghost var before := currentPairs;
      var puts := CollectPuts(after);
      var deletes := CollectDeletes(after);
      batch := puts + deletes;
      eventChan := eventChan + batch;
      currentPairs := after;
      BatchMinimal(decode, before, after, batch);
    }

    /** Whoever replays the channel follows the snapshot, and the listing. */
    ghost predicate Fed(listing: seq<Pair>)
      reads this
    {
      && WellKeyed(decode, currentPairs) && Follows(decode, currentPairs, Replay(map[], eventChan))
      && Follows(decode, MapOf(listing), Replay(map[], eventChan))
    }

    method BeginFeeding(pairs: seq<Pair>)
      requires currentPairs == map[] && eventChan == [] && DistinctKeys(pairs) && WellKeyed(decode, MapOf(pairs))
      modifies this
      ensures Fed(pairs)
    {
      Begin(pairs);
      FirstFollows(decode, pairs);
      assert eventChan == Announced(decode, pairs);
    }

    method KeepFeeding(pairs: seq<Pair>, ghost listing: seq<Pair>)
      requires Fed(listing) && WellKeyed(decode, MapOf(pairs))
      modifies this
      ensures Fed(pairs)
    {
      var batch := Handle(pairs);
      ReplayConcat(map[], old(eventChan), batch);
      BatchFollows(decode, old(currentPairs), currentPairs, batch, Replay(map[], old(eventChan)));
    }

    /** The whole watch: whoever replays the channel follows the last listing. */
    method Watch(first: seq<Pair>, rest: seq<seq<Pair>>)
      requires currentPairs == map[] && eventChan == []
      requires DistinctKeys(first) && WellKeyed(decode, MapOf(first))
      requires forall i :: 0 <= i < |rest| ==> WellKeyed(decode, MapOf(rest[i]))
      modifies this
      ensures Follows(decode, MapOf(Latest(first, rest, |rest|)), Replay(map[], eventChan))
    {
      BeginFeeding(first);
      for i := 0 to |rest|
        invariant Fed(Latest(first, rest, i))
      {
        KeepFeeding(rest[i], Latest(first, rest, i));
        assert Latest(first, rest, i + 1) == rest[i];
      }
    }
  }

  /** The listing after the first and i more. */
  function Latest(first: seq<Pair>, rest: seq<seq<Pair>>, i: nat): seq<Pair>
    requires i <= |rest|
  {
    if i == 0 then first else rest[i - 1]
  }

  // ---------- the replica ----------

  function Applied(replica: map<string, TaskMeta>, e: Change): map<string, TaskMeta> {
    match e
    case Put(task) => replica[task.name := task]
    case Delete(name) => replica - {name}
  }

  /** What a consumer that applies the changes holds, by task name. */
  function Replay(replica: map<string, TaskMeta>, es: seq<Change>): map<string, TaskMeta>
    decreases |es|
  {
    if es == [] then replica else Replay(Applied(replica, es[0]), es[1..])
  }

  /** A name no change is about keeps its entry. */
  lemma {:induction false} ReplayOthers(replica: map<string, TaskMeta>, es: seq<Change>, n: string)
    requires forall i :: 0 <= i < |es| ==> About(es[i]) != n
    ensures n in Replay(replica, es) <==> n in replica
    ensures n in replica ==> Replay(replica, es)[n] == replica[n]
    decreases |es|
  {
    if es != [] { ReplayOthers(Applied(replica, es[0]), es[1..], n); }
  }

  /** When every change about a name is the same one, it decides, wherever it stands. */
  lemma {:induction false} ReplayDecides(replica: map<string, TaskMeta>, es: seq<Change>, e: Change)
    requires e in es && forall i :: 0 <= i < |es| && About(es[i]) == About(e) ==> es[i] == e
    ensures About(e) in Replay(replica, es) <==> e.Put?
    ensures e.Put? ==> Replay(replica, es)[About(e)] == e.task
    decreases |es|
  {
    var next := Applied(replica, es[0]);
    if e in es[1..] {
      ReplayDecides(next, es[1..], e);
    } else {
      assert es[0] == e;
      forall i | 0 <= i < |es| - 1 ensures About(es[1..][i]) != About(e) { assert es[1..][i] in es[1..]; }
      ReplayOthers(next, es[1..], About(e));
    }
  }

  predicate Slashed(name: string) {
    "/" <= name
  }

  /** The key of a task, as `PutTask` builds it. */
  function KeyOf(name: string): string {
    TASKS_PREFIX + name
  }

  /** Trimming gives the name back exactly when the name does not start with a slash. */
  lemma TrimExactly(name: string)
    ensures TaskName(KeyOf(name)) == name <==> !Slashed(name)
  {
    assert TASKS_PREFIX <= KeyOf(name) && KeyOf(name)[|TASKS_PREFIX|..] == name;
    if Slashed(name) { assert |name[1..]| < |name|; }
  }

  /** Keys are the prefix and one of the names, and a value decodes to a task of that name. */
  ghost predicate Keyed(decode: Decoder, names: iset<string>, m: Snapshot) {
    forall key :: key in m ==>
      exists n :: key == KeyOf(n) && n in names && (decode(m[key]).Some? ==> decode(m[key]).value.name == n)
  }

  ghost function Unslashed(): iset<string> {
    iset n: string | !Slashed(n)
  }

  ghost predicate WellKeyed(decode: Decoder, m: Snapshot) {
    Keyed(decode, Unslashed(), m)
  }

  lemma KeyedWell(decode: Decoder, names: iset<string>, m: Snapshot)
    requires Keyed(decode, names, m) && forall n :: n in names ==> !Slashed(n)
    ensures WellKeyed(decode, m)
  {
    forall key | key in m
      ensures exists n :: key == KeyOf(n) && n in Unslashed() && (decode(m[key]).Some? ==> decode(m[key]).value.name == n) {
      var n :| key == KeyOf(n) && n in names && (decode(m[key]).Some? ==> decode(m[key]).value.name == n);
      assert n in Unslashed();
    }
  }

  /** The replica holds every decodable task of the listing, and no task that is not listed. */
  ghost predicate Follows(decode: Decoder, m: Snapshot, replica: map<string, TaskMeta>) {
    && (forall n :: KeyOf(n) in m && decode(m[KeyOf(n)]).Some? ==> n in replica && replica[n] == decode(m[KeyOf(n)]).value)
    && (forall n :: n in replica ==> KeyOf(n) in m)
  }

  lemma KeyOfInjective(a: string, b: string)
    requires KeyOf(a) == KeyOf(b)
    ensures a == b
  {
    assert KeyOf(a)[|TASKS_PREFIX|..] == a && KeyOf(b)[|TASKS_PREFIX|..] == b;
  }

  /** What a listing says about the name of one of its keys. */
  lemma KeyOk(decode: Decoder, m: Snapshot, n: string)
    requires WellKeyed(decode, m) && KeyOf(n) in m
    ensures !Slashed(n) && TaskName(KeyOf(n)) == n
    ensures decode(m[KeyOf(n)]).Some? ==> decode(m[KeyOf(n)]).value.name == n
  {
    var n' :| KeyOf(n) == KeyOf(n') && n' in Unslashed() && (decode(m[KeyOf(n)]).Some? ==> decode(m[KeyOf(n)]).value.name == n');
    KeyOfInjective(n, n');
    TrimExactly(n);
  }

  /** An owed change about a name comes from the key of that name. */
  lemma OwedFromOwnKey(decode: Decoder, before: Snapshot, after: Snapshot, e: Change)
    requires WellKeyed(decode, before) && WellKeyed(decode, after) && Owed(decode, before, after, e)
    ensures var key := KeyOf(About(e));
      if e.Put? then Renewed(decode, before, after, key) && e.task == decode(after[key]).value
      else Gone(before, after, key)
  {
    if e.Put? {
      var key :| Renewed(decode, before, after, key) && e == Put(decode(after[key]).value);
      var n :| key == KeyOf(n) && n in Unslashed() && (decode(after[key]).Some? ==> decode(after[key]).value.name == n);
    } else {
      var key :| Gone(before, after, key) && e == Delete(TaskName(key));
      var n :| key == KeyOf(n) && n in Unslashed() && (decode(before[key]).Some? ==> decode(before[key]).value.name == n);
      TrimExactly(n);
    }
  }

  /** A batch about a name holds at most one kind of change, and the replica ends with it. */
  lemma BatchDecides(decode: Decoder, before: Snapshot, after: Snapshot, es: seq<Change>, replica: map<string, TaskMeta>, e: Change)
    requires WellKeyed(decode, before) && WellKeyed(decode, after) && Batch(decode, before, after, es) && e in es
    ensures About(e) in Replay(replica, es) <==> e.Put?
    ensures e.Put? ==> Replay(replica, es)[About(e)] == e.task
  {
    OwedFromOwnKey(decode, before, after, e);
    forall i | 0 <= i < |es| && About(es[i]) == About(e) ensures es[i] == e {
      assert es[i] in es;
      OwedFromOwnKey(decode, before, after, es[i]);
    }
    ReplayDecides(replica, es, e);
  }

  /** A name whose key is neither renewed nor gone keeps its entry. */
  lemma BatchSpares(decode: Decoder, before: Snapshot, after: Snapshot, es: seq<Change>, replica: map<string, TaskMeta>, n: string)
    requires WellKeyed(decode, before) && WellKeyed(decode, after) && Batch(decode, before, after, es)
    requires !Renewed(decode, before, after, KeyOf(n)) && !Gone(before, after, KeyOf(n))
    ensures n in Replay(replica, es) <==> n in replica
    ensures n in replica ==> Replay(replica, es)[n] == replica[n]
  {
    forall i | 0 <= i < |es| ensures About(es[i]) != n {
      assert es[i] in es;
      OwedFromOwnKey(decode, before, after, es[i]);
    }
    ReplayOthers(replica, es, n);
  }

  /** One batch, replayed in any order, takes a replica from following one listing to following the next. */
  lemma BatchFollows(decode: Decoder, before: Snapshot, after: Snapshot, es: seq<Change>, replica: map<string, TaskMeta>)
    requires WellKeyed(decode, before) && WellKeyed(decode, after) && Batch(decode, before, after, es)
    requires Follows(decode, before, replica)
    ensures Follows(decode, after, Replay(replica, es))
  {
    forall n ensures KeyOf(n) in after && decode(after[KeyOf(n)]).Some? ==>
                       n in Replay(replica, es) && Replay(replica, es)[n] == decode(after[KeyOf(n)]).value
             ensures n in Replay(replica, es) ==> KeyOf(n) in after {
      BatchFollowsAt(decode, before, after, es, replica, n);
    }
  }

  lemma BatchFollowsAt(decode: Decoder, before: Snapshot, after: Snapshot, es: seq<Change>, replica: map<string, TaskMeta>, n: string)
    requires WellKeyed(decode, before) && WellKeyed(decode, after) && Batch(decode, before, after, es)
    requires Follows(decode, before, replica)
    ensures KeyOf(n) in after && decode(after[KeyOf(n)]).Some? ==>
      n in Replay(replica, es) && Replay(replica, es)[n] == decode(after[KeyOf(n)]).value
    ensures n in Replay(replica, es) ==> KeyOf(n) in after
  {
    var key := KeyOf(n);
    if Renewed(decode, before, after, key) {
      KeyOk(decode, after, n);
      var e := Put(decode(after[key]).value);
      assert Owed(decode, before, after, e);
      BatchDecides(decode, before, after, es, replica, e);
    } else if Gone(before, after, key) {
      KeyOk(decode, before, n);
      assert Owed(decode, before, after, Delete(TaskName(key)));
      BatchDecides(decode, before, after, es, replica, Delete(n));
    } else {
      BatchSpares(decode, before, after, es, replica, n);
    }
  }

  // ---------- the first listing ----------

  /** A listing names each key once. */
  ghost predicate DistinctKeys(pairs: seq<Pair>) {
    forall i, j :: 0 <= i < j < |pairs| ==> pairs[i].key != pairs[j].key
  }

  /** The first snapshot holds exactly the decodable pairs. */
  lemma {:induction false} SnapshotHolds(decode: Decoder, pairs: seq<Pair>, key: string, value: string)
    requires DistinctKeys(pairs)
    ensures var m := MapOf(Decodable(decode, pairs));
      key in m && m[key] == value <==> Pair(key, value) in pairs && decode(value).Some?
    decreases |pairs|
  {
    if pairs != [] {
      var front, last := pairs[..|pairs| - 1], pairs[|pairs| - 1];
      assert pairs == front + [last];
      SnapshotHolds(decode, front, key, value);
      if decode(last.value).Some? { MapOfPush(Decodable(decode, front), last); }
    }
  }

  lemma {:induction false} AnnouncesAll(decode: Decoder, pairs: seq<Pair>, e: Change)
    ensures e in Announced(decode, pairs) <==>
      exists p :: p in pairs && decode(p.value).Some? && e == Put(decode(p.value).value)
    decreases |pairs|
  {
    if pairs != [] {
      var front, last := pairs[..|pairs| - 1], pairs[|pairs| - 1];
      assert pairs == front + [last];
      AnnouncesAll(decode, front, e);
    }
  }

  ghost function DecodableAt(decode: Decoder, pairs: seq<Pair>): set<nat> {
    set i: nat | i < |pairs| && decode(pairs[i].value).Some?
  }

  lemma DecodableLast(decode: Decoder, pairs: seq<Pair>)
    requires pairs != []
    ensures var n := |pairs| - 1;
      |DecodableAt(decode, pairs)| == |DecodableAt(decode, pairs[..n])| + if decode(pairs[n].value).Some? then 1 else 0
  {
    var n := |pairs| - 1;
    var before := DecodableAt(decode, pairs[..n]);
    assert DecodableAt(decode, pairs) == if decode(pairs[n].value).Some? then before + {n} else before;
  }

  /** One Put for each decodable pair. */
  lemma {:induction false} AnnouncesOnce(decode: Decoder, pairs: seq<Pair>)
    ensures |Announced(decode, pairs)| == |DecodableAt(decode, pairs)|
    decreases |pairs|
  {
    if pairs == [] {
      assert DecodableAt(decode, pairs) == {};
    } else {
      AnnouncesOnce(decode, pairs[..|pairs| - 1]);
      DecodableLast(decode, pairs);
    }
  }

  /** The events of the first listing are the batch from the empty snapshot. */
  lemma FirstIsBatch(decode: Decoder, pairs: seq<Pair>)
    requires DistinctKeys(pairs)
    ensures Batch(decode, map[], MapOf(Decodable(decode, pairs)), Announced(decode, pairs))
  {
    var m := MapOf(Decodable(decode, pairs));
    forall e ensures e in Announced(decode, pairs) <==> Owed(decode, map[], m, e) {
      AnnouncesAll(decode, pairs, e);
      if e in Announced(decode, pairs) {
        var p :| p in pairs && decode(p.value).Some? && e == Put(decode(p.value).value);
        SnapshotHolds(decode, pairs, p.key, p.value);
        assert Renewed(decode, map[], m, p.key);
      }
      if Owed(decode, map[], m, e) {
        var key :| Renewed(decode, map[], m, key) && e == Put(decode(m[key]).value);
        SnapshotHolds(decode, pairs, key, m[key]);
      }
    }
  }

  lemma {:induction false} MapHolds(pairs: seq<Pair>, key: string, value: string)
    requires DistinctKeys(pairs)
    ensures key in MapOf(pairs) && MapOf(pairs)[key] == value <==> Pair(key, value) in pairs
    decreases |pairs|
  {
    if pairs != [] {
      var front, last := pairs[..|pairs| - 1], pairs[|pairs| - 1];
      assert pairs == front + [last];
      MapHolds(front, key, value);
    }
  }

  /** The first snapshot is the listing without what cannot be decoded. */
  lemma FirstSnapshot(decode: Decoder, pairs: seq<Pair>, key: string)
    requires DistinctKeys(pairs)
    ensures var m, all := MapOf(Decodable(decode, pairs)), MapOf(pairs);
      && (key in m <==> key in all && decode(all[key]).Some?)
      && (key in m ==> m[key] == all[key])
  {
    var m, all := MapOf(Decodable(decode, pairs)), MapOf(pairs);
    if key in m {
      SnapshotHolds(decode, pairs, key, m[key]);
      MapHolds(pairs, key, m[key]);
    }
    if key in all {
      MapHolds(pairs, key, all[key]);
      SnapshotHolds(decode, pairs, key, all[key]);
    }
  }

  /** After the first announcements a replica follows the first snapshot, and the first listing as a whole. */
  lemma FirstFollows(decode: Decoder, pairs: seq<Pair>)
    requires DistinctKeys(pairs) && WellKeyed(decode, MapOf(pairs))
    ensures var m, replica := MapOf(Decodable(decode, pairs)), Replay(map[], Announced(decode, pairs));
      WellKeyed(decode, m) && Follows(decode, m, replica) && Follows(decode, MapOf(pairs), replica)
  {
    var m, all := MapOf(Decodable(decode, pairs)), MapOf(pairs);
    forall key ensures (key in m <==> key in all && decode(all[key]).Some?) && (key in m ==> m[key] == all[key]) {
      FirstSnapshot(decode, pairs, key);
    }
    FirstIsBatch(decode, pairs);
    BatchFollows(decode, map[], m, Announced(decode, pairs), map[]);
  }

  lemma {:induction false} ReplayConcat(replica: map<string, TaskMeta>, a: seq<Change>, b: seq<Change>)
    ensures Replay(replica, a + b) == Replay(Replay(replica, a), b)
    decreases |a|
  {
    if a == [] {
      assert a + b == b;
    } else {
      assert (a + b)[1..] == a[1..] + b;
      ReplayConcat(Applied(replica, a[0]), a[1..], b);
    }
  }

  // ---------- whole histories ----------

  /** Listings of tasks with these names, and batches that hold the changes from each listing to the next. */
  ghost predicate History(decode: Decoder, names: iset<string>, first: Snapshot, listings: seq<Snapshot>, batches: seq<seq<Change>>)
    decreases |listings|
  {
    |listings| == |batches| &&
    (listings == [] ||
      (Keyed(decode, names, listings[0]) && Batch(decode, first, listings[0], batches[0])
       && History(decode, names, listings[0], listings[1..], batches[1..])))
  }

  function ReplayAll(replica: map<string, TaskMeta>, batches: seq<seq<Change>>): map<string, TaskMeta>
    decreases |batches|
  {
    if batches == [] then replica else ReplayAll(Replay(replica, batches[0]), batches[1..])
  }

  /** After any sequence of listings, with each batch replayed in any order, the replica agrees with the
      last listing on every decodable key and holds nothing that listing lacks. */
  lemma {:induction false} HistoryFollows(
      decode: Decoder, names: iset<string>, first: Snapshot, listings: seq<Snapshot>, batches: seq<seq<Change>>,
      replica: map<string, TaskMeta>)
    requires forall n :: n in names ==> !Slashed(n)
    requires WellKeyed(decode, first) && Follows(decode, first, replica) && History(decode, names, first, listings, batches)
    ensures Follows(decode, if listings == [] then first else listings[|listings| - 1], ReplayAll(replica, batches))
    decreases |listings|
  {
    if listings != [] {
      KeyedWell(decode, names, listings[0]);
      BatchFollows(decode, first, listings[0], batches[0], replica);
      HistoryFollows(decode, names, listings[0], listings[1..], batches[1..], Replay(replica, batches[0]));
    }
  }

  /** From the start of the watch: an empty replica follows the empty listing. */
  lemma WatchFollows(decode: Decoder, names: iset<string>, listings: seq<Snapshot>, batches: seq<seq<Change>>)
    requires forall n :: n in names ==> !Slashed(n)
    requires History(decode, names, map[], listings, batches) && listings != []
    ensures Follows(decode, listings[|listings| - 1], ReplayAll(map[], batches))
  {
    HistoryFollows(decode, names, map[], listings, batches, map[]);
  }

  /** Every history over these names leaves a replica that follows its last listing. */
  ghost predicate AlwaysFollows(decode: Decoder, names: iset<string>) {
    forall listings, batches :: listings != [] && History(decode, names, map[], listings, batches) ==>
      Follows(decode, listings[|listings| - 1], ReplayAll(map[], batches))
  }

  /** Some stored value decodes to a task of the name. */
  ghost predicate Encodable(decode: Decoder, n: string) {
    exists value :: decode(value).Some? && decode(value).value.name == n
  }

  /** Replaying is right in every history over a set of names if and only if none of them starts with a slash. */
  lemma WatchFollowsExactly(decode: Decoder, names: iset<string>)
    requires forall n :: n in names ==> Encodable(decode, n)
    ensures AlwaysFollows(decode, names) <==> forall n :: n in names ==> !Slashed(n)
  {
    if forall n :: n in names ==> !Slashed(n) {
      forall listings, batches | listings != [] && History(decode, names, map[], listings, batches)
        ensures Follows(decode, listings[|listings| - 1], ReplayAll(map[], batches)) {
        WatchFollows(decode, names, listings, batches);
      }
    } else {
      var n :| n in names && Slashed(n);
      var value :| decode(value).Some? && decode(value).value.name == n;
      SlashedHistory(decode, names, decode(value).value, value);
    }
  }

  /** A batch tells nothing that was known: a Put has a key that is new or a value that changed, a Delete a key that went,
      and between equal listings there is nothing to tell. */
  lemma BatchMinimal(decode: Decoder, before: Snapshot, after: Snapshot, es: seq<Change>)
    requires Batch(decode, before, after, es)
    ensures before == after ==> es == []
    ensures WellKeyed(decode, after) ==> forall task :: Put(task) in es ==>
      && KeyOf(task.name) in after && (KeyOf(task.name) !in before || before[KeyOf(task.name)] != after[KeyOf(task.name)])
    ensures WellKeyed(decode, before) ==> forall name :: Delete(name) in es ==> KeyOf(name) in before && KeyOf(name) !in after
  {
    if before == after && es != [] { NothingOwed(decode, before, es[0]); }
    if WellKeyed(decode, after) {
      forall task | Put(task) in es ensures Renewed(decode, before, after, KeyOf(task.name)) {
        PutFromOwnKey(decode, Unslashed(), before, after, task);
      }
    }
    if WellKeyed(decode, before) {
      forall name | Delete(name) in es ensures Gone(before, after, KeyOf(name)) {
        DeleteFromOwnKey(decode, before, after, name);
      }
    }
  }

  lemma NothingOwed(decode: Decoder, m: Snapshot, e: Change)
    ensures !Owed(decode, m, m, e)
  {
  }

  lemma DeleteFromOwnKey(decode: Decoder, before: Snapshot, after: Snapshot, name: string)
    requires WellKeyed(decode, before) && Owed(decode, before, after, Delete(name))
    ensures Gone(before, after, KeyOf(name))
  {
    var key :| Gone(before, after, key) && Delete(name) == Delete(TaskName(key));
    var n :| key == KeyOf(n) && n in Unslashed() && (decode(before[key]).Some? ==> decode(before[key]).value.name == n);
    TrimExactly(n);
  }

  /** The order within a batch is free. */
  lemma AnyOrder(decode: Decoder, before: Snapshot, after: Snapshot, es: seq<Change>, shuffled: seq<Change>)
    requires Batch(decode, before, after, es) && multiset(shuffled) == multiset(es)
    ensures Batch(decode, before, after, shuffled)
  {
    forall e ensures e in shuffled <==> e in es {
      assert e in shuffled <==> e in multiset(shuffled);
      assert e in es <==> e in multiset(es);
    }
  }

  /** List a task, then list nothing: the replica ends empty of it exactly when the task's name does not
      start with a slash. For every other name the Delete goes to a different name. */
  lemma DeleteReplayedExactly(decode: Decoder, task: TaskMeta, value: string, puts: seq<Change>, deletes: seq<Change>)
    requires decode(value) == Some(task)
    requires Batch(decode, map[], map[KeyOf(task.name) := value], puts)
    requires Batch(decode, map[KeyOf(task.name) := value], map[], deletes)
    ensures Follows(decode, map[], Replay(Replay(map[], puts), deletes)) <==> !Slashed(task.name)
  {
    var m: Snapshot := map[KeyOf(task.name) := value];
    if Slashed(task.name) {
      SlashedSurvives(decode, task, value, puts, deletes);
    } else {
      assert WellKeyed(decode, m);
      BatchFollows(decode, map[], m, puts, map[]);
      BatchFollows(decode, m, map[], deletes, Replay(map[], puts));
    }
  }

  lemma SlashedSurvives(decode: Decoder, task: TaskMeta, value: string, puts: seq<Change>, deletes: seq<Change>)
    requires decode(value) == Some(task) && Slashed(task.name)
    requires Batch(decode, map[], map[KeyOf(task.name) := value], puts)
    requires Batch(decode, map[KeyOf(task.name) := value], map[], deletes)
    ensures task.name in Replay(Replay(map[], puts), deletes)
  {
    var m: Snapshot := map[KeyOf(task.name) := value];
    assert Renewed(decode, map[], m, KeyOf(task.name));
    assert Owed(decode, map[], m, Put(task));
    forall i | 0 <= i < |puts| ensures puts[i] == Put(task) { assert puts[i] in puts; }
    ReplayDecides(map[], puts, Put(task));
    TrimExactly(task.name);
    forall i | 0 <= i < |deletes| ensures About(deletes[i]) != task.name { assert deletes[i] in deletes; }
    ReplayOthers(Replay(map[], puts), deletes, task.name);
  }

  /** The batches of a task that is listed and then gone. */
  lemma ListedThenGone(decode: Decoder, task: TaskMeta, value: string)
    requires decode(value) == Some(task)
    ensures Batch(decode, map[], map[KeyOf(task.name) := value], [Put(task)])
    ensures Batch(decode, map[KeyOf(task.name) := value], map[], [Delete(TaskName(KeyOf(task.name)))])
  {
    var key := KeyOf(task.name);
    var m: Snapshot := map[key := value];
    assert Renewed(decode, map[], m, key) && Gone(m, map[], key);
  }

  lemma SlashedHistory(decode: Decoder, names: iset<string>, task: TaskMeta, value: string)
    requires decode(value) == Some(task) && task.name in names && Slashed(task.name)
    ensures !AlwaysFollows(decode, names)
  {
    var m: Snapshot := map[KeyOf(task.name) := value];
    var puts, deletes := [Put(task)], [Delete(TaskName(KeyOf(task.name)))];
    ListedThenGone(decode, task, value);
    SlashedSurvives(decode, task, value, puts, deletes);
    var listings: seq<Snapshot> := [m, map[]];
    var batches := [puts, deletes];
    assert listings[1..] == [map[]] && batches[1..] == [deletes];
    assert History(decode, names, m, listings[1..], batches[1..]);
    assert History(decode, names, map[], listings, batches);
    assert ReplayAll(map[], batches) == ReplayAll(Replay(map[], puts), [deletes]);
    assert ReplayAll(Replay(map[], puts), [deletes]) == Replay(Replay(map[], puts), deletes);
    assert !Follows(decode, map[], ReplayAll(map[], batches));
  }

  /** A Put about a name comes from the key of that name, slashed or not. */
  lemma PutFromOwnKey(decode: Decoder, names: iset<string>, before: Snapshot, after: Snapshot, task: TaskMeta)
    requires Keyed(decode, names, after) && Owed(decode, before, after, Put(task))
    ensures Renewed(decode, before, after, KeyOf(task.name))
  {
    var key :| Renewed(decode, before, after, key) && Put(task) == Put(decode(after[key]).value);
    var n :| key == KeyOf(n) && n in names && (decode(after[key]).Some? ==> decode(after[key]).value.name == n);
  }

  lemma BehindSlash(name: string)
    ensures TaskName(KeyOf("/" + name)) == name
  {
    assert KeyOf("/" + name)[|TASKS_PREFIX|..] == "/" + name;
  }

  /** Between any two listings, the Delete for a slashed name goes to the name behind the slash and drops that task from
      every replica, though it stays listed and unchanged. */
  lemma InnocentDropped(
      decode: Decoder, names: iset<string>, before: Snapshot, after: Snapshot, name: string, es: seq<Change>,
      replica: map<string, TaskMeta>)
    requires Keyed(decode, names, after) && Batch(decode, before, after, es)
    requires Gone(before, after, KeyOf("/" + name)) && !Renewed(decode, before, after, KeyOf(name))
    ensures name !in Replay(replica, es)
  {
    BehindSlash(name);
    assert Owed(decode, before, after, Delete(name));
    forall i | 0 <= i < |es| && About(es[i]) == name ensures es[i] == Delete(name) {
      assert es[i] in es;
      if es[i].Put? { PutFromOwnKey(decode, names, before, after, es[i].task); }
    }
    ReplayDecides(replica, es, Delete(name));
  }

  // ---------- the events at a node ----------

  ghost function Metas(s: Node): map<string, TaskMeta> {
    map n | n in s.allTasks :: s.allTasks[n].meta
  }

  /** A node handles the events in order; it crashes on a Put for a name it does not know. */
  ghost function Feed(parses: string -> bool, s: Node, r: Registry, es: seq<Change>): Option<Node>
    decreases |es|
  {
    if es == [] then Some(s)
    else
      var o := Do(parses, s, r, if es[0].Put? then PutEvent(es[0].task) else DeletedEvent(es[0].name));
      if o.reply == Crashed then None else Feed(parses, o.node, r, es[1..])
  }

  /** Every Put names a task known at the start and not deleted earlier in the feed. */
  ghost predicate PutsKnown(known: set<string>, es: seq<Change>) {
    forall i :: 0 <= i < |es| && es[i].Put? ==> About(es[i]) in known && Delete(About(es[i])) !in es[..i]
  }

  lemma PutsKnownNext(known: set<string>, es: seq<Change>)
    requires es != []
    ensures PutsKnown(known, es) <==>
      && (es[0].Put? ==> About(es[0]) in known)
      && PutsKnown(if es[0].Put? then known else known - {es[0].name}, es[1..])
  {
    var rest := if es[0].Put? then known else known - {es[0].name};
    forall i | 0 < i < |es| && es[i].Put?
      ensures About(es[i]) in known && Delete(About(es[i])) !in es[..i] <==>
              About(es[i]) in rest && Delete(About(es[i])) !in es[1..][..i - 1] {
      assert es[..i] == [es[0]] + es[1..][..i - 1];
    }
    if PutsKnown(known, es) {
      forall i | 0 <= i < |es| - 1 && es[1..][i].Put?
        ensures About(es[1..][i]) in rest && Delete(About(es[1..][i])) !in es[1..][..i] {
        assert es[1..][i] == es[i + 1];
      }
    }
    if PutsKnown(rest, es[1..]) {
      forall i | 0 < i < |es| && es[i].Put? ensures About(es[i]) in known && Delete(About(es[i])) !in es[..i] {
        assert es[1..][i - 1] == es[i];
      }
    }
  }

  /** A node survives a feed exactly when every Put finds its task, and then its tasks are the replica. */
  lemma {:induction false} FeedFollows(parses: string -> bool, s: Node, r: Registry, es: seq<Change>)
    ensures Feed(parses, s, r, es).Some? <==> PutsKnown(s.allTasks.Keys, es)
    ensures Feed(parses, s, r, es).Some? ==> Metas(Feed(parses, s, r, es).value) == Replay(Metas(s), es)
    decreases |es|
  {
    if es != [] {
      PutsKnownNext(s.allTasks.Keys, es);
      var o := Do(parses, s, r, if es[0].Put? then PutEvent(es[0].task) else DeletedEvent(es[0].name));
      if o.reply != Crashed {
        FeedFollows(parses, o.node, r, es[1..]);
        FeedOne(parses, s, r, es[0]);
      }
    }
  }

  lemma FeedOne(parses: string -> bool, s: Node, r: Registry, e: Change)
    ensures var o := Do(parses, s, r, if e.Put? then PutEvent(e.task) else DeletedEvent(e.name));
      && (o.reply == Crashed <==> e.Put? && e.task.name !in s.allTasks)
      && (o.reply != Crashed ==> Metas(o.node) == Applied(Metas(s), e))
      && o.node.allTasks.Keys == if e.Put? then s.allTasks.Keys else s.allTasks.Keys - {e.name}
  {
  }
}
