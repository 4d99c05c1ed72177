/** The schedulers' registry and etcd's keys: on plain names they say the same. */
module RegistryKeys {
  import opened Lex
  import opened MarkerKeys
  import opened PathKeys
  import opened EtcdNames
  import E = EtcdMarkers
  import S = Scheduler

  const ROOT: string := "/distributed_cron/"

  function TaskAt(name: string): string {
    DirOf(TASK_DIR) + name
  }

  function TombstoneAt(name: string): string {
    DirOf(DELETED_DIR) + name
  }

  /** For every plain name etcd holds its task key and its tombstone key exactly when the registry says so. */
  ghost predicate Agree(keys: set<string>, r: S.Registry) {
    forall n :: PlainName(n) ==> AgreeOn(keys, r, n)
  }

  ghost predicate AgreeOn(keys: set<string>, r: S.Registry, n: string) {
    (n in r.tasks <==> TaskAt(n) in keys) && (n in r.tombstones <==> TombstoneAt(n) in keys)
  }

  // ---------- the three directories ----------

  lemma Dirs()
    ensures DirOf(TASK_DIR) == ROOT + "tasks/" && DirOf(DELETED_DIR) == ROOT + "deleted_tasks/" && EXEC_PREFIX == ROOT + "last_exec/"
  {
    JoinTwo("distributed_cron", "tasks");
    JoinTwo("distributed_cron", "deleted_tasks");
  }

  lemma JoinTwo(a: string, b: string)
    ensures JoinSlash([a, b]) == a + "/" + b
  {
    assert [a, b][1..] == [b];
  }

  /** Keys below the root, ordered by what follows it. */
  lemma UnderRoot(a: string, b: string)
    ensures Less(ROOT + a, ROOT + b) == Less(a, b)
    ensures ROOT + a == ROOT + b <==> a == b
  {
    LessAfterPrefix(ROOT, a, b);
    assert (ROOT + a)[|ROOT|..] == a && (ROOT + b)[|ROOT|..] == b;
  }

  lemma Below(name: string)
    ensures TaskAt(name) == ROOT + ("tasks/" + name) && TombstoneAt(name) == ROOT + ("deleted_tasks/" + name)
  {
    Dirs();
    assert ROOT + "tasks/" + name == ROOT + ("tasks/" + name);
    assert ROOT + "deleted_tasks/" + name == ROOT + ("deleted_tasks/" + name);
  }

  lemma BelowExec(x: string)
    ensures EXEC_PREFIX + x == ROOT + ("last_exec/" + x)
  {
    Dirs();
    assert ROOT + "last_exec/" + x == ROOT + ("last_exec/" + x);
  }

  /** No key of one directory is a key of another, and within one the name decides. */
  lemma KeysApart(n: string, m: string, x: string)
    ensures TaskAt(n) != TombstoneAt(m) && TaskAt(n) != EXEC_PREFIX + x && TombstoneAt(n) != EXEC_PREFIX + x
    ensures (TaskAt(n) == TaskAt(m) <==> n == m) && (TombstoneAt(n) == TombstoneAt(m) <==> n == m)
  {
    Below(n);
    Below(m);
    BelowExec(x);
    assert ("tasks/" + n)[0] == 't' && ("deleted_tasks/" + m)[0] == 'd' && ("last_exec/" + x)[0] == 'l';
    assert ("deleted_tasks/" + n)[0] == 'd';
    UnderRoot("tasks/" + n, "deleted_tasks/" + m);
    UnderRoot("tasks/" + n, "last_exec/" + x);
    UnderRoot("deleted_tasks/" + n, "last_exec/" + x);
    assert TaskAt(n)[|DirOf(TASK_DIR)|..] == n && TaskAt(m)[|DirOf(TASK_DIR)|..] == m;
    assert TombstoneAt(n)[|DirOf(DELETED_DIR)|..] == n && TombstoneAt(m)[|DirOf(DELETED_DIR)|..] == m;
  }

  /** The range of the history cleanup lies inside the marker directory. */
  lemma RangeSpares(n: string, start: int, end: int)
    ensures !InKeyRange(TaskAt(n), BoundKey(start), BoundKey(end)) && !InKeyRange(TombstoneAt(n), BoundKey(start), BoundKey(end))
  {
    Below(n);
    BelowExec(Timestamp(start));
    BelowExec(Timestamp(end));
    var s, e := "last_exec/" + Timestamp(start), "last_exec/" + Timestamp(end);
    assert s[0] == 'l' && e[0] == 'l' && ("tasks/" + n)[0] == 't' && ("deleted_tasks/" + n)[0] == 'd';
    UnderRoot("tasks/" + n, e);
    UnderRoot("deleted_tasks/" + n, s);
  }

  lemma PlainKeys(name: string)
    requires PlainName(name)
    ensures TaskKey(name) == TaskAt(name) && DeletedKey(name) == TombstoneAt(name)
  {
    KeyExactly(TASK_DIR, name);
    KeyExactly(DELETED_DIR, name);
  }

  // ---------- each change of the keys ----------

  /** Changes inside the marker directory are not seen. */
  lemma MarkersUnseen(keys: set<string>, keys': set<string>, r: S.Registry)
    requires Agree(keys, r)
    requires forall k :: (k in keys <==> k in keys') || EXEC_PREFIX <= k
    ensures Agree(keys', r)
  {
    forall n | PlainName(n) ensures AgreeOn(keys', r, n) {
      assert AgreeOn(keys, r, n);
      NotMarkers(n);
    }
  }

  lemma NotMarkers(n: string)
    ensures !(EXEC_PREFIX <= TaskAt(n)) && !(EXEC_PREFIX <= TombstoneAt(n))
  {
    Below(n);
    Dirs();
    assert EXEC_PREFIX[|ROOT|] == 'l' && TaskAt(n)[|ROOT|] == 't' && TombstoneAt(n)[|ROOT|] == 'd';
  }

  lemma PutAgrees(keys: set<string>, r: S.Registry, meta: S.TaskMeta)
    requires Agree(keys, r) && PlainName(meta.name)
    ensures Agree(keys + {TaskKey(meta.name)}, r.(tasks := r.tasks[meta.name := meta]))
  {
    PlainKeys(meta.name);
    forall n | PlainName(n) ensures AgreeOn(keys + {TaskKey(meta.name)}, r.(tasks := r.tasks[meta.name := meta]), n) {
      assert AgreeOn(keys, r, n);
      KeysApart(n, meta.name, meta.name);
      KeysApart(meta.name, n, meta.name);
    }
  }

  lemma MarkAgrees(keys: set<string>, r: S.Registry, name: string)
    requires Agree(keys, r) && PlainName(name)
    ensures Agree(keys + {DeletedKey(name)}, r.(tombstones := r.tombstones + {name}))
  {
    PlainKeys(name);
    forall n | PlainName(n) ensures AgreeOn(keys + {DeletedKey(name)}, r.(tombstones := r.tombstones + {name}), n) {
      assert AgreeOn(keys, r, n);
      KeysApart(n, name, name);
      KeysApart(name, n, name);
    }
  }

  lemma ReuseAgrees(keys: set<string>, r: S.Registry, name: string)
    requires Agree(keys, r) && PlainName(name)
    ensures Agree(keys - {DeletedKey(name)}, r.(tombstones := r.tombstones - {name}))
  {
    PlainKeys(name);
    forall n | PlainName(n) ensures AgreeOn(keys - {DeletedKey(name)}, r.(tombstones := r.tombstones - {name}), n) {
      assert AgreeOn(keys, r, n);
      KeysApart(n, name, name);
      KeysApart(name, n, name);
    }
  }

  lemma CleanAgrees(keys: set<string>, r: S.Registry, name: string)
    requires Agree(keys, r) && PlainName(name)
    ensures Agree(keys - ForceKeys(name), S.CleanTask(r, name))
  {
    PlainKeys(name);
    forall n | PlainName(n) ensures AgreeOn(keys - ForceKeys(name), S.CleanTask(r, name), n) {
      assert AgreeOn(keys, r, n);
      KeysApart(n, name, name);
      KeysApart(name, n, name);
    }
  }

  lemma WipeAgrees(keys: set<string>)
    ensures Agree(E.Unwiped(keys), S.Registry(map[], {}))
  {
    forall n | PlainName(n) ensures AgreeOn(E.Unwiped(keys), S.Registry(map[], {}), n) {
      assert DirOf(TASK_DIR) <= TaskAt(n) && DirOf(DELETED_DIR) <= TombstoneAt(n);
    }
  }

  lemma HistoryAgrees(keys: set<string>, r: S.Registry, start: int, end: int)
    requires Agree(keys, r)
    ensures Agree(E.Surviving(keys, start, end), r)
  {
    forall n | PlainName(n) ensures AgreeOn(E.Surviving(keys, start, end), r, n) {
      assert AgreeOn(keys, r, n);
      RangeSpares(n, start, end);
    }
  }

  /** The cleaner, the samples and the markers themselves leave tasks and tombstones alone. */
  lemma ProtocolAgrees(ec: E.Cluster, s: E.State, a: E.Action, r: S.Registry)
    requires E.Enabled(ec, s, a) && Agree(s.keys, r)
    requires !a.ForceCleanupTask? && !a.RemoveTaskDeleted? && !a.PutTask? && !a.MarkTaskDeleted? && !a.ForceCleanupAllTasks?
    ensures Agree(E.Apply(ec, s, a).keys, r)
  {
    if a.HistoryCleanup? {
      HistoryAgrees(s.keys, r, a.start, a.end);
    } else {
      MarkersUnseen(s.keys, E.Apply(ec, s, a).keys, r);
    }
  }

  // ---------- the steps of an operation ----------

  /** What one registry step does to the keys. */
  ghost function KeysAfterOne(keys: set<string>, a: E.Action): set<string> {
    match a
    case ForceCleanupTask(name) => keys - ForceKeys(name)
    case RemoveTaskDeleted(name) => keys - {DeletedKey(name)}
    case PutTask(name) => keys + {TaskKey(name)}
    case MarkTaskDeleted(name) => keys + {DeletedKey(name)}
    case ForceCleanupAllTasks => E.Unwiped(keys)
    case _ => keys
  }

  ghost function KeysAfter(keys: set<string>, acts: seq<E.Action>): set<string>
    decreases |acts|
  {
    if acts == [] then keys else KeysAfter(KeysAfterOne(keys, acts[0]), acts[1..])
  }

  lemma AfterOneStep(keys: set<string>, a: E.Action)
    ensures KeysAfter(keys, [a]) == KeysAfterOne(keys, a)
  {
    assert [a][1..] == [];
  }

  lemma AfterTwoSteps(keys: set<string>, a: E.Action, b: E.Action)
    ensures KeysAfter(keys, [a] + [b]) == KeysAfterOne(KeysAfterOne(keys, a), b)
  {
    assert ([a] + [b])[1..] == [b];
    AfterOneStep(KeysAfterOne(keys, a), b);
  }

  ghost predicate RegistryStep(a: E.Action) {
    a.ForceCleanupTask? || a.RemoveTaskDeleted? || a.PutTask? || a.MarkTaskDeleted? || a.ForceCleanupAllTasks?
  }

  lemma {:induction false} RunChangesKeys(ec: E.Cluster, s: E.State, acts: seq<E.Action>, end: E.State)
    requires E.Runs(ec, s, acts, end) && forall i :: 0 <= i < |acts| ==> RegistryStep(acts[i])
    ensures end.keys == KeysAfter(s.keys, acts)
    decreases |acts|
  {
    if acts != [] { RunChangesKeys(ec, E.Apply(ec, s, acts[0]), acts[1..], end); }
  }
}
