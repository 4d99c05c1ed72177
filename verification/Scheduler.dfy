/** One node's scheduler state as a value, and what every operation does to it.

    Registry calls that may fail carry their outcome as a parameter. The cron library is a table with
    increasing ids that are never used again; `parses` tells which cron formats it accepts. */
module Scheduler {
  import opened Lex

  datatype TaskMeta = TaskMeta(
    name: string,
    cronFormat: string,
    oneShot: bool,
    executedAndMarkDeleted: bool,
    executedAndCleanup: bool,
    payload: string)

  /** The metadata of a task that is added by name, format and one-shot flag. */
  function BasicMeta(name: string, cronFormat: string, oneShot: bool): TaskMeta {
    TaskMeta(name, cronFormat, oneShot, false, false, "")
  }

  /** A task object: its cron entry id, zero if it never had one, and its metadata. */
  datatype Task = Task(id: nat, meta: TaskMeta)

  /** `entries` maps live cron ids to the metadata of the task object whose Run was registered. */
  datatype Node = Node(
    allTasks: map<string, Task>,
    assignedTasks: map<string, Task>,
    deletedTasks: set<string>,
    entries: map<nat, TaskMeta>,
    lastId: nat)

  datatype Registry = Registry(tasks: map<string, TaskMeta>, tombstones: set<string>)

  datatype Reply = Ok | TaskDeleted | TaskExisted | RegistryFailed | NotMarked | NotFound | Crashed

  datatype Outcome = Outcome(node: Node, registry: Registry, reply: Reply)

  // ---------- local effects ----------

  /** Insert a task that is neither marked deleted nor known. */
  function AddJob(s: Node, meta: TaskMeta): (Node, Reply) {
    if meta.name in s.deletedTasks then (s, TaskDeleted)
    else if meta.name in s.allTasks then (s, TaskExisted)
    else (s.(allTasks := s.allTasks[meta.name := Task(0, meta)]), Ok)
  }

  /** Drop an assigned task from cron and from the assigned map. */
  function Unschedule(s: Node, name: string): Node {
    if name in s.assignedTasks
    then s.(entries := s.entries - {s.assignedTasks[name].id}, assignedTasks := s.assignedTasks - {name})
    else s
  }

  /** The local part of every force-add. */
  function Replace(s: Node, meta: TaskMeta): Node {
    var s1 := Unschedule(s, meta.name);
    s1.(deletedTasks := s1.deletedTasks - {meta.name}, allTasks := s1.allTasks[meta.name := Task(0, meta)])
  }

  function Forget(s: Node, name: string): Node {
    var s1 := Unschedule(s, name);
    s1.(allTasks := s1.allTasks - {name}, deletedTasks := s1.deletedTasks - {name})
  }

  function MarkLocal(s: Node, name: string): Node
    requires name in s.allTasks
  {
    var s1 := if name in s.assignedTasks
              then s.(entries := s.entries - {s.allTasks[name].id}, assignedTasks := s.assignedTasks - {name})
              else s;
    s1.(deletedTasks := s1.deletedTasks + {name})
  }

  /** A Put event for a known task: a changed cron format unschedules it, anything else keeps its id. */
  function PutKnown(s: Node, meta: TaskMeta): Node
    requires meta.name in s.allTasks
  {
    var existing := s.allTasks[meta.name];
    if existing.id != 0 && existing.meta.cronFormat != meta.cronFormat then
      s.(entries := s.entries - {existing.id},
         assignedTasks := s.assignedTasks - {meta.name},
         allTasks := s.allTasks[meta.name := Task(0, meta)])
    else
      s.(allTasks := s.allTasks[meta.name := Task(existing.id, meta)])
  }

  function DeleteEvent(s: Node, name: string): Node {
    if name !in s.allTasks then s
    else s.(allTasks := s.allTasks - {name},
            assignedTasks := s.assignedTasks - {name},
            entries := if s.allTasks[name].id != 0 then s.entries - {s.allTasks[name].id} else s.entries)
  }

  /** Store a task from the registry unless its name is known. */
  function StoreUnknown(s: Node, meta: TaskMeta): Node {
    if meta.name in s.allTasks then s else s.(allTasks := s.allTasks[meta.name := Task(0, meta)])
  }

  /** The reload loop, over the registry's tasks in whatever order the map yields them. */
  function MergeTasks(s: Node, tasks: seq<TaskMeta>): Node
    decreases |tasks|
  {
    if tasks == [] then s else MergeTasks(StoreUnknown(s, tasks[0]), tasks[1..])
  }

  /** A reload adds the missing tasks, one for each name, and never touches a known one. */
  lemma {:induction false} MergeOnlyAdds(s: Node, tasks: seq<TaskMeta>)
    ensures var t := MergeTasks(s, tasks);
      && t == s.(allTasks := t.allTasks)
      && (forall n :: n in s.allTasks ==> n in t.allTasks && t.allTasks[n] == s.allTasks[n])
      && (forall i :: 0 <= i < |tasks| ==> tasks[i].name in t.allTasks)
      && (forall n :: n in t.allTasks && n !in s.allTasks ==>
            exists i :: 0 <= i < |tasks| && tasks[i].name == n && t.allTasks[n] == Task(0, tasks[i]))
    decreases |tasks|
  {
    if tasks != [] {
      var s1, t := StoreUnknown(s, tasks[0]), MergeTasks(s, tasks);
      MergeOnlyAdds(s1, tasks[1..]);
      forall n | n in t.allTasks && n !in s.allTasks
        ensures exists i :: 0 <= i < |tasks| && tasks[i].name == n && t.allTasks[n] == Task(0, tasks[i])
      {
        if n in s1.allTasks {
          assert tasks[0].name == n && t.allTasks[n] == Task(0, tasks[0]);
        } else {
          var i :| 0 <= i < |tasks| - 1 && tasks[1..][i].name == n && t.allTasks[n] == Task(0, tasks[1..][i]);
          assert tasks[i + 1].name == n;
        }
      }
      forall i | 0 <= i < |tasks| ensures tasks[i].name in t.allTasks {
        if i > 0 { assert tasks[1..][i - 1] == tasks[i]; }
      }
    }
  }

  // ---------- rebalance ----------

  /** Give an unscheduled task the next id and a cron entry. */
  function Schedule(s: Node, name: string): Node
    requires name in s.allTasks
  {
    var task := Task(s.lastId + 1, s.allTasks[name].meta);
    s.(lastId := task.id, entries := s.entries[task.id := task.meta],
       allTasks := s.allTasks[name := task], assignedTasks := s.assignedTasks[name := task])
  }

  /** Carry out one decision: schedule a task that should run and has no live entry, unschedule a
      live one that should not. */
  function Decide(parses: string -> bool, s: Node, name: string, shouldRun: bool): Node
    requires name in s.allTasks
  {
    var task := s.allTasks[name];
    var existed := task.id != 0 && task.id in s.entries;
    if shouldRun && !existed && parses(task.meta.cronFormat) then Schedule(s, name)
    else if !shouldRun && existed then
      s.(entries := s.entries - {task.id}, assignedTasks := s.assignedTasks - {name})
    else s
  }

  /** One pass of the rebalance loop. */
  function Visit(parses: string -> bool, s: Node, owned: set<string>, name: string): Node
    requires name in s.allTasks
  {
    Decide(parses, s, name, name !in s.deletedTasks && name in owned)
  }

  /** The rebalance loop over a list of known names. */
  function VisitAll(parses: string -> bool, s: Node, owned: set<string>, names: seq<string>): (r: Node)
    requires forall n :: n in names ==> n in s.allTasks
    ensures r.allTasks.Keys == s.allTasks.Keys && r.deletedTasks == s.deletedTasks
    decreases |names|
  {
    if names == [] then s else VisitAll(parses, Visit(parses, s, owned, names[0]), owned, names[1..])
  }

  /** The whole loop, over the sorted task names. */
  ghost function Rebalanced(parses: string -> bool, s: Node, owned: set<string>): Node {
    VisitAll(parses, s, owned, Sorted(s.allTasks.Keys))
  }

  // ---------- operations ----------

  datatype Action =
    | AddTask(meta: TaskMeta)
    | AddTaskMeta(meta: TaskMeta, putOk: bool)
    | ForceAddTask(meta: TaskMeta, cleanupOk: bool)
    | ForceAddTaskMeta(meta: TaskMeta, cleanupOk: bool, putOk: bool)
    | ReuseDeletedTask(name: string, removeOk: bool)
    | MarkTaskDeleted(name: string, markOk: bool)
    | CleanupTask(name: string, cleanupOk: bool)
    | ForceCleanupAllTasks(cleanupOk: bool)
    | PutEvent(meta: TaskMeta)
    | DeletedEvent(name: string)
    | ReloadTasks(tasks: seq<TaskMeta>)
    | ReloadDeletedTasks(names: set<string>)
    | Rebalance(owned: set<string>)

  function CleanTask(r: Registry, name: string): Registry {
    Registry(r.tasks - {name}, r.tombstones - {name})
  }

  function DoAddTask(s: Node, r: Registry, meta: TaskMeta): Outcome {
    var (s', reply) := AddJob(s, meta);
    Outcome(s', r, reply)
  }

  function DoAddTaskMeta(s: Node, r: Registry, meta: TaskMeta, putOk: bool): Outcome {
    if meta.name in s.deletedTasks then Outcome(s, r, TaskDeleted)
    else if meta.name in s.allTasks then Outcome(s, r, TaskExisted)
    else if !putOk then Outcome(s, r, RegistryFailed)
    else Outcome(AddJob(s, meta).0, r.(tasks := r.tasks[meta.name := meta]), Ok)
  }

  function DoForceAddTask(s: Node, r: Registry, meta: TaskMeta, cleanupOk: bool): Outcome {
    if !cleanupOk then Outcome(s, r, RegistryFailed)
    else Outcome(Replace(s, meta), CleanTask(r, meta.name), Ok)
  }

  function DoForceAddTaskMeta(s: Node, r: Registry, meta: TaskMeta, cleanupOk: bool, putOk: bool): Outcome {
    if !cleanupOk then Outcome(s, r, RegistryFailed)
    else
      var r1 := CleanTask(r, meta.name);
      if !putOk then Outcome(s, r1, RegistryFailed)
      else Outcome(Replace(s, meta), r1.(tasks := r1.tasks[meta.name := meta]), Ok)
  }

  function DoReuse(s: Node, r: Registry, name: string, removeOk: bool): Outcome {
    if name !in s.deletedTasks then Outcome(s, r, NotMarked)
    else if name !in s.allTasks then Outcome(s, r, NotFound)
    else
      var s1 := s.(deletedTasks := s.deletedTasks - {name});
      if !removeOk then Outcome(s1, r, RegistryFailed)
      else Outcome(s1, r.(tombstones := r.tombstones - {name}), Ok)
  }

  function DoMark(s: Node, r: Registry, name: string, markOk: bool): Outcome {
    if !markOk then Outcome(s, r, RegistryFailed)
    else
      var r1 := r.(tombstones := r.tombstones + {name});
      if name !in s.allTasks then Outcome(s, r1, NotFound) else Outcome(MarkLocal(s, name), r1, Ok)
  }

  function DoCleanup(s: Node, r: Registry, name: string, cleanupOk: bool): Outcome {
    if !cleanupOk then Outcome(s, r, RegistryFailed)
    else Outcome(Forget(s, name), CleanTask(r, name), Ok)
  }

  function DoCleanupAll(s: Node, r: Registry, cleanupOk: bool): Outcome {
    if !cleanupOk then Outcome(s, r, RegistryFailed)
    else
      var live := set n | n in s.assignedTasks :: s.assignedTasks[n].id;
      Outcome(Node(map[], map[], {}, s.entries - live, s.lastId), Registry(map[], {}), Ok)
  }

  /** The handler reads the id of the existing task object; for an unknown task there is none. */
  function DoPut(s: Node, r: Registry, meta: TaskMeta): Outcome {
    if meta.name !in s.allTasks then Outcome(s, r, Crashed) else Outcome(PutKnown(s, meta), r, Ok)
  }

  /** What one operation does to the node, to the registry, and what it answers. */
  ghost function Do(parses: string -> bool, s: Node, r: Registry, a: Action): Outcome {
    match a
    case AddTask(meta) => DoAddTask(s, r, meta)
    case AddTaskMeta(meta, putOk) => DoAddTaskMeta(s, r, meta, putOk)
    case ForceAddTask(meta, cleanupOk) => DoForceAddTask(s, r, meta, cleanupOk)
    case ForceAddTaskMeta(meta, cleanupOk, putOk) => DoForceAddTaskMeta(s, r, meta, cleanupOk, putOk)
    case ReuseDeletedTask(name, removeOk) => DoReuse(s, r, name, removeOk)
    case MarkTaskDeleted(name, markOk) => DoMark(s, r, name, markOk)
    case CleanupTask(name, cleanupOk) => DoCleanup(s, r, name, cleanupOk)
    case ForceCleanupAllTasks(cleanupOk) => DoCleanupAll(s, r, cleanupOk)
    case PutEvent(meta) => DoPut(s, r, meta)
    case DeletedEvent(name) => Outcome(DeleteEvent(s, name), r, Ok)
    case ReloadTasks(tasks) => Outcome(MergeTasks(s, tasks), r, Ok)
    case ReloadDeletedTasks(names) => Outcome(s.(deletedTasks := names), r, Ok)
    case Rebalance(owned) => Outcome(Rebalanced(parses, s, owned), r, Ok)
  }

  /** What follows an execution: marking takes precedence over cleaning up. */
  function AfterExecution(s: Node, r: Registry, meta: TaskMeta, callOk: bool): Outcome {
    if meta.oneShot || meta.executedAndMarkDeleted then DoMark(s, r, meta.name, callOk)
    else if meta.executedAndCleanup then DoCleanup(s, r, meta.name, callOk)
    else Outcome(s, r, Ok)
  }

  /** A firing executes its task unless the name is marked deleted or the marker is taken. */
  predicate Executes(s: Node, id: nat, canRun: bool) {
    id in s.entries && s.entries[id].name !in s.deletedTasks && canRun
  }

  /** A firing of a live cron entry: the registered object's own metadata decides what follows. */
  function DoRun(s: Node, r: Registry, id: nat, canRun: bool, callOk: bool): Outcome {
    if Executes(s, id, canRun) then AfterExecution(s, r, s.entries[id], callOk) else Outcome(s, r, Ok)
  }

  // ---------- the invariant ----------

  /** An assigned task is live in cron under the id both maps give it, and cron runs it on the format
      now stored for the task. */
  ghost predicate Scheduled(parses: string -> bool, s: Node, n: string)
    requires n in s.allTasks && n in s.assignedTasks
  {
    var t := s.assignedTasks[n];
    && t.id == s.allTasks[n].id && t.id != 0 && t.meta.name == n
    && t.id in s.entries && s.entries[t.id] == t.meta
    && t.meta.cronFormat == s.allTasks[n].meta.cronFormat && parses(t.meta.cronFormat)
  }

  ghost predicate NameOk(parses: string -> bool, s: Node, n: string)
    requires n in s.allTasks
  {
    && s.allTasks[n].meta.name == n && s.allTasks[n].id <= s.lastId
    && (if n in s.assignedTasks then Scheduled(parses, s, n) else s.allTasks[n].id !in s.entries)
  }

  /** A live cron entry belongs to the assigned task of its name. */
  ghost predicate EntryOk(s: Node, id: nat)
    requires id in s.entries
  {
    && 0 < id <= s.lastId
    && s.entries[id].name in s.assignedTasks && s.assignedTasks[s.entries[id].name].id == id
  }

  ghost predicate DistinctTaskIds(s: Node) {
    forall n, m :: n in s.allTasks && m in s.allTasks && n != m && s.allTasks[n].id != 0 ==> s.allTasks[n].id != s.allTasks[m].id
  }

  ghost predicate Inv(parses: string -> bool, s: Node) {
    && s.assignedTasks.Keys <= s.allTasks.Keys
    && (forall n {:trigger NameOk(parses, s, n)} :: n in s.allTasks ==> NameOk(parses, s, n))
    && (forall id {:trigger EntryOk(s, id)} :: id in s.entries ==> EntryOk(s, id))
    && DistinctTaskIds(s)
  }

  ghost function Fresh(): Node {
    Node(map[], map[], {}, map[], 0)
  }

  lemma EntryBounds(parses: string -> bool, s: Node)
    requires Inv(parses, s)
    ensures forall id :: id in s.entries ==> 0 < id <= s.lastId
  {
    forall id | id in s.entries ensures 0 < id <= s.lastId { assert EntryOk(s, id); }
  }

  lemma UnscheduleKeepsInv(parses: string -> bool, s: Node, name: string)
    requires Inv(parses, s)
    ensures Inv(parses, Unschedule(s, name))
    ensures name in s.allTasks ==> s.allTasks[name].id !in Unschedule(s, name).entries
  {
    var s' := Unschedule(s, name);
    assert name in s.allTasks ==> NameOk(parses, s, name);
    forall n | n in s'.allTasks ensures NameOk(parses, s', n) { assert NameOk(parses, s, n); }
    forall id | id in s'.entries ensures EntryOk(s', id) { assert EntryOk(s, id); }
  }

  /** Replacing or adding an unscheduled task object. */
  lemma StoreKeepsInv(parses: string -> bool, s: Node, meta: TaskMeta)
    requires Inv(parses, s) && meta.name !in s.assignedTasks
    ensures Inv(parses, s.(allTasks := s.allTasks[meta.name := Task(0, meta)]))
  {
    var s' := s.(allTasks := s.allTasks[meta.name := Task(0, meta)]);
    EntryBounds(parses, s);
    forall n | n in s'.allTasks ensures NameOk(parses, s', n) {
      if n != meta.name { assert NameOk(parses, s, n); }
    }
    forall id | id in s'.entries ensures EntryOk(s', id) { assert EntryOk(s, id); }
  }

  /** Dropping an unscheduled task object. */
  lemma DropKeepsInv(parses: string -> bool, s: Node, name: string)
    requires Inv(parses, s) && name !in s.assignedTasks
    ensures Inv(parses, s.(allTasks := s.allTasks - {name}))
  {
    var s' := s.(allTasks := s.allTasks - {name});
    forall n | n in s'.allTasks ensures NameOk(parses, s', n) { assert NameOk(parses, s, n); }
    forall id | id in s'.entries ensures EntryOk(s', id) { assert EntryOk(s, id); }
  }

  /** The tombstone set plays no part in the invariant. */
  lemma TombstonesKeepInv(parses: string -> bool, s: Node, deleted: set<string>)
    requires Inv(parses, s)
    ensures Inv(parses, s.(deletedTasks := deleted))
  {
    var s' := s.(deletedTasks := deleted);
    forall n | n in s'.allTasks ensures NameOk(parses, s', n) { assert NameOk(parses, s, n); }
    forall id | id in s'.entries ensures EntryOk(s', id) { assert EntryOk(s, id); }
  }

  lemma ReplaceKeepsInv(parses: string -> bool, s: Node, meta: TaskMeta)
    requires Inv(parses, s)
    ensures Inv(parses, Replace(s, meta))
  {
    var s1 := Unschedule(s, meta.name);
    UnscheduleKeepsInv(parses, s, meta.name);
    TombstonesKeepInv(parses, s1, s1.deletedTasks - {meta.name});
    StoreKeepsInv(parses, s1.(deletedTasks := s1.deletedTasks - {meta.name}), meta);
  }

  lemma ForgetKeepsInv(parses: string -> bool, s: Node, name: string)
    requires Inv(parses, s)
    ensures Inv(parses, Forget(s, name))
  {
    var s1 := Unschedule(s, name);
    UnscheduleKeepsInv(parses, s, name);
    DropKeepsInv(parses, s1, name);
    TombstonesKeepInv(parses, s1.(allTasks := s1.allTasks - {name}), s1.deletedTasks - {name});
  }

  /** The id in `allTasks` and the id in `assignedTasks` name one cron entry, so marking through the
      former unschedules exactly as through the latter. */
  lemma MarkIsUnschedule(parses: string -> bool, s: Node, name: string)
    requires Inv(parses, s) && name in s.allTasks
    ensures MarkLocal(s, name) == Unschedule(s, name).(deletedTasks := s.deletedTasks + {name})
  {
    assert NameOk(parses, s, name);
  }

  /** A Delete event is a Forget that leaves the tombstone. */
  lemma DeleteEventIsForget(parses: string -> bool, s: Node, name: string)
    requires Inv(parses, s) && name in s.allTasks
    ensures DeleteEvent(s, name) == Forget(s, name).(deletedTasks := s.deletedTasks)
  {
    assert NameOk(parses, s, name);
    if name !in s.assignedTasks {
      assert s.entries - {s.allTasks[name].id} == s.entries;
      assert s.assignedTasks - {name} == s.assignedTasks;
    }
  }

  /** A Put that changes the cron format of a task that has an id unschedules and replaces it. */
  lemma PutReschedules(parses: string -> bool, s: Node, meta: TaskMeta)
    requires Inv(parses, s) && meta.name in s.allTasks
    requires s.allTasks[meta.name].id != 0 && s.allTasks[meta.name].meta.cronFormat != meta.cronFormat
    ensures var s1 := Unschedule(s, meta.name);
      PutKnown(s, meta) == s1.(allTasks := s1.allTasks[meta.name := Task(0, meta)])
  {
    assert NameOk(parses, s, meta.name);
    if meta.name !in s.assignedTasks {
      assert s.entries - {s.allTasks[meta.name].id} == s.entries;
      assert s.assignedTasks - {meta.name} == s.assignedTasks;
    }
  }

  lemma PutKeepsInv(parses: string -> bool, s: Node, meta: TaskMeta)
    requires Inv(parses, s) && meta.name in s.allTasks
    ensures Inv(parses, PutKnown(s, meta))
  {
    var existing := s.allTasks[meta.name];
    if existing.id != 0 && existing.meta.cronFormat != meta.cronFormat {
      PutReschedules(parses, s, meta);
      UnscheduleKeepsInv(parses, s, meta.name);
      StoreKeepsInv(parses, Unschedule(s, meta.name), meta);
    } else {
      var s' := PutKnown(s, meta);
      EntryBounds(parses, s);
      forall m | m in s'.allTasks ensures NameOk(parses, s', m) { assert NameOk(parses, s, m); }
      forall id | id in s'.entries ensures EntryOk(s', id) { assert EntryOk(s, id); }
    }
  }

  /** A Put that keeps the cron format leaves cron running the object it had: the new flags and payload
      are stored, and no firing sees them before the task is scheduled anew. */
  lemma PutKeepsRegistration(parses: string -> bool, s: Node, r: Registry, meta: TaskMeta, id: nat, callOk: bool)
    requires Inv(parses, s) && meta.name in s.assignedTasks && id == s.assignedTasks[meta.name].id
    requires meta.cronFormat == s.allTasks[meta.name].meta.cronFormat && meta.name !in s.deletedTasks
    ensures var t := PutKnown(s, meta);
      && t.allTasks[meta.name] == Task(id, meta) && Executes(t, id, true)
      && t.entries[id] == s.assignedTasks[meta.name].meta
      && DoRun(t, r, id, true, callOk) == AfterExecution(t, r, s.assignedTasks[meta.name].meta, callOk)
  {
    assert NameOk(parses, s, meta.name);
  }

  /** Cron runs the metadata of a Put exactly when the task was not assigned, or the Put changes its cron format, or
      it changes nothing. */
  lemma PutFreshExactly(parses: string -> bool, s: Node, meta: TaskMeta)
    requires Inv(parses, s) && meta.name in s.allTasks
    ensures var t := PutKnown(s, meta);
      (forall id :: id in t.entries && t.entries[id].name == meta.name ==> t.entries[id] == meta) <==>
      (meta.name in s.assignedTasks ==>
        s.assignedTasks[meta.name].meta.cronFormat != meta.cronFormat || s.assignedTasks[meta.name].meta == meta)
  {
    var t := PutKnown(s, meta);
    assert NameOk(parses, s, meta.name);
    forall id | id in t.entries && t.entries[id].name == meta.name
      ensures meta.name in s.assignedTasks && id == s.assignedTasks[meta.name].id
        && s.assignedTasks[meta.name].meta.cronFormat == meta.cronFormat && t.entries[id] == s.assignedTasks[meta.name].meta {
      assert EntryOk(s, id);
    }
    if meta.name in s.assignedTasks && s.assignedTasks[meta.name].meta.cronFormat == meta.cronFormat {
      assert s.assignedTasks[meta.name].id in t.entries;
    }
  }

  /** A Put stores its metadata, and the task's id survives unless the cron format changes. */
  lemma PutStores(s: Node, meta: TaskMeta)
    requires meta.name in s.allTasks
    ensures var before, t := s.allTasks[meta.name], PutKnown(s, meta).allTasks[meta.name];
      && t.meta == meta && (t.id == before.id <==> before.id == 0 || before.meta.cronFormat == meta.cronFormat)
      && (t.id == before.id || t.id == 0)
  {
  }

  lemma {:induction false} MergeKeepsInv(parses: string -> bool, s: Node, tasks: seq<TaskMeta>)
    requires Inv(parses, s)
    ensures Inv(parses, MergeTasks(s, tasks))
    decreases |tasks|
  {
    if tasks != [] {
      if tasks[0].name !in s.allTasks { StoreKeepsInv(parses, s, tasks[0]); }
      MergeKeepsInv(parses, StoreUnknown(s, tasks[0]), tasks[1..]);
    }
  }

  lemma ScheduleKeepsInv(parses: string -> bool, s: Node, name: string)
    requires Inv(parses, s) && name in s.allTasks && name !in s.assignedTasks
    requires parses(s.allTasks[name].meta.cronFormat)
    ensures Inv(parses, Schedule(s, name))
  {
    var s' := Schedule(s, name);
    EntryBounds(parses, s);
    forall n | n in s'.allTasks ensures NameOk(parses, s', n) { assert NameOk(parses, s, n); }
    forall id | id in s'.entries ensures EntryOk(s', id) {
      if id != s'.lastId { assert EntryOk(s, id); } else { assert NameOk(parses, s, name); }
    }
    assert DistinctTaskIds(s') by {
      forall n | n in s.allTasks ensures s.allTasks[n].id < s'.lastId { assert NameOk(parses, s, n); }
    }
  }

  /** "Its id is live in cron" says "it is assigned". */
  ghost predicate LiveIffAssigned(s: Node, name: string)
    requires name in s.allTasks
  {
    s.allTasks[name].id != 0 && s.allTasks[name].id in s.entries <==> name in s.assignedTasks
  }

  lemma LiveIsAssigned(parses: string -> bool, s: Node, name: string)
    requires Inv(parses, s) && name in s.allTasks
    ensures LiveIffAssigned(s, name)
  {
    assert NameOk(parses, s, name);
  }

  lemma VisitKeepsInv(parses: string -> bool, s: Node, owned: set<string>, name: string)
    requires Inv(parses, s) && name in s.allTasks
    ensures Inv(parses, Visit(parses, s, owned, name))
  {
    LiveIsAssigned(parses, s, name);
    var shouldRun := name !in s.deletedTasks && name in owned;
    if shouldRun && name !in s.assignedTasks && parses(s.allTasks[name].meta.cronFormat) {
      ScheduleKeepsInv(parses, s, name);
    } else if !shouldRun && name in s.assignedTasks {
      assert NameOk(parses, s, name);
      UnscheduleKeepsInv(parses, s, name);
    }
  }

  lemma {:induction false} VisitAllKeepsInv(parses: string -> bool, s: Node, owned: set<string>, names: seq<string>)
    requires Inv(parses, s) && forall n :: n in names ==> n in s.allTasks
    ensures Inv(parses, VisitAll(parses, s, owned, names))
    decreases |names|
  {
    if names != [] {
      VisitKeepsInv(parses, s, owned, names[0]);
      VisitAllKeepsInv(parses, Visit(parses, s, owned, names[0]), owned, names[1..]);
    }
  }

  /** Every operation keeps the invariant, whatever the registry answers. */
  lemma DoKeepsInv(parses: string -> bool, s: Node, r: Registry, a: Action)
    requires Inv(parses, s)
    ensures Inv(parses, Do(parses, s, r, a).node)
  {
    match a
    case AddTask(meta) => if meta.name !in s.allTasks { StoreKeepsInv(parses, s, meta); }
    case AddTaskMeta(meta, _) => if meta.name !in s.allTasks { StoreKeepsInv(parses, s, meta); }
    case ForceAddTask(meta, _) => ReplaceKeepsInv(parses, s, meta);
    case ForceAddTaskMeta(meta, _, _) => ReplaceKeepsInv(parses, s, meta);
    case ReuseDeletedTask(name, _) => TombstonesKeepInv(parses, s, s.deletedTasks - {name});
    case MarkTaskDeleted(name, _) =>
      if name in s.allTasks {
        MarkIsUnschedule(parses, s, name);
        UnscheduleKeepsInv(parses, s, name);
        TombstonesKeepInv(parses, Unschedule(s, name), s.deletedTasks + {name});
      }
    case CleanupTask(name, _) => ForgetKeepsInv(parses, s, name);
    case ForceCleanupAllTasks(ok) =>
      forall id | id in s.entries ensures id in (set n | n in s.assignedTasks :: s.assignedTasks[n].id) {
        assert EntryOk(s, id);
      }
    case PutEvent(meta) => if meta.name in s.allTasks { PutKeepsInv(parses, s, meta); }
    case DeletedEvent(name) =>
      if name in s.allTasks {
        DeleteEventIsForget(parses, s, name);
        ForgetKeepsInv(parses, s, name);
        TombstonesKeepInv(parses, Forget(s, name), s.deletedTasks);
      }
    case ReloadTasks(tasks) => MergeKeepsInv(parses, s, tasks);
    case ReloadDeletedTasks(names) => TombstonesKeepInv(parses, s, names);
    case Rebalance(owned) => VisitAllKeepsInv(parses, s, owned, Sorted(s.allTasks.Keys));
  }

  lemma RunKeepsInv(parses: string -> bool, s: Node, r: Registry, id: nat, canRun: bool, callOk: bool)
    requires Inv(parses, s)
    ensures Inv(parses, DoRun(s, r, id, canRun, callOk).node)
  {
    if Executes(s, id, canRun) {
      DoKeepsInv(parses, s, r, MarkTaskDeleted(s.entries[id].name, callOk));
      DoKeepsInv(parses, s, r, CleanupTask(s.entries[id].name, callOk));
    }
  }

  /** States reached from a fresh node by any sequence of operations, with any registry answers. */
  ghost predicate Reaches(parses: string -> bool, s: Node, r: Registry, acts: seq<Action>, end: Node)
    decreases |acts|
  {
    if acts == [] then end == s
    else
      var o := Do(parses, s, r, acts[0]);
      Reaches(parses, o.node, o.registry, acts[1..], end)
  }

  lemma {:induction false} ReachableKeepsInv(parses: string -> bool, s: Node, r: Registry, acts: seq<Action>, end: Node)
    requires Inv(parses, s) && Reaches(parses, s, r, acts, end)
    ensures Inv(parses, end)
    decreases |acts|
  {
    if acts != [] {
      DoKeepsInv(parses, s, r, acts[0]);
      var o := Do(parses, s, r, acts[0]);
      ReachableKeepsInv(parses, o.node, o.registry, acts[1..], end);
    }
  }

  /** In every reachable state cron ids and assigned names correspond one to one, both maps agree on
      them, and each live entry runs on the cron format now stored for its task. */
  lemma ReachableScheduling(parses: string -> bool, r: Registry, acts: seq<Action>, end: Node)
    requires Reaches(parses, Fresh(), r, acts, end)
    ensures end.assignedTasks.Keys <= end.allTasks.Keys
    ensures forall id :: id in end.entries ==>
      exists n :: n in end.assignedTasks && n in end.allTasks && end.assignedTasks[n].id == id == end.allTasks[n].id
    ensures forall n :: n in end.assignedTasks ==>
      n in end.allTasks && end.assignedTasks[n].id in end.entries && end.entries[end.assignedTasks[n].id].name == n
    ensures forall id :: id in end.entries ==>
      end.entries[id].name in end.allTasks && end.entries[id].cronFormat == end.allTasks[end.entries[id].name].meta.cronFormat
    ensures forall n :: n in end.allTasks && n !in end.assignedTasks ==> end.allTasks[n].id !in end.entries
    ensures DistinctTaskIds(end) && forall n :: n in end.allTasks ==> end.allTasks[n].id <= end.lastId
  {
    ReachableKeepsInv(parses, Fresh(), r, acts, end);
    forall n | n in end.allTasks ensures NameOk(parses, end, n) {}
    forall id | id in end.entries
      ensures var n := end.entries[id].name;
        n in end.assignedTasks && n in end.allTasks && end.assignedTasks[n].id == id == end.allTasks[n].id
      ensures end.entries[id].cronFormat == end.allTasks[end.entries[id].name].meta.cronFormat
    {
      assert EntryOk(end, id);
      assert NameOk(parses, end, end.entries[id].name);
    }
  }

  // ---------- ids are never used again ----------

  /** Only ids above the old last one are new in cron. */
  ghost predicate OnlyNewIds(s: Node, t: Node) {
    s.lastId <= t.lastId && forall id :: id in t.entries && id !in s.entries ==> s.lastId < id
  }

  lemma {:induction false} VisitAllNewIds(parses: string -> bool, s: Node, owned: set<string>, names: seq<string>)
    requires forall n :: n in names ==> n in s.allTasks
    ensures OnlyNewIds(s, VisitAll(parses, s, owned, names))
    decreases |names|
  {
    if names != [] { VisitAllNewIds(parses, Visit(parses, s, owned, names[0]), owned, names[1..]); }
  }

  lemma DoNewIds(parses: string -> bool, s: Node, r: Registry, a: Action)
    ensures OnlyNewIds(s, Do(parses, s, r, a).node)
  {
    match a
    case ReloadTasks(tasks) => MergeOnlyAdds(s, tasks);
    case Rebalance(owned) => VisitAllNewIds(parses, s, owned, Sorted(s.allTasks.Keys));
    case _ =>
  }

  /** Once an id was given out and left cron, no run brings it back. */
  lemma {:induction false} IdsNeverReused(
      parses: string -> bool, s: Node, r: Registry, acts: seq<Action>, end: Node, id: nat)
    requires Reaches(parses, s, r, acts, end) && id <= s.lastId && id !in s.entries
    ensures id <= end.lastId && id !in end.entries
    decreases |acts|
  {
    if acts != [] {
      DoNewIds(parses, s, r, acts[0]);
      var o := Do(parses, s, r, acts[0]);
      IdsNeverReused(parses, o.node, o.registry, acts[1..], end, id);
    }
  }

  // ---------- what an operation does not touch ----------

  /** The name an operation is about; the reloads, the rebalance and the full cleanup are about none. */
  function Subject(a: Action): set<string> {
    match a
    case AddTask(meta) => {meta.name}
    case AddTaskMeta(meta, _) => {meta.name}
    case ForceAddTask(meta, _) => {meta.name}
    case ForceAddTaskMeta(meta, _, _) => {meta.name}
    case ReuseDeletedTask(name, _) => {name}
    case MarkTaskDeleted(name, _) => {name}
    case CleanupTask(name, _) => {name}
    case PutEvent(meta) => {meta.name}
    case DeletedEvent(name) => {name}
    case _ => {}
  }

  /** The two states agree on everything about one name, its live cron entries included. */
  ghost predicate SameFor(s: Node, t: Node, n: string) {
    && (n in s.allTasks <==> n in t.allTasks) && (n in s.allTasks ==> s.allTasks[n] == t.allTasks[n])
    && (n in s.assignedTasks <==> n in t.assignedTasks) && (n in s.assignedTasks ==> s.assignedTasks[n] == t.assignedTasks[n])
    && (n in s.deletedTasks <==> n in t.deletedTasks)
    && (forall id :: id in s.entries && s.entries[id].name == n ==> id in t.entries && t.entries[id] == s.entries[id])
    && (forall id :: id in t.entries && t.entries[id].name == n ==> id in s.entries && t.entries[id] == s.entries[id])
  }

  ghost predicate SameInRegistry(r: Registry, q: Registry, n: string) {
    && (n in r.tasks <==> n in q.tasks) && (n in r.tasks ==> r.tasks[n] == q.tasks[n])
    && (n in r.tombstones <==> n in q.tombstones)
  }

  /** The id that an unscheduling goes by belongs to no other name. */
  lemma IdIsOwn(parses: string -> bool, s: Node, name: string, id: nat)
    requires Inv(parses, s) && name in s.allTasks && id == s.allTasks[name].id && id in s.entries
    ensures s.entries[id].name == name
  {
    assert EntryOk(s, id);
    assert NameOk(parses, s, s.entries[id].name);
  }

  lemma UnscheduleSpares(parses: string -> bool, s: Node, name: string, n: string)
    requires Inv(parses, s) && n != name
    ensures SameFor(s, Unschedule(s, name), n)
  {
    if name in s.assignedTasks {
      assert NameOk(parses, s, name);
      IdIsOwn(parses, s, name, s.assignedTasks[name].id);
    }
  }

  lemma ReplaceSpares(parses: string -> bool, s: Node, meta: TaskMeta, n: string)
    requires Inv(parses, s) && n != meta.name
    ensures SameFor(s, Replace(s, meta), n)
  {
    UnscheduleSpares(parses, s, meta.name, n);
  }

  lemma ForgetSpares(parses: string -> bool, s: Node, name: string, n: string)
    requires Inv(parses, s) && n != name
    ensures SameFor(s, Forget(s, name), n)
  {
    UnscheduleSpares(parses, s, name, n);
  }

  lemma MarkSpares(parses: string -> bool, s: Node, name: string, n: string)
    requires Inv(parses, s) && n != name && name in s.allTasks
    ensures SameFor(s, MarkLocal(s, name), n)
  {
    MarkIsUnschedule(parses, s, name);
    UnscheduleSpares(parses, s, name, n);
  }

  lemma PutSpares(parses: string -> bool, s: Node, meta: TaskMeta, n: string)
    requires Inv(parses, s) && n != meta.name && meta.name in s.allTasks
    ensures SameFor(s, PutKnown(s, meta), n)
  {
    if s.allTasks[meta.name].id != 0 && s.allTasks[meta.name].meta.cronFormat != meta.cronFormat {
      PutReschedules(parses, s, meta);
      UnscheduleSpares(parses, s, meta.name, n);
    }
  }

  lemma DeleteSpares(parses: string -> bool, s: Node, name: string, n: string)
    requires Inv(parses, s) && n != name
    ensures SameFor(s, DeleteEvent(s, name), n)
  {
    if name in s.allTasks {
      DeleteEventIsForget(parses, s, name);
      UnscheduleSpares(parses, s, name, n);
    }
  }

  predicate Adds(a: Action) {
    a.AddTask? || a.AddTaskMeta? || a.ForceAddTask? || a.ForceAddTaskMeta?
  }

  lemma AddsSpare(parses: string -> bool, s: Node, r: Registry, a: Action, n: string)
    requires Inv(parses, s) && Adds(a) && n !in Subject(a)
    ensures SameFor(s, Do(parses, s, r, a).node, n)
  {
    if a.ForceAddTask? || a.ForceAddTaskMeta? { ReplaceSpares(parses, s, a.meta, n); }
  }

  lemma OthersUntouchedOnNode(parses: string -> bool, s: Node, r: Registry, a: Action, n: string)
    requires Inv(parses, s) && Subject(a) != {} && n !in Subject(a)
    ensures SameFor(s, Do(parses, s, r, a).node, n)
  {
    if Adds(a) {
      AddsSpare(parses, s, r, a, n);
    } else {
      match a
      case MarkTaskDeleted(name, _) => if name in s.allTasks { MarkSpares(parses, s, name, n); }
      case CleanupTask(name, _) => ForgetSpares(parses, s, name, n);
      case PutEvent(meta) => if meta.name in s.allTasks { PutSpares(parses, s, meta, n); }
      case DeletedEvent(name) => DeleteSpares(parses, s, name, n);
      case _ =>
    }
  }

  lemma OthersUntouchedInRegistry(parses: string -> bool, s: Node, r: Registry, a: Action, n: string)
    requires Subject(a) != {} && n !in Subject(a)
    ensures SameInRegistry(r, Do(parses, s, r, a).registry, n)
  {
  }

  /** An operation about one name leaves every other name alone: its task, its id, its place on the node, its cron
      entry, its tombstones and its registry entry. */
  lemma OthersUntouched(parses: string -> bool, s: Node, r: Registry, a: Action, n: string)
    requires Inv(parses, s) && Subject(a) != {} && n !in Subject(a)
    ensures SameFor(s, Do(parses, s, r, a).node, n) && SameInRegistry(r, Do(parses, s, r, a).registry, n)
  {
    OthersUntouchedOnNode(parses, s, r, a, n);
    OthersUntouchedInRegistry(parses, s, r, a, n);
  }

  /** Every answer, by the state and the registry's replies: a marked name is refused before a known one, and a call to
      the registry is made only after those tests. */
  lemma AnswersExactly(parses: string -> bool, s: Node, r: Registry, a: Action)
    ensures var reply, adds := Do(parses, s, r, a).reply, a.AddTask? || a.AddTaskMeta?;
      && (reply == TaskDeleted <==> adds && a.meta.name in s.deletedTasks)
      && (reply == TaskExisted <==> adds && a.meta.name !in s.deletedTasks && a.meta.name in s.allTasks)
      && (reply == NotMarked <==> a.ReuseDeletedTask? && a.name !in s.deletedTasks)
      && (reply == NotFound <==> (a.ReuseDeletedTask? && a.name in s.deletedTasks && a.name !in s.allTasks)
                                 || (a.MarkTaskDeleted? && a.markOk && a.name !in s.allTasks))
      && (reply == Crashed <==> a.PutEvent? && a.meta.name !in s.allTasks)
      && (reply == RegistryFailed <==>
           || (a.AddTaskMeta? && a.meta.name !in s.deletedTasks && a.meta.name !in s.allTasks && !a.putOk)
           || (a.ForceAddTaskMeta? && !(a.cleanupOk && a.putOk))
           || ((a.ForceAddTask? || a.CleanupTask? || a.ForceCleanupAllTasks?) && !a.cleanupOk)
           || (a.ReuseDeletedTask? && a.name in s.deletedTasks && a.name in s.allTasks && !a.removeOk)
           || (a.MarkTaskDeleted? && !a.markOk))
  {
  }

  /** What a failure leaves in the registry: nothing new, except that a force-add with metadata may have cleaned the name
      before its put failed, and that marking an unknown name has written its tombstone. */
  lemma FailureLeavesRegistry(parses: string -> bool, s: Node, r: Registry, a: Action)
    ensures var o := Do(parses, s, r, a);
      && (o.reply == RegistryFailed && a.ForceAddTaskMeta? && a.cleanupOk ==>
           o.registry == Registry(r.tasks - {a.meta.name}, r.tombstones - {a.meta.name}))
      && (o.reply == RegistryFailed && !(a.ForceAddTaskMeta? && a.cleanupOk) ==> o.registry == r)
      && (o.reply == NotFound ==> o.node == s)
      && (o.reply == NotFound && a.MarkTaskDeleted? ==> o.registry == Registry(r.tasks, r.tombstones + {a.name}))
      && (o.reply == NotFound && !a.MarkTaskDeleted? ==> o.registry == r)
  {
  }

  /** A refused operation changes nothing; a failed registry call leaves the node as it was, except that a reuse
      has already dropped the local tombstone. */
  lemma FailureLeavesNode(parses: string -> bool, s: Node, r: Registry, a: Action)
    ensures var o := Do(parses, s, r, a);
      && (o.reply in {TaskDeleted, TaskExisted, NotMarked, Crashed} ==> o.node == s && o.registry == r)
      && (o.reply == RegistryFailed ==> (o.node == s <==> !a.ReuseDeletedTask?))
  {
    var o := Do(parses, s, r, a);
    if a.ReuseDeletedTask? && o.reply == RegistryFailed {
      assert a.name in s.deletedTasks && a.name !in o.node.deletedTasks;
    }
  }

  /** The name has no cron entry and no place among the assigned tasks. */
  ghost predicate Unscheduled(s: Node, n: string) {
    n !in s.assignedTasks && forall id :: id in s.entries ==> s.entries[id].name != n
  }

  lemma EntriesAssigned(parses: string -> bool, s: Node)
    requires Inv(parses, s)
    ensures forall id :: id in s.entries ==> s.entries[id].name in s.assignedTasks
  {
    forall id | id in s.entries ensures s.entries[id].name in s.assignedTasks { assert EntryOk(s, id); }
  }

  lemma NotAssigned(parses: string -> bool, s: Node, n: string)
    requires Inv(parses, s) && n !in s.assignedTasks
    ensures Unscheduled(s, n)
  {
    EntriesAssigned(parses, s);
  }

  /** What success means for the name: where it is now, on the node and in the registry. */
  lemma SuccessMeans(parses: string -> bool, s: Node, r: Registry, a: Action)
    requires Inv(parses, s) && Do(parses, s, r, a).reply == Ok
    ensures var t, q := Do(parses, s, r, a).node, Do(parses, s, r, a).registry;
      match a
      case AddTask(meta) => meta.name in t.allTasks && t.allTasks[meta.name] == Task(0, meta) && Unscheduled(t, meta.name)
      case AddTaskMeta(meta, _) =>
        && meta.name in t.allTasks && t.allTasks[meta.name] == Task(0, meta) && Unscheduled(t, meta.name)
        && meta.name in q.tasks && q.tasks[meta.name] == meta
      case ForceAddTask(meta, _) =>
        && meta.name in t.allTasks && t.allTasks[meta.name] == Task(0, meta) && Unscheduled(t, meta.name)
        && meta.name !in t.deletedTasks && meta.name !in q.tasks && meta.name !in q.tombstones
      case ForceAddTaskMeta(meta, _, _) =>
        && meta.name in t.allTasks && t.allTasks[meta.name] == Task(0, meta) && Unscheduled(t, meta.name)
        && meta.name !in t.deletedTasks && meta.name in q.tasks && q.tasks[meta.name] == meta && meta.name !in q.tombstones
      case ReuseDeletedTask(name, _) => name in t.allTasks && name !in t.deletedTasks && name !in q.tombstones
      case MarkTaskDeleted(name, _) =>
        && name in t.allTasks && t.allTasks[name] == s.allTasks[name] && Unscheduled(t, name)
        && name in t.deletedTasks && name in q.tombstones
      case CleanupTask(name, _) =>
        && name !in t.allTasks && Unscheduled(t, name) && name !in t.deletedTasks
        && name !in q.tasks && name !in q.tombstones
      case ForceCleanupAllTasks(_) =>
        t.allTasks == map[] && t.assignedTasks == map[] && t.entries == map[] && t.deletedTasks == {} && q == Registry(map[], {})
      case DeletedEvent(name) => name !in t.allTasks && Unscheduled(t, name)
      case _ => true
  {
    DoKeepsInv(parses, s, r, a);
    var t := Do(parses, s, r, a).node;
    forall n | n in Subject(a) && n !in t.assignedTasks ensures Unscheduled(t, n) { NotAssigned(parses, t, n); }
    EntriesAssigned(parses, t);
  }

  /** Nothing is left of the name, on the node, in cron or in the registry. */
  ghost predicate NothingLeft(o: Outcome, n: string) {
    && n !in o.node.allTasks && Unscheduled(o.node, n) && n !in o.node.deletedTasks
    && n !in o.registry.tasks && n !in o.registry.tombstones
  }

  /** After an execution whose registry call fails, everything is as before: the task stays scheduled and will run again. */
  lemma FailedFollowUp(s: Node, r: Registry, id: nat)
    ensures DoRun(s, r, id, true, false).node == s && DoRun(s, r, id, true, false).registry == r
  {
  }

  /** After an execution whose registry call succeeds, the task is gone exactly when it asks to be cleaned up and for
      nothing else; it is marked exactly when it is a one-shot or asks to be marked. */
  lemma CleanupOnlyAlone(parses: string -> bool, s: Node, r: Registry, id: nat)
    requires Inv(parses, s) && Executes(s, id, true)
    ensures var meta, o := s.entries[id], DoRun(s, r, id, true, true);
      && (NothingLeft(o, meta.name) <==> meta.executedAndCleanup && !meta.oneShot && !meta.executedAndMarkDeleted)
      && (meta.name in o.node.deletedTasks <==> meta.oneShot || meta.executedAndMarkDeleted)
  {
    var meta := s.entries[id];
    assert EntryOk(s, id);
    if meta.executedAndCleanup && !meta.oneShot && !meta.executedAndMarkDeleted {
      SuccessMeans(parses, s, r, CleanupTask(meta.name, true));
    }
  }
}
