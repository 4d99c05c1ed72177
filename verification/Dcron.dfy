/** The scheduler of one node as the object it is: maps of shared task objects, updated in place.
    Every method is proved to do to the objects what `Scheduler` says it does to their values. */
module Dcron {
  import opened Lex
  import A = Assigners
  import S = Scheduler
  import Rebalance
  import NodeView

  class Task {
    const meta: S.TaskMeta
    var id: nat

    constructor (meta: S.TaskMeta, id: nat)
      ensures this.meta == meta && this.id == id
    {
      this.meta, this.id := meta, id;
    }
  }

  /** The task and tombstone keys of the registry. */
  class RegistryStore {
    var tasks: map<string, S.TaskMeta>
    var tombstones: set<string>

    ghost function View(): S.Registry
      reads this
    {
      S.Registry(tasks, tombstones)
    }

    /** etcd's `ForceCleanupTask`, as far as tasks and tombstones go. */
    method ForceCleanupTask(name: string)
      modifies this
      ensures View() == S.CleanTask(old(View()), name)
    {
      tasks, tombstones := tasks - {name}, tombstones - {name};
    }
  }

  class Node {
    const nodeID: string
    const crc: string -> A.Word
    const parses: string -> bool
    const assigner: A.Assigner
    const registry: RegistryStore
    var allTasks: map<string, Task>
    var assignedTasks: map<string, Task>
    var deletedTasks: set<string>
    var entries: map<nat, Task>
    var lastId: nat
    var nodes: seq<A.Node>

    /** The state as a value; every method keeps it equal to what the fields say. */
    ghost var model: S.Node

    /** Objects stored under different names are different objects. */
    ghost predicate Apart()
      reads this
    {
      && (forall n, m :: n in allTasks && m in allTasks && n != m ==> allTasks[n] != allTasks[m])
      && (forall n, m :: n in assignedTasks && m in allTasks && n != m ==> assignedTasks[n] != allTasks[m])
    }

    /** A map of task objects holds these values. */
    static ghost predicate Holds(objects: map<string, Task>, values: map<string, S.Task>)
      reads objects.Values
    {
      && objects.Keys == values.Keys
      && forall n :: n in objects ==> objects[n].id == values[n].id && objects[n].meta == values[n].meta
    }

    static ghost predicate Registers(table: map<nat, Task>, values: map<nat, S.TaskMeta>) {
      table.Keys == values.Keys && forall id :: id in table ==> table[id].meta == values[id]
    }

    /** The fields hold the model; cron ids start at one. */
    ghost predicate Valid()
      reads this, allTasks.Values, assignedTasks.Values
    {
      && Apart() && assigner.Uses(crc) && 0 !in entries
      && Holds(allTasks, model.allTasks) && Holds(assignedTasks, model.assignedTasks)
      && Registers(entries, model.entries)
      && deletedTasks == model.deletedTasks && lastId == model.lastId
    }

    /** What an outsider can see after an operation answered `reply`. */
    ghost function Seen(reply: S.Reply): S.Outcome
      reads this, registry
    {
      S.Outcome(model, registry.View(), reply)
    }

    ghost function Setting(): Rebalance.Setting
      reads this`nodes
    {
      Rebalance.Setting(assigner.Kind(), crc, nodes, nodeID, parses)
    }

    constructor (nodeID: string, crc: string -> A.Word, parses: string -> bool, assigner: A.Assigner, registry: RegistryStore)
      requires assigner.Uses(crc)
      ensures Valid() && model == S.Fresh() && nodes == []
      ensures this.registry == registry && this.assigner == assigner && this.parses == parses
      ensures this.crc == crc && this.nodeID == nodeID
    {
      this.nodeID, this.crc, this.parses := nodeID, crc, parses;
      this.assigner, this.registry := assigner, registry;
      allTasks, assignedTasks, deletedTasks, entries, lastId, nodes := map[], map[], {}, map[], 0, [];
      model := S.Fresh();
    }

    /** Store a new task object under its name. */
    method Store(meta: S.TaskMeta, id: nat)
      requires Valid()
      modifies this`allTasks, this`model
      ensures Valid()
      ensures model == old(model).(allTasks := old(model).allTasks[meta.name := S.Task(id, meta)])
    {
      var t := new Task(meta, id);
      allTasks := allTasks[meta.name := t];
      model := model.(allTasks := model.allTasks[meta.name := S.Task(id, meta)]);
    }

    /** Remove a cron entry and an assigned name. */
    method Detach(id: nat, name: string)
      requires Valid()
      modifies this`entries, this`assignedTasks, this`model
      ensures Valid() && assignedTasks == old(assignedTasks) - {name}
      ensures model == old(model).(entries := old(model).entries - {id},
                                   assignedTasks := old(model).assignedTasks - {name})
    {
      entries := entries - {id};
      assignedTasks := assignedTasks - {name};
      model := model.(entries := model.entries - {id}, assignedTasks := model.assignedTasks - {name});
    }

    method SetDeleted(names: set<string>)
      requires Valid()
      modifies this`deletedTasks, this`model
      ensures Valid() && model == old(model).(deletedTasks := names)
    {
      deletedTasks := names;
      model := model.(deletedTasks := names);
    }

    /** Give the stored object of an unassigned task another id, in place. */
    method SetId(name: string, id: nat)
      requires Valid() && name in allTasks && name !in assignedTasks
      modifies this`model, allTasks[name]
      ensures Valid() && allTasks[name].id == id
      ensures model == old(model).(allTasks := old(model).allTasks[name := S.Task(id, old(model).allTasks[name].meta)])
    {
      allTasks[name].id := id;
      model := model.(allTasks := model.allTasks[name := S.Task(id, model.allTasks[name].meta)]);
    }

    /** The metadata holds the name, the format and the one-shot flag, and nothing else. */
    method AddTask(name: string, cronFormat: string, oneShot: bool) returns (reply: S.Reply)
      requires Valid()
      modifies this
      ensures Valid()
      ensures Seen(reply) == S.DoAddTask(old(model), old(registry.View()), S.BasicMeta(name, cronFormat, oneShot))
    {
      reply := AddJobLocked(S.BasicMeta(name, cronFormat, oneShot));
    }

    method AddJobLocked(meta: S.TaskMeta) returns (reply: S.Reply)
      requires Valid()
      modifies this
      ensures Valid() && (model, reply) == S.AddJob(old(model), meta)
      ensures entries == old(entries)
    {
      if meta.name in deletedTasks { return S.TaskDeleted; }
      if meta.name in allTasks { return S.TaskExisted; }
      Store(meta, 0);
      return S.Ok;
    }

    method AddTaskMeta(meta: S.TaskMeta, putOk: bool) returns (reply: S.Reply)
      requires Valid()
      modifies this, registry
      ensures Valid() && Seen(reply) == S.DoAddTaskMeta(old(model), old(registry.View()), meta, putOk)
    {
      if meta.name in deletedTasks { return S.TaskDeleted; }
      if meta.name in allTasks { return S.TaskExisted; }
      if !putOk { return S.RegistryFailed; }
      registry.tasks := registry.tasks[meta.name := meta];
      Store(meta, 0);
      return S.Ok;
    }

    /** Remove an assigned task from cron and from the assigned map. */
    method Unschedule(name: string)
      requires Valid()
      modifies this
      ensures Valid() && model == S.Unschedule(old(model), name) && name !in assignedTasks
      ensures allTasks == old(allTasks) && deletedTasks == old(deletedTasks) && lastId == old(lastId)
    {
      if name in assignedTasks {
        var t := assignedTasks[name];
        Detach(t.id, name);
      }
    }

    /** Drop an unscheduled task and its tombstone. */
    method Drop(name: string)
      requires Valid()
      modifies this
      ensures Valid()
      ensures model == old(model).(allTasks := old(model).allTasks - {name},
                                   deletedTasks := old(model).deletedTasks - {name})
      ensures name !in allTasks && name !in deletedTasks
    {
      allTasks := allTasks - {name};
      deletedTasks := deletedTasks - {name};
      model := model.(allTasks := model.allTasks - {name}, deletedTasks := model.deletedTasks - {name});
    }

    /** Drop an unscheduled task and add it anew; after the drop, adding cannot fail. */
    method Readd(meta: S.TaskMeta)
      requires Valid()
      modifies this
      ensures Valid()
      ensures model == old(model).(allTasks := old(model).allTasks[meta.name := S.Task(0, meta)],
                                   deletedTasks := old(model).deletedTasks - {meta.name})
    {
      Drop(meta.name);
      var reply := AddJobLocked(meta);
      assert model.allTasks == old(model).allTasks[meta.name := S.Task(0, meta)];
    }

    method ForceAddTask(name: string, cronFormat: string, oneShot: bool, cleanupOk: bool) returns (reply: S.Reply)
      requires Valid()
      modifies this, registry
      ensures Valid()
      ensures var meta := S.BasicMeta(name, cronFormat, oneShot);
        Seen(reply) == S.DoForceAddTask(old(model), old(registry.View()), meta, cleanupOk)
    {
      if !cleanupOk { return S.RegistryFailed; }
      registry.ForceCleanupTask(name);
      Unschedule(name);
      Readd(S.BasicMeta(name, cronFormat, oneShot));
      return S.Ok;
    }

    method ForceAddTaskMeta(meta: S.TaskMeta, cleanupOk: bool, putOk: bool) returns (reply: S.Reply)
      requires Valid()
      modifies this, registry
      ensures Valid()
      ensures Seen(reply) == S.DoForceAddTaskMeta(old(model), old(registry.View()), meta, cleanupOk, putOk)
    {
      if !cleanupOk { return S.RegistryFailed; }
      registry.ForceCleanupTask(meta.name);
      if !putOk { return S.RegistryFailed; }
      registry.tasks := registry.tasks[meta.name := meta];
      Unschedule(meta.name);
      SetDeleted(deletedTasks - {meta.name});
      Store(meta, 0);
      return S.Ok;
    }

    method ReuseDeletedTask(name: string, removeOk: bool) returns (reply: S.Reply)
      requires Valid()
      modifies this, registry
      ensures Valid() && Seen(reply) == S.DoReuse(old(model), old(registry.View()), name, removeOk)
    {
      if name !in deletedTasks { return S.NotMarked; }
      if name !in allTasks { return S.NotFound; }
      SetDeleted(deletedTasks - {name});
      if !removeOk { return S.RegistryFailed; }
      registry.tombstones := registry.tombstones - {name};
      return S.Ok;
    }

    method MarkTaskDeleted(name: string, markOk: bool) returns (reply: S.Reply)
      requires Valid()
      modifies this, registry
      ensures Valid() && Seen(reply) == S.DoMark(old(model), old(registry.View()), name, markOk)
    {
      if !markOk { return S.RegistryFailed; }
      registry.tombstones := registry.tombstones + {name};
      if name !in allTasks { return S.NotFound; }
      var t := allTasks[name];
      if name in assignedTasks { Detach(t.id, name); }
      SetDeleted(deletedTasks + {name});
      return S.Ok;
    }

    method CleanupTask(name: string, cleanupOk: bool) returns (reply: S.Reply)
      requires Valid()
      modifies this, registry
      ensures Valid() && Seen(reply) == S.DoCleanup(old(model), old(registry.View()), name, cleanupOk)
    {
      if !cleanupOk { return S.RegistryFailed; }
      registry.ForceCleanupTask(name);
      Unschedule(name);
      Drop(name);
      return S.Ok;
    }

    /** A cron firing, once the marker step has answered `canRun`: skip a task marked deleted, execute, then
        mark or clean up as the registered object's metadata says. */
    method Run(id: nat, canRun: bool, callOk: bool) returns (executed: bool, reply: S.Reply)
      requires Valid() && id in entries
      modifies this, registry
      ensures Valid()
      ensures executed <==> canRun && old(entries[id].meta.name !in deletedTasks)
      ensures !executed ==> model == old(model) && registry.View() == old(registry.View())
      ensures Seen(reply) == S.DoRun(old(model), old(registry.View()), id, canRun, callOk)
    {
      var task := entries[id];
      executed, reply := false, S.Ok;
      if task.meta.name in deletedTasks { return; }
      if !canRun { return; }
      executed := true;
      if task.meta.oneShot || task.meta.executedAndMarkDeleted {
        reply := MarkTaskDeleted(task.meta.name, callOk);
      } else if task.meta.executedAndCleanup {
        reply := CleanupTask(task.meta.name, callOk);
      }
    }

    /** Remove the cron entries of all assigned tasks. */
    method RemoveAssignedEntries()
      requires Valid()
      modifies this`entries
      ensures entries == old(entries) - (set n | n in assignedTasks :: assignedTasks[n].id)
    {
      var rest := assignedTasks.Keys;
      while rest != {}
        invariant rest <= assignedTasks.Keys
        invariant forall id :: id in entries <==>
          id in old(entries) && forall n :: n in assignedTasks && n !in rest ==> assignedTasks[n].id != id
        invariant forall id :: id in entries ==> entries[id] == old(entries)[id]
        decreases rest
      {
        var n :| n in rest;
        var t := assignedTasks[n];
        if t.id != 0 { entries := entries - {t.id}; }
        rest := rest - {n};
      }
    }

    method ForceCleanupAllTasks(cleanupOk: bool) returns (reply: S.Reply)
      requires Valid()
      modifies this, registry
      ensures Valid() && Seen(reply) == S.DoCleanupAll(old(model), old(registry.View()), cleanupOk)
    {
      if !cleanupOk { return S.RegistryFailed; }
      registry.tasks, registry.tombstones := map[], {};
      RemoveAssignedEntries();
      allTasks, assignedTasks, deletedTasks := map[], map[], {};
      model := S.DoCleanupAll(model, registry.View(), true).node;
      return S.Ok;
    }

    /** A Put event reads the id of the existing object even when there is none, and crashes then. */
    method HandlePut(meta: S.TaskMeta) returns (reply: S.Reply)
      requires Valid()
      modifies this, allTasks.Values
      ensures Valid() && Seen(reply) == S.DoPut(old(model), old(registry.View()), meta)
    {
      if meta.name !in allTasks { return S.Crashed; }
      var existing := allTasks[meta.name];
      if existing.id != 0 && existing.meta.cronFormat != meta.cronFormat {
        Detach(existing.id, meta.name);
        SetId(meta.name, 0);
      }
      Store(meta, existing.id);
      assert model.allTasks == old(model).allTasks[meta.name := model.allTasks[meta.name]];
      return S.Ok;
    }

    method HandleDelete(name: string)
      requires Valid()
      modifies this
      ensures Valid() && model == S.DeleteEvent(old(model), name)
    {
      if name in allTasks {
        var t := allTasks[name];
        allTasks := allTasks - {name};
        assignedTasks := assignedTasks - {name};
        if t.id != 0 { entries := entries - {t.id}; }
      }
      model := S.DeleteEvent(model, name);
    }

    method StoreUnknown(meta: S.TaskMeta)
      requires Valid()
      modifies this
      ensures Valid() && model == S.StoreUnknown(old(model), meta)
    {
      if meta.name !in allTasks { Store(meta, 0); }
    }

    method ReloadTasks(tasks: seq<S.TaskMeta>)
      requires Valid()
      modifies this
      ensures Valid() && model == S.MergeTasks(old(model), tasks)
    {
      for i := 0 to |tasks|
        invariant Valid() && S.MergeTasks(model, tasks[i..]) == S.MergeTasks(old(model), tasks)
      {
        assert tasks[i..][1..] == tasks[i + 1..];
        StoreUnknown(tasks[i]);
      }
    }

    method ReloadDeletedTasks(names: seq<string>)
      requires Valid()
      modifies this
      ensures Valid() && model == old(model).(deletedTasks := set n | n in names)
    {
      var reloaded := {};
      for i := 0 to |names|
        invariant reloaded == set n | n in names[..i]
      {
        assert names[..i + 1] == names[..i] + [names[i]];
        reloaded := reloaded + {names[i]};
      }
      assert names[..|names|] == names;
      SetDeleted(reloaded);
    }

    /** Enter an unassigned task into cron and the assigned map under the id it holds. */
    method Enroll(name: string)
      requires Valid() && name in allTasks && name !in assignedTasks && allTasks[name].id != 0
      modifies this`entries, this`assignedTasks, this`lastId, this`model
      ensures Valid()
      ensures var task := old(model).allTasks[name];
        model == old(model).(lastId := task.id, entries := old(model).entries[task.id := task.meta],
                             assignedTasks := old(model).assignedTasks[name := task])
    {
      var task := allTasks[name];
      lastId := task.id;
      entries := entries[task.id := task];
      assignedTasks := assignedTasks[name := task];
      model := model.(lastId := task.id, entries := model.entries[task.id := task.meta],
                      assignedTasks := model.assignedTasks[name := model.allTasks[name]]);
    }

    /** Register the task's Run with cron under the next id. */
    method Schedule(name: string)
      requires Valid() && name in allTasks && name !in assignedTasks
      modifies this`entries, this`assignedTasks, this`lastId, this`model, allTasks[name]
      ensures Valid() && model == S.Schedule(old(model), name)
    {
      SetId(name, lastId + 1);
      Enroll(name);
    }

    /** Carry out one decision of the rebalance loop, and say what it adds to the counters. */
    method Decide(name: string, shouldRun: bool) returns (step: Rebalance.Tally)
      requires Valid() && name in allTasks
      requires S.LiveIffAssigned(model, name)
      modifies this`entries, this`assignedTasks, this`lastId, this`model, allTasks[name]
      ensures Valid() && model == S.Decide(parses, old(model), name, shouldRun)
      ensures step == Rebalance.VisitTally(old(model), model, name, shouldRun)
    {
      var task := allTasks[name];
      var existed := task.id != 0 && task.id in entries;
      step := Rebalance.Tally(0, 0, 0);
      if shouldRun {
        step := Rebalance.Tally(1, 0, 0);
        if !existed && parses(task.meta.cronFormat) {
          Schedule(name);
          step := Rebalance.Tally(1, 1, 0);
        }
      } else {
        if existed {
          Detach(task.id, name);
          step := Rebalance.Tally(0, 0, 1);
        }
      }
    }

    /** The assigner's answer for the next live name. */
    method Ask(name: string, ghost live: set<string>) returns (v: A.Verdict)
      requires assigner.Uses(crc) && nodes != [] && assigner.Ready(nodes, Rebalance.Rank(live, name))
      modifies assigner.Repr()
      ensures assigner.Ready(nodes, Rebalance.Rank(live, name) + 1)
      ensures v == A.Yes <==> Rebalance.Owns(Setting(), live, name)
      ensures v == A.Panic <==> A.Divides(assigner.Kind(), nodes)
      ensures unchanged(this) && unchanged(allTasks.Values) && unchanged(assignedTasks.Values)
    {
      v := assigner.ShouldRun(name, nodeID, crc, nodes, Rebalance.Rank(live, name));
      A.DividesAlways(assigner.Kind(), crc, nodes, Rebalance.Rank(live, name), name);
    }

    /** The answer for the i-th name; only live names are put to the assigner. */
    method Consult(ghost s0: S.Node, names: seq<string>, i: nat) returns (v: A.Verdict)
      requires names == Rebalance.Names(s0) && nodes != [] && i < |names| && assigner.Uses(crc)
      requires deletedTasks == s0.deletedTasks
      requires assigner.Ready(nodes, |Rebalance.Earlier(Rebalance.Live(s0), s0, i)|)
      modifies assigner.Repr()
      ensures v == A.Panic <==> names[i] in Rebalance.Live(s0) && A.Divides(assigner.Kind(), nodes)
      ensures v == A.Yes <==> names[i] in Rebalance.OwnedSet(Setting(), s0)
      ensures assigner.Ready(nodes, |Rebalance.Earlier(Rebalance.Live(s0), s0, i + 1)|)
      ensures unchanged(this) && unchanged(allTasks.Values) && unchanged(assignedTasks.Values)
    {
      Rebalance.RankInList(Rebalance.Live(s0), s0, i);
      Rebalance.EarlierGrows(Rebalance.Live(s0), s0, i);
      v := A.No;
      if names[i] !in deletedTasks { v := Ask(names[i], Rebalance.Live(s0)); }
    }

    /** Assigners are objects of their own kind. */
    lemma AssignerApart()
      ensures this !in assigner.Repr()
      ensures forall n :: n in allTasks ==> allTasks[n] !in assigner.Repr()
    {
    }

    /** A decision leaves the assigner as it is. */
    method Act(name: string, shouldRun: bool, ghost asked: nat) returns (step: Rebalance.Tally)
      requires Valid() && name in allTasks && assigner.Ready(nodes, asked)
      requires S.LiveIffAssigned(model, name)
      modifies this`entries, this`assignedTasks, this`lastId, this`model, allTasks[name]
      ensures Valid() && model == S.Decide(parses, old(model), name, shouldRun)
      ensures step == Rebalance.VisitTally(old(model), model, name, shouldRun)
      ensures assigner.Ready(nodes, asked) && allTasks == old(allTasks) && nodes == old(nodes)
    {
      AssignerApart();
      step := Decide(name, shouldRun);
    }

    /** One pass of the loop: consult the assigner, then decide. */
    method Round(ghost s0: S.Node, names: seq<string>, i: nat) returns (ok: bool, step: Rebalance.Tally)
      requires Valid() && nodes != [] && names == Rebalance.Names(s0) && i < |names| && names[i] in allTasks
      requires deletedTasks == s0.deletedTasks && S.LiveIffAssigned(model, names[i])
      requires assigner.Ready(nodes, |Rebalance.Earlier(Rebalance.Live(s0), s0, i)|)
      modifies this`entries, this`assignedTasks, this`lastId, this`model, allTasks[names[i]], assigner.Repr()
      ensures allTasks == old(allTasks) && nodes == old(nodes) && (ok ==> Valid())
      ensures ok <==> !(names[i] in Rebalance.Live(s0) && A.Divides(assigner.Kind(), nodes))
      ensures var shouldRun := names[i] in Rebalance.OwnedSet(Setting(), s0);
        ok ==> model == S.Decide(parses, old(model), names[i], shouldRun)
               && step == Rebalance.VisitTally(old(model), model, names[i], shouldRun)
      ensures ok ==> assigner.Ready(nodes, |Rebalance.Earlier(Rebalance.Live(s0), s0, i + 1)|)
    {
      var v := Consult(s0, names, i);
      if v == A.Panic { return false, Rebalance.Tally(0, 0, 0); }
      step := Act(names[i], v == A.Yes, |Rebalance.Earlier(Rebalance.Live(s0), s0, i + 1)|);
      return true, step;
    }

    /** A pass that does not panic moves the loop on by one name. */
    method Pass(ghost c: Rebalance.Setting, ghost s0: S.Node, names: seq<string>, i: nat, tally: Rebalance.Tally)
      returns (ok: bool, tally': Rebalance.Tally)
      requires Valid() && c == Setting() && nodes != []
      requires names == Rebalance.Names(s0) && i < |names|
      requires Rebalance.At(c, s0, i, model, tally)
      requires assigner.Ready(nodes, |Rebalance.Earlier(Rebalance.Live(s0), s0, i)|)
      modifies this`entries, this`assignedTasks, this`lastId, this`model, allTasks.Values, assigner.Repr()
      ensures allTasks == old(allTasks) && nodes == old(nodes) && (ok ==> Valid())
      ensures ok <==> !(names[i] in Rebalance.Live(s0) && A.Divides(assigner.Kind(), nodes))
      ensures ok ==> Rebalance.At(c, s0, i + 1, model, tally')
      ensures ok ==> assigner.Ready(nodes, |Rebalance.Earlier(Rebalance.Live(s0), s0, i + 1)|)
    {
      Rebalance.AtStep(c, s0, i, model, tally);
      var step;
      ok, step := Round(s0, names, i);
      tally' := Rebalance.Plus(tally, step);
    }

    method Prepare()
      requires nodes != []
      modifies assigner.Repr()
      ensures assigner.Ready(nodes, 0)
      ensures unchanged(this) && unchanged(allTasks.Values) && unchanged(assignedTasks.Values)
    {
      assigner.UpdateNodes(nodes);
    }

    /** Rebalance: reach the state `Rebalance.After` describes, and count what moved. It panics exactly
        when there is a live task to ask about and the strategy divides by zero on the node list. */
    method DoRebalanced() returns (ok: bool, tally: Rebalance.Tally)
      requires Valid() && S.Inv(parses, model)
      modifies this`entries, this`assignedTasks, this`lastId, this`model, allTasks.Values, assigner.Repr()
      ensures ok ==> Valid()
      ensures ok <==> nodes == [] || Rebalance.Live(old(model)) == {} || !A.Divides(assigner.Kind(), nodes)
      ensures ok ==> model == Rebalance.After(Setting(), old(model))
      ensures nodes == [] ==> model == old(model)
      ensures ok && nodes != [] ==> tally.counter == |Rebalance.OwnedSet(Setting(), old(model))|
      ensures ok && nodes != [] ==> Rebalance.Moved(old(model), model, tally.added, tally.removed)
    {
      ok, tally := true, Rebalance.Tally(0, 0, 0);
      if |nodes| == 0 { return; }
      ghost var s0, live, c := model, Rebalance.Live(model), Setting();
      var names := SortNames(allTasks.Keys);
      Rebalance.EarlierAll(live, s0);
      Rebalance.AtStart(c, s0);
      Prepare();
      for i := 0 to |names|
        invariant Valid() && allTasks == old(allTasks) && nodes == old(nodes) && c == Setting()
        invariant Rebalance.At(c, s0, i, model, tally)
        invariant assigner.Ready(nodes, |Rebalance.Earlier(live, s0, i)|)
        invariant A.Divides(assigner.Kind(), nodes) ==> Rebalance.Earlier(live, s0, i) == {}
      {
        Rebalance.EarlierGrows(live, s0, i);
        ok, tally := Pass(c, s0, names, i, tally);
        if !ok { return; }
      }
      Rebalance.AtEnd(c, s0, model, tally);
    }

    /** Take over the registry's working nodes, sorted by id, if the checksum of the joined ids changed.
        A failed listing changes nothing. */
    method ReloadNodes(listing: seq<A.Node>, listOk: bool) returns (changed: bool, ghost sorted: seq<A.Node>)
      requires Valid()
      modifies this`nodes
      ensures Valid()
      ensures A.SortedIds(sorted) && multiset(sorted) == multiset(listing)
      ensures changed <==> listOk && NodeView.Changed(crc, old(nodes), sorted)
      ensures nodes == if changed then sorted else old(nodes)
    {
      var view := NodeView.SortById(listing);
      sorted := view;
      if !listOk { return false, view; }
      var newIds := NodeView.CollectIds(view);
      var oldIds := NodeView.CollectIds(nodes);
      changed := crc(NodeView.Join(newIds)) != crc(NodeView.Join(oldIds));
      if changed { nodes := view; }
    }
  }
}
