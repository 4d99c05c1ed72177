/** Firings inside the marker protocol: a cluster of schedulers whose firings ask etcd for their markers, and whose
    operations and firings touch etcd's keys. */
module Firings {
  import E = EtcdMarkers
  import S = Scheduler
  import T = Tombstones
  import K = RegistryKeys
  import PathKeys
  import Lock = MarkerLock

  /** The nodes and their registry, the markers, and the executions that took place. */
  datatype Joint = Joint(cluster: T.Cluster, markers: E.State, ran: seq<Lock.Execution>)

  /** The protocol's own moves are clocks, samples, cleaners and lost answers; the registry is touched by operations and
      firings alone. */
  datatype Move =
    | Protocol(step: E.Action)
    | Operation(node: string, act: S.Action)
    | Firing(node: string, id: nat, attempt: Lock.Attempt, callOk: bool)

  /** What an operation does to etcd's keys, when it gets as far as the registry. */
  ghost function OperationSteps(s: S.Node, act: S.Action): seq<E.Action> {
    match act
    case AddTaskMeta(meta, putOk) =>
      if meta.name !in s.deletedTasks && meta.name !in s.allTasks && putOk then [E.PutTask(meta.name)] else []
    case ForceAddTask(meta, cleanupOk) => if cleanupOk then [E.ForceCleanupTask(meta.name)] else []
    case ForceAddTaskMeta(meta, cleanupOk, putOk) =>
      if !cleanupOk then [] else [E.ForceCleanupTask(meta.name)] + if putOk then [E.PutTask(meta.name)] else []
    case ReuseDeletedTask(name, removeOk) =>
      if name in s.deletedTasks && name in s.allTasks && removeOk then [E.RemoveTaskDeleted(name)] else []
    case MarkTaskDeleted(name, markOk) => if markOk then [E.MarkTaskDeleted(name)] else []
    case CleanupTask(name, cleanupOk) => if cleanupOk then [E.ForceCleanupTask(name)] else []
    case ForceCleanupAllTasks(cleanupOk) => if cleanupOk then [E.ForceCleanupAllTasks] else []
    case _ => []
  }

  /** What follows an execution does to etcd's keys. */
  ghost function FollowUp(meta: S.TaskMeta, callOk: bool): seq<E.Action> {
    if !callOk then []
    else if meta.oneShot || meta.executedAndMarkDeleted then [E.MarkTaskDeleted(meta.name)]
    else if meta.executedAndCleanup then [E.ForceCleanupTask(meta.name)]
    else []
  }

  /** The answer of `CanRunTask`: the slot's key is not there. */
  ghost predicate Granted(ec: E.Cluster, s: E.State, t: Lock.Attempt) {
    E.FromCluster(ec, t) && E.KeyOf(t) !in s.keys
  }

  /** A firing that has sampled its clock: a task marked deleted ends it before the marker; else it asks for the marker,
      and what follows depends on the answer. */
  ghost function FiringSteps(ec: E.Cluster, j: Joint, m: Move): seq<E.Action>
    requires m.Firing? && m.node in j.cluster.nodes && m.id in j.cluster.nodes[m.node].entries
  {
    var s := j.cluster.nodes[m.node];
    if s.entries[m.id].name in s.deletedTasks then [E.Abandon(m.attempt)]
    else [E.CanRunTask(m.attempt)] + if Granted(ec, j.markers, m.attempt) then FollowUp(s.entries[m.id], m.callOk) else []
  }

  /** The firing as the cluster of schedulers sees it: its marker answer is the protocol's. */
  ghost function Fired(ec: E.Cluster, j: Joint, m: Move): T.Event
    requires m.Firing?
  {
    T.Fire(m.node, m.id, Granted(ec, j.markers, m.attempt), m.callOk)
  }

  ghost predicate Step(parses: string -> bool, ec: E.Cluster, j: Joint, m: Move, j': Joint) {
    match m
    case Protocol(a) =>
      && !a.CanRunTask? && !K.RegistryStep(a) && E.Enabled(ec, j.markers, a)
      && j' == j.(markers := E.Apply(ec, j.markers, a))
    case Operation(node, act) =>
      && T.Step(parses, j.cluster, T.Local(node, act), j'.cluster) && j'.ran == j.ran
      && E.Runs(ec, j.markers, OperationSteps(j.cluster.nodes[node], act), j'.markers)
    case Firing(node, id, t, _) =>
      && node in j.cluster.nodes && id in j.cluster.nodes[node].entries
      && t.node == node && t.task == j.cluster.nodes[node].entries[id].name
      && T.Step(parses, j.cluster, Fired(ec, j, m), j'.cluster)
      && E.Runs(ec, j.markers, FiringSteps(ec, j, m), j'.markers)
      && j'.ran == j.ran + if T.Executed(j.cluster, Fired(ec, j, m), t.task) then [Lock.Execution(node, Lock.SlotOf(t))] else []
  }

  ghost predicate Run(parses: string -> bool, ec: E.Cluster, js: seq<Joint>, ms: seq<Move>) {
    && |js| == |ms| + 1 && E.Init(js[0].markers) && js[0].ran == []
    && forall i :: 0 <= i < |ms| ==> Step(parses, ec, js[i], ms[i], js[i + 1])
  }

  // ---------- the executions are the log ----------

  lemma {:induction false} OthersKeepLog(ec: E.Cluster, s: E.State, acts: seq<E.Action>, end: E.State)
    requires E.Runs(ec, s, acts, end) && forall i :: 0 <= i < |acts| ==> !acts[i].CanRunTask?
    ensures end.log == s.log
    decreases |acts|
  {
    if acts != [] { OthersKeepLog(ec, E.Apply(ec, s, acts[0]), acts[1..], end); }
  }

  /** The protocol logs a firing exactly when its task is not marked deleted and the slot was free. */
  lemma FiringLogs(parses: string -> bool, ec: E.Cluster, j: Joint, m: Move, j': Joint)
    requires m.Firing? && Step(parses, ec, j, m, j')
    ensures j'.markers.log == j.markers.log
      + if m.attempt.task !in j.cluster.nodes[m.node].deletedTasks && Granted(ec, j.markers, m.attempt)
        then [Lock.Execution(m.node, Lock.SlotOf(m.attempt))] else []
  {
    var acts := FiringSteps(ec, j, m);
    var next := E.Apply(ec, j.markers, acts[0]);
    assert E.Runs(ec, next, acts[1..], j'.markers);
    OthersKeepLog(ec, next, acts[1..], j'.markers);
  }

  /** A firing executes exactly when its task is not marked deleted and the protocol grants the marker; otherwise the
      cluster stays as it is. */
  lemma FiringExecutesExactly(parses: string -> bool, ec: E.Cluster, j: Joint, m: Move, j': Joint)
    requires m.Firing? && Step(parses, ec, j, m, j')
    ensures var runs := m.attempt.task !in j.cluster.nodes[m.node].deletedTasks && Granted(ec, j.markers, m.attempt);
      && j'.ran == j.ran + (if runs then [Lock.Execution(m.node, Lock.SlotOf(m.attempt))] else [])
      && (!runs ==> j'.cluster == j.cluster)
  {
    assert j.cluster.nodes[m.node := j.cluster.nodes[m.node]] == j.cluster.nodes;
  }

  lemma StepKeepsLog(parses: string -> bool, ec: E.Cluster, j: Joint, m: Move, j': Joint)
    requires Step(parses, ec, j, m, j') && j.ran == j.markers.log
    ensures j'.ran == j'.markers.log
  {
    match m
    case Protocol(a) =>
    case Operation(node, act) =>
      OthersKeepLog(ec, j.markers, OperationSteps(j.cluster.nodes[node], act), j'.markers);
    case Firing(_, _, _, _) =>
      FiringLogs(parses, ec, j, m, j');
      FiringExecutesExactly(parses, ec, j, m, j');
  }

  /** In every run the executions that took place are exactly those the protocol granted. */
  lemma {:induction false} ExecutionsAreLog(parses: string -> bool, ec: E.Cluster, js: seq<Joint>, ms: seq<Move>, i: nat)
    requires Run(parses, ec, js, ms) && i <= |ms|
    ensures js[i].ran == js[i].markers.log
  {
    if i > 0 {
      ExecutionsAreLog(parses, ec, js, ms, i - 1);
      StepKeepsLog(parses, ec, js[i - 1], ms[i - 1], js[i]);
    }
  }

  // ---------- registry and keys ----------

  /** Nobody uses a name that `path.Join` would change. */
  ghost predicate PlainMove(m: Move) {
    match m
    case Protocol(_) => true
    case Operation(_, act) => forall n :: n in S.Subject(act) ==> PathKeys.PlainName(n)
    case Firing(_, _, t, _) => PathKeys.PlainName(t.task)
  }

  /** An addition changes etcd's keys as it changes the registry. */
  lemma AdditionKeys(parses: string -> bool, s: S.Node, r: S.Registry, act: S.Action, keys: set<string>)
    requires K.Agree(keys, r) && S.Adds(act) && PathKeys.PlainName(act.meta.name)
    ensures K.Agree(K.KeysAfter(keys, OperationSteps(s, act)), S.Do(parses, s, r, act).registry)
  {
    var name := act.meta.name;
    var cleaned := K.KeysAfterOne(keys, E.ForceCleanupTask(name));
    K.AfterOneStep(keys, E.PutTask(name));
    K.AfterOneStep(keys, E.ForceCleanupTask(name));
    K.AfterTwoSteps(keys, E.ForceCleanupTask(name), E.PutTask(name));
    K.PutAgrees(keys, r, act.meta);
    K.CleanAgrees(keys, r, name);
    K.PutAgrees(cleaned, S.CleanTask(r, name), act.meta);
  }

  lemma OtherKeys(parses: string -> bool, s: S.Node, r: S.Registry, act: S.Action, keys: set<string>)
    requires K.Agree(keys, r) && !S.Adds(act) && forall n :: n in S.Subject(act) ==> PathKeys.PlainName(n)
    ensures K.Agree(K.KeysAfter(keys, OperationSteps(s, act)), S.Do(parses, s, r, act).registry)
  {
    var acts := OperationSteps(s, act);
    if acts != [] { K.AfterOneStep(keys, acts[0]); }
    match act
    case ReuseDeletedTask(name, _) => K.ReuseAgrees(keys, r, name);
    case MarkTaskDeleted(name, _) => K.MarkAgrees(keys, r, name);
    case CleanupTask(name, _) => K.CleanAgrees(keys, r, name);
    case ForceCleanupAllTasks(_) => K.WipeAgrees(keys);
    case _ =>
  }

  /** An operation changes etcd's keys as it changes the registry. */
  lemma OperationKeys(parses: string -> bool, s: S.Node, r: S.Registry, act: S.Action, keys: set<string>)
    requires K.Agree(keys, r) && forall n :: n in S.Subject(act) ==> PathKeys.PlainName(n)
    ensures K.Agree(K.KeysAfter(keys, OperationSteps(s, act)), S.Do(parses, s, r, act).registry)
  {
    if S.Adds(act) {
      assert act.meta.name in S.Subject(act);
      AdditionKeys(parses, s, r, act, keys);
    } else {
      OtherKeys(parses, s, r, act, keys);
    }
  }

  lemma FollowUpKeys(s: S.Node, r: S.Registry, meta: S.TaskMeta, callOk: bool, keys: set<string>)
    requires K.Agree(keys, r) && PathKeys.PlainName(meta.name)
    ensures K.Agree(K.KeysAfter(keys, FollowUp(meta, callOk)), S.AfterExecution(s, r, meta, callOk).registry)
  {
    K.MarkAgrees(keys, r, meta.name);
    K.CleanAgrees(keys, r, meta.name);
    K.AfterOneStep(keys, E.MarkTaskDeleted(meta.name));
    K.AfterOneStep(keys, E.ForceCleanupTask(meta.name));
  }

  lemma FiringKeys(parses: string -> bool, ec: E.Cluster, j: Joint, m: Move, j': Joint)
    requires m.Firing? && Step(parses, ec, j, m, j') && PlainMove(m) && K.Agree(j.markers.keys, j.cluster.registry)
    ensures K.Agree(j'.markers.keys, j'.cluster.registry)
  {
    var s, r := j.cluster.nodes[m.node], j.cluster.registry;
    var acts := FiringSteps(ec, j, m);
    var next := E.Apply(ec, j.markers, acts[0]);
    K.ProtocolAgrees(ec, j.markers, acts[0], r);
    assert E.Runs(ec, next, acts[1..], j'.markers);
    K.RunChangesKeys(ec, next, acts[1..], j'.markers);
    FollowUpKeys(s, r, s.entries[m.id], m.callOk, next.keys);
    if m.attempt.task !in s.deletedTasks && Granted(ec, j.markers, m.attempt) {
      assert acts[1..] == FollowUp(s.entries[m.id], m.callOk);
    } else {
      assert acts[1..] == [];
    }
  }

  lemma StepKeepsKeys(parses: string -> bool, ec: E.Cluster, j: Joint, m: Move, j': Joint)
    requires Step(parses, ec, j, m, j') && PlainMove(m) && K.Agree(j.markers.keys, j.cluster.registry)
    ensures K.Agree(j'.markers.keys, j'.cluster.registry)
  {
    match m
    case Protocol(a) => K.ProtocolAgrees(ec, j.markers, a, j.cluster.registry);
    case Operation(node, act) =>
      var s := j.cluster.nodes[node];
      K.RunChangesKeys(ec, j.markers, OperationSteps(s, act), j'.markers);
      OperationKeys(parses, s, j.cluster.registry, act, j.markers.keys);
    case Firing(_, _, _, _) => FiringKeys(parses, ec, j, m, j');
  }

  /** In every run over plain names, whatever is cleaned, marked, expired or swept, etcd holds the task key and the
      tombstone key of a name exactly when the registry that the schedulers see says so. */
  lemma {:induction false} RegistryIsInEtcd(parses: string -> bool, ec: E.Cluster, js: seq<Joint>, ms: seq<Move>, i: nat)
    requires Run(parses, ec, js, ms) && i <= |ms| && js[0].cluster.registry == S.Registry(map[], {})
    requires forall k :: 0 <= k < |ms| ==> PlainMove(ms[k])
    ensures K.Agree(js[i].markers.keys, js[i].cluster.registry)
  {
    if i > 0 {
      RegistryIsInEtcd(parses, ec, js, ms, i - 1);
      StepKeepsKeys(parses, ec, js[i - 1], ms[i - 1], js[i]);
    }
  }

  // ---------- at most once ----------

  lemma {:induction false} RunsCompose(ec: E.Cluster, s: E.State, first: seq<E.Action>, mid: E.State, second: seq<E.Action>, end: E.State)
    requires E.Runs(ec, s, first, mid) && E.Runs(ec, mid, second, end)
    ensures E.Runs(ec, s, first + second, end)
    decreases |first|
  {
    if first == [] {
      assert first + second == second;
    } else {
      RunsCompose(ec, E.Apply(ec, s, first[0]), first[1..], mid, second, end);
      assert (first + second)[1..] == first[1..] + second;
    }
  }

  /** Every move is a run of the protocol. */
  lemma MoveIsProtocol(parses: string -> bool, ec: E.Cluster, j: Joint, m: Move, j': Joint) returns (acts: seq<E.Action>)
    requires Step(parses, ec, j, m, j')
    ensures E.Runs(ec, j.markers, acts, j'.markers)
  {
    match m
    case Protocol(a) =>
      acts := [a];
      assert acts[1..] == [];
    case Operation(node, act) => acts := OperationSteps(j.cluster.nodes[node], act);
    case Firing(_, _, _, _) => acts := FiringSteps(ec, j, m);
  }

  lemma {:induction false} RunIsProtocol(parses: string -> bool, ec: E.Cluster, js: seq<Joint>, ms: seq<Move>, i: nat)
    returns (acts: seq<E.Action>)
    requires Run(parses, ec, js, ms) && i <= |ms|
    ensures E.Runs(ec, js[0].markers, acts, js[i].markers)
  {
    if i == 0 {
      acts := [];
    } else {
      var before := RunIsProtocol(parses, ec, js, ms, i - 1);
      var last := MoveIsProtocol(parses, ec, js[i - 1], ms[i - 1], js[i]);
      RunsCompose(ec, js[0].markers, before, js[i - 1].markers, last, js[i].markers);
      acts := before + last;
    }
  }

  /** In every run of schedulers and markers together, no task is executed twice in one second, by whichever nodes. */
  lemma FiringsAtMostOnce(parses: string -> bool, ec: E.Cluster, js: seq<Joint>, ms: seq<Move>, i: nat)
    requires Run(parses, ec, js, ms) && i <= |ms| && Lock.Bounded(ec.timing) && E.Undisturbed(ec)
    ensures Lock.AtMostOnce(js[i].ran)
  {
    ExecutionsAreLog(parses, ec, js, ms, i);
    var acts := RunIsProtocol(parses, ec, js, ms, i);
    E.EtcdAtMostOnce(ec, js[0].markers, acts, js[i].markers);
  }
}
