/** Whole runs of a cluster: a task that was executed and marked deleted stays quiet until revived. */
module Tombstones {
  import opened Scheduler

  /** The nodes by id, and the registry they share. */
  datatype Cluster = Cluster(nodes: map<string, Node>, registry: Registry)

  datatype Event =
    | Local(node: string, act: Action)
    | Fire(node: string, id: nat, canRun: bool, callOk: bool)

  /** What one event does at the node it happens on. */
  ghost function Result(parses: string -> bool, c: Cluster, e: Event): Outcome
    requires e.node in c.nodes
  {
    match e
    case Local(n, act) => Do(parses, c.nodes[n], c.registry, act)
    case Fire(n, id, canRun, callOk) => DoRun(c.nodes[n], c.registry, id, canRun, callOk)
  }

  ghost predicate Step(parses: string -> bool, c: Cluster, e: Event, c': Cluster) {
    && e.node in c.nodes
    && var o := Result(parses, c, e);
      c' == Cluster(c.nodes[e.node := o.node], o.registry)
  }

  /** A run: any interleaving of any operations on any nodes, with any registry answers. */
  ghost predicate Run(parses: string -> bool, cs: seq<Cluster>, es: seq<Event>) {
    && |cs| == |es| + 1
    && (forall n :: n in cs[0].nodes ==> Inv(parses, cs[0].nodes[n]))
    && forall i :: 0 <= i < |es| ==> Step(parses, cs[i], es[i], cs[i + 1])
  }

  /** The event executes the task `name`. */
  ghost predicate Executed(c: Cluster, e: Event, name: string) {
    && e.Fire? && e.node in c.nodes
    && Executes(c.nodes[e.node], e.id, e.canRun) && c.nodes[e.node].entries[e.id].name == name
  }

  /** The event executes `name` and then marks it deleted. */
  ghost predicate ExecutedAndMarked(c: Cluster, e: Event, name: string) {
    && Executed(c, e, name) && e.callOk
    && var meta := c.nodes[e.node].entries[e.id];
      meta.oneShot || meta.executedAndMarkDeleted
  }

  /** The event takes the name's tombstone out of the registry. */
  ghost predicate Untombs(c: Cluster, e: Event, name: string)
    requires e.node in c.nodes
  {
    var s := c.nodes[e.node];
    match e
    case Fire(_, id, _, callOk) =>
      && Executed(c, e, name) && callOk && s.entries[id].executedAndCleanup
      && !s.entries[id].oneShot && !s.entries[id].executedAndMarkDeleted
    case Local(_, act) =>
      match act
      case ReuseDeletedTask(m, removeOk) => m == name && removeOk && m in s.deletedTasks && m in s.allTasks
      case ForceAddTask(meta, cleanupOk) => meta.name == name && cleanupOk
      case ForceAddTaskMeta(meta, cleanupOk, _) => meta.name == name && cleanupOk
      case CleanupTask(m, cleanupOk) => m == name && cleanupOk
      case ForceCleanupAllTasks(cleanupOk) => cleanupOk
      case _ => false
  }

  /** The event takes the name out of the tombstones node `n` holds locally. */
  ghost predicate Unblocks(c: Cluster, e: Event, n: string, name: string)
    requires e.node in c.nodes
  {
    e.node == n && e.Local? &&
    match e.act
    case ReuseDeletedTask(m, _) => m == name && m in c.nodes[n].deletedTasks && m in c.nodes[n].allTasks
    case ForceAddTask(meta, cleanupOk) => meta.name == name && cleanupOk
    case ForceAddTaskMeta(meta, cleanupOk, putOk) => meta.name == name && cleanupOk && putOk
    case CleanupTask(m, cleanupOk) => m == name && cleanupOk
    case ForceCleanupAllTasks(cleanupOk) => cleanupOk
    case ReloadDeletedTasks(names) => name !in names
    case _ => false
  }

  ghost predicate Tombed(c: Cluster, name: string) {
    name in c.registry.tombstones
  }

  ghost predicate Blocked(c: Cluster, n: string, name: string) {
    n in c.nodes && name in c.nodes[n].deletedTasks
  }

  /** A registry tombstone is lost in exactly these ways. */
  lemma TombLostExactly(parses: string -> bool, c: Cluster, e: Event, c': Cluster, name: string)
    requires Step(parses, c, e, c') && Tombed(c, name)
    ensures Tombed(c', name) <==> !Untombs(c, e, name)
  {
  }

  lemma ActionUnblocksExactly(parses: string -> bool, c: Cluster, n: string, act: Action, name: string)
    requires n in c.nodes && name in c.nodes[n].deletedTasks
    ensures name in Do(parses, c.nodes[n], c.registry, act).node.deletedTasks <==> !Unblocks(c, Local(n, act), n, name)
  {
    if act.ReloadTasks? { MergeOnlyAdds(c.nodes[n], act.tasks); }
  }

  lemma FiringKeepsBlock(s: Node, r: Registry, id: nat, canRun: bool, callOk: bool, name: string)
    requires name in s.deletedTasks
    ensures name in DoRun(s, r, id, canRun, callOk).node.deletedTasks
  {
  }

  /** A local tombstone is lost in exactly these ways; in particular a firing never removes one. */
  lemma BlockLostExactly(parses: string -> bool, c: Cluster, e: Event, c': Cluster, n: string, name: string)
    requires Step(parses, c, e, c') && Blocked(c, n, name)
    ensures Blocked(c', n, name) <==> !Unblocks(c, e, n, name)
  {
    if e.node == n {
      match e
      case Local(_, act) => ActionUnblocksExactly(parses, c, n, act, name);
      case Fire(_, id, canRun, callOk) => FiringKeepsBlock(c.nodes[n], c.registry, id, canRun, callOk, name);
    }
  }

  lemma StepKeepsInv(parses: string -> bool, c: Cluster, e: Event, c': Cluster)
    requires Step(parses, c, e, c') && forall n :: n in c.nodes ==> Inv(parses, c.nodes[n])
    ensures forall n :: n in c'.nodes ==> Inv(parses, c'.nodes[n])
  {
    match e
    case Local(n, act) => DoKeepsInv(parses, c.nodes[n], c.registry, act);
    case Fire(n, id, canRun, callOk) => RunKeepsInv(parses, c.nodes[n], c.registry, id, canRun, callOk);
  }

  /** In every run every node keeps the scheduler invariant. */
  lemma {:induction false} RunKeepsClusterInv(parses: string -> bool, cs: seq<Cluster>, es: seq<Event>, i: nat)
    requires Run(parses, cs, es) && i <= |es|
    ensures forall n :: n in cs[i].nodes ==> Inv(parses, cs[i].nodes[n])
  {
    if i > 0 {
      RunKeepsClusterInv(parses, cs, es, i - 1);
      StepKeepsInv(parses, cs[i - 1], es[i - 1], cs[i]);
    }
  }

  /** An execution that marks puts the name among both sets of tombstones. */
  lemma MarkingBlocks(parses: string -> bool, c: Cluster, e: Event, c': Cluster, name: string)
    requires Step(parses, c, e, c') && ExecutedAndMarked(c, e, name) && Inv(parses, c.nodes[e.node])
    ensures Tombed(c', name) && Blocked(c', e.node, name)
  {
    assert EntryOk(c.nodes[e.node], e.id);
  }

  /** In the run, after position i and before position k, somebody takes the tombstone out of the registry. */
  ghost predicate UntombedBetween(cs: seq<Cluster>, es: seq<Event>, i: nat, k: nat, name: string)
    requires k <= |es| < |cs|
  {
    exists j :: i <= j < k && es[j].node in cs[j].nodes && Untombs(cs[j], es[j], name)
  }

  ghost predicate UnblockedBetween(cs: seq<Cluster>, es: seq<Event>, i: nat, k: nat, n: string, name: string)
    requires k <= |es| < |cs|
  {
    exists j :: i <= j < k && es[j].node in cs[j].nodes && Unblocks(cs[j], es[j], n, name)
  }

  lemma {:induction false} TombedUntil(parses: string -> bool, cs: seq<Cluster>, es: seq<Event>, i: nat, k: nat, name: string)
    requires Run(parses, cs, es) && i <= k <= |es| && Tombed(cs[i], name)
    ensures Tombed(cs[k], name) || UntombedBetween(cs, es, i, k, name)
    decreases k - i
  {
    if i < k {
      TombedUntil(parses, cs, es, i, k - 1, name);
      if Tombed(cs[k - 1], name) { TombLostExactly(parses, cs[k - 1], es[k - 1], cs[k], name); }
    }
  }

  lemma {:induction false} BlockedUntil(
      parses: string -> bool, cs: seq<Cluster>, es: seq<Event>, i: nat, k: nat, n: string, name: string)
    requires Run(parses, cs, es) && i <= k <= |es| && Blocked(cs[i], n, name)
    ensures Blocked(cs[k], n, name) || UnblockedBetween(cs, es, i, k, n, name)
    decreases k - i
  {
    if i < k {
      BlockedUntil(parses, cs, es, i, k - 1, n, name);
      if Blocked(cs[k - 1], n, name) { BlockLostExactly(parses, cs[k - 1], es[k - 1], cs[k], n, name); }
    }
  }

  /** Whatever the registry answers and however stale its reads are: the node that executed and marked the
      task executes it again only after one of its own steps took the local tombstone away. */
  lemma OwnNodeNeverAgain(parses: string -> bool, cs: seq<Cluster>, es: seq<Event>, i: nat, k: nat, name: string)
    requires Run(parses, cs, es) && i < k < |es|
    requires ExecutedAndMarked(cs[i], es[i], name) && Executed(cs[k], es[k], name) && es[k].node == es[i].node
    ensures UnblockedBetween(cs, es, i + 1, k, es[k].node, name)
  {
    RunKeepsClusterInv(parses, cs, es, i);
    MarkingBlocks(parses, cs[i], es[i], cs[i + 1], name);
    BlockedUntil(parses, cs, es, i + 1, k, es[i].node, name);
  }

  /** Every reload of tombstones succeeds and reads what the registry holds at that step. */
  ghost predicate FreshReads(cs: seq<Cluster>, es: seq<Event>)
    requires |es| < |cs|
  {
    forall j :: 0 <= j < |es| ==> ReadsFresh(cs[j], es[j])
  }

  ghost predicate ReadsFresh(c: Cluster, e: Event) {
    e.Local? && e.act.ReloadDeletedTasks? ==> e.act.names == c.registry.tombstones
  }

  ghost predicate Reloads(e: Event, n: string) {
    e.Local? && e.node == n && e.act.ReloadDeletedTasks?
  }

  /** A revival: a reuse, force-add or cleanup of the name that takes a tombstone away, in the registry or
      at the node itself. Reloads are not revivals. */
  ghost predicate Revives(c: Cluster, e: Event, name: string) {
    && e.node in c.nodes
    && (Untombs(c, e, name) || (Unblocks(c, e, e.node, name) && !Reloads(e, e.node)))
  }

  ghost predicate RevivedBetween(cs: seq<Cluster>, es: seq<Event>, i: nat, k: nat, name: string)
    requires k <= |es| < |cs|
  {
    exists j :: i <= j < k && Revives(cs[j], es[j], name)
  }

  /** With fresh reads a name that is marked in the registry and at a node comes back only by a revival. */
  lemma QuietUntilRevived(
      parses: string -> bool, cs: seq<Cluster>, es: seq<Event>, i: nat, k: nat, n: string, name: string)
    requires Run(parses, cs, es) && FreshReads(cs, es) && i <= k < |es|
    requires Tombed(cs[i], name) && Blocked(cs[i], n, name)
    requires Executed(cs[k], es[k], name) && es[k].node == n
    ensures RevivedBetween(cs, es, i, k, name)
  {
    BlockedUntil(parses, cs, es, i, k, n, name);
    var j :| i <= j < k && es[j].node in cs[j].nodes && Unblocks(cs[j], es[j], n, name);
    if Reloads(es[j], n) {
      assert ReadsFresh(cs[j], es[j]);
      TombedUntil(parses, cs, es, i, j, name);
      var m :| i <= m < j && es[m].node in cs[m].nodes && Untombs(cs[m], es[m], name);
      assert Revives(cs[m], es[m], name);
    } else {
      assert Revives(cs[j], es[j], name);
    }
  }

  /** A task executed and marked deleted is not executed again, by its node or by any node that has
      reloaded tombstones since, unless somebody revived it in between. */
  lemma NeverAgainUntilRevived(
      parses: string -> bool, cs: seq<Cluster>, es: seq<Event>, i: nat, k: nat, name: string)
    requires Run(parses, cs, es) && FreshReads(cs, es) && i < k < |es|
    requires ExecutedAndMarked(cs[i], es[i], name) && Executed(cs[k], es[k], name)
    requires es[k].node == es[i].node || exists j :: i < j < k && Reloads(es[j], es[k].node)
    ensures RevivedBetween(cs, es, i + 1, k, name)
  {
    RunKeepsClusterInv(parses, cs, es, i);
    MarkingBlocks(parses, cs[i], es[i], cs[i + 1], name);
    if es[k].node == es[i].node {
      QuietUntilRevived(parses, cs, es, i + 1, k, es[i].node, name);
    } else {
      var j :| i < j < k && Reloads(es[j], es[k].node);
      AfterReload(parses, cs, es, i + 1, j, k, name);
    }
  }

  /** A node that reloads while the registry holds the tombstone is quiet from then on. */
  lemma AfterReload(
      parses: string -> bool, cs: seq<Cluster>, es: seq<Event>, i: nat, j: nat, k: nat, name: string)
    requires Run(parses, cs, es) && FreshReads(cs, es) && i <= j < k < |es|
    requires Tombed(cs[i], name) && Reloads(es[j], es[k].node) && Executed(cs[k], es[k], name)
    ensures RevivedBetween(cs, es, i, k, name)
  {
    TombedUntil(parses, cs, es, i, j, name);
    if Tombed(cs[j], name) {
      assert Step(parses, cs[j], es[j], cs[j + 1]) && ReadsFresh(cs[j], es[j]);
      QuietUntilRevived(parses, cs, es, j + 1, k, es[k].node, name);
    } else {
      var m :| i <= m < j && es[m].node in cs[m].nodes && Untombs(cs[m], es[m], name);
      assert Revives(cs[m], es[m], name);
    }
  }
}
