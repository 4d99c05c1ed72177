/** What a rebalance reaches, on one node and across the cluster. */
module Rebalance {
  import opened Lex
  import A = Assigners
  import opened Scheduler

  /** What one node knows when it rebalances, besides its own state. */
  datatype Setting = Setting(
    strategy: A.Strategy,
    crc: string -> A.Word,
    nodes: seq<A.Node>,
    nodeID: string,
    parses: string -> bool)

  ghost function Live(s: Node): set<string> {
    set n | n in s.allTasks && n !in s.deletedTasks
  }

  /** How many live names come before `n`. */
  ghost function Rank(live: set<string>, n: string): nat {
    |set m | m in live && Less(m, n)|
  }

  /** The assigner's answer for a live name: each name has its own question number. */
  ghost predicate Owns(c: Setting, live: set<string>, n: string) {
    c.nodes != []
    && A.Answer(A.Owner(c.strategy, c.crc, c.nodes, Rank(live, n), n), c.nodes, c.nodeID) == A.Yes
  }

  ghost function OwnedSet(c: Setting, s: Node): set<string> {
    set n | n in Live(s) && Owns(c, Live(s), n)
  }

  /** The state after a rebalance with at least one node; with none nothing happens. */
  ghost function After(c: Setting, s: Node): Node {
    if c.nodes == [] then s else Rebalanced(c.parses, s, OwnedSet(c, s))
  }

  /** The task belongs on this node, and cron takes its format. */
  ghost predicate Wanted(parses: string -> bool, s: Node, owned: set<string>, n: string) {
    n in s.allTasks && n !in s.deletedTasks && n in owned && parses(s.allTasks[n].meta.cronFormat)
  }

  ghost predicate SameMetas(s: Node, t: Node) {
    && s.allTasks.Keys == t.allTasks.Keys
    && forall n :: n in s.allTasks ==> s.allTasks[n].meta == t.allTasks[n].meta
  }

  // ---------- the order of questions ----------

  /** The order in which the loop visits the tasks. */
  ghost function Names(s: Node): (names: seq<string>)
    ensures forall n :: n in names <==> n in s.allTasks
  {
    Sorted(s.allTasks.Keys)
  }

  lemma NamesDistinct(s: Node, i: nat, j: nat)
    requires i < j < |Names(s)|
    ensures Names(s)[i] != Names(s)[j]
  {
    SortedLists(s.allTasks.Keys);
    LessIrreflexive(Names(s)[i]);
  }

  /** The chosen names among the first i. */
  ghost function Earlier(chosen: set<string>, s: Node, i: nat): set<string>
    requires i <= |Names(s)|
  {
    set m | m in chosen && m in Names(s)[..i]
  }

  /** The chosen names visited before the i-th are the chosen names below it. */
  lemma RankInList(chosen: set<string>, s: Node, i: nat)
    requires chosen <= s.allTasks.Keys && i < |Names(s)|
    ensures |Earlier(chosen, s, i)| == Rank(chosen, Names(s)[i])
  {
    var names := Names(s);
    SortedLists(s.allTasks.Keys);
    forall m ensures m in Earlier(chosen, s, i) <==> m in chosen && Less(m, names[i]) {
      if m in chosen && Less(m, names[i]) {
        var j :| 0 <= j < |names| && names[j] == m;
        LessTrichotomy(m, names[i]);
        assert j < i;
        assert names[..i][j] == m;
      }
    }
    assert Earlier(chosen, s, i) == set m | m in chosen && Less(m, names[i]);
  }

  lemma EarlierGrows(chosen: set<string>, s: Node, i: nat)
    requires i < |Names(s)|
    ensures Earlier(chosen, s, i + 1) == Earlier(chosen, s, i) + if Names(s)[i] in chosen then {Names(s)[i]} else {}
    ensures |Earlier(chosen, s, i + 1)| == |Earlier(chosen, s, i)| + if Names(s)[i] in chosen then 1 else 0
  {
    var names := Names(s);
    assert names[..i + 1] == names[..i] + [names[i]];
    assert names[i] !in names[..i] by {
      forall j | 0 <= j < i ensures names[j] != names[i] { NamesDistinct(s, j, i); }
    }
  }

  lemma EarlierAll(chosen: set<string>, s: Node)
    requires chosen <= s.allTasks.Keys
    ensures Earlier(chosen, s, |Names(s)|) == chosen && Earlier(chosen, s, 0) == {}
  {
    assert Names(s)[..|Names(s)|] == Names(s);
  }

  // ---------- counting ----------

  /** `added` names were assigned and `removed` names unassigned between two states. */
  ghost predicate Moved(s: Node, t: Node, added: nat, removed: nat) {
    && added == |t.assignedTasks.Keys - s.assignedTasks.Keys|
    && removed == |s.assignedTasks.Keys - t.assignedTasks.Keys|
  }

  /** Sizes balance: before, plus added, minus removed, is after. */
  lemma MovedBalances(s: Node, t: Node, added: nat, removed: nat)
    requires Moved(s, t, added, removed)
    ensures |s.assignedTasks| + added - removed == |t.assignedTasks|
  {
    SizesBalance(s.assignedTasks.Keys, t.assignedTasks.Keys);
  }

  lemma SizesBalance(a: set<string>, b: set<string>)
    ensures |a| + |b - a| - |a - b| == |b|
  {
    assert a == (a * b) + (a - b);
    assert b == (a * b) + (b - a);
  }

  // ---------- one node ----------

  /** One visit decides its own name and leaves the others. */
  lemma VisitEffect(parses: string -> bool, s: Node, owned: set<string>, name: string, n: string)
    requires Inv(parses, s) && name in s.allTasks
    ensures n in Visit(parses, s, owned, name).assignedTasks
      <==> if n == name then Wanted(parses, s, owned, n) else n in s.assignedTasks
  {
    LiveIsAssigned(parses, s, name);
    assert NameOk(parses, s, name);
  }

  lemma VisitKeepsMetas(parses: string -> bool, s: Node, owned: set<string>, name: string)
    requires name in s.allTasks
    ensures SameMetas(s, Visit(parses, s, owned, name))
  {
  }

  lemma {:induction false} VisitAllKeepsMetas(parses: string -> bool, s: Node, owned: set<string>, names: seq<string>)
    requires forall n :: n in names ==> n in s.allTasks
    ensures SameMetas(s, VisitAll(parses, s, owned, names))
    decreases |names|
  {
    if names != [] {
      VisitKeepsMetas(parses, s, owned, names[0]);
      VisitAllKeepsMetas(parses, Visit(parses, s, owned, names[0]), owned, names[1..]);
    }
  }

  lemma WantedSame(parses: string -> bool, s: Node, t: Node, owned: set<string>, n: string)
    requires SameMetas(s, t) && s.deletedTasks == t.deletedTasks
    ensures Wanted(parses, s, owned, n) == Wanted(parses, t, owned, n)
  {
  }

  /** The listed names end up assigned just when wanted, the others as before. */
  lemma {:induction false} VisitAllEffect(
      parses: string -> bool, s: Node, owned: set<string>, names: seq<string>, n: string)
    requires Inv(parses, s) && forall m :: m in names ==> m in s.allTasks
    ensures n in VisitAll(parses, s, owned, names).assignedTasks
      <==> if n in names then Wanted(parses, s, owned, n) else n in s.assignedTasks
    decreases |names|
  {
    if names != [] {
      var s1 := Visit(parses, s, owned, names[0]);
      VisitEffect(parses, s, owned, names[0], n);
      VisitKeepsMetas(parses, s, owned, names[0]);
      WantedSame(parses, s, s1, owned, n);
      VisitKeepsInv(parses, s, owned, names[0]);
      VisitAllEffect(parses, s1, owned, names[1..], n);
      assert n in names <==> n == names[0] || n in names[1..];
    }
  }

  /** The assigned set is exactly the live, owned tasks whose format cron accepts, whatever was
      assigned before. */
  lemma RebalanceReachesTarget(parses: string -> bool, s: Node, owned: set<string>)
    requires Inv(parses, s)
    ensures var t := Rebalanced(parses, s, owned);
      && Inv(parses, t) && SameMetas(s, t) && t.deletedTasks == s.deletedTasks
      && (forall n :: n in t.assignedTasks <==> Wanted(parses, s, owned, n))
  {
    var names := Sorted(s.allTasks.Keys);
    forall n ensures n in Rebalanced(parses, s, owned).assignedTasks <==> Wanted(parses, s, owned, n) {
      VisitAllEffect(parses, s, owned, names, n);
      assert n in s.assignedTasks ==> n in names;
    }
    VisitAllKeepsMetas(parses, s, owned, names);
    VisitAllKeepsInv(parses, s, owned, names);
  }

  // ---------- the counters of the loop ----------

  datatype Tally = Tally(counter: nat, added: nat, removed: nat)

  function Plus(a: Tally, b: Tally): Tally {
    Tally(a.counter + b.counter, a.added + b.added, a.removed + b.removed)
  }

  /** What one visit adds to the counters. */
  function VisitTally(s: Node, t: Node, name: string, shouldRun: bool): Tally {
    Tally(
      if shouldRun then 1 else 0,
      if name !in s.assignedTasks && name in t.assignedTasks then 1 else 0,
      if name in s.assignedTasks && name !in t.assignedTasks then 1 else 0)
  }

  ghost predicate Known(s: Node, names: seq<string>) {
    forall n :: n in names ==> n in s.allTasks
  }

  predicate NoRepeats(names: seq<string>) {
    names == [] || (names[0] !in names[1..] && NoRepeats(names[1..]))
  }

  /** What the loop adds to the counters. */
  ghost function LoopTally(parses: string -> bool, s: Node, owned: set<string>, names: seq<string>): Tally
    requires Known(s, names)
    decreases |names|
  {
    if names == [] then Tally(0, 0, 0)
    else
      var t := Visit(parses, s, owned, names[0]);
      Plus(VisitTally(s, t, names[0], names[0] !in s.deletedTasks && names[0] in owned),
           LoopTally(parses, t, owned, names[1..]))
  }

  lemma DifferByOne(a: set<string>, b: set<string>, e: set<string>, name: string)
    requires name in e <==> name in b
    requires forall n :: n != name ==> (n in a <==> n in b)
    ensures |e - a| == |e - b| + if name !in a && name in b then 1 else 0
    ensures |a - e| == |b - e| + if name in a && name !in b then 1 else 0
  {
    if name in b && name !in a {
      assert e - a == (e - b) + {name};
      assert a - e == b - e;
    } else if name in a && name !in b {
      assert a - e == (b - e) + {name};
      assert e - a == e - b;
    } else {
      assert a == b;
    }
  }

  /** The name that a visit may move stays where the visit left it. */
  lemma MovedFromFirst(s: Node, t: Node, e: Node, name: string, tally: Tally, shouldRun: bool)
    requires Moved(t, e, tally.added, tally.removed)
    requires name in e.assignedTasks <==> name in t.assignedTasks
    requires forall n :: n != name ==> (n in s.assignedTasks <==> n in t.assignedTasks)
    ensures var tally' := Plus(VisitTally(s, t, name, shouldRun), tally);
      Moved(s, e, tally'.added, tally'.removed)
  {
    DifferByOne(s.assignedTasks.Keys, t.assignedTasks.Keys, e.assignedTasks.Keys, name);
  }

  /** The loop counts the names it assigned and the names it unassigned. */
  lemma {:induction false} LoopCountsMoves(parses: string -> bool, s: Node, owned: set<string>, names: seq<string>)
    requires Inv(parses, s) && Known(s, names) && NoRepeats(names)
    ensures Moved(s, VisitAll(parses, s, owned, names),
                  LoopTally(parses, s, owned, names).added, LoopTally(parses, s, owned, names).removed)
    decreases |names|
  {
    if names == [] {
      assert s.assignedTasks.Keys - s.assignedTasks.Keys == {};
    } else {
      var name, rest := names[0], names[1..];
      var t := Visit(parses, s, owned, name);
      assert Inv(parses, t) by { VisitKeepsInv(parses, s, owned, name); }
      LoopCountsMoves(parses, t, owned, rest);
      var e := VisitAll(parses, t, owned, rest);
      assert name in e.assignedTasks <==> name in t.assignedTasks by {
        VisitAllEffect(parses, t, owned, rest, name);
      }
      forall n | n != name ensures n in s.assignedTasks <==> n in t.assignedTasks {
        VisitEffect(parses, s, owned, name, n);
      }
      MovedFromFirst(s, t, e, name, LoopTally(parses, t, owned, rest), name !in s.deletedTasks && name in owned);
    }
  }

  /** Every assignment uses up one id. */
  lemma {:induction false} LoopCountsIds(parses: string -> bool, s: Node, owned: set<string>, names: seq<string>)
    requires Inv(parses, s) && Known(s, names)
    ensures VisitAll(parses, s, owned, names).lastId == s.lastId + LoopTally(parses, s, owned, names).added
    decreases |names|
  {
    if names != [] {
      var t := Visit(parses, s, owned, names[0]);
      assert LiveIffAssigned(s, names[0]) by { LiveIsAssigned(parses, s, names[0]); }
      assert Inv(parses, t) by { VisitKeepsInv(parses, s, owned, names[0]); }
      LoopCountsIds(parses, t, owned, names[1..]);
    }
  }

  /** A rebalance gives out exactly as many new ids as it assigns tasks. */
  lemma RebalanceCountsIds(c: Setting, s: Node)
    requires Inv(c.parses, s) && c.nodes != []
    ensures After(c, s).lastId == s.lastId + |After(c, s).assignedTasks.Keys - s.assignedTasks.Keys|
  {
    RebalanceCounts(c, s);
    LoopCountsIds(c.parses, s, OwnedSet(c, s), Names(s));
  }

  ghost function Chosen(names: seq<string>, deleted: set<string>, owned: set<string>): set<string> {
    set n | n in names && n !in deleted && n in owned
  }

  lemma ChosenStep(names: seq<string>, deleted: set<string>, owned: set<string>)
    requires names != [] && NoRepeats(names)
    ensures |Chosen(names, deleted, owned)|
         == (if names[0] !in deleted && names[0] in owned then 1 else 0) + |Chosen(names[1..], deleted, owned)|
  {
    assert names == [names[0]] + names[1..];
    var rest := Chosen(names[1..], deleted, owned);
    assert Chosen(names, deleted, owned)
        == if names[0] !in deleted && names[0] in owned then rest + {names[0]} else rest;
  }

  /** The loop counts the owned live names. */
  lemma {:induction false} LoopCountsOwned(parses: string -> bool, s: Node, owned: set<string>, names: seq<string>)
    requires Known(s, names) && NoRepeats(names)
    ensures LoopTally(parses, s, owned, names).counter == |Chosen(names, s.deletedTasks, owned)|
    decreases |names|
  {
    if names == [] {
      assert Chosen(names, s.deletedTasks, owned) == {};
    } else {
      LoopCountsOwned(parses, Visit(parses, s, owned, names[0]), owned, names[1..]);
      ChosenStep(names, s.deletedTasks, owned);
    }
  }

  lemma {:induction false} NamesFromNoRepeats(s: Node, i: nat)
    requires i <= |Names(s)|
    ensures NoRepeats(Names(s)[i..])
    decreases |Names(s)| - i
  {
    var names := Names(s);
    if i < |names| {
      NamesFromNoRepeats(s, i + 1);
      assert names[i..][1..] == names[i + 1..];
      forall j | i + 1 <= j < |names| ensures names[j] != names[i] { NamesDistinct(s, i, j); }
    }
  }

  lemma NamesNoRepeats(s: Node)
    ensures NoRepeats(Names(s)) && Known(s, Names(s))
  {
    NamesFromNoRepeats(s, 0);
    assert Names(s)[0..] == Names(s);
  }

  lemma OwnedAreChosen(c: Setting, s: Node)
    ensures OwnedSet(c, s) == Chosen(Names(s), s.deletedTasks, OwnedSet(c, s))
  {
  }

  /** At the end the counters hold the owned tasks, the newly assigned and the unassigned ones. */
  lemma RebalanceCounts(c: Setting, s: Node)
    requires Inv(c.parses, s) && c.nodes != []
    ensures var tally := LoopTally(c.parses, s, OwnedSet(c, s), Names(s));
      tally.counter == |OwnedSet(c, s)| && Moved(s, After(c, s), tally.added, tally.removed)
  {
    var owned, names := OwnedSet(c, s), Names(s);
    assert NoRepeats(names) && Known(s, names) by { NamesNoRepeats(s); }
    var tally := LoopTally(c.parses, s, owned, names);
    assert tally.counter == |owned| by {
      LoopCountsOwned(c.parses, s, owned, names);
      OwnedAreChosen(c, s);
    }
    assert Moved(s, VisitAll(c.parses, s, owned, names), tally.added, tally.removed) by {
      LoopCountsMoves(c.parses, s, owned, names);
    }
  }

  // ---------- the loop, name by name ----------

  /** With i names visited the loop stands at `cur` with these counters: the remaining names lead to
      the specified end and add the remaining counts. */
  ghost predicate At(c: Setting, s: Node, i: nat, cur: Node, tally: Tally) {
    && i <= |Names(s)| && Inv(c.parses, cur)
    && cur.allTasks.Keys == s.allTasks.Keys && cur.deletedTasks == s.deletedTasks
    && Known(s, Names(s)) && Known(cur, Names(s)[i..])
    && VisitAll(c.parses, cur, OwnedSet(c, s), Names(s)[i..]) == Rebalanced(c.parses, s, OwnedSet(c, s))
    && Plus(tally, LoopTally(c.parses, cur, OwnedSet(c, s), Names(s)[i..]))
       == LoopTally(c.parses, s, OwnedSet(c, s), Names(s))
  }

  lemma AtStart(c: Setting, s: Node)
    requires Inv(c.parses, s)
    ensures At(c, s, 0, s, Tally(0, 0, 0))
  {
    assert Names(s)[0..] == Names(s);
  }

  lemma LoopStep(parses: string -> bool, s: Node, t: Node, owned: set<string>, names: seq<string>, tally: Tally)
    requires names != [] && Known(s, names) && t == Visit(parses, s, owned, names[0])
    ensures Known(t, names[1..])
    ensures Plus(tally, LoopTally(parses, s, owned, names))
      == Plus(Plus(tally, VisitTally(s, t, names[0], names[0] !in s.deletedTasks && names[0] in owned)),
              LoopTally(parses, t, owned, names[1..]))
  {
    PlusAssociative(tally, VisitTally(s, t, names[0], names[0] !in s.deletedTasks && names[0] in owned),
                    LoopTally(parses, t, owned, names[1..]));
  }

  lemma PlusAssociative(a: Tally, b: Tally, d: Tally)
    ensures Plus(a, Plus(b, d)) == Plus(Plus(a, b), d)
  {
  }

  /** One visit moves the loop on. */
  lemma AtStep(c: Setting, s: Node, i: nat, cur: Node, tally: Tally)
    requires At(c, s, i, cur, tally) && i < |Names(s)|
    ensures LiveIffAssigned(cur, Names(s)[i])
    ensures var name, owned := Names(s)[i], OwnedSet(c, s);
      var next := Decide(c.parses, cur, name, name in owned);
      At(c, s, i + 1, next, Plus(tally, VisitTally(cur, next, name, name in owned)))
  {
    var names, owned := Names(s), OwnedSet(c, s);
    LiveIsAssigned(c.parses, cur, names[i]);
    VisitKeepsInv(c.parses, cur, owned, names[i]);
    assert names[i..][0] == names[i] && names[i..][1..] == names[i + 1..];
    LoopStep(c.parses, cur, Visit(c.parses, cur, owned, names[i]), owned, names[i..], tally);
  }

  /** At the end of the list the state is the specified one and the counters are right. */
  lemma AtEnd(c: Setting, s: Node, cur: Node, tally: Tally)
    requires Inv(c.parses, s) && c.nodes != [] && At(c, s, |Names(s)|, cur, tally)
    ensures cur == After(c, s)
    ensures tally.counter == |OwnedSet(c, s)| && Moved(s, cur, tally.added, tally.removed)
  {
    assert Names(s)[|Names(s)|..] == [];
    RebalanceCounts(c, s);
  }

  lemma VisitSettled(parses: string -> bool, s: Node, owned: set<string>, name: string)
    requires Inv(parses, s) && name in s.allTasks
    requires name in s.assignedTasks <==> Wanted(parses, s, owned, name)
    ensures Visit(parses, s, owned, name) == s
  {
    LiveIsAssigned(parses, s, name);
  }

  lemma {:induction false} VisitAllSettled(parses: string -> bool, s: Node, owned: set<string>, names: seq<string>)
    requires Inv(parses, s) && forall n :: n in names ==> n in s.allTasks
    requires forall n :: n in s.assignedTasks <==> Wanted(parses, s, owned, n)
    ensures VisitAll(parses, s, owned, names) == s
    decreases |names|
  {
    if names != [] {
      VisitSettled(parses, s, owned, names[0]);
      VisitAllSettled(parses, s, owned, names[1..]);
    }
  }

  /** A second rebalance with the same inputs changes nothing, not even an id. */
  lemma RebalanceIdempotent(c: Setting, s: Node)
    requires Inv(c.parses, s)
    ensures After(c, After(c, s)) == After(c, s)
  {
    if c.nodes != [] {
      var t := After(c, s);
      RebalanceReachesTarget(c.parses, s, OwnedSet(c, s));
      assert Live(t) == Live(s);
      assert OwnedSet(c, t) == OwnedSet(c, s);
      forall n ensures n in t.assignedTasks <==> Wanted(c.parses, t, OwnedSet(c, s), n) {
        WantedSame(c.parses, s, t, OwnedSet(c, s), n);
      }
      VisitAllSettled(c.parses, t, OwnedSet(c, s), Sorted(t.allTasks.Keys));
    }
  }

  /** The answer depends on the tasks and tombstones only: equal inputs give equal assigned sets. */
  lemma RebalanceForgetsHistory(c: Setting, s: Node, t: Node)
    requires Inv(c.parses, s) && Inv(c.parses, t) && c.nodes != []
    requires SameMetas(s, t) && s.deletedTasks == t.deletedTasks
    ensures After(c, s).assignedTasks.Keys == After(c, t).assignedTasks.Keys
  {
    assert Live(s) == Live(t);
    assert OwnedSet(c, s) == OwnedSet(c, t);
    RebalanceReachesTarget(c.parses, s, OwnedSet(c, s));
    RebalanceReachesTarget(c.parses, t, OwnedSet(c, t));
    forall n ensures n in After(c, s).assignedTasks <==> n in After(c, t).assignedTasks {
      WantedSame(c.parses, s, t, OwnedSet(c, s), n);
    }
  }

  // ---------- the cluster ----------

  /** Node i of the shared list rebalances its own state. */
  ghost function Assigned(c: Setting, states: seq<Node>, i: nat): set<string>
    requires i < |states| == |c.nodes|
  {
    After(c.(nodeID := c.nodes[i].id), states[i]).assignedTasks.Keys
  }

  /** The nodes see the same tasks and tombstones, and cron takes every format. */
  ghost predicate Agree(c: Setting, states: seq<Node>, tasks: set<string>, tombstones: set<string>) {
    && |states| == |c.nodes|
    && forall i :: 0 <= i < |states| ==>
      && Inv(c.parses, states[i])
      && states[i].allTasks.Keys == tasks && states[i].deletedTasks == tombstones
      && forall n :: n in tasks ==> c.parses(states[i].allTasks[n].meta.cronFormat)
  }

  /** After every node has rebalanced, each live task is assigned to exactly one node: the one the
      strategy names. Nothing else is assigned. */
  lemma AssignedToOwner(c: Setting, states: seq<Node>, tasks: set<string>, tombstones: set<string>, i: nat, n: string)
    requires A.Usable(c.strategy, c.nodes) && A.DistinctIds(c.nodes)
    requires Agree(c, states, tasks, tombstones) && i < |states|
    ensures var o := A.Owner(c.strategy, c.crc, c.nodes, Rank(tasks - tombstones, n), n);
      o.Owned? && (n in Assigned(c, states, i) <==> n in tasks - tombstones && i == o.index)
  {
    var ci := c.(nodeID := c.nodes[i].id);
    assert Live(states[i]) == tasks - tombstones;
    RebalanceReachesTarget(c.parses, states[i], OwnedSet(ci, states[i]));
    A.ExactlyOneYes(c.strategy, c.crc, c.nodes, Rank(tasks - tombstones, n), n, i);
  }

  /** The assigned sets of the nodes are pairwise disjoint and together hold every live task. */
  lemma ClusterPartition(c: Setting, states: seq<Node>, tasks: set<string>, tombstones: set<string>)
    requires A.Usable(c.strategy, c.nodes) && A.DistinctIds(c.nodes)
    requires Agree(c, states, tasks, tombstones)
    ensures forall i, j :: 0 <= i < j < |states| ==> Assigned(c, states, i) !! Assigned(c, states, j)
    ensures forall n :: n in tasks - tombstones <==> exists i :: 0 <= i < |states| && n in Assigned(c, states, i)
  {
    forall i, j, n | 0 <= i < j < |states| && n in Assigned(c, states, i) ensures n !in Assigned(c, states, j) {
      AssignedToOwner(c, states, tasks, tombstones, i, n);
      AssignedToOwner(c, states, tasks, tombstones, j, n);
    }
    forall n ensures n in tasks - tombstones <==> exists i :: 0 <= i < |states| && n in Assigned(c, states, i) {
      A.UsableOwns(c.strategy, c.crc, c.nodes, Rank(tasks - tombstones, n), n);
      var owner := A.Owner(c.strategy, c.crc, c.nodes, Rank(tasks - tombstones, n), n).index;
      AssignedToOwner(c, states, tasks, tombstones, owner, n);
      if i :| 0 <= i < |states| && n in Assigned(c, states, i) {
        AssignedToOwner(c, states, tasks, tombstones, i, n);
      }
    }
  }

  lemma {:induction false} EarlierCounts(s: Node, k: nat)
    requires k <= |Names(s)|
    ensures |Earlier(s.allTasks.Keys, s, k)| == k
  {
    if k > 0 {
      EarlierCounts(s, k - 1);
      EarlierGrows(s.allTasks.Keys, s, k - 1);
    } else {
      assert Earlier(s.allTasks.Keys, s, 0) == {};
    }
  }

  /** The k-th name of the sorted list has k names before it. */
  lemma RankOfSorted(live: set<string>, k: nat)
    requires k < |Sorted(live)|
    ensures Rank(live, Sorted(live)[k]) == k
  {
    var s := Scheduler.Fresh().(allTasks := map n | n in live :: Task(0, TaskMeta(n, "", false, false, false, "")));
    assert s.allTasks.Keys == live;
    RankInList(live, s, k);
    EarlierCounts(s, k);
  }

  /** Round robin, though its index moves with every question: the k-th live task in sorted order goes to
      node k modulo the number of nodes, in every rebalance. */
  lemma RoundRobinClosedForm(c: Setting, states: seq<Node>, tasks: set<string>, tombstones: set<string>, i: nat, k: nat)
    requires c.strategy == A.RoundRobin && c.nodes != [] && A.DistinctIds(c.nodes)
    requires Agree(c, states, tasks, tombstones) && i < |states| && k < |Sorted(tasks - tombstones)|
    ensures Sorted(tasks - tombstones)[k] in Assigned(c, states, i) <==> i == k % |c.nodes|
  {
    var n := Sorted(tasks - tombstones)[k];
    RankOfSorted(tasks - tombstones, k);
    AssignedToOwner(c, states, tasks, tombstones, i, n);
    assert n in tasks - tombstones;
  }

  // ---------- add, schedule, fire ----------

  /** A task that was added, scheduled and fired once is marked, here and in the registry, and gone from cron, exactly when
      it was added as a one-shot; otherwise it stays scheduled. */
  lemma AddedThenFired(
      parses: string -> bool, s: Node, r: Registry, name: string, cronFormat: string, oneShot: bool, owned: set<string>)
    requires Inv(parses, s) && name !in s.deletedTasks && name !in s.allTasks && name !in r.tombstones
    requires name in owned && parses(cronFormat)
    ensures
      var added := Do(parses, s, r, AddTask(BasicMeta(name, cronFormat, oneShot)));
      var t := Rebalanced(parses, added.node, owned);
      && name in t.assignedTasks && t.assignedTasks[name].id in t.entries
      && var fired := DoRun(t, added.registry, t.assignedTasks[name].id, true, true);
        && (name in fired.node.deletedTasks <==> oneShot) && (name in fired.registry.tombstones <==> oneShot)
        && (name in fired.node.assignedTasks <==> !oneShot)
        && (t.assignedTasks[name].id in fired.node.entries <==> !oneShot)
  {
    var meta := BasicMeta(name, cronFormat, oneShot);
    var added := Do(parses, s, r, AddTask(meta));
    DoKeepsInv(parses, s, r, AddTask(meta));
    RebalanceReachesTarget(parses, added.node, owned);
    var t := Rebalanced(parses, added.node, owned);
    assert Wanted(parses, added.node, owned, name);
    VisitedNew(parses, added.node, owned, name);
    assert NameOk(parses, t, name);
  }

  /** A task without an id that comes to be assigned is registered as it is stored. */
  lemma VisitedNew(parses: string -> bool, s: Node, owned: set<string>, name: string)
    requires Inv(parses, s) && name in s.allTasks && s.allTasks[name].id == 0
    requires name in Rebalanced(parses, s, owned).assignedTasks
    ensures Rebalanced(parses, s, owned).assignedTasks[name].meta == s.allTasks[name].meta
  {
    assert NameOk(parses, s, name);
    EntryBounds(parses, s);
    assert name !in s.assignedTasks;
    VisitAllRegisters(parses, s, owned, Sorted(s.allTasks.Keys), name);
  }

  lemma {:induction false} VisitAllRegisters(
      parses: string -> bool, s: Node, owned: set<string>, names: seq<string>, name: string)
    requires Inv(parses, s) && name in s.allTasks && Known(s, names)
    requires name in s.assignedTasks ==> s.assignedTasks[name].meta == s.allTasks[name].meta
    ensures var t := VisitAll(parses, s, owned, names);
      name in t.assignedTasks ==> t.assignedTasks[name].meta == s.allTasks[name].meta
    decreases |names|
  {
    if names != [] {
      VisitKeepsInv(parses, s, owned, names[0]);
      VisitAllRegisters(parses, Visit(parses, s, owned, names[0]), owned, names[1..], name);
    }
  }

  // ---------- mark, then reuse ----------

  /** Any number of rebalances, with any ownership each time. */
  ghost function RebalancedMany(parses: string -> bool, s: Node, owned: seq<set<string>>): Node
    decreases |owned|
  {
    if owned == [] then s else RebalancedMany(parses, Rebalanced(parses, s, owned[0]), owned[1..])
  }

  lemma {:induction false} RebalancedManyKeeps(parses: string -> bool, s: Node, owned: seq<set<string>>)
    requires Inv(parses, s)
    ensures var t := RebalancedMany(parses, s, owned);
      Inv(parses, t) && SameMetas(s, t) && t.deletedTasks == s.deletedTasks
    decreases |owned|
  {
    if owned != [] {
      RebalanceReachesTarget(parses, s, owned[0]);
      RebalancedManyKeeps(parses, Rebalanced(parses, s, owned[0]), owned[1..]);
    }
  }

  /** Mark, any rebalances, reuse, rebalance: the same assigned set as if nothing had happened, and the
      same tombstones here and in the registry. */
  lemma MarkThenReuseRestores(c: Setting, s: Node, r: Registry, name: string, between: seq<set<string>>)
    requires Inv(c.parses, s) && c.nodes != []
    requires name in s.allTasks && name !in s.deletedTasks && name !in r.tombstones
    ensures
      var marked := Do(c.parses, s, r, MarkTaskDeleted(name, true));
      var later := RebalancedMany(c.parses, marked.node, between);
      var reused := Do(c.parses, later, marked.registry, ReuseDeletedTask(name, true));
      && reused.reply == Ok && reused.registry == r && reused.node.deletedTasks == s.deletedTasks
      && After(c, reused.node).assignedTasks.Keys == After(c, s).assignedTasks.Keys
  {
    var marked := Do(c.parses, s, r, MarkTaskDeleted(name, true));
    DoKeepsInv(c.parses, s, r, MarkTaskDeleted(name, true));
    var later := RebalancedMany(c.parses, marked.node, between);
    RebalancedManyKeeps(c.parses, marked.node, between);
    var reused := Do(c.parses, later, marked.registry, ReuseDeletedTask(name, true));
    DoKeepsInv(c.parses, later, marked.registry, ReuseDeletedTask(name, true));
    assert reused.registry.tombstones == r.tombstones;
    assert reused.node.deletedTasks == s.deletedTasks;
    RebalanceForgetsHistory(c, s, reused.node);
  }

  /** The round trip clears the registry tombstone exactly when the node knows the task: for an unknown
      name the mark still writes the tombstone, and the reuse is refused. */
  lemma MarkThenReuseExactly(parses: string -> bool, s: Node, r: Registry, name: string)
    requires name !in s.deletedTasks && name !in r.tombstones
    ensures
      var marked := Do(parses, s, r, MarkTaskDeleted(name, true));
      var reused := Do(parses, marked.node, marked.registry, ReuseDeletedTask(name, true));
      reused.registry == r <==> name in s.allTasks
  {
    var marked := Do(parses, s, r, MarkTaskDeleted(name, true));
    var reused := Do(parses, marked.node, marked.registry, ReuseDeletedTask(name, true));
    if name in s.allTasks {
      assert reused.registry.tombstones == r.tombstones;
    } else {
      assert name in reused.registry.tombstones;
    }
  }
}
