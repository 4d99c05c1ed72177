/** The marker operations as the registries perform them on their stores, specified by the slots they hold. */
module MarkerStores {
  import opened MarkerKeys
  import EC = EventCleaner
  import opened EtcdNames
  import PathKeys
  import Lock = MarkerLock
  import E = EtcdMarkers
  import opened Stamps
  import RedisMarkers

  /** etcd's execution keys, and the events given to the cleaner. */
  class EtcdStore {
    var keys: set<string>
    var events: seq<EC.Event>

    ghost predicate Holds(second: int, task: string)
      reads this`keys
    {
      MarkerKey(second, task) in keys
    }

    /** Create the marker if it is absent. It runs exactly when the slot was free; no other slot is touched,
        and the cleaner is told of a new marker with the sampled clock. */
    method CanRunTask(task: string, clock: int, sendOk: bool) returns (canRun: bool)
      modifies this
      ensures canRun <==> !old(Holds(Lock.Unix(clock), task))
      ensures forall second: int, t :: Holds(second, t) <==>
        old(Holds(second, t)) || (second == Lock.Unix(clock) && t == task)
      ensures events == if canRun && sendOk
        then old(events) + [EC.Event(MarkerKey(Lock.Unix(clock), task), clock)] else old(events)
      ensures forall c, s, t :: E.Enabled(c, s, E.CanRunTask(t)) && t.task == task && t.clock == clock && s.keys == old(keys) ==>
        keys == E.Apply(c, s, E.CanRunTask(t)).keys && (canRun <==> E.Apply(c, s, E.CanRunTask(t)).log != s.log)
    {
      var key := MarkerKey(Lock.Unix(clock), task);
      canRun := key !in keys;
      if canRun {
        keys := keys + {key};
        if sendOk { events := events + [EC.Event(key, clock)]; }
      }
      forall second: int, t ensures Holds(second, t) <==>
        old(Holds(second, t)) || (second == Lock.Unix(clock) && t == task) {
        if MarkerKey(second, t) == key { MarkerKeyInjective(second, t, Lock.Unix(clock), task); }
      }
    }

    /** Delete the keys of one batch of the cleaner in one transaction. */
    method BatchDeleteExecKeys(batch: seq<string>, commitOk: bool)
      modifies this`keys
      ensures forall key :: key in keys <==> key in old(keys) && !(commitOk && key in batch)
    {
      var ops := {};
      for i := 0 to |batch|
        invariant forall key :: key in ops <==> key in batch[..i]
      {
        assert batch[..i + 1] == batch[..i] + [batch[i]];
        ops := ops + {batch[i]};
      }
      assert batch[..|batch|] == batch;
      if commitOk { keys := keys - ops; }
    }

    /** The history cleanup, by a string range. For bounds from 1970 on it removes what `BoundReached` says for
        timestamps of any width; among ten-digit timestamps that is exactly the interval from a year ago up to ten
        minutes ago. */
    method CleanupHistory(now: int)
      modifies this`keys
      ensures var start, end := Lock.Unix(now - E.YEAR), Lock.Unix(now - E.HISTORY);
        && keys == E.Surviving(old(keys), start, end)
        && (start >= 0 ==> forall second: nat, t :: Holds(second, t) <==>
              old(Holds(second, t)) && !(BoundReached(start, second) && !BoundReached(end, second)))
        && (Era(start) && Era(end) ==> forall second: nat, t :: Era(second) ==>
              (Holds(second, t) <==> old(Holds(second, t)) && !(start <= second < end)))
      ensures E.YEAR == 31_536_000_000_000_000 && E.HISTORY == 600_000_000_000
    {
      var start, end := Lock.Unix(now - E.YEAR), Lock.Unix(now - E.HISTORY);
      var startKey, endKey := BoundKey(start), BoundKey(end);
      keys := set key | key in keys && !InKeyRange(key, startKey, endKey);
      if start >= 0 {
        forall second: nat, t ensures Holds(second, t) <==>
          old(Holds(second, t)) && !(BoundReached(start, second) && !BoundReached(end, second)) {
          RangeDeleteRemoves(start, end, second, t);
        }
      }
      if Era(start) && Era(end) {
        forall second: nat, t | Era(second) ensures
          Holds(second, t) <==> old(Holds(second, t)) && !(start <= second < end) {
          EraWidth(start);
          EraWidth(second);
          EraWidth(end);
          RangeDeleteIsInterval(start, end, second, t);
        }
      }
    }

    /** The forced cleanup of a safe name leaves every marker of the era. */
    method ForceCleanupTask(name: string)
      modifies this`keys
      ensures keys == old(keys) - ForceKeys(name)
      ensures SafeToClean(name) ==> forall second: nat, t :: Era(second) ==> (Holds(second, t) <==> old(Holds(second, t)))
    {
      keys := keys - ForceKeys(name);
      forall second: nat, t | SafeToClean(name) && Era(second) ensures Holds(second, t) <==> old(Holds(second, t)) {
        MarkerIsEraMarker(second, t);
      }
    }

    /** The full cleanup leaves no marker, no task and no tombstone, and everything outside their directories. */
    method ForceCleanupAllTasks()
      modifies this`keys
      ensures keys == E.Unwiped(old(keys))
      ensures forall second: int, t :: !Holds(second, t)
      ensures forall name :: PathKeys.DirOf(PathKeys.TASK_DIR) + name !in keys && PathKeys.DirOf(PathKeys.DELETED_DIR) + name !in keys
      ensures forall key :: key in keys <==>
        (key in old(keys) && !(EXEC_PREFIX <= key)
         && !(PathKeys.DirOf(PathKeys.TASK_DIR) <= key) && !(PathKeys.DirOf(PathKeys.DELETED_DIR) <= key))
    {
      keys := set k | k in keys && !(PathKeys.DirOf(PathKeys.TASK_DIR) <= k) && !(PathKeys.DirOf(PathKeys.DELETED_DIR) <= k)
                      && !(EXEC_PREFIX <= k);
      forall second: int, t ensures !Holds(second, t) { assert EXEC_PREFIX <= MarkerKey(second, t); }
      forall name ensures PathKeys.DirOf(PathKeys.TASK_DIR) + name !in keys && PathKeys.DirOf(PathKeys.DELETED_DIR) + name !in keys {
        assert PathKeys.DirOf(PathKeys.TASK_DIR) <= PathKeys.DirOf(PathKeys.TASK_DIR) + name;
        assert PathKeys.DirOf(PathKeys.DELETED_DIR) <= PathKeys.DirOf(PathKeys.DELETED_DIR) + name;
      }
    }
  }

  /** Redis's execution keys with the instants they expire at. */
  class RedisStore {
    const stamp: Formatter
    var expiry: map<string, int>

    constructor (stamp: Formatter)
      ensures this.stamp == stamp && expiry == map[]
    {
      this.stamp, expiry := stamp, map[];
    }

    /** The slot's key, in a zone, is live at an instant. */
    ghost predicate Holds(task: string, second: int, zone: Zone, now: int)
      reads this
    {
      && Written(stamp, second, zone)
      && var key := RedisMarkers.MarkerKey(stamp, task, second, zone);
        key in expiry && now < expiry[key]
    }

    /** `SetNX` with a five-second expiry: it runs exactly when the slot was free in that zone; the slot is then held
        for five seconds to the instant, and no other slot is touched. */
    method CanRunTask(task: string, second: int, zone: Zone, now: int) returns (canRun: bool)
      requires Readable(stamp) && Written(stamp, second, zone)
      modifies this
      ensures canRun <==> !old(Holds(task, second, zone, now))
      ensures canRun ==> forall later :: Holds(task, second, zone, later) <==> later < now + 5_000_000_000
      ensures forall t, s: int, z: Zone, later :: !canRun || (t, s, z) != (task, second, zone) ==>
        (Holds(t, s, z, later) <==> old(Holds(t, s, z, later)))
    {
      var key := RedisMarkers.MarkerKey(stamp, task, second, zone);
      canRun := !(key in expiry && now < expiry[key]);
      if canRun { expiry := expiry[key := now + Lock.HOLD]; }
      forall t, s: int, z: Zone | Written(stamp, s, z) && (t, s, z) != (task, second, zone)
        ensures RedisMarkers.MarkerKey(stamp, t, s, z) != key {
        if RedisMarkers.MarkerKey(stamp, t, s, z) == key {
          RedisMarkers.MarkerKeyInjective(stamp, t, s, z, task, second, zone);
        }
      }
    }
  }
}
