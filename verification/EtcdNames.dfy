/** Which names make etcd's cleanups delete an execution marker. */
module EtcdNames {
  import opened Lex
  import opened MarkerKeys
  import opened PathKeys

  const EXEC_DIR: seq<string> := ["distributed_cron", "last_exec"]

  /** `ForceCleanupTask` deletes the task key, the tombstone key and an execution key of the bare name. */
  function ForceKeys(name: string): set<string> {
    {TaskKey(name), DeletedKey(name), CleanupKey(name)}
  }

  /** None of the keys that a forced cleanup of the name deletes is a marker of the era. */
  predicate SafeToClean(name: string) {
    !IsEraMarker(TaskKey(name)) && !IsEraMarker(DeletedKey(name)) && !IsEraMarker(CleanupKey(name))
  }

  /** The tombstone key that a reuse of the name deletes is not a marker of the era. */
  predicate SafeToReuse(name: string) {
    !IsEraMarker(DeletedKey(name))
  }

  /** On top of the directory, the name climbs out and down again to a marker. */
  predicate ClimbsToMarker(name: string, dir: seq<string>) {
    var left := Resolve(Split(name), dir);
    |left| > 2 && left[..2] == EXEC_DIR && EraSuffix(JoinSlash(left[2..]))
  }

  lemma ExecPrefixIsDir()
    ensures EXEC_PREFIX == DirOf(EXEC_DIR) && PlainElements(EXEC_DIR)
  {
    assert EXEC_DIR[1..] == ["last_exec"];
    assert JoinSlash(EXEC_DIR) == "distributed_cron" + "/" + "last_exec";
  }

  /** A joined key is a marker of the era if and only if the name climbs to one. */
  lemma JoinedHitsExactly(dir: seq<string>, name: string)
    requires dir != [] && PlainElements(dir)
    ensures IsEraMarker(PathJoin(DirOf(dir), name)) <==> ClimbsToMarker(name, dir)
  {
    var key, left := PathJoin(DirOf(dir), name), Resolve(Split(name), dir);
    ExecPrefixIsDir();
    if IsEraMarker(key) {
      var x := key[|EXEC_PREFIX|..];
      assert key == EXEC_PREFIX + x;
      JoinedKeyExactly(dir, name, EXEC_DIR, x);
      assert left[2..] == Split(x);
      JoinSplit(x);
    }
    if ClimbsToMarker(name, dir) {
      LeftPlain(dir, name);
      var x := JoinSlash(left[2..]);
      SplitJoin(left[2..]);
      assert left == left[..2] + left[2..];
      JoinedKeyExactly(dir, name, EXEC_DIR, x);
      assert key[|EXEC_PREFIX|..] == x;
    }
  }

  lemma BareHitsExactly(name: string)
    ensures IsEraMarker(CleanupKey(name)) <==> EraSuffix(name)
  {
    assert CleanupKey(name)[|EXEC_PREFIX|..] == name;
  }

  /** Which names are safe, read off the name alone. */
  lemma SafeNamesExactly(name: string)
    ensures SafeToReuse(name) <==> !ClimbsToMarker(name, DELETED_DIR)
    ensures SafeToClean(name) <==>
      !ClimbsToMarker(name, TASK_DIR) && !ClimbsToMarker(name, DELETED_DIR) && !EraSuffix(name)
  {
    JoinedHitsExactly(TASK_DIR, name);
    JoinedHitsExactly(DELETED_DIR, name);
    BareHitsExactly(name);
  }

  /** A plain name never climbs: it is safe to reuse, and safe to clean unless it starts like a marker. */
  lemma PlainNamesSafe(name: string)
    requires PlainName(name)
    ensures SafeToReuse(name) && (SafeToClean(name) <==> !EraSuffix(name))
  {
    SafeNamesExactly(name);
    ResolvePlain(Split(name), TASK_DIR);
    ResolvePlain(Split(name), DELETED_DIR);
    assert (TASK_DIR + Split(name))[..2] == TASK_DIR && TASK_DIR[1] != EXEC_DIR[1];
    assert (DELETED_DIR + Split(name))[..2] == DELETED_DIR && DELETED_DIR[1] != EXEC_DIR[1];
  }

  /** Up from the task directory, and down into the execution directory. */
  function ClimbTo(x: string): string {
    ".." + "/" + ("last_exec" + "/" + x)
  }

  lemma SplitThree(a: string, b: string, x: string)
    requires '/' !in a && '/' !in b && '/' !in x
    ensures Split(a + "/" + (b + "/" + x)) == [a, b, x]
  {
    SplitConcat(a, b + "/" + x);
    SplitConcat(b, x);
    SplitOne(a);
    SplitOne(b);
    SplitOne(x);
  }

  lemma ClimbResolves(x: string)
    requires PlainElement(x)
    ensures Resolve(["..", "last_exec", x], TASK_DIR) == EXEC_DIR + [x]
  {
    ResolveConcat([".."], ["last_exec", x], TASK_DIR);
    assert [".."] + ["last_exec", x] == ["..", "last_exec", x];
    assert TASK_DIR[..1] == ["distributed_cron"];
    ResolvePlain(["last_exec", x], ["distributed_cron"]);
  }

  /** Every marker of a task without a slash is the task key of a name that climbs to it. */
  lemma ClimbingName(second: nat, task: string)
    requires Era(second) && '/' !in task
    ensures TaskKey(ClimbTo(Timestamp(second) + ("-" + task))) == MarkerKey(second, task)
    ensures !SafeToClean(ClimbTo(Timestamp(second) + ("-" + task)))
  {
    var x := Timestamp(second) + ("-" + task);
    assert PlainElement(x) by {
      EraWidth(second);
      assert forall i :: 0 <= i < |Decimal(second)| ==> x[i] == Decimal(second)[i];
    }
    SplitThree("..", "last_exec", x);
    ClimbResolves(x);
    SplitOne(x);
    ExecPrefixIsDir();
    JoinedKeyExactly(TASK_DIR, ClimbTo(x), EXEC_DIR, x);
    MarkerIsEraMarker(second, task);
  }
}
