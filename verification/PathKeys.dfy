/** etcd's task and tombstone keys. They are built with Go's `path.Join`, which cleans the path, and read back
    by trimming the directory. */
module PathKeys {

  // ---------- paths ----------

  /** The elements between slashes; a leading, trailing or doubled slash gives empty ones. */
  function Split(s: string): (r: seq<string>)
    ensures |r| >= 1
  {
    if s == "" then [""]
    else
      var rest := Split(s[1..]);
      if s[0] == '/' then [""] + rest else [[s[0]] + rest[0]] + rest[1..]
  }

  function JoinSlash(elements: seq<string>): string
    decreases |elements|
  {
    if elements == [] then "" else if |elements| == 1 then elements[0] else elements[0] + "/" + JoinSlash(elements[1..])
  }

  /** Go's lexical cleaning of a rooted path, element by element: empty and dot elements vanish, a double dot takes
      back the element before it. */
  function Resolve(elements: seq<string>, stack: seq<string>): seq<string>
    decreases |elements|
  {
    if elements == [] then stack
    else
      var e := elements[0];
      Resolve(elements[1..],
        if e == "" || e == "." then stack
        else if e == ".." then (if stack == [] then [] else stack[..|stack| - 1])
        else stack + [e])
  }

  /** `path.Clean` on a path that starts with a slash. */
  function Clean(path: string): string {
    "/" + JoinSlash(Resolve(Split(path), []))
  }

  /** `path.Join(dir, name)`: empty arguments are skipped. */
  function PathJoin(dir: string, name: string): string {
    Clean(if name == "" then dir else dir + "/" + name)
  }

  /** An element that cleaning leaves alone. */
  predicate PlainElement(e: string) {
    e != "" && e != "." && e != ".." && '/' !in e
  }

  predicate PlainElements(elements: seq<string>) {
    forall i :: 0 <= i < |elements| ==> PlainElement(elements[i])
  }

  /** A name whose elements are all left alone: no empty, dot or double-dot element. */
  predicate PlainName(name: string) {
    PlainElements(Split(name))
  }

  /** The key prefix of a directory. */
  function DirOf(dir: seq<string>): string {
    "/" + JoinSlash(dir) + "/"
  }

  // ---------- splitting and joining ----------

  lemma {:induction false} SplitConcat(a: string, b: string)
    ensures Split(a + "/" + b) == Split(a) + Split(b)
  {
    if a == "" {
      assert a + "/" + b == ['/'] + b;
      assert (['/'] + b)[1..] == b;
    } else {
      assert (a + "/" + b)[1..] == a[1..] + "/" + b;
      SplitConcat(a[1..], b);
    }
  }

  lemma {:induction false} SplitOne(e: string)
    requires '/' !in e
    ensures Split(e) == [e]
  {
    if e != "" {
      SplitOne(e[1..]);
      assert e == [e[0]] + e[1..];
    }
  }

  lemma {:induction false} JoinSplit(s: string)
    ensures JoinSlash(Split(s)) == s
  {
    if s != "" {
      JoinSplit(s[1..]);
      var rest := Split(s[1..]);
      assert s == [s[0]] + s[1..];
      if s[0] == '/' {
        assert ([""] + rest)[1..] == rest;
      } else if |rest| > 1 {
        assert ([[s[0]] + rest[0]] + rest[1..])[1..] == rest[1..];
      }
    }
  }

  lemma {:induction false} SplitJoin(elements: seq<string>)
    requires elements != [] && PlainElements(elements)
    ensures Split(JoinSlash(elements)) == elements
    decreases |elements|
  {
    SplitOne(elements[0]);
    if |elements| > 1 {
      SplitJoin(elements[1..]);
      SplitConcat(elements[0], JoinSlash(elements[1..]));
      assert elements == [elements[0]] + elements[1..];
    }
  }

  lemma {:induction false} SplitHasNoSlash(s: string, i: nat)
    requires i < |Split(s)|
    ensures '/' !in Split(s)[i]
  {
    if s != "" {
      if s[0] == '/' {
        if i > 0 { SplitHasNoSlash(s[1..], i - 1); }
      } else {
        SplitHasNoSlash(s[1..], i);
      }
    }
  }

  // ---------- cleaning ----------

  lemma {:induction false} ResolvePlain(elements: seq<string>, stack: seq<string>)
    requires PlainElements(elements)
    ensures Resolve(elements, stack) == stack + elements
    decreases |elements|
  {
    if elements != [] {
      ResolvePlain(elements[1..], stack + [elements[0]]);
      assert stack + elements == stack + [elements[0]] + elements[1..];
    }
  }

  /** What cleaning leaves is plain. */
  lemma {:induction false} ResolveLeavesPlain(elements: seq<string>, stack: seq<string>)
    requires PlainElements(stack) && forall i :: 0 <= i < |elements| ==> '/' !in elements[i]
    ensures PlainElements(Resolve(elements, stack))
    decreases |elements|
  {
    if elements != [] {
      var e := elements[0];
      ResolveLeavesPlain(elements[1..],
        if e == "" || e == "." then stack
        else if e == ".." then (if stack == [] then [] else stack[..|stack| - 1])
        else stack + [e]);
    }
  }

  lemma {:induction false} ResolveConcat(a: seq<string>, b: seq<string>, stack: seq<string>)
    ensures Resolve(a + b, stack) == Resolve(b, Resolve(a, stack))
    decreases |a|
  {
    if a == [] {
      assert a + b == b;
    } else {
      assert (a + b)[1..] == a[1..] + b;
      var e := a[0];
      ResolveConcat(a[1..], b,
        if e == "" || e == "." then stack
        else if e == ".." then (if stack == [] then [] else stack[..|stack| - 1])
        else stack + [e]);
    }
  }

  lemma SplitDir(dir: seq<string>)
    requires dir != [] && PlainElements(dir)
    ensures Split(DirOf(dir)) == [""] + dir + [""]
  {
    SplitConcat("/" + JoinSlash(dir), "");
    SplitConcat("", JoinSlash(dir));
    assert DirOf(dir) == ("/" + JoinSlash(dir)) + "/" + "";
    assert "/" + JoinSlash(dir) == "" + "/" + JoinSlash(dir);
    SplitJoin(dir);
  }

  lemma ResolveDir(dir: seq<string>)
    requires PlainElements(dir)
    ensures Resolve([""] + dir + [""], []) == dir
  {
    ResolveConcat([""] + dir, [""], []);
    ResolveConcat([""], dir, []);
    ResolvePlain(dir, []);
    assert [] + dir == dir;
  }

  /** A joined key resolves the name's elements on top of the directory's. */
  lemma JoinResolves(dir: seq<string>, name: string)
    requires dir != [] && PlainElements(dir)
    ensures PathJoin(DirOf(dir), name) == "/" + JoinSlash(Resolve(Split(name), dir))
  {
    SplitDir(dir);
    ResolveDir(dir);
    if name != "" {
      SplitConcat(DirOf(dir), name);
      ResolveConcat([""] + dir + [""], Split(name), []);
    }
  }

  lemma {:induction false} JoinConcat(a: seq<string>, b: seq<string>)
    requires a != [] && b != []
    ensures JoinSlash(a + b) == JoinSlash(a) + "/" + JoinSlash(b)
    decreases |a|
  {
    if |a| == 1 {
      assert (a + b)[1..] == b;
    } else {
      assert (a + b)[1..] == a[1..] + b;
      JoinConcat(a[1..], b);
    }
  }

  /** A joined key reads as directory `other` and `x` if and only if the name, resolved on top of its own
      directory, leaves the elements of both. */
  lemma JoinedKeyExactly(dir: seq<string>, name: string, other: seq<string>, x: string)
    requires dir != [] && PlainElements(dir) && other != [] && PlainElements(other)
    ensures PathJoin(DirOf(dir), name) == DirOf(other) + x <==> Resolve(Split(name), dir) == other + Split(x)
  {
    var key, left := PathJoin(DirOf(dir), name), Resolve(Split(name), dir);
    assert key == "/" + JoinSlash(left) by { JoinResolves(dir, name); }
    if left == other + Split(x) { JoinedReads(other, x); }
    if key == DirOf(other) + x {
      LeftPlain(dir, name);
      JoinedElements(other, x, left);
    }
  }

  lemma JoinedReads(other: seq<string>, x: string)
    requires other != []
    ensures "/" + JoinSlash(other + Split(x)) == DirOf(other) + x
  {
    JoinConcat(other, Split(x));
    JoinSplit(x);
    assert "/" + (JoinSlash(other) + "/" + x) == "/" + JoinSlash(other) + "/" + x;
  }

  /** What a name leaves on top of a plain directory is plain. */
  lemma LeftPlain(dir: seq<string>, name: string)
    requires PlainElements(dir)
    ensures PlainElements(Resolve(Split(name), dir))
  {
    forall i | 0 <= i < |Split(name)| ensures '/' !in Split(name)[i] { SplitHasNoSlash(name, i); }
    ResolveLeavesPlain(Split(name), dir);
  }

  lemma JoinedElements(other: seq<string>, x: string, left: seq<string>)
    requires other != [] && PlainElements(other) && PlainElements(left)
    requires "/" + JoinSlash(left) == DirOf(other) + x
    ensures left == other + Split(x)
  {
    var inner := JoinSlash(other) + "/" + x;
    assert DirOf(other) + x == "/" + inner;
    assert JoinSlash(left) == inner by {
      assert ("/" + JoinSlash(left))[1..] == JoinSlash(left) && ("/" + inner)[1..] == inner;
    }
    SplitConcat(JoinSlash(other), x);
    SplitJoin(other);
    assert left != [] by { assert JoinSlash([]) == ""; }
    SplitJoin(left);
  }

  /** The key of a name is the directory followed by the name if and only if the name is plain. */
  lemma KeyExactly(dir: seq<string>, name: string)
    requires dir != [] && PlainElements(dir)
    ensures PathJoin(DirOf(dir), name) == DirOf(dir) + name <==> PlainName(name)
  {
    JoinedKeyExactly(dir, name, dir, name);
    var left := Resolve(Split(name), dir);
    if PlainName(name) { ResolvePlain(Split(name), dir); }
    if left == dir + Split(name) {
      LeftPlain(dir, name);
      forall i | 0 <= i < |Split(name)| ensures PlainElement(Split(name)[i]) {
        assert Split(name)[i] == left[|dir| + i];
      }
    }
  }

  // ---------- tasks and tombstones ----------

  const TASK_DIR: seq<string> := ["distributed_cron", "tasks"]

  function TaskKey(name: string): string {
    PathJoin(DirOf(TASK_DIR), name)
  }

  const DELETED_DIR: seq<string> := ["distributed_cron", "deleted_tasks"]

  function DeletedKey(name: string): string {
    PathJoin(DirOf(DELETED_DIR), name)
  }

  /** The names read back from the keys under the tombstone directory. */
  ghost function Listed(keys: set<string>): set<string> {
    set k | k in keys && DirOf(DELETED_DIR) <= k :: k[|DirOf(DELETED_DIR)|..]
  }

  lemma DeletedKeyExactly(name: string)
    ensures DeletedKey(name) == DirOf(DELETED_DIR) + name <==> PlainName(name)
  {
    KeyExactly(DELETED_DIR, name);
  }

  lemma InListed(keys: set<string>, name: string)
    ensures name in Listed(keys) <==> DirOf(DELETED_DIR) + name in keys
  {
    var dir := DirOf(DELETED_DIR);
    if name in Listed(keys) {
      var k :| k in keys && dir <= k && k[|dir|..] == name;
      assert k == dir + name;
    }
    if dir + name in keys { assert (dir + name)[|dir|..] == name; }
  }

  /** A marked name is listed if and only if it is plain; then no other name is. */
  lemma MarkListsExactly(keys: set<string>, name: string)
    requires name !in Listed(keys)
    ensures name in Listed(keys + {DeletedKey(name)}) <==> PlainName(name)
    ensures PlainName(name) ==> Listed(keys + {DeletedKey(name)}) == Listed(keys) + {name}
  {
    DeletedKeyExactly(name);
    InListed(keys, name);
    InListed(keys + {DeletedKey(name)}, name);
    forall n ensures PlainName(name) ==> (n in Listed(keys + {DeletedKey(name)}) <==> n in Listed(keys) + {name}) {
      InListed(keys, n);
      InListed(keys + {DeletedKey(name)}, n);
    }
  }

  /** Removing the tombstone of a plain name removes that name and no other. */
  lemma RemoveUnlists(keys: set<string>, name: string)
    requires PlainName(name)
    ensures Listed(keys - {DeletedKey(name)}) == Listed(keys) - {name}
  {
    DeletedKeyExactly(name);
    forall n ensures n in Listed(keys - {DeletedKey(name)}) <==> n in Listed(keys) - {name} {
      InListed(keys, n);
      InListed(keys - {DeletedKey(name)}, n);
      if DirOf(DELETED_DIR) + n == DirOf(DELETED_DIR) + name {
        assert (DirOf(DELETED_DIR) + n)[|DirOf(DELETED_DIR)|..] == n;
        assert (DirOf(DELETED_DIR) + name)[|DirOf(DELETED_DIR)|..] == name;
      }
    }
  }

  /** Names that are not plain share keys: a trailing slash makes no difference. */
  lemma TrailingSlashShares(name: string)
    ensures DeletedKey(name + "/") == DeletedKey(name) && !PlainName(name + "/")
  {
    SplitConcat(name, "");
    assert name + "/" + "" == name + "/";
    JoinResolves(DELETED_DIR, name + "/");
    JoinResolves(DELETED_DIR, name);
    ResolveConcat(Split(name), [""], DELETED_DIR);
    assert Split(name + "/")[|Split(name)|] == "";
  }

  lemma DirsApart(name: string)
    ensures !(DirOf(DELETED_DIR) <= DirOf(TASK_DIR) + name)
  {
    assert JoinSlash(DELETED_DIR) == "distributed_cron" + "/" + "deleted_tasks";
    assert JoinSlash(TASK_DIR) == "distributed_cron" + "/" + "tasks";
    assert DirOf(DELETED_DIR)[18] == 'd' && (DirOf(TASK_DIR) + name)[18] == 't';
  }

  /** Storing a task under a plain name leaves the listed tombstones alone. */
  lemma PutKeepsTombstones(keys: set<string>, name: string)
    requires PlainName(name)
    ensures Listed(keys + {TaskKey(name)}) == Listed(keys)
  {
    KeyExactly(TASK_DIR, name);
    DirsApart(name);
    forall n ensures n in Listed(keys + {TaskKey(name)}) <==> n in Listed(keys) {
      InListed(keys, n);
      InListed(keys + {TaskKey(name)}, n);
      assert DirOf(DELETED_DIR) <= DirOf(DELETED_DIR) + n;
    }
  }

  /** The tombstone keys of the registry. */
  class TombstoneStore {
    var keys: set<string>

    method MarkTaskDeleted(name: string)
      modifies this
      ensures keys == old(keys) + {DeletedKey(name)}
      ensures PlainName(name) ==> Listed(keys) == Listed(old(keys)) + {name}
      ensures name !in Listed(old(keys)) && !PlainName(name) ==> name !in Listed(keys)
    {
      if name !in Listed(keys) { MarkListsExactly(keys, name); }
      if PlainName(name) {
        DeletedKeyExactly(name);
        InListed(keys, name);
      }
      keys := keys + {DeletedKey(name)};
    }

    method RemoveTaskDeleted(name: string)
      modifies this
      ensures keys == old(keys) - {DeletedKey(name)}
      ensures PlainName(name) ==> Listed(keys) == Listed(old(keys)) - {name}
    {
      if PlainName(name) { RemoveUnlists(keys, name); }
      keys := keys - {DeletedKey(name)};
    }

    /** The names of the keys under the directory, in whatever order they come. */
    method GetDeletedTaskNames() returns (names: seq<string>)
      ensures forall n :: n in names <==> n in Listed(keys)
    {
      names := [];
      var rest := keys;
      while rest != {}
        invariant rest <= keys && forall n :: n in names <==> n in Listed(keys - rest)
        decreases rest
      {
        var k :| k in rest;
        ghost var done := keys - rest;
        rest := rest - {k};
        assert keys - rest == done + {k};
        if DirOf(DELETED_DIR) <= k { names := names + [k[|DirOf(DELETED_DIR)|..]]; }
      }
      assert keys - rest == keys;
    }
  }
}
