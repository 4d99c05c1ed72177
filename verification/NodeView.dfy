/** The node list a node works with: sorted by id, and replaced when a checksum of the ids changes. */
module NodeView {
  import opened Lex
  import A = Assigners

  /** `strings.Join(ids, ",")`. */
  function Join(ids: seq<string>): string
    decreases |ids|
  {
    if ids == [] then "" else if |ids| == 1 then ids[0] else ids[0] + "," + Join(ids[1..])
  }

  function Ids(nodes: seq<A.Node>): (ids: seq<string>)
    ensures |ids| == |nodes| && forall i :: 0 <= i < |nodes| ==> ids[i] == nodes[i].id
  {
    seq(|nodes|, i requires 0 <= i < |nodes| => nodes[i].id)
  }

  /** An id that `Join` can be undone on. */
  predicate PlainId(id: string) {
    id != "" && ',' !in id
  }

  predicate PlainIds(ids: seq<string>) {
    forall i :: 0 <= i < |ids| ==> PlainId(ids[i])
  }

  lemma {:induction false} CommaSplits(a: string, b: string, x: string, y: string)
    requires ',' !in a && ',' !in b && a + "," + x == b + "," + y
    ensures a == b && x == y
  {
    var s, t := a + "," + x, b + "," + y;
    assert s[|a|] == ',' && t[|b|] == ',';
    assert forall k :: 0 <= k < |a| ==> s[k] != ',' by {
      forall k | 0 <= k < |a| ensures s[k] != ',' { assert s[k] == a[k]; }
    }
    assert forall k :: 0 <= k < |b| ==> t[k] != ',' by {
      forall k | 0 <= k < |b| ensures t[k] != ',' { assert t[k] == b[k]; }
    }
    assert |a| == |b|;
    assert s[..|a|] == a && t[..|b|] == b;
    assert s[|a| + 1..] == x && t[|b| + 1..] == y;
  }

  lemma JoinHasComma(ids: seq<string>)
    requires |ids| > 1
    ensures ',' in Join(ids)
  {
    assert Join(ids)[|ids[0]|] == ',';
  }

  /** Comma-free, non-empty ids can be read back from the joined string. */
  lemma {:induction false} JoinInjective(a: seq<string>, b: seq<string>)
    requires PlainIds(a) && PlainIds(b) && Join(a) == Join(b)
    ensures a == b
    decreases |a|
  {
    if |a| > 1 && |b| > 1 {
      CommaSplits(a[0], b[0], Join(a[1..]), Join(b[1..]));
      JoinInjective(a[1..], b[1..]);
      assert a == [a[0]] + a[1..] && b == [b[0]] + b[1..];
    } else {
      if |a| > 1 { JoinHasComma(a); }
      if |b| > 1 { JoinHasComma(b); }
      assert |a| <= 1 && |b| <= 1;
    }
  }

  /** The change detection of a reload: the checksums of the joined ids differ. */
  predicate Changed(crc: string -> A.Word, before: seq<A.Node>, after: seq<A.Node>) {
    crc(Join(Ids(after))) != crc(Join(Ids(before)))
  }

  predicate Collide(crc: string -> A.Word, a: string, b: string) {
    a != b && crc(a) == crc(b)
  }

  function IdSet(nodes: seq<A.Node>): set<string> {
    set id | id in Ids(nodes)
  }

  lemma SortedIdsList(nodes: seq<A.Node>)
    requires A.SortedIds(nodes) && A.DistinctIds(nodes)
    ensures Lists(Ids(nodes), IdSet(nodes))
  {
    forall i, j | 0 <= i < j < |nodes| ensures Less(nodes[i].id, nodes[j].id) {
      LessTrichotomy(nodes[i].id, nodes[j].id);
    }
  }

  /** Over sorted lists of distinct plain ids, a reload reports a change exactly when the set of members
      changed and the two joined strings do not collide. Weights never count. */
  lemma ChangeSeen(crc: string -> A.Word, before: seq<A.Node>, after: seq<A.Node>)
    requires A.SortedIds(before) && A.DistinctIds(before) && PlainIds(Ids(before))
    requires A.SortedIds(after) && A.DistinctIds(after) && PlainIds(Ids(after))
    ensures Changed(crc, before, after) <==>
      IdSet(before) != IdSet(after) && !Collide(crc, Join(Ids(before)), Join(Ids(after)))
  {
    if Join(Ids(before)) == Join(Ids(after)) {
      JoinInjective(Ids(before), Ids(after));
    } else if IdSet(before) == IdSet(after) {
      SortedIdsList(before);
      SortedIdsList(after);
      ListsUnique(Ids(before), Ids(after), IdSet(before));
    }
  }

  /** An id with a comma in it reads like two ids: under every checksum such a change is missed. */
  lemma CommaHidesChange(crc: string -> A.Word, a: string, b: string, v: int, w: int, x: int)
    ensures !Changed(crc, [A.Node(a + "," + b, v)], [A.Node(a, w), A.Node(b, x)])
  {
    var one, two := Ids([A.Node(a + "," + b, v)]), Ids([A.Node(a, w), A.Node(b, x)]);
    assert one == [a + "," + b] && two == [a, b];
    assert two[1..] == [b];
    assert Join(two) == a + "," + Join([b]);
  }

  // ---------- one order for everybody ----------

  /** A node with the least id comes first. */
  lemma FirstIsLeast(a: seq<A.Node>, n: A.Node)
    requires A.SortedIds(a) && n in a
    ensures AtMost(a[0].id, n.id)
  {
    var i :| 0 <= i < |a| && a[i] == n;
    LessIrreflexive(n.id);
  }

  lemma SameFirst(a: seq<A.Node>, b: seq<A.Node>)
    requires A.SortedIds(a) && A.SortedIds(b) && A.DistinctIds(a) && multiset(a) == multiset(b)
    requires a != [] && b != []
    ensures a[0] == b[0]
  {
    assert a[0] in multiset(b) && b[0] in multiset(a);
    FirstIsLeast(b, a[0]);
    FirstIsLeast(a, b[0]);
    LessTrichotomy(a[0].id, b[0].id);
    var i :| 0 <= i < |a| && a[i] == b[0];
  }

  /** Nodes with distinct ids have one sorted order, so every member that was given the same nodes, in
      any order, works with the same list. */
  lemma {:induction false} SortedOrderUnique(a: seq<A.Node>, b: seq<A.Node>)
    requires A.SortedIds(a) && A.SortedIds(b) && A.DistinctIds(a) && multiset(a) == multiset(b)
    ensures a == b
    decreases |a|
  {
    assert |a| == |multiset(a)| && |b| == |multiset(b)|;
    if a != [] {
      SameFirst(a, b);
      assert a == [a[0]] + a[1..] && b == [b[0]] + b[1..];
      assert multiset(a[1..]) == multiset(a) - multiset{a[0]};
      assert multiset(b[1..]) == multiset(b) - multiset{b[0]};
      SortedOrderUnique(a[1..], b[1..]);
    }
  }

  /** The step of sorting by id: put one node in its place. */
  function InsertNode(s: seq<A.Node>, n: A.Node): (r: seq<A.Node>)
    ensures multiset(r) == multiset(s) + multiset{n}
    decreases |s|
  {
    if s == [] then [n]
    else if Less(n.id, s[0].id) then [n] + s
    else
      assert s == [s[0]] + s[1..];
      [s[0]] + InsertNode(s[1..], n)
  }

  lemma {:induction false} InsertKeepsOrder(s: seq<A.Node>, n: A.Node)
    requires A.SortedIds(s)
    ensures A.SortedIds(InsertNode(s, n))
    decreases |s|
  {
    if s != [] {
      if Less(n.id, s[0].id) {
        LessTrichotomy(n.id, s[0].id);
        forall i | 0 <= i < |s| ensures AtMost(n.id, s[i].id) {
          if i > 0 { AtMostTransitive(n.id, s[0].id, s[i].id); }
        }
      } else {
        var t := InsertNode(s[1..], n);
        InsertKeepsOrder(s[1..], n);
        forall i | 0 <= i < |t| ensures AtMost(s[0].id, t[i].id) {
          assert t[i] in multiset(t);
          if t[i] != n {
            assert t[i] in s[1..];
            FirstIsLeast(s, t[i]);
          }
        }
      }
    }
  }

  /** The working nodes sorted by id. */
  method SortById(nodes: seq<A.Node>) returns (r: seq<A.Node>)
    ensures A.SortedIds(r) && multiset(r) == multiset(nodes)
  {
    r := [];
    for i := 0 to |nodes|
      invariant A.SortedIds(r) && multiset(r) == multiset(nodes[..i])
    {
      assert nodes[..i + 1] == nodes[..i] + [nodes[i]];
      InsertKeepsOrder(r, nodes[i]);
      r := InsertNode(r, nodes[i]);
    }
    assert nodes[..|nodes|] == nodes;
  }

  /** The ids of a list, collected in order. */
  method CollectIds(nodes: seq<A.Node>) returns (ids: seq<string>)
    ensures ids == Ids(nodes)
  {
    ids := [];
    for i := 0 to |nodes|
      invariant ids == Ids(nodes)[..i]
    {
      ids := ids + [nodes[i].id];
    }
  }
}
