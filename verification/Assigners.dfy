/** The five in-repository assignment strategies, each proved against one ownership function. */
module Assigners {
  import opened Division
  import opened Lex

  const WORD: int := 0x1_0000_0000

  /** uint32, the result of the CRC. The polynomial plays no part: every function of the name will do. */
  type Word = n: int | 0 <= n < WORD

  type Positive = n: int | n > 0 witness 1

  /** The fields of a node that assignment reads. */
  datatype Node = Node(id: string, weight: int)

  datatype Strategy = HashSharding | HashSlot(slotCount: nat) | Range | Weighted | RoundRobin

  /** Who owns a task: a node index, nobody, or a division by zero on the way. */
  datatype Ownership = Owned(index: nat) | Nobody | DividesByZero

  datatype Verdict = Yes | No | Panic

  /** `hash % uint32(m)`, with Go's wrap-around of the conversion. */
  function Residue(hash: Word, m: int): Ownership {
    if m % WORD == 0 then DividesByZero else Owned(hash % (m % WORD))
  }

  /** Every hash is split one way, and the split names the residue; uint32 keeps the modulus modulo 2^32. */
  lemma ResidueExactly(hash: Word, m: int, i: int)
    requires i >= 0
    ensures Residue(hash, m) == Owned(i) <==> exists k :: Splits(hash, m % WORD, k, i)
    ensures Residue(hash, m) == DividesByZero <==> m % WORD == 0
  {
    var w := m % WORD;
    if w != 0 { DivisionSplits(hash, w); }
    if k :| Splits(hash, w, k, i) { SplitIsDivision(hash, w, k, i); }
  }

  // ---------- the share of each residue ----------

  /** The hashes below a bound whose residue is i. */
  ghost function HashesTo(m: int, i: int, bound: int): set<int>
    requires bound <= WORD && i >= 0
  {
    set h: int | 0 <= h < bound && Residue(h, m) == Owned(i)
  }

  lemma HashesNext(m: int, i: nat, n: nat)
    requires 0 < m < WORD && i < m && n < WORD
    ensures |HashesTo(m, i, n + 1)| == |HashesTo(m, i, n)| + if n % m == i then 1 else 0
  {
    assert Residue(n, m) == Owned(n % m);
    assert HashesTo(m, i, n + 1) == if n % m == i then HashesTo(m, i, n) + {n} else HashesTo(m, i, n);
  }

  lemma ShareNext(m: int, i: nat, n: nat)
    requires 0 < m && i < m
    ensures (n + 1) / m + (if i < (n + 1) % m then 1 else 0)
         == n / m + (if i < n % m then 1 else 0) + (if n % m == i then 1 else 0)
  {
    NextDivision(n, m);
  }

  lemma {:induction false} HashCount(m: int, i: nat, n: nat)
    requires 0 < m < WORD && i < m && n <= WORD
    ensures |HashesTo(m, i, n)| == n / m + if i < n % m then 1 else 0
  {
    if n == 0 {
      assert HashesTo(m, i, 0) == {};
      SplitIsDivision(0, m, 0, 0);
    } else {
      HashCount(m, i, n - 1);
      HashesNext(m, i, n - 1);
      ShareNext(m, i, n - 1);
    }
  }

  /** The 2^32 hashes are shared out evenly: any two residues get the same number, give or take one. */
  lemma HashesShared(m: int, i: nat, j: nat)
    requires 0 < m < WORD && i < m && j < m
    ensures -1 <= |HashesTo(m, i, WORD)| - |HashesTo(m, j, WORD)| <= 1
    ensures |HashesTo(m, i, WORD)| >= WORD / m
  {
    HashCount(m, i, WORD);
    HashCount(m, j, WORD);
  }

  /** A node's answer when the owner is known. */
  function Answer(o: Ownership, nodes: seq<Node>, nodeID: string): Verdict
    requires o.Owned? ==> o.index < |nodes|
  {
    match o
    case Owned(i) => if nodes[i].id == nodeID then Yes else No
    case Nobody => No
    case DividesByZero => Panic
  }

  /** The owner of `task`, the `asked`-th task asked about since the node list was set. */
  ghost function Owner(st: Strategy, crc: string -> Word, nodes: seq<Node>, asked: nat, task: string): (o: Ownership)
    requires nodes != []
    ensures o.Owned? ==> o.index < |nodes|
  {
    match st
    case HashSharding => Sharded(crc(task), nodes)
    case HashSlot(count) =>
      var slot := Residue(crc(task), count);
      if slot.Owned? then Owned(SlotOwner(count, |nodes|, SlotInRange(crc(task), count))) else slot
    case Range => Owned(RangeOwner(nodes, task, 0))
    case Weighted =>
      var residue := Residue(crc(task), Prefix(nodes, |nodes|));
      if residue.Owned? then WeightOwner(nodes, residue.index, 0) else residue
    case RoundRobin => Owned(asked % |nodes|)
  }

  // ---------- hash sharding ----------

  function Sharded(hash: Word, nodes: seq<Node>): (o: Ownership)
    requires nodes != []
    ensures o.Owned? ==> o.index < |nodes|
  {
    Residue(hash, |nodes|)
  }

  class HashShardingAssigner {
    const crc: string -> Word
    var nodes: seq<Node>

    constructor (crc: string -> Word)
      ensures this.crc == crc && nodes == []
    {
      this.crc := crc;
      nodes := [];
    }

    method UpdateNodes(nodes: seq<Node>)
      modifies this
      ensures this.nodes == nodes
    {
      this.nodes := nodes;
    }

    method ShouldRun(taskName: string, nodeID: string) returns (v: Verdict)
      ensures v == if nodes == [] then No else Answer(Owner(HashSharding, crc, nodes, 0, taskName), nodes, nodeID)
      ensures forall k, i :: Splits(crc(taskName), |nodes| % WORD, k, i) ==> v == if nodes[i].id == nodeID then Yes else No
    {
      if |nodes| == 0 { return No; }
      var modulus := |nodes| % WORD;
      if modulus == 0 { return Panic; }
      var index := crc(taskName) % modulus;
      forall k, i | Splits(crc(taskName), modulus, k, i) ensures i == index {
        SplitIsDivision(crc(taskName), modulus, k, i);
      }
      return if nodes[index].id == nodeID then Yes else No;
    }
  }

  // ---------- hash slots ----------

  /** The slots given to node i: the even share, and one extra for the first few nodes. */
  function BlockSize(slotCount: nat, n: nat, i: nat): nat
    requires n > 0
  {
    slotCount / n + if i < slotCount % n then 1 else 0
  }

  /** Where node i's slots begin when every block is filled. */
  function BlockStart(slotCount: nat, n: nat, i: nat): nat
    requires n > 0
  {
    if i == 0 then 0 else BlockStart(slotCount, n, i - 1) + BlockSize(slotCount, n, i - 1)
  }

  /** Blocks start at i*q + min(i, r), so they end exactly at the slot count. */
  lemma {:induction false} BlockStartClosed(slotCount: nat, n: nat, i: nat)
    requires n > 0
    ensures BlockStart(slotCount, n, i)
         == i * (slotCount / n) + if i < slotCount % n then i else slotCount % n
  {
    if i > 0 {
      BlockStartClosed(slotCount, n, i - 1);
      Distribute(i, slotCount / n);
    }
  }

  lemma Distribute(i: int, q: int)
    ensures i * q == (i - 1) * q + q
  {
  }

  lemma BlocksFill(slotCount: nat, n: nat)
    requires n > 0
    ensures BlockStart(slotCount, n, n) == slotCount
  {
    BlockStartClosed(slotCount, n, n);
    assert n * (slotCount / n) + slotCount % n == slotCount;
  }

  lemma {:induction false} BlockStartMonotone(slotCount: nat, n: nat, i: nat, j: nat)
    requires n > 0 && i <= j
    ensures BlockStart(slotCount, n, i) <= BlockStart(slotCount, n, j)
    decreases j
  {
    if i < j { BlockStartMonotone(slotCount, n, i, j - 1); }
  }

  /** Node i's block. */
  predicate InBlock(slotCount: nat, n: nat, i: nat, slot: nat)
    requires n > 0
  {
    BlockStart(slotCount, n, i) <= slot < BlockStart(slotCount, n, i + 1)
  }

  /** Every slot lies in the block of exactly one node. */
  lemma BlocksPartition(slotCount: nat, n: nat, slot: nat)
    requires n > 0 && slot < slotCount
    ensures exists i :: 0 <= i < n && InBlock(slotCount, n, i, slot)
    ensures forall i, j ::
      0 <= i < n && 0 <= j < n && InBlock(slotCount, n, i, slot) && InBlock(slotCount, n, j, slot) ==> i == j
  {
    BlocksFill(slotCount, n);
    var i := 0;
    while BlockStart(slotCount, n, i + 1) <= slot
      invariant i < n && BlockStart(slotCount, n, i) <= slot
      decreases n - i
    {
      if i + 1 == n { assert false; }
      i := i + 1;
    }
    assert InBlock(slotCount, n, i, slot);
    forall a, b | 0 <= a < b < n && InBlock(slotCount, n, a, slot) ensures !InBlock(slotCount, n, b, slot) {
      BlockStartMonotone(slotCount, n, a + 1, b);
    }
  }

  /** The node whose block holds the slot. */
  ghost function SlotOwner(slotCount: nat, n: nat, slot: nat): (i: nat)
    requires n > 0 && slot < slotCount
    ensures i < n && InBlock(slotCount, n, i, slot)
  {
    BlocksPartition(slotCount, n, slot);
    var i :| 0 <= i < n && InBlock(slotCount, n, i, slot);
    i
  }

  function SlotInRange(hash: Word, slotCount: nat): (slot: nat)
    requires slotCount % WORD != 0
    ensures slot < slotCount && Residue(hash, slotCount) == Owned(slot)
  {
    hash % (slotCount % WORD)
  }

  class HashSlotAssigner {
    const crc: string -> Word
    const slotCount: Positive
    var slots: seq<string>

    constructor (crc: string -> Word, slot: nat)
      ensures this.crc == crc && slotCount == (if slot == 0 then 16384 else slot)
      ensures |slots| == slotCount && forall i :: 0 <= i < |slots| ==> slots[i] == ""
    {
      this.crc := crc;
      var count := if slot == 0 then 16384 else slot;
      slotCount := count;
      slots := seq(count, i => "");
    }

    /** Every slot ends up with the node whose block holds it; with no nodes nothing changes. */
    method UpdateNodes(nodes: seq<Node>)
      modifies this
      ensures nodes == [] ==> slots == old(slots)
      ensures nodes != [] ==> |slots| == slotCount
      ensures nodes != [] ==>
        forall s :: 0 <= s < slotCount ==> slots[s] == nodes[SlotOwner(slotCount, |nodes|, s)].id
    {
      if |nodes| == 0 { return; }
      var buffer := new string[slotCount](i => "");
      var slotsPerNode, extraSlots := slotCount / |nodes|, slotCount % |nodes|;
      var slotIndex := 0;
      BlocksFill(slotCount, |nodes|);
      for i := 0 to |nodes|
        invariant slotIndex == BlockStart(slotCount, |nodes|, i) <= slotCount
        invariant forall s :: 0 <= s < slotIndex ==> buffer[s] == nodes[SlotOwner(slotCount, |nodes|, s)].id
      {
        BlockStartMonotone(slotCount, |nodes|, i + 1, |nodes|);
        var slotsNum := slotsPerNode;
        if i < extraSlots { slotsNum := slotsNum + 1; }
        var j := 0;
        while j < slotsNum && slotIndex < slotCount
          invariant j <= slotsNum
          invariant slotIndex == BlockStart(slotCount, |nodes|, i) + j <= slotCount
          invariant forall s :: 0 <= s < slotIndex ==> buffer[s] == nodes[SlotOwner(slotCount, |nodes|, s)].id
        {
          SlotOwnerIs(slotCount, |nodes|, i, slotIndex);
          buffer[slotIndex] := nodes[i].id;
          slotIndex := slotIndex + 1;
          j := j + 1;
        }
      }
      slots := buffer[..];
    }

    method ShouldRun(taskName: string, nodeID: string) returns (v: Verdict)
      requires |slots| == slotCount
      ensures slotCount % WORD != 0 ==>
        v == if slots[SlotInRange(crc(taskName), slotCount)] == nodeID then Yes else No
      ensures slotCount % WORD == 0 ==> v == if slots == [] then No else Panic
      ensures forall k, i :: Splits(crc(taskName), slotCount % WORD, k, i) ==> v == if slots[i] == nodeID then Yes else No
    {
      if |slots| == 0 { return No; }
      var modulus := slotCount % WORD;
      if modulus == 0 { return Panic; }
      forall k, i | Splits(crc(taskName), modulus, k, i) ensures i == crc(taskName) % modulus {
        SplitIsDivision(crc(taskName), modulus, k, i);
      }
      return if slots[crc(taskName) % modulus] == nodeID then Yes else No;
    }
  }

  lemma SlotOwnerIs(slotCount: nat, n: nat, i: nat, slot: nat)
    requires n > 0 && slot < slotCount && i < n && InBlock(slotCount, n, i, slot)
    ensures SlotOwner(slotCount, n, slot) == i
  {
    BlocksPartition(slotCount, n, slot);
  }

  /** Shares differ by at most one slot. */
  lemma BlocksEven(slotCount: nat, n: nat, i: nat, j: nat)
    requires n > 0
    ensures -1 <= (BlockStart(slotCount, n, i + 1) - BlockStart(slotCount, n, i))
                - (BlockStart(slotCount, n, j + 1) - BlockStart(slotCount, n, j)) <= 1
  {
  }

  // ---------- slots that move ----------

  /** With one more node no block starts later. */
  lemma BlocksShrink(slotCount: nat, n: nat, i: nat)
    requires 0 < n && i <= n
    ensures BlockStart(slotCount, n + 1, i) <= BlockStart(slotCount, n, i)
  {
    BlockStartClosed(slotCount, n, i);
    BlockStartClosed(slotCount, n + 1, i);
    Divided(slotCount, n);
    Divided(slotCount, n + 1);
    ShareShrinks(n, slotCount / n, slotCount % n, slotCount / (n + 1), slotCount % (n + 1), i);
  }

  lemma Divided(x: nat, d: nat)
    requires d > 0
    ensures d * (x / d) + x % d == x && x % d < d
  {
  }

  lemma ShareShrinks(n: nat, q: nat, r: nat, q': nat, r': nat, i: nat)
    requires r < n && r' <= n && i <= n && n * q + r == (n + 1) * q' + r'
    ensures i * q' + (if i < r' then i else r') <= i * q + (if i < r then i else r)
  {
    QuotientShrinks(n, q, r, q', r');
    if q' < q {
      Grows(i, q', q - 1);
      assert i * (q - 1) == i * q - i;
    }
  }

  lemma QuotientShrinks(n: nat, q: nat, r: nat, q': nat, r': nat)
    requires r < n && n * q + r == (n + 1) * q' + r'
    ensures q' <= q && (q' == q ==> r' <= r)
  {
    assert (n + 1) * q' == n * q' + q';
    if q < q' { Grows(n, q + 1, q'); }
  }

  /** With one more node each boundary between blocks lies at or after the boundary before it. */
  lemma {:induction false} BlocksFollow(slotCount: nat, n: nat, i: nat)
    requires 0 < n && i <= n
    ensures BlockStart(slotCount, n, i) <= BlockStart(slotCount, n + 1, i + 1)
    decreases n - i
  {
    if i == n {
      BlocksFill(slotCount, n);
      BlocksFill(slotCount, n + 1);
    } else {
      BlocksFollow(slotCount, n, i + 1);
      SizesShrink(slotCount, n, i);
    }
  }

  /** Block i + 1 of n + 1 is no larger than block i of n. */
  lemma SizesShrink(slotCount: nat, n: nat, i: nat)
    requires 0 < n && i < n
    ensures BlockSize(slotCount, n + 1, i + 1) <= BlockSize(slotCount, n, i)
  {
    Divided(slotCount, n);
    Divided(slotCount, n + 1);
    QuotientShrinks(n, slotCount / n, slotCount % n, slotCount / (n + 1), slotCount % (n + 1));
  }

  /** The new index of node i when a node joins at position p of the sorted list. */
  function Shifted(p: nat, i: nat): nat {
    if i < p then i else i + 1
  }

  /** The slot has the same owner after a node joined at position p. */
  ghost predicate Stays(slotCount: nat, n: nat, p: nat, slot: nat)
    requires n > 0 && slot < slotCount
  {
    SlotOwner(slotCount, n + 1, slot) == Shifted(p, SlotOwner(slotCount, n, slot))
  }

  /** When a node joins at position p, a slot of node i stays exactly when it lies on its side of the new boundary
      i + 1: before it if the node joins after i, from it on if the node joins at or before i. */
  lemma SlotStaysExactly(slotCount: nat, n: nat, p: nat, slot: nat)
    requires 0 < n && p <= n && slot < slotCount
    ensures var i := SlotOwner(slotCount, n, slot);
      Stays(slotCount, n, p, slot) <==> (slot < BlockStart(slotCount, n + 1, i + 1) <==> i < p)
  {
    var i := SlotOwner(slotCount, n, slot);
    BlocksShrink(slotCount, n, i);
    BlocksFollow(slotCount, n, i + 1);
    var j := Shifted(p, i);
    if InBlock(slotCount, n + 1, j, slot) { SlotOwnerIs(slotCount, n + 1, j, slot); }
  }

  /** In the tables that `UpdateNodes` builds before and after, the entry of a slot is the same id exactly when the slot
      stays. */
  lemma TableKeepsExactly(slotCount: nat, nodes: seq<Node>, joined: Node, p: nat, slot: nat)
    requires nodes != [] && p <= |nodes| && slot < slotCount
    requires DistinctIds(nodes[..p] + [joined] + nodes[p..])
    ensures var nodes' := nodes[..p] + [joined] + nodes[p..];
      nodes'[SlotOwner(slotCount, |nodes'|, slot)].id == nodes[SlotOwner(slotCount, |nodes|, slot)].id
      <==> Stays(slotCount, |nodes|, p, slot)
  {
    var nodes' := nodes[..p] + [joined] + nodes[p..];
    var i, j := SlotOwner(slotCount, |nodes|, slot), SlotOwner(slotCount, |nodes'|, slot);
    assert nodes'[Shifted(p, i)] == nodes[i];
  }

  /** The slots below a bound that stay. */
  ghost function StayingBelow(slotCount: nat, n: nat, p: nat, bound: nat): set<int>
    requires n > 0 && bound <= slotCount
  {
    set s: int | 0 <= s < bound && Stays(slotCount, n, p, s)
  }

  /** How many slots the first i nodes keep. */
  function Kept(slotCount: nat, n: nat, p: nat, i: nat): int
    requires n > 0
  {
    if i == 0 then 0
    else
      var boundary := BlockStart(slotCount, n + 1, i);
      Kept(slotCount, n, p, i - 1)
        + if i - 1 < p then boundary - BlockStart(slotCount, n, i - 1) else BlockStart(slotCount, n, i) - boundary
  }

  /** What node i keeps: the part of its block on its side of the new boundary. */
  lemma BlockStaying(slotCount: nat, n: nat, p: nat, i: nat)
    requires 0 < n && p <= n && i < n && BlockStart(slotCount, n, i + 1) <= slotCount
    ensures var lo, boundary, hi := BlockStart(slotCount, n, i), BlockStart(slotCount, n + 1, i + 1), BlockStart(slotCount, n, i + 1);
      && lo <= boundary <= hi
      && StayingBelow(slotCount, n, p, hi)
         == StayingBelow(slotCount, n, p, lo) + if i < p then Interval(lo, boundary) else Interval(boundary, hi)
  {
    BlocksFollow(slotCount, n, i);
    BlocksShrink(slotCount, n, i + 1);
    forall s | BlockStart(slotCount, n, i) <= s < BlockStart(slotCount, n, i + 1)
      ensures Stays(slotCount, n, p, s) <==> (s < BlockStart(slotCount, n + 1, i + 1) <==> i < p) {
      SlotOwnerIs(slotCount, n, i, s);
      SlotStaysExactly(slotCount, n, p, s);
    }
  }

  /** An interval above a set adds its length. */
  lemma AddInterval(below: set<int>, lo: int, hi: int)
    requires lo <= hi && forall s :: s in below ==> s < lo
    ensures |below + Interval(lo, hi)| == |below| + hi - lo
  {
    assert below !! Interval(lo, hi);
  }

  lemma StayingStep(slotCount: nat, n: nat, p: nat, i: nat)
    requires 0 < n && p <= n && i < n && BlockStart(slotCount, n, i + 1) <= slotCount
    ensures |StayingBelow(slotCount, n, p, BlockStart(slotCount, n, i + 1))|
      == |StayingBelow(slotCount, n, p, BlockStart(slotCount, n, i))|
         + if i < p then BlockStart(slotCount, n + 1, i + 1) - BlockStart(slotCount, n, i)
           else BlockStart(slotCount, n, i + 1) - BlockStart(slotCount, n + 1, i + 1)
  {
    BlockStaying(slotCount, n, p, i);
    var lo, boundary, hi := BlockStart(slotCount, n, i), BlockStart(slotCount, n + 1, i + 1), BlockStart(slotCount, n, i + 1);
    if i < p {
      AddInterval(StayingBelow(slotCount, n, p, lo), lo, boundary);
    } else {
      AddInterval(StayingBelow(slotCount, n, p, lo), boundary, hi);
    }
  }

  lemma BlocksWithin(slotCount: nat, n: nat, i: nat)
    requires 0 < n && i <= n
    ensures BlockStart(slotCount, n, i) <= slotCount
  {
    BlocksFill(slotCount, n);
    BlockStartMonotone(slotCount, n, i, n);
  }

  lemma {:induction false} StayingCount(slotCount: nat, n: nat, p: nat, i: nat)
    requires 0 < n && p <= n && i <= n
    ensures BlockStart(slotCount, n, i) <= slotCount
    ensures |StayingBelow(slotCount, n, p, BlockStart(slotCount, n, i))| == Kept(slotCount, n, p, i)
  {
    BlocksWithin(slotCount, n, i);
    if i == 0 {
      assert StayingBelow(slotCount, n, p, 0) == {};
    } else {
      StayingCount(slotCount, n, p, i - 1);
      StayingStep(slotCount, n, p, i - 1);
    }
  }

  lemma EvenDivision(share: nat, n: nat)
    requires n > 0
    ensures (share * n) / n == share && (share * n) % n == 0
  {
    var q, r := (share * n) / n, (share * n) % n;
    assert share * n == n * q + r;
    assert (share - q) * n == r;
    MultipleBelow(share - q, n, r);
  }

  lemma EvenBlocks(share: nat, n: nat, i: nat)
    requires n > 0
    ensures BlockStart(share * n, n, i) == i * share
  {
    EvenDivision(share, n);
    BlockStartClosed(share * n, n, i);
  }

  /** Twice what the first i nodes keep of an evenly divided table, in units of k slots. */
  function KeptTwice(n: nat, p: nat, i: nat): int {
    if i <= p then i * (2 * n - i + 1) else p * (2 * n - p + 1) + i * (i + 1) - p * (p + 1)
  }

  lemma {:induction false} KeptClosed(k: nat, n: nat, p: nat, slotCount: nat, i: nat)
    requires n > 0 && p <= n && i <= n && slotCount == k * (n + 1) * n && slotCount == k * n * (n + 1)
    ensures 2 * Kept(slotCount, n, p, i) == k * KeptTwice(n, p, i)
  {
    if i > 0 {
      KeptClosed(k, n, p, slotCount, i - 1);
      EvenBlocks(k * (n + 1), n, i - 1);
      EvenBlocks(k * (n + 1), n, i);
      EvenBlocks(k * n, n + 1, i);
      if i - 1 < p { KeptBefore(k, n, i); } else { KeptAfter(k, n, p, i); }
    }
  }

  lemma KeptBefore(k: nat, n: nat, i: nat)
    requires 0 < i <= n
    ensures k * ((i - 1) * (2 * n - (i - 1) + 1)) + 2 * (i * (k * n) - (i - 1) * (k * (n + 1))) == k * (i * (2 * n - i + 1))
  {
    var j := i - 1;
    assert i * (k * n) - j * (k * (n + 1)) == k * (i * n - j * (n + 1));
    assert j * (2 * n - j + 1) + 2 * (i * n - j * (n + 1)) == i * (2 * n - i + 1);
  }

  lemma KeptAfter(k: nat, n: nat, p: nat, i: nat)
    requires p < i <= n
    ensures k * KeptTwice(n, p, i - 1) + 2 * (i * (k * (n + 1)) - i * (k * n)) == k * KeptTwice(n, p, i)
  {
    assert i * (k * (n + 1)) - i * (k * n) == k * i;
    assert KeptTwice(n, p, i - 1) == p * (2 * n - p + 1) + (i - 1) * i - p * (p + 1);
    assert (i - 1) * i + 2 * i == i * (i + 1);
  }

  /** In an evenly divided table half of all slots, and k * p * (n - p) more, stay when a node joins at position p:
      half move when it joins at either end, a quarter or more wherever it joins. */
  lemma StayingSlots(k: nat, n: nat, p: nat)
    requires n > 0 && p <= n
    ensures var count := k * n * (n + 1);
      2 * |StayingBelow(count, n, p, count)| == count + 2 * (k * (p * (n - p)))
  {
    var count := k * n * (n + 1);
    assert count == k * (n + 1) * n;
    BlocksFill(count, n);
    StayingCount(count, n, p, n);
    KeptClosed(k, n, p, count, n);
    KeptAll(k, n, p);
  }

  lemma KeptAll(k: nat, n: nat, p: nat)
    requires p <= n
    ensures k * KeptTwice(n, p, n) == k * n * (n + 1) + 2 * (k * (p * (n - p)))
  {
    assert KeptTwice(n, p, n) == n * (n + 1) + 2 * (p * (n - p));
    assert k * (n * (n + 1) + 2 * (p * (n - p))) == k * (n * (n + 1)) + 2 * (k * (p * (n - p)));
  }

  /** When a node joins at the end of the list, half of all slots move, however many nodes there are. */
  lemma HalfTheSlotsMove(k: nat, n: nat)
    requires n > 0
    ensures var count := k * n * (n + 1);
      2 * |set s: nat | s < count && SlotOwner(count, n, s) == SlotOwner(count, n + 1, s)| == count
  {
    var count := k * n * (n + 1);
    StayingSlots(k, n, n);
    var same := set s: nat | s < count && SlotOwner(count, n, s) == SlotOwner(count, n + 1, s);
    assert same == StayingBelow(count, n, n, count);
  }

  // ---------- ranges ----------

  datatype RangeEntry = RangeEntry(start: string, end: string, node: string)

  /** The entry `UpdateNodes` builds for node i. */
  function EntryFor(nodes: seq<Node>, i: nat): RangeEntry
    requires i < |nodes|
  {
    RangeEntry(if i > 0 then nodes[i - 1].id else "", if i < |nodes| - 1 then nodes[i].id else "", nodes[i].id)
  }

  predicate Matches(re: RangeEntry, task: string) {
    (re.start == "" || Less(re.start, task)) && (re.end == "" || AtMost(task, re.end))
  }

  /** Lower-bound search: the first node, from i on, whose id the name does not exceed, else the last. */
  function RangeOwner(nodes: seq<Node>, task: string, i: nat): (r: nat)
    requires i < |nodes|
    ensures i <= r < |nodes|
    decreases |nodes| - i
  {
    if i == |nodes| - 1 || nodes[i].id == "" || AtMost(task, nodes[i].id) then i
    else RangeOwner(nodes, task, i + 1)
  }

  class RangeAssigner {
    var ranges: seq<RangeEntry>

    constructor ()
      ensures ranges == []
    {
      ranges := [];
    }

    method UpdateNodes(nodes: seq<Node>)
      modifies this
      ensures |ranges| == |nodes| && forall i :: 0 <= i < |nodes| ==> ranges[i] == EntryFor(nodes, i)
    {
      ranges := [];
      for i := 0 to |nodes|
        invariant |ranges| == i && forall k :: 0 <= k < i ==> ranges[k] == EntryFor(nodes, k)
      {
        var start := "";
        if i > 0 { start := nodes[i - 1].id; }
        var end := "";
        if i < |nodes| - 1 { end := nodes[i].id; }
        ranges := ranges + [RangeEntry(start, end, nodes[i].id)];
      }
    }

    /** The scan for the first matching entry is the lower-bound search. */
    method ShouldRun(taskName: string, nodeID: string, ghost nodes: seq<Node>) returns (v: Verdict)
      requires |ranges| == |nodes| && forall i :: 0 <= i < |nodes| ==> ranges[i] == EntryFor(nodes, i)
      ensures v == if nodes == [] then No else Answer(Owned(RangeOwner(nodes, taskName, 0)), nodes, nodeID)
    {
      for i := 0 to |ranges|
        invariant nodes != [] ==> i < |nodes|
        invariant i < |nodes| ==> RangeOwner(nodes, taskName, i) == RangeOwner(nodes, taskName, 0)
        invariant 0 < i < |nodes| ==> nodes[i - 1].id != "" && Less(nodes[i - 1].id, taskName)
      {
        var re := ranges[i];
        if (re.start == "" || Less(re.start, taskName)) && (re.end == "" || AtMost(taskName, re.end)) {
          return if re.node == nodeID then Yes else No;
        }
      }
      return No;
    }
  }

  ghost predicate SortedIds(nodes: seq<Node>) {
    forall i, j :: 0 <= i < j < |nodes| ==> AtMost(nodes[i].id, nodes[j].id)
  }

  /** Over sorted non-empty ids the ranges partition all names: one entry matches, the owner's. */
  lemma RangesPartition(nodes: seq<Node>, task: string, i: nat)
    requires SortedIds(nodes) && i < |nodes|
    requires forall k :: 0 <= k < |nodes| ==> nodes[k].id != ""
    ensures Matches(EntryFor(nodes, i), task) <==> i == RangeOwner(nodes, task, 0)
  {
    var r := RangeOwner(nodes, task, 0);
    RangeOwnerIsFirst(nodes, task, 0);
    if i < r {
      assert Less(nodes[i].id, task);
    } else if i > r {
      if Less(nodes[i - 1].id, task) {
        assert AtMost(task, nodes[r].id);
        if r < i - 1 { AtMostTransitive(task, nodes[r].id, nodes[i - 1].id); }
      }
    }
  }

  lemma {:induction false} RangeOwnerIsFirst(nodes: seq<Node>, task: string, i: nat)
    requires i < |nodes| && forall k :: 0 <= k < |nodes| ==> nodes[k].id != ""
    ensures var r := RangeOwner(nodes, task, i);
      && (forall k :: i <= k < r ==> Less(nodes[k].id, task))
      && (r < |nodes| - 1 ==> AtMost(task, nodes[r].id))
    decreases |nodes| - i
  {
    if i < |nodes| - 1 && !AtMost(task, nodes[i].id) { RangeOwnerIsFirst(nodes, task, i + 1); }
  }

  /** Later names never go to earlier nodes. */
  lemma {:induction false} RangeMonotone(nodes: seq<Node>, early: string, late: string, i: nat)
    requires i < |nodes| && AtMost(early, late)
    ensures RangeOwner(nodes, early, i) <= RangeOwner(nodes, late, i)
    decreases |nodes| - i
  {
    if i < |nodes| - 1 && nodes[i].id != "" && !AtMost(early, nodes[i].id) {
      if AtMost(late, nodes[i].id) { AtMostTransitive(early, late, nodes[i].id); }
      RangeMonotone(nodes, early, late, i + 1);
    }
  }

  // ---------- weights ----------

  /** The sum of the first i weights. */
  function Prefix(nodes: seq<Node>, i: nat): int
    requires i <= |nodes|
  {
    if i == 0 then 0 else Prefix(nodes, i - 1) + nodes[i - 1].weight
  }

  /** The first node, from i on, whose prefix sum exceeds the residue. */
  function WeightOwner(nodes: seq<Node>, residue: nat, i: nat): (o: Ownership)
    requires i <= |nodes|
    ensures !o.DividesByZero? && (o.Owned? ==> i <= o.index < |nodes|)
    decreases |nodes| - i
  {
    if i == |nodes| then Nobody
    else if residue < Prefix(nodes, i + 1) then Owned(i)
    else WeightOwner(nodes, residue, i + 1)
  }

  class WeightedAssigner {
    const crc: string -> Word
    var nodes: seq<Node>
    var totalWeight: int

    constructor (crc: string -> Word)
      ensures this.crc == crc && nodes == [] && totalWeight == 0
    {
      this.crc := crc;
      nodes, totalWeight := [], 0;
    }

    method UpdateNodes(nodes: seq<Node>)
      modifies this
      ensures this.nodes == nodes && totalWeight == Prefix(nodes, |nodes|)
    {
      this.nodes := nodes;
      totalWeight := 0;
      for i := 0 to |nodes|
        invariant this.nodes == nodes && totalWeight == Prefix(nodes, i)
      {
        totalWeight := totalWeight + nodes[i].weight;
      }
    }

    method ShouldRun(taskName: string, nodeID: string) returns (v: Verdict)
      requires totalWeight == Prefix(nodes, |nodes|)
      ensures v == if nodes == [] then No else Answer(Owner(Weighted, crc, nodes, 0, taskName), nodes, nodeID)
      ensures forall k, r, i :: NonNegative(nodes) && Splits(crc(taskName), totalWeight % WORD, k, r) && Spans(nodes, i, r) ==>
        v == if nodes[i].id == nodeID then Yes else No
    {
      forall k, r, i | NonNegative(nodes) && Splits(crc(taskName), totalWeight % WORD, k, r) && Spans(nodes, i, r)
        ensures Owner(Weighted, crc, nodes, 0, taskName) == Owned(i) {
        WeightedPicks(crc, nodes, 0, taskName, k, r, i);
      }
      if |nodes| == 0 { return No; }
      var modulus := totalWeight % WORD;
      if modulus == 0 { return Panic; }
      var residue := crc(taskName) % modulus;
      var weight := residue;
      for i := 0 to |nodes|
        invariant weight == residue - Prefix(nodes, i)
        invariant WeightOwner(nodes, residue, i) == WeightOwner(nodes, residue, 0)
      {
        weight := weight - nodes[i].weight;
        if weight < 0 { return if nodes[i].id == nodeID then Yes else No; }
      }
      return No;
    }
  }

  /** Node i's interval of prefix sums holds the residue. */
  ghost predicate Spans(nodes: seq<Node>, i: int, residue: int) {
    0 <= i < |nodes| && Prefix(nodes, i) <= residue < Prefix(nodes, i + 1)
  }

  /** The weighted strategy picks the node whose interval holds the remainder of the hash. */
  lemma WeightedPicks(crc: string -> Word, nodes: seq<Node>, asked: nat, task: string, k: int, r: int, i: int)
    requires nodes != [] && NonNegative(nodes) && Splits(crc(task), Prefix(nodes, |nodes|) % WORD, k, r) && Spans(nodes, i, r)
    ensures Owner(Weighted, crc, nodes, asked, task) == Owned(i)
  {
    SplitIsDivision(crc(task), Prefix(nodes, |nodes|) % WORD, k, r);
    PrefixMonotone(nodes, i + 1, |nodes|);
    WeightedInterval(nodes, r, i);
  }

  /** Hash sharding picks the node at the remainder of the hash. */
  lemma ShardingPicks(crc: string -> Word, nodes: seq<Node>, asked: nat, task: string, k: int, i: int)
    requires nodes != [] && Splits(crc(task), |nodes| % WORD, k, i)
    ensures Owner(HashSharding, crc, nodes, asked, task) == Owned(i)
  {
    SplitIsDivision(crc(task), |nodes| % WORD, k, i);
  }

  /** Hash slots pick the node whose block holds the slot at the remainder of the hash. */
  lemma SlotsPick(crc: string -> Word, nodes: seq<Node>, count: nat, asked: nat, task: string, k: int, slot: int, i: nat)
    requires nodes != [] && i < |nodes| && Splits(crc(task), count % WORD, k, slot) && slot < count
    requires InBlock(count, |nodes|, i, slot)
    ensures Owner(HashSlot(count), crc, nodes, asked, task) == Owned(i)
  {
    SplitIsDivision(crc(task), count % WORD, k, slot);
    SlotOwnerIs(count, |nodes|, i, slot);
  }

  ghost predicate NonNegative(nodes: seq<Node>) {
    forall i :: 0 <= i < |nodes| ==> nodes[i].weight >= 0
  }

  /** Some prefix sum, after the first i nodes, exceeds the residue. */
  ghost predicate SomeExceeds(nodes: seq<Node>, residue: int, i: nat) {
    exists k :: i < k <= |nodes| && residue < Prefix(nodes, k)
  }

  /** A node is found exactly when some prefix sum exceeds the residue. */
  lemma {:induction false} WeightOwnerFound(nodes: seq<Node>, residue: nat, i: nat)
    requires i <= |nodes|
    ensures WeightOwner(nodes, residue, i).Owned? <==> SomeExceeds(nodes, residue, i)
    decreases |nodes| - i
  {
    if i < |nodes| {
      WeightOwnerFound(nodes, residue, i + 1);
      if residue < Prefix(nodes, i + 1) {
        assert SomeExceeds(nodes, residue, i);
      } else if SomeExceeds(nodes, residue, i) {
        var k :| i < k <= |nodes| && residue < Prefix(nodes, k);
        assert i + 1 < k;
      }
    }
  }

  /** The weighted scan finds a node for every residue. */
  ghost predicate AlwaysFinds(nodes: seq<Node>, modulus: nat) {
    forall residue :: 0 <= residue < modulus ==> WeightOwner(nodes, residue, 0).Owned?
  }

  /** The final `return false` of the weighted scan is unreachable for every hash exactly when some
      prefix sum reaches the modulus; with any weights, negative ones included. */
  lemma WeightedAlwaysOwned(nodes: seq<Node>, modulus: nat)
    requires modulus > 0
    ensures AlwaysFinds(nodes, modulus) <==> SomeExceeds(nodes, modulus - 1, 0)
  {
    if SomeExceeds(nodes, modulus - 1, 0) {
      var k :| 0 < k <= |nodes| && modulus - 1 < Prefix(nodes, k);
      forall residue | 0 <= residue < modulus ensures WeightOwner(nodes, residue, 0).Owned? {
        assert SomeExceeds(nodes, residue, 0);
        WeightOwnerFound(nodes, residue, 0);
      }
    } else {
      WeightOwnerFound(nodes, modulus - 1, 0);
    }
  }

  lemma ResidueBelow(hash: Word, m: int)
    requires m > 0
    ensures 0 <= hash % m < m
  {
  }

  lemma {:induction false} PrefixMonotone(nodes: seq<Node>, i: nat, j: nat)
    requires NonNegative(nodes) && i <= j <= |nodes|
    ensures Prefix(nodes, i) <= Prefix(nodes, j)
    decreases j
  {
    if i < j { PrefixMonotone(nodes, i, j - 1); }
  }

  /** The owner is the one node whose prefix-sum interval holds the residue. */
  lemma WeightedInterval(nodes: seq<Node>, residue: nat, i: nat)
    requires NonNegative(nodes) && residue < Prefix(nodes, |nodes|) && i < |nodes|
    ensures WeightOwner(nodes, residue, 0) == Owned(i) <==> Prefix(nodes, i) <= residue < Prefix(nodes, i + 1)
  {
    WeightOwnerFirst(nodes, residue, 0);
    var o := WeightOwner(nodes, residue, 0);
    if o.index < i { PrefixMonotone(nodes, o.index + 1, i); }
    if i < o.index { PrefixMonotone(nodes, i + 1, o.index); }
  }

  lemma {:induction false} WeightOwnerFirst(nodes: seq<Node>, residue: nat, i: nat)
    requires residue < Prefix(nodes, |nodes|) && i < |nodes| && Prefix(nodes, i) <= residue
    ensures var o := WeightOwner(nodes, residue, i);
      o.Owned? && Prefix(nodes, o.index) <= residue < Prefix(nodes, o.index + 1)
    decreases |nodes| - i
  {
    if residue >= Prefix(nodes, i + 1) { WeightOwnerFirst(nodes, residue, i + 1); }
  }

  ghost function OwnedResidues(nodes: seq<Node>, i: nat): set<int> {
    set r: int | 0 <= r < Prefix(nodes, |nodes|) && WeightOwner(nodes, r, 0) == Owned(i)
  }

  /** Each node owns exactly `weight` of the `totalWeight` residues. */
  lemma WeightedShare(nodes: seq<Node>, i: nat)
    requires NonNegative(nodes) && i < |nodes|
    ensures |OwnedResidues(nodes, i)| == nodes[i].weight
  {
    var owned := OwnedResidues(nodes, i);
    PrefixMonotone(nodes, 0, i);
    PrefixMonotone(nodes, i + 1, |nodes|);
    forall r ensures r in owned <==> Prefix(nodes, i) <= r < Prefix(nodes, i + 1) {
      if 0 <= r < Prefix(nodes, |nodes|) { WeightedInterval(nodes, r, i); }
    }
    assert owned == Interval(Prefix(nodes, i), Prefix(nodes, i + 1));
  }

  ghost function Interval(lo: int, hi: int): (s: set<int>)
    requires lo <= hi
    ensures |s| == hi - lo && forall r :: r in s <==> lo <= r < hi
    decreases hi - lo
  {
    if lo == hi then {} else Interval(lo, hi - 1) + {hi - 1}
  }

  // ---------- round robin ----------

  class RoundRobinAssigner {
    var index: nat
    var nodes: seq<Node>

    constructor ()
      ensures index == 0 && nodes == []
    {
      index, nodes := 0, [];
    }

    method UpdateNodes(nodes: seq<Node>)
      modifies this
      ensures this.nodes == nodes && index == 0
    {
      this.nodes := nodes;
      index := 0;
    }

    method ShouldRun(taskName: string, nodeID: string) returns (v: Verdict)
      modifies this
      ensures nodes == old(nodes)
      ensures nodes == [] ==> v == No && index == old(index)
      ensures nodes != [] ==> v == Answer(Owned(old(index) % |nodes|), nodes, nodeID) && index == old(index) + 1
    {
      if |nodes| == 0 { return No; }
      var idx := index;
      index := index + 1;
      var node := nodes[idx % |nodes|];
      return if node.id == nodeID then Yes else No;
    }
  }

  // ---------- any strategy ----------

  /** When the strategy names an owner for every name and every question number. */
  ghost predicate Usable(st: Strategy, nodes: seq<Node>) {
    nodes != [] &&
    match st
    case HashSharding => |nodes| % WORD != 0
    case HashSlot(count) => count % WORD != 0
    case Range => true
    case Weighted => NonNegative(nodes) && Prefix(nodes, |nodes|) % WORD != 0
    case RoundRobin => true
  }

  /** The strategy divides by zero on this node list, whatever it is asked. */
  ghost predicate Divides(st: Strategy, nodes: seq<Node>) {
    match st
    case HashSharding => |nodes| % WORD == 0
    case HashSlot(count) => count % WORD == 0
    case Weighted => Prefix(nodes, |nodes|) % WORD == 0
    case _ => false
  }

  lemma DividesAlways(st: Strategy, crc: string -> Word, nodes: seq<Node>, asked: nat, task: string)
    requires nodes != []
    ensures Owner(st, crc, nodes, asked, task).DividesByZero? <==> Divides(st, nodes)
  {
  }

  ghost predicate DistinctIds(nodes: seq<Node>) {
    forall i, j :: 0 <= i < j < |nodes| ==> nodes[i].id != nodes[j].id
  }

  lemma UsableOwns(st: Strategy, crc: string -> Word, nodes: seq<Node>, asked: nat, task: string)
    requires Usable(st, nodes)
    ensures Owner(st, crc, nodes, asked, task).Owned?
  {
    if st.Weighted? {
      var total := Prefix(nodes, |nodes|);
      PrefixMonotone(nodes, 0, |nodes|);
      ResidueBelow(crc(task), total % WORD);
      assert SomeExceeds(nodes, crc(task) % (total % WORD), 0);
      WeightOwnerFound(nodes, crc(task) % (total % WORD), 0);
    }
  }

  /** Every task has exactly one owner among nodes with distinct ids, under each strategy. */
  lemma ExactlyOneYes(st: Strategy, crc: string -> Word, nodes: seq<Node>, asked: nat, task: string, i: nat)
    requires Usable(st, nodes) && DistinctIds(nodes) && i < |nodes|
    ensures var o := Owner(st, crc, nodes, asked, task);
      o.Owned? && (Answer(o, nodes, nodes[i].id) == Yes <==> i == o.index)
  {
    UsableOwns(st, crc, nodes, asked, task);
  }

  datatype Assigner =
    | Sharding(sharding: HashShardingAssigner)
    | Slotting(slotting: HashSlotAssigner)
    | Ranging(ranging: RangeAssigner)
    | Weighing(weighing: WeightedAssigner)
    | Cycling(cycling: RoundRobinAssigner)
  {
    ghost function Repr(): set<object> {
      match this
      case Sharding(a) => {a}
      case Slotting(a) => {a}
      case Ranging(a) => {a}
      case Weighing(a) => {a}
      case Cycling(a) => {a}
    }

    ghost function Kind(): Strategy {
      match this
      case Sharding(_) => HashSharding
      case Slotting(a) => HashSlot(a.slotCount)
      case Ranging(_) => Range
      case Weighing(_) => Weighted
      case Cycling(_) => RoundRobin
    }

    ghost predicate Uses(crc: string -> Word) {
      match this
      case Sharding(a) => a.crc == crc
      case Slotting(a) => a.crc == crc
      case Weighing(a) => a.crc == crc
      case _ => true
    }

    /** The assigner holds `nodes` and has answered `asked` questions since. */
    ghost predicate Ready(nodes: seq<Node>, asked: nat)
      reads Repr()
    {
      nodes != [] &&
      match this
      case Sharding(a) => a.nodes == nodes
      case Slotting(a) => |a.slots| == a.slotCount
        && forall s :: 0 <= s < a.slotCount ==> a.slots[s] == nodes[SlotOwner(a.slotCount, |nodes|, s)].id
      case Ranging(a) => |a.ranges| == |nodes| && forall i :: 0 <= i < |nodes| ==> a.ranges[i] == EntryFor(nodes, i)
      case Weighing(a) => a.nodes == nodes && a.totalWeight == Prefix(nodes, |nodes|)
      case Cycling(a) => a.nodes == nodes && a.index == asked
    }

    method UpdateNodes(nodes: seq<Node>)
      requires nodes != []
      modifies Repr()
      ensures Ready(nodes, 0)
    {
      match this
      case Sharding(a) => a.UpdateNodes(nodes);
      case Slotting(a) => a.UpdateNodes(nodes);
      case Ranging(a) => a.UpdateNodes(nodes);
      case Weighing(a) => a.UpdateNodes(nodes);
      case Cycling(a) => a.UpdateNodes(nodes);
    }

    /** Whatever the strategy, the answer is the one the ownership function gives. */
    method ShouldRun(taskName: string, nodeID: string, ghost crc: string -> Word, ghost nodes: seq<Node>, ghost asked: nat)
      returns (v: Verdict)
      requires Uses(crc) && Ready(nodes, asked)
      modifies Repr()
      ensures Ready(nodes, asked + 1)
      ensures v == Answer(Owner(Kind(), crc, nodes, asked, taskName), nodes, nodeID)
    {
      match this
      case Sharding(a) => v := a.ShouldRun(taskName, nodeID);
      case Slotting(a) => v := a.ShouldRun(taskName, nodeID);
      case Ranging(a) => v := a.ShouldRun(taskName, nodeID, nodes);
      case Weighing(a) => v := a.ShouldRun(taskName, nodeID);
      case Cycling(a) => v := a.ShouldRun(taskName, nodeID);
    }
  }
}
