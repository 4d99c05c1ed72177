/** The etcd keys of execution markers, and the string ranges that delete them. */
module MarkerKeys {
  import opened Lex

  const EXEC_PREFIX := "/distributed_cron/last_exec/"

  /** `fmt.Sprintf("%d", second)`; seconds before 1970 carry a sign. */
  function Timestamp(second: int): string {
    if second < 0 then "-" + Decimal(-second) else Decimal(second)
  }

  /** The key `CanRunTask` creates for one task in one second. */
  function MarkerKey(second: int, task: string): string {
    EXEC_PREFIX + (Timestamp(second) + ("-" + task))
  }

  /** A bound of the history cleanup: a timestamp with nothing after it. */
  function BoundKey(second: int): string {
    EXEC_PREFIX + Timestamp(second)
  }

  /** Timestamps of ten digits: from the year 2001 to the year 2286. */
  ghost predicate Era(second: int) {
    1_000_000_000 <= second < 10_000_000_000
  }

  /** The execution key that `ForceCleanupTask` deletes: it holds no timestamp. */
  function CleanupKey(task: string): string {
    EXEC_PREFIX + task
  }

  /** etcd's half-open key range. */
  predicate InKeyRange(key: string, start: string, end: string) {
    AtMost(start, key) && Less(key, end)
  }

  /** The name reads like a marker: a timestamp, a dash, anything. */
  ghost predicate LooksLikeMarker(name: string, second: nat, task: string) {
    name == Decimal(second) + ("-" + task)
  }

  /** A digit string is read off up to the dash. */
  lemma DashSplits(d1: string, t1: string, d2: string, t2: string)
    requires forall i :: 0 <= i < |d1| ==> IsDigit(d1[i])
    requires forall i :: 0 <= i < |d2| ==> IsDigit(d2[i])
    requires d1 + ("-" + t1) == d2 + ("-" + t2)
    ensures d1 == d2 && t1 == t2
  {
    var r1, r2 := d1 + ("-" + t1), d2 + ("-" + t2);
    assert r1[|d1|] == '-' && r2[|d2|] == '-';
    assert |d1| == |d2| by {
      assert forall i :: 0 <= i < |d1| ==> r1[i] == d1[i];
      assert forall i :: 0 <= i < |d2| ==> r2[i] == d2[i];
    }
    assert d1 == r1[..|d1|] == r2[..|d2|] == d2;
    assert t1 == r1[|d1| + 1..] == r2[|d2| + 1..] == t2;
  }

  /** The first character of a marker's text tells the sign, and the rest goes on with digits. */
  lemma SignReads(second: int, task: string)
    ensures var text := Timestamp(second) + ("-" + task);
      && text != [] && (text[0] == '-' <==> second < 0)
      && (second < 0 ==> text[1..] == Decimal(-second) + ("-" + task))
  {
    if second < 0 {
      var rest := Decimal(-second) + ("-" + task);
      assert Timestamp(second) + ("-" + task) == ['-'] + rest;
    } else {
      assert (Decimal(second) + ("-" + task))[0] == Decimal(second)[0];
    }
  }

  /** Different (second, task) pairs never share a key, whatever dashes or digits the task name holds. */
  lemma MarkerKeyInjective(s1: int, t1: string, s2: int, t2: string)
    requires MarkerKey(s1, t1) == MarkerKey(s2, t2)
    ensures s1 == s2 && t1 == t2
  {
    assert Timestamp(s1) + ("-" + t1) == MarkerKey(s1, t1)[|EXEC_PREFIX|..]
        == MarkerKey(s2, t2)[|EXEC_PREFIX|..] == Timestamp(s2) + ("-" + t2);
    SignReads(s1, t1);
    SignReads(s2, t2);
    var n1, n2 := if s1 < 0 then -s1 else s1, if s2 < 0 then -s2 else s2;
    DashSplits(Decimal(n1), t1, Decimal(n2), t2);
    DecimalInjective(n1, n2);
  }

  /** `ForceCleanupTask` hits a marker exactly when the task name is that marker's suffix. */
  lemma CleanupKeyHits(name: string, second: nat, task: string)
    ensures CleanupKey(name) == MarkerKey(second, task) <==> LooksLikeMarker(name, second, task)
  {
    assert CleanupKey(name)[|EXEC_PREFIX|..] == name;
    assert MarkerKey(second, task)[|EXEC_PREFIX|..] == Decimal(second) + ("-" + task);
  }

  // ---------- numeric reading of a string bound ----------

  /** `n` without its k last digits. */
  function Cut(n: nat, k: nat): nat {
    if k == 0 then n else Cut(n / 10, k - 1)
  }

  /** Arithmetic reading of "the bound `b` is not above the marker of `second`": cut the longer
      numeral to the width of the shorter one and compare. */
  predicate BoundReached(b: nat, second: nat) {
    var w, d := |Decimal(b)|, |Decimal(second)|;
    if d >= w then b <= Cut(second, d - w) else Cut(b, w - d) < second
  }

  /** Dropping k digits of a numeral is integer division by ten, k times over. */
  lemma {:induction false} LeadingDigits(n: nat, k: nat) returns (rest: string)
    requires k < |Decimal(n)|
    ensures Decimal(n) == Decimal(Cut(n, k)) + rest && |rest| == k
    ensures forall i :: 0 <= i < k ==> '0' <= rest[i] <= '9'
  {
    if k == 0 {
      rest := [];
    } else {
      var front := LeadingDigits(n / 10, k - 1);
      rest := front + [Digit(n % 10)];
    }
  }

  /** Numerals of one width, with anything after them: equal numerals leave the rests to decide. */
  lemma OrderSplits(a: nat, b: nat, ta: string, tb: string)
    requires |Decimal(a)| == |Decimal(b)|
    ensures Less(Decimal(a) + ta, Decimal(b) + tb) <==> a < b || (a == b && Less(ta, tb))
  {
    if a < b {
      DecimalOrder(a, b, ta, tb);
    } else if b < a {
      DecimalOrder(b, a, tb, ta);
      LessTrichotomy(Decimal(a) + ta, Decimal(b) + tb);
    } else {
      LessAfterPrefix(Decimal(a), ta, tb);
    }
  }

  lemma Regroup(a: string, b: string, c: string)
    ensures a + b + c == a + (b + c) && a + [] == a
  {
  }

  /** A marker numeral at least as wide as the bound is cut to the bound's width. */
  lemma WideMarkerOrder(b: nat, second: nat, tail: string)
    requires |Decimal(second)| >= |Decimal(b)|
    ensures Less(Decimal(second) + tail, Decimal(b)) <==> Cut(second, |Decimal(second)| - |Decimal(b)|) < b
  {
    var k := |Decimal(second)| - |Decimal(b)|;
    var q := Cut(second, k);
    var rest := LeadingDigits(second, k);
    OrderSplits(q, b, rest + tail, []);
    Regroup(Decimal(q), rest, tail);
    Regroup(Decimal(b), [], []);
  }

  /** A bound wider than the marker numeral is cut; on a tie the dash is below any digit. */
  lemma NarrowMarkerOrder(b: nat, second: nat, tail: string)
    requires |Decimal(second)| < |Decimal(b)| && tail != [] && tail[0] == '-'
    ensures Less(Decimal(second) + tail, Decimal(b)) <==> second <= Cut(b, |Decimal(b)| - |Decimal(second)|)
  {
    var k := |Decimal(b)| - |Decimal(second)|;
    var rest := LeadingDigits(b, k);
    OrderSplits(second, Cut(b, k), tail, rest);
  }

  /** String comparison of a bound with a marker key is `BoundReached`, for all widths and names. */
  lemma BoundOrder(b: nat, second: nat, task: string)
    ensures AtMost(BoundKey(b), MarkerKey(second, task)) <==> BoundReached(b, second)
  {
    var tail := "-" + task;
    LessAfterPrefix(EXEC_PREFIX, Decimal(second) + tail, Decimal(b));
    if |Decimal(second)| >= |Decimal(b)| {
      WideMarkerOrder(b, second, tail);
    } else {
      NarrowMarkerOrder(b, second, tail);
    }
  }

  /** What the history cleanup's range delete removes, for every bound, marker and task name. */
  lemma RangeDeleteRemoves(start: nat, end: nat, second: nat, task: string)
    ensures InKeyRange(MarkerKey(second, task), BoundKey(start), BoundKey(end))
       <==> BoundReached(start, second) && !BoundReached(end, second)
  {
    BoundOrder(start, second, task);
    BoundOrder(end, second, task);
  }

  /** With timestamps of one width the string range is the numeric interval [start, end). */
  lemma RangeDeleteIsInterval(start: nat, end: nat, second: nat, task: string)
    requires |Decimal(start)| == |Decimal(second)| == |Decimal(end)|
    ensures InKeyRange(MarkerKey(second, task), BoundKey(start), BoundKey(end))
       <==> start <= second < end
  {
    RangeDeleteRemoves(start, end, second, task);
  }

  /** Why one width is needed: for bounds of one width, the marker ten times as late as the
      lower bound is always deleted, though it lies past the upper bound. */
  lemma RangeDeleteOvershoots(start: nat, end: nat, task: string)
    requires 1 <= start < end && |Decimal(start)| == |Decimal(end)|
    ensures InKeyRange(MarkerKey(10 * start, task), BoundKey(start), BoundKey(end))
    ensures !(start <= 10 * start < end)
  {
    RangeDeleteRemoves(start, end, 10 * start, task);
    assert Decimal(10 * start) == Decimal(start) + [Digit(0)];
    assert Cut(10 * start, 1) == start;
    WidthBound(start);
    WidthBound(end);
  }

  lemma {:induction false} WidthBound(n: nat)
    ensures n < Pow10(|Decimal(n)|)
    ensures n >= 1 ==> Pow10(|Decimal(n)| - 1) <= n
  {
    if n < 10 {
      assert Pow10(1) == 10 * Pow10(0);
    } else {
      WidthBound(n / 10);
      assert |Decimal(n)| == |Decimal(n / 10)| + 1;
    }
  }

  // ---------- telling a marker by its text ----------

  lemma EraWidth(second: nat)
    requires Era(second)
    ensures |Decimal(second)| == 10
  {
    assert Pow10(3) == 1000;
    assert Pow10(6) == 1_000_000;
    assert Pow10(9) == 1_000_000_000;
    DecimalWidth(second, 10);
  }

  /** Ten digits without a leading zero, a dash, anything. */
  predicate EraSuffix(x: string) {
    |x| >= 11 && IsNumeral(x[..10]) && x[10] == '-'
  }

  /** The text test finds exactly the markers of the era. */
  lemma EraSuffixReads(x: string) returns (second: nat, task: string)
    requires EraSuffix(x)
    ensures Era(second) && LooksLikeMarker(x, second, task)
  {
    second := ReadNumeral(x[..10]);
    task := x[11..];
    WidthBound(second);
    assert Pow10(3) == 1000;
    assert Pow10(6) == 1_000_000;
    assert Pow10(9) == 1_000_000_000;
    assert x == x[..10] + ("-" + task);
  }

  lemma MarkerHasEraSuffix(x: string, second: nat, task: string)
    requires Era(second) && LooksLikeMarker(x, second, task)
    ensures EraSuffix(x)
  {
    EraWidth(second);
    DecimalIsNumeral(second);
    assert x[..10] == Decimal(second);
  }

  /** The key is a marker of the era, by its text. */
  predicate IsEraMarker(key: string) {
    EXEC_PREFIX <= key && EraSuffix(key[|EXEC_PREFIX|..])
  }

  lemma EraMarkerReads(key: string) returns (second: nat, task: string)
    requires IsEraMarker(key)
    ensures Era(second) && key == MarkerKey(second, task)
  {
    second, task := EraSuffixReads(key[|EXEC_PREFIX|..]);
    assert key == EXEC_PREFIX + key[|EXEC_PREFIX|..];
  }

  lemma MarkerIsEraMarker(second: nat, task: string)
    requires Era(second)
    ensures IsEraMarker(MarkerKey(second, task))
  {
    var x := Decimal(second) + ("-" + task);
    assert MarkerKey(second, task)[|EXEC_PREFIX|..] == x;
    MarkerHasEraSuffix(x, second, task);
  }
}
