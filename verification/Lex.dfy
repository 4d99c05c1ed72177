/** Go's string order, sorted name lists, and decimal timestamps.

  Go compares strings byte by byte; a `char` here stands for one byte. */
module Lex {

  /** Go's `a < b` on strings. */
  predicate Less(a: string, b: string) {
    if b == [] then false
    else if a == [] then true
    else a[0] < b[0] || (a[0] == b[0] && Less(a[1..], b[1..]))
  }

  /** Go's `a <= b` on strings. */
  predicate AtMost(a: string, b: string) {
    !Less(b, a)
  }

  lemma {:induction false} LessIrreflexive(a: string)
    ensures !Less(a, a)
  {
    if a != [] { LessIrreflexive(a[1..]); }
  }

  lemma {:induction false} LessTransitive(a: string, b: string, c: string)
    requires Less(a, b) && Less(b, c)
    ensures Less(a, c)
  {
    if a != [] && a[0] == b[0] == c[0] { LessTransitive(a[1..], b[1..], c[1..]); }
  }

  /** Exactly one of `a < b`, `a == b`, `b < a` holds. */
  lemma {:induction false} LessTrichotomy(a: string, b: string)
    ensures Less(a, b) ==> !Less(b, a)
    ensures Less(a, b) || a == b || Less(b, a)
    ensures a == b ==> !Less(a, b)
  {
    if a != [] && b != [] && a[0] == b[0] {
      LessTrichotomy(a[1..], b[1..]);
      assert a == [a[0]] + a[1..] && b == [b[0]] + b[1..];
    }
  }

  lemma AtMostTransitive(a: string, b: string, c: string)
    requires AtMost(a, b) && AtMost(b, c)
    ensures AtMost(a, c)
  {
    LessTrichotomy(a, b);
    LessTrichotomy(b, c);
    if Less(c, a) {
      if a == b || b == c { assert false; }
      LessTransitive(a, b, c);
      LessTrichotomy(a, c);
    }
  }

  /** A shared prefix does not matter to the order. */
  lemma {:induction false} LessAfterPrefix(p: string, a: string, b: string)
    ensures Less(p + a, p + b) == Less(a, b)
  {
    if p == [] {
      assert p + a == a && p + b == b;
    } else {
      assert (p + a)[1..] == p[1..] + a && (p + b)[1..] == p[1..] + b;
      LessAfterPrefix(p[1..], a, b);
    }
  }

  // ---------- sorted name lists ----------

  ghost predicate StrictlySorted(s: seq<string>) {
    forall i, j :: 0 <= i < j < |s| ==> Less(s[i], s[j])
  }

  /** `s` lists each element of `keys` once, in increasing order. */
  ghost predicate Lists(s: seq<string>, keys: set<string>) {
    StrictlySorted(s) && forall n :: n in s <==> n in keys
  }

  lemma {:induction false} ListsUnique(a: seq<string>, b: seq<string>, keys: set<string>)
    requires Lists(a, keys) && Lists(b, keys)
    ensures a == b
  {
    assert a == [] <==> keys == {} by { assert a != [] ==> a[0] in keys; }
    assert b == [] <==> keys == {} by { assert b != [] ==> b[0] in keys; }
    if a != [] {
      assert a[0] in keys && b[0] in keys;
      LessTrichotomy(a[0], b[0]);
      var i :| 0 <= i < |a| && a[i] == b[0];
      var j :| 0 <= j < |b| && b[j] == a[0];
      assert i == 0;
      ListsTail(a, keys);
      ListsTail(b, keys);
      ListsUnique(a[1..], b[1..], keys - {a[0]});
      assert a == [a[0]] + a[1..] && b == [b[0]] + b[1..];
    }
  }

  lemma ListsTail(s: seq<string>, keys: set<string>)
    requires Lists(s, keys) && s != []
    ensures Lists(s[1..], keys - {s[0]})
  {
    LessIrreflexive(s[0]);
    forall n ensures n in s[1..] <==> n in keys - {s[0]} {
      if n in keys - {s[0]} {
        var i :| 0 <= i < |s| && s[i] == n;
        assert s[1..][i - 1] == n;
      }
    }
  }

  /** Sorted insertion, the step behind `sort.Strings` on the collected names. */
  function Insert(s: seq<string>, n: string): (r: seq<string>) {
    if s == [] then [n]
    else if Less(n, s[0]) then [n] + s
    else [s[0]] + Insert(s[1..], n)
  }

  lemma {:induction false} InsertLists(s: seq<string>, n: string, keys: set<string>)
    requires Lists(s, keys) && n !in keys
    ensures Lists(Insert(s, n), keys + {n})
    decreases |s|
  {
    if s == [] {
    } else {
      assert s[0] in keys;
      LessTrichotomy(n, s[0]);
      if Less(n, s[0]) {
        forall i | 0 <= i < |s| ensures Less(n, s[i]) {
          if i > 0 { LessTransitive(n, s[0], s[i]); }
        }
      } else {
        ListsTail(s, keys);
        InsertLists(s[1..], n, keys - {s[0]});
        var t := Insert(s[1..], n);
        assert Insert(s, n) == [s[0]] + t;
        forall i | 0 <= i < |t| ensures Less(s[0], t[i]) {
          assert t[i] in t;
          if t[i] != n {
            var j :| 0 <= j < |s| && s[j] == t[i];
          }
        }
        forall m ensures m in [s[0]] + t <==> m in keys + {n} {
        }
      }
    }
  }

  /** The sorted list of a set of names; which one is inserted first does not matter. */
  ghost function Sorted(keys: set<string>): (s: seq<string>)
    ensures forall n :: n in s <==> n in keys
  {
    if keys == {} then [] else
      var n :| n in keys;
      InsertAdds(Sorted(keys - {n}), n);
      Insert(Sorted(keys - {n}), n)
  }

  lemma {:induction false} InsertAdds(s: seq<string>, n: string)
    ensures forall m :: m in Insert(s, n) <==> m == n || m in s
  {
    if s != [] && !Less(n, s[0]) {
      InsertAdds(s[1..], n);
      assert s == [s[0]] + s[1..];
    }
  }

  lemma {:induction false} SortedLists(keys: set<string>)
    ensures Lists(Sorted(keys), keys)
  {
    if keys != {} {
      var n :| n in keys && Sorted(keys) == Insert(Sorted(keys - {n}), n);
      SortedLists(keys - {n});
      InsertLists(Sorted(keys - {n}), n, keys - {n});
      assert keys == keys - {n} + {n};
    }
  }

  /** Collects the keys of a Go map, whose iteration order is arbitrary, and sorts them. */
  method SortNames(keys: set<string>) returns (names: seq<string>)
    ensures names == Sorted(keys)
  {
    names := [];
    var rest := keys;
    while rest != {}
      invariant rest <= keys
      invariant Lists(names, keys - rest)
      decreases rest
    {
      var n :| n in rest;
      InsertLists(names, n, keys - rest);
      names := Insert(names, n);
      assert keys - (rest - {n}) == (keys - rest) + {n};
      rest := rest - {n};
    }
    assert keys - rest == keys;
    SortedLists(keys);
    ListsUnique(names, Sorted(keys), keys);
  }

  // ---------- decimal timestamps ----------

  function Digit(d: nat): (c: char)
    requires d < 10
    ensures '0' <= c <= '9'
  {
    '0' + d as char
  }

  /** `fmt.Sprintf("%d", n)` for a non-negative n. */
  function Decimal(n: nat): (s: string)
    ensures s != []
    ensures forall i :: 0 <= i < |s| ==> '0' <= s[i] <= '9'
  {
    if n < 10 then [Digit(n)] else Decimal(n / 10) + [Digit(n % 10)]
  }

  /** Decimal numerals are injective. */
  lemma {:induction false} DecimalInjective(a: nat, b: nat)
    requires Decimal(a) == Decimal(b)
    ensures a == b
  {
    var s := Decimal(a);
    assert s[|s| - 1] == Digit(a % 10) && s[|s| - 1] == Digit(b % 10);
    if a >= 10 && b >= 10 {
      assert Decimal(a / 10) == s[..|s| - 1] == Decimal(b / 10);
      DecimalInjective(a / 10, b / 10);
    }
  }

  /** Among numerals of one width, the string order is the numeric order, whatever follows them. */
  lemma {:induction false} DecimalOrder(a: nat, b: nat, ta: string, tb: string)
    requires |Decimal(a)| == |Decimal(b)| && a < b
    ensures Less(Decimal(a) + ta, Decimal(b) + tb)
  {
    var da, db := Decimal(a), Decimal(b);
    if |da| == 1 {
    } else {
      var pa, pb := Decimal(a / 10), Decimal(b / 10);
      assert da + ta == pa + ([Digit(a % 10)] + ta);
      assert db + tb == pb + ([Digit(b % 10)] + tb);
      if a / 10 < b / 10 {
        DecimalOrder(a / 10, b / 10, [Digit(a % 10)] + ta, [Digit(b % 10)] + tb);
      } else {
        LessAfterPrefix(pa, [Digit(a % 10)] + ta, [Digit(b % 10)] + tb);
      }
    }
  }

  function Pow10(k: nat): (r: nat)
    ensures r > 0
  {
    if k == 0 then 1 else 10 * Pow10(k - 1)
  }

  /** The width of a numeral is fixed by the power-of-ten interval its value lies in. */
  lemma {:induction false} DecimalWidth(n: nat, w: nat)
    requires w >= 1
    requires Pow10(w - 1) <= n < Pow10(w) || (w == 1 && n == 0)
    ensures |Decimal(n)| == w
  {
    if w > 1 {
      assert n >= 10;
      DecimalWidth(n / 10, w - 1);
    }
  }

  predicate IsDigit(c: char) {
    '0' <= c <= '9'
  }

  /** A numeral as `%d` prints it: digits, and no leading zero. */
  predicate IsNumeral(s: string) {
    s != [] && (forall i :: 0 <= i < |s| ==> IsDigit(s[i])) && (|s| > 1 ==> s[0] != '0')
  }

  /** Numerals are exactly what `Decimal` writes. */
  lemma {:induction false} ReadNumeral(s: string) returns (n: nat)
    requires IsNumeral(s)
    ensures Decimal(n) == s && (s[0] != '0' ==> n > 0)
    decreases |s|
  {
    var last := (s[|s| - 1] - '0') as nat;
    if |s| == 1 {
      n := last;
    } else {
      var front := ReadNumeral(s[..|s| - 1]);
      n := 10 * front + last;
      assert s == s[..|s| - 1] + [Digit(last)];
    }
  }

  lemma {:induction false} DecimalIsNumeral(n: nat)
    ensures IsNumeral(Decimal(n)) && (n > 0 ==> Decimal(n)[0] != '0')
  {
    if n >= 10 { DecimalIsNumeral(n / 10); }
  }
}
