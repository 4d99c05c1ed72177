/** Quotients and remainders, tied to multiplication. */
module Division {

  /** `n` is k times the modulus and i more: quotient and remainder, said by multiplication. */
  ghost predicate Splits(n: int, m: int, k: int, i: int) {
    0 <= i < m && n == k * m + i
  }

  lemma Grows(a: nat, x: int, y: int)
    requires x <= y
    ensures a * x <= a * y
  {
  }

  lemma MultipleBelow(d: int, m: nat, r: int)
    requires d * m == r && 0 < m + r && r < m
    ensures d == 0
  {
    if d >= 1 { Grows(m, 1, d); }
    if d <= -1 { Grows(m, d, -1); }
  }

  /** A split is what division gives. */
  lemma SplitIsDivision(n: int, m: nat, k: int, i: int)
    requires Splits(n, m, k, i)
    ensures k == n / m && i == n % m
  {
    var q, r := n / m, n % m;
    assert n == m * q + r && 0 <= r < m;
    assert (k - q) * m == k * m - q * m == r - i;
    MultipleBelow(k - q, m, r - i);
  }

  lemma DivisionSplits(n: int, m: int)
    requires m > 0
    ensures Splits(n, m, n / m, n % m)
  {
  }

  lemma NextDivision(n: nat, m: nat)
    requires m > 0
    ensures (n + 1) / m == (if n % m == m - 1 then n / m + 1 else n / m)
    ensures (n + 1) % m == (if n % m == m - 1 then 0 else n % m + 1)
  {
    DivisionSplits(n, m);
    var q, r := n / m, n % m;
    if r == m - 1 {
      assert n + 1 == (q + 1) * m;
      SplitIsDivision(n + 1, m, q + 1, 0);
    } else {
      SplitIsDivision(n + 1, m, q, r + 1);
    }
  }

  /** A multiple of a multiple of a is a multiple of a. */
  lemma MultipleOfMultiple(n: int, a: nat, b: nat, c: nat)
    requires a > 0 && b > 0 && c == a * b
    ensures n % c == 0 ==> n % a == 0
  {
    DivisionSplits(n, c);
    var k := n / c;
    if n % c == 0 {
      assert k * (a * b) == (k * b) * a;
      SplitIsDivision(n, a, k * b, 0);
    }
  }
}
