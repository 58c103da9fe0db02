/**
 * Small facts of integer arithmetic that the solver does not find on its own
 * when the divisor or a factor is a variable, and the `max` the utilities use.
 */
module Arith {

  /** The larger of two integers. */
  function Max(x: int, y: int): int
  {
    if x >= y then x else y
  }

  lemma MulAtLeast(d: int, m: int)
    requires d >= 1 && m > 0
    ensures d * m >= m
  {
    if d > 1 {
      MulAtLeast(d - 1, m);
      assert d * m == (d - 1) * m + m;
    }
  }

  lemma MulLeftMono(j: nat, n: nat, m: nat)
    requires j < n
    ensures j * m + m <= n * m
  {
    if j + 1 < n {
      MulLeftMono(j, n - 1, m);
      assert n * m == (n - 1) * m + m;
    }
  }

  /** Quotient and remainder are the only q and r with x == q * m + r and 0 <= r < m. */
  lemma DivModUnique(x: int, m: int, q: int, r: int)
    requires 0 < m && 0 <= r < m && x == q * m + r
    ensures x / m == q && x % m == r
  {
    var q', r' := x / m, x % m;
    if q > q' {
      assert (q - q') * m == q * m - q' * m;
      MulAtLeast(q - q', m);
    } else if q < q' {
      assert (q' - q) * m == q' * m - q * m;
      MulAtLeast(q' - q, m);
    }
  }

  /** Taking m away from x >= m lowers the quotient by one and keeps the remainder. */
  lemma DivModLessDivisor(x: int, m: int)
    requires 0 < m <= x
    ensures (x - m) / m == x / m - 1 && (x - m) % m == x % m
  {
    var q, r := x / m, x % m;
    assert x - m == (q - 1) * m + r;
    DivModUnique(x - m, m, q - 1, r);
  }

  /** A positive multiple of m is at least m. */
  lemma MultipleAtLeast(x: int, m: int)
    requires 0 < m && 0 < x && x % m == 0
    ensures x >= m
  {
    assert x == (x / m) * m;
    MulAtLeast(x / m, m);
  }

  /** Splits an index of an n-by-m layout into its block and its offset. */
  lemma BlockOf(i: nat, n: nat, m: nat) returns (j: nat, r: nat)
    requires i < n * m
    ensures j < n && r < m && i == j * m + r
  {
    if i < m {
      j, r := 0, i;
    } else {
      assert i - m < (n - 1) * m;
      var j', r' := BlockOf(i - m, n - 1, m);
      j, r := j' + 1, r';
    }
  }
}
