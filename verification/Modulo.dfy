/** Arithmetic of ring indices. */
module Modulo {
  lemma Multiple(d: int, n: int)
    requires n > 0
    ensures d > 0 ==> d * n >= n
    ensures d < 0 ==> d * n <= 0 - n
  {
  }

  /** Quotient and remainder are determined by the division equation. */
  lemma DivModUnique(x: int, n: nat, q: int, r: int)
    requires x == q * n + r && 0 <= r < n
    ensures x % n == r
  {
    var d := q - x / n;
    assert d * n == x % n - r by {
      assert x == x / n * n + x % n;
      assert d * n == q * n - x / n * n;
    }
    Multiple(d, n);
  }

  /** Two indices less than one turn apart share a slot only if they are equal. */
  lemma SameSlot(i: int, j: int, n: nat)
    requires n > 0 && i - j < n && j - i < n && i % n == j % n
    ensures i == j
  {
    var d := i / n - j / n;
    assert i - j == d * n by {
      assert i == i / n * n + i % n && j == j / n * n + j % n;
      assert d * n == i / n * n - j / n * n;
    }
    Multiple(d, n);
  }

  lemma Shift(x: int, n: nat, q: int)
    requires n > 0
    ensures (x + q * n) % n == x % n
  {
    DivModUnique(x + q * n, n, x / n + q, x % n) by {
      assert x == x / n * n + x % n;
      assert (x / n + q) * n == x / n * n + q * n;
    }
  }

  lemma Small(x: int, n: nat)
    requires 0 <= x < n
    ensures x % n == x
  {
    DivModUnique(x, n, 0, x);
  }

  /** Advancing a ring index, as the source's UPDATE_POINTER does. */
  lemma Next(i: int, n: nat)
    requires n > 0
    ensures (i % n + 1) % n == (i + 1) % n
  {
    Shift(i % n + 1, n, i / n);
    assert i % n + 1 + i / n * n == i + 1;
  }

  /** Rewinding a ring index, as the source's REWIND_POINTER does. */
  lemma Previous(i: int, n: nat)
    requires n > 0
    ensures (if i % n == 0 then n else i % n) - 1 == (i - 1) % n
  {
    var p := (if i % n == 0 then n else i % n) - 1;
    var q := if i % n == 0 then i / n - 1 else i / n;
    DivModUnique(i - 1, n, q, p) by {
      assert i == i / n * n + i % n;
      assert (i / n - 1) * n == i / n * n - n;
    }
  }

  /** Stepping back by k slots without leaving the non-negative numbers. */
  lemma Back(i: int, n: nat, k: nat)
    requires n > 0
    ensures (i % n + n - k) % n == (i - k) % n
  {
    Shift(i % n - k, n, 1);
    Shift(i % n - k, n, i / n);
    assert i % n - k + i / n * n == i - k;
  }
}
