/** Integer facts about strides and Euclidean division used by the proofs. */
module Arith {

  lemma MulAtLeast(a: int, n: int)
    requires a >= 1 && n > 0
    ensures a * n >= n
  {
  }

  /** Euclidean remainder is unique: `a * n + r` with `0 <= r < n` leaves `r`. */
  lemma ModUnique(y: int, a: int, r: int, n: int)
    requires n > 0 && 0 <= r < n && y == a * n + r
    ensures y % n == r
  {
    var d := a - y / n;
    assert y == (y / n) * n + y % n;
    assert d * n == a * n - (y / n) * n;
    assert d * n == y % n - r;
    if d >= 1 {
      MulAtLeast(d, n);
    } else if d <= -1 {
      assert (-d) * n == -(d * n);
      MulAtLeast(-d, n);
    }
  }

  lemma MulMod(k: int, n: nat)
    requires n > 0
    ensures (k * n) % n == 0
  {
    ModUnique(k * n, k, 0, n);
  }

  /** Euclidean division is unique: `a * n + r` with `0 <= r < n` gives `a`. */
  lemma DivUnique(y: int, a: int, r: int, n: int)
    requires n > 0 && 0 <= r < n && y == a * n + r
    ensures y / n == a
  {
    ModUnique(y, a, r, n);
    assert y == (y / n) * n + y % n;
    assert (y / n - a) * n == 0;
  }

  /** Two multiples of `p` less than `p` apart are equal. */
  lemma StrideGap(c: int, j: int, p: int)
    requires p > 0 && c % p == 0 && j % p == 0
    requires j <= c < j + p
    ensures c == j
  {
    var d := c / p - j / p;
    assert c == (c / p) * p && j == (j / p) * p;
    assert d * p == c - j;
    if d >= 1 {
      MulAtLeast(d, p);
    } else if d <= -1 {
      assert (-d) * p == -(d * p);
      MulAtLeast(-d, p);
    }
  }

  /** The number of multiples of `p` in `[0, n)`. */
  function SampleCount(n: nat, p: nat): nat
    requires p > 0
  {
    (n + p - 1) / p
  }

  /** `m` strides of length `p` from 0, written as repeated addition so that
      loop counters can follow it without multiplying two variables. */
  function Stride(m: nat, p: nat): nat
  {
    if m == 0 then 0 else Stride(m - 1, p) + p
  }

  lemma StrideStep(m: nat, p: nat)
    ensures Stride(m + 1, p) == Stride(m, p) + p
  {
  }

  lemma {:induction false} StrideIsProduct(m: nat, p: nat)
    ensures Stride(m, p) == m * p
  {
    if m > 0 {
      StrideIsProduct(m - 1, p);
      assert m * p == (m - 1) * p + p;
    }
  }

  /** Every stride end is a multiple of `p`. */
  lemma StrideMultiple(m: nat, p: nat)
    requires p > 0
    ensures Stride(m, p) % p == 0
  {
    StrideIsProduct(m, p);
    MulMod(m, p);
  }

  /** `m` strides of `p` are the first to reach `n` exactly when `m` is the
      number of multiples of `p` below `n`. */
  lemma SampleCountOfStrides(n: nat, p: nat, m: nat)
    requires p > 0
    requires n <= Stride(m, p)
    requires Stride(m, p) < n + p
    ensures SampleCount(n, p) == m
  {
    StrideIsProduct(m, p);
    if m == 0 {
      assert n == 0;
      DivUnique(p - 1, 0, p - 1, p);
    } else {
      DivUnique(n + p - 1, m, n + p - 1 - m * p, p);
    }
  }
}
