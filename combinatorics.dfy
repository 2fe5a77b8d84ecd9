/**
 * Binomial coefficients and powers of two, shared by the semi-value
 * coefficients and by the power-set enumeration.
 */
module Combinatorics {

  /** C(n, k) by Pascal's rule. Like Python's `math.comb`, it is 0 when k > n. */
  function Binomial(n: nat, k: nat): nat
  {
    if k == 0 then 1
    else if n == 0 then 0
    else Binomial(n - 1, k - 1) + Binomial(n - 1, k)
  }

  /** 2^e */
  function Pow2(e: nat): (r: nat)
    ensures r >= 1
  {
    if e == 0 then 1 else 2 * Pow2(e - 1)
  }

  /** Binomial(n, 0) + ... + Binomial(n, m - 1) */
  function RowSum(n: nat, m: nat): nat
  {
    if m == 0 then 0 else RowSum(n, m - 1) + Binomial(n, m - 1)
  }

  lemma {:induction false} BinomialAbove(n: nat, k: nat)
    requires k > n
    ensures Binomial(n, k) == 0
  {
    if n > 0 {
      BinomialAbove(n - 1, k - 1);
      BinomialAbove(n - 1, k);
    }
  }

  lemma {:induction false} BinomialDiagonal(n: nat)
    ensures Binomial(n, n) == 1
  {
    if n > 0 {
      BinomialDiagonal(n - 1);
      BinomialAbove(n - 1, n);
    }
  }

  lemma {:induction false} BinomialPositive(n: nat, k: nat)
    requires k <= n
    ensures Binomial(n, k) >= 1
  {
    if k > 0 {
      BinomialPositive(n - 1, k - 1);
    }
  }

  /** C(n, k) == C(n, n - k) */
  lemma {:induction false} BinomialSymmetry(n: nat, k: nat)
    requires k <= n
    ensures Binomial(n, k) == Binomial(n, n - k)
  {
    if k == 0 {
      BinomialDiagonal(n);
    } else if k == n {
      BinomialDiagonal(n);
    } else {
      BinomialSymmetry(n - 1, k - 1);
      BinomialSymmetry(n - 1, k);
      assert n - k > 0;
      assert Binomial(n, n - k) == Binomial(n - 1, n - k - 1) + Binomial(n - 1, n - k);
    }
  }

  /** Absorption: k * C(m, k) == m * C(m - 1, k - 1). */
  lemma {:induction false} Absorption(m: nat, k: nat)
    requires m >= 1 && k >= 1
    ensures k * Binomial(m, k) == m * Binomial(m - 1, k - 1)
  {
    if m == 1 {
      if k >= 2 {
        BinomialAbove(1, k);
        BinomialAbove(0, k - 1);
      }
    } else if k == 1 {
      Absorption(m - 1, 1);
      assert Binomial(m, 1) == Binomial(m - 1, 0) + Binomial(m - 1, 1);
    } else {
      Absorption(m - 1, k - 1);
      Absorption(m - 1, k);
      assert Binomial(m, k) == Binomial(m - 1, k - 1) + Binomial(m - 1, k);
      assert Binomial(m - 1, k - 1) == Binomial(m - 2, k - 2) + Binomial(m - 2, k - 1);
      AbsorptionStep(m, k, Binomial(m - 1, k - 1), Binomial(m - 1, k),
                     Binomial(m - 2, k - 2), Binomial(m - 2, k - 1));
    }
  }

  // The arithmetic of the inductive step of Absorption, kept apart from the unfolding of Binomial.
  lemma AbsorptionStep(m: int, k: int, a: int, b: int, c: int, d: int)
    requires a == c + d && (k - 1) * a == (m - 1) * c && k * b == (m - 1) * d
    ensures k * (a + b) == m * a
  {
    assert k * (a + b) == k * a + k * b;
    assert k * a == (k - 1) * a + a;
    assert (m - 1) * (c + d) == (m - 1) * c + (m - 1) * d;
    assert m * a == (m - 1) * a + a;
  }

  /**
   * Adjacent coefficients of one row: k * C(m, k) == (m - k + 1) * C(m, k - 1).
   * Both sides equal m * C(m - 1, k - 1).
   */
  lemma AdjacentRatio(m: nat, k: nat)
    requires 1 <= k <= m
    ensures k * Binomial(m, k) == (m - k + 1) * Binomial(m, k - 1)
  {
    Absorption(m, k);
    var j := k - 1;
    // (m - j) * C(m, j) == m * C(m - 1, j)
    if j == 0 {
      assert Binomial(m, 0) == 1 && Binomial(m - 1, 0) == 1;
    } else {
      Absorption(m, j);
      assert Binomial(m, j) == Binomial(m - 1, j - 1) + Binomial(m - 1, j);
      AdjacentStep(m, j, Binomial(m, j), Binomial(m - 1, j - 1), Binomial(m - 1, j));
    }
  }

  // The arithmetic of AdjacentRatio: from x == p + q and j * x == m * p, (m - j) * x == m * q.
  lemma AdjacentStep(m: int, j: int, x: int, p: int, q: int)
    requires x == p + q && j * x == m * p
    ensures (m - j) * x == m * q
  {
    assert (m - j) * x == m * x - j * x;
    assert m * x == m * p + m * q;
  }

  /** Pascal's rule summed over a prefix of the row. */
  lemma {:induction false} RowSumPascal(n: nat, m: nat)
    requires n >= 1 && m >= 1
    ensures RowSum(n, m) == RowSum(n - 1, m - 1) + RowSum(n - 1, m)
  {
    if m > 1 {
      RowSumPascal(n, m - 1);
    }
  }

  /** Terms past the end of the row are zero. */
  lemma {:induction false} RowSumSaturates(n: nat, m: nat)
    requires m >= n + 1
    ensures RowSum(n, m) == RowSum(n, n + 1)
  {
    if m > n + 1 {
      RowSumSaturates(n, m - 1);
      BinomialAbove(n, m - 1);
    }
  }

  /** The whole row sums to 2^n. */
  lemma {:induction false} RowSumIsPow2(n: nat)
    ensures RowSum(n, n + 1) == Pow2(n)
  {
    if n > 0 {
      RowSumPascal(n, n + 1);
      RowSumIsPow2(n - 1);
      RowSumSaturates(n - 1, n + 1);
    }
  }
}
