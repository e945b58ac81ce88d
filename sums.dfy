/** Finite integer sums f(0) + f(1) + ... + f(n - 1), accumulated from the
    left in the order the matrix loops accumulate them, and the algebra of
    such sums that the matrix properties rest on. */
module Sums {

  /** f(0) + ... + f(n - 1), starting from 0. */
  function Sigma(n: nat, f: nat -> int): int
  {
    if n == 0 then 0 else Sigma(n - 1, f) + f(n - 1)
  }

  /** Sums of functions that agree below n agree. */
  lemma {:induction false} SigmaExt(n: nat, f: nat -> int, g: nat -> int)
    requires forall k :: 0 <= k < n ==> f(k) == g(k)
    ensures Sigma(n, f) == Sigma(n, g)
  {
    if n > 0 {
      SigmaExt(n - 1, f, g);
    }
  }

  /** A sum of pointwise sums is the sum of the two sums. */
  lemma {:induction false} SigmaAdd(n: nat, f: nat -> int, g: nat -> int, h: nat -> int)
    requires forall k :: 0 <= k < n ==> h(k) == f(k) + g(k)
    ensures Sigma(n, h) == Sigma(n, f) + Sigma(n, g)
  {
    if n > 0 {
      SigmaAdd(n - 1, f, g, h);
    }
  }

  /** A common factor comes out of a sum. */
  lemma {:induction false} SigmaScale(n: nat, c: int, f: nat -> int, g: nat -> int)
    requires forall k :: 0 <= k < n ==> g(k) == c * f(k)
    ensures Sigma(n, g) == c * Sigma(n, f)
  {
    if n > 0 {
      SigmaScale(n - 1, c, f, g);
      assert c * Sigma(n, f) == c * Sigma(n - 1, f) + c * f(n - 1);
    }
  }

  /** n copies of c sum to n * c. */
  lemma {:induction false} SigmaConst(n: nat, c: int, f: nat -> int)
    requires forall k :: 0 <= k < n ==> f(k) == c
    ensures Sigma(n, f) == n * c
  {
    if n > 0 {
      SigmaConst(n - 1, c, f);
    }
  }

  /** A sum whose terms all vanish except the one at i is that term. */
  lemma {:induction false} SigmaUnit(n: nat, i: nat, f: nat -> int)
    requires i < n
    requires forall k :: 0 <= k < n && k != i ==> f(k) == 0
    ensures Sigma(n, f) == f(i)
  {
    if n - 1 == i {
      SigmaZero(n - 1, f);
    } else {
      SigmaUnit(n - 1, i, f);
    }
  }

  /** A sum of zeros is zero. */
  lemma {:induction false} SigmaZero(n: nat, f: nat -> int)
    requires forall k :: 0 <= k < n ==> f(k) == 0
    ensures Sigma(n, f) == 0
  {
    if n > 0 {
      SigmaZero(n - 1, f);
    }
  }

  /** Row i of a two-argument function, as a function of the column. */
  function RowOf(f: (nat, nat) -> int, i: nat): nat -> int
  {
    (j: nat) => f(i, j)
  }

  /** Column j of a two-argument function, as a function of the row. */
  function ColOf(f: (nat, nat) -> int, j: nat): nat -> int
  {
    (i: nat) => f(i, j)
  }

  /** i |-> f(i, 0) + ... + f(i, p - 1). */
  function RowSums(f: (nat, nat) -> int, p: nat): nat -> int
  {
    (i: nat) => Sigma(p, RowOf(f, i))
  }

  /** j |-> f(0, j) + ... + f(n - 1, j). */
  function ColSums(f: (nat, nat) -> int, n: nat): nat -> int
  {
    (j: nat) => Sigma(n, ColOf(f, j))
  }

  /** Summing an n-by-p table row by row or column by column gives the same. */
  lemma {:induction false} SigmaSwap(n: nat, p: nat, f: (nat, nat) -> int)
    ensures Sigma(n, RowSums(f, p)) == Sigma(p, ColSums(f, n))
  {
    if n > 0 {
      SigmaSwap(n - 1, p, f);
      forall j | 0 <= j < p
        ensures ColSums(f, n)(j) == ColSums(f, n - 1)(j) + RowOf(f, n - 1)(j)
      {
        assert ColOf(f, j)(n - 1) == f(n - 1, j) == RowOf(f, n - 1)(j);
        assert Sigma(n, ColOf(f, j)) == Sigma(n - 1, ColOf(f, j)) + f(n - 1, j);
      }
      SigmaAdd(p, ColSums(f, n - 1), RowOf(f, n - 1), ColSums(f, n));
      calc {
        Sigma(n, RowSums(f, p));
        Sigma(n - 1, RowSums(f, p)) + RowSums(f, p)(n - 1);
        Sigma(p, ColSums(f, n - 1)) + Sigma(p, RowOf(f, n - 1));
        Sigma(p, ColSums(f, n));
      }
    } else {
      SigmaZero(p, ColSums(f, 0));
    }
  }
}
