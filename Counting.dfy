/**
 * Finite sums over index ranges. Every constraint of the schedulers is a
 * linear count of boolean decision variables, so all of them are stated
 * with `Sum` and `Count` below.
 */
module Counting {

  /** f(0) + f(1) + ... + f(n - 1) */
  function Sum(n: nat, f: nat -> nat): nat
  {
    if n == 0 then 0 else Sum(n - 1, f) + f(n - 1)
  }

  /** 1 for true, 0 for false: how a boolean variable enters a linear constraint. */
  function Ind(b: bool): nat
  {
    if b then 1 else 0
  }

  /** The number of indices i < n with p(i). */
  function Count(n: nat, p: nat -> bool): nat
  {
    if n == 0 then 0 else Count(n - 1, p) + Ind(p(n - 1))
  }

  /** The row i of a two-index term g, as a function of the second index. */
  function Row(g: (nat, nat) -> nat, i: nat): nat -> nat
  {
    j => g(i, j)
  }

  /** The column j of a two-index term g, as a function of the first index. */
  function Col(g: (nat, nat) -> nat, j: nat): nat -> nat
  {
    i => g(i, j)
  }

  /** The indices whose term is positive. */
  function Positive(f: nat -> nat): nat -> bool
  {
    (i: nat) => f(i) > 0
  }

  /** The indicator terms of a predicate. */
  function IndOf(p: nat -> bool): nat -> nat
  {
    i => Ind(p(i))
  }

  lemma {:induction false} SumCongruence(n: nat, f: nat -> nat, g: nat -> nat)
    requires forall i: nat :: i < n ==> f(i) == g(i)
    ensures Sum(n, f) == Sum(n, g)
  {
    if n > 0 {
      SumCongruence(n - 1, f, g);
    }
  }

  lemma {:induction false} SumMono(n: nat, f: nat -> nat, g: nat -> nat)
    requires forall i: nat :: i < n ==> f(i) <= g(i)
    ensures Sum(n, f) <= Sum(n, g)
  {
    if n > 0 {
      SumMono(n - 1, f, g);
    }
  }

  /** A sum of n terms each equal to c is n * c. */
  lemma {:induction false} SumConst(n: nat, f: nat -> nat, c: nat)
    requires forall i: nat :: i < n ==> f(i) == c
    ensures Sum(n, f) == n * c
  {
    if n > 0 {
      SumConst(n - 1, f, c);
    }
  }

  /** A sum of n terms each at least c is at least n * c. */
  lemma {:induction false} SumAtLeast(n: nat, f: nat -> nat, c: nat)
    requires forall i: nat :: i < n ==> c <= f(i)
    ensures n * c <= Sum(n, f)
  {
    if n > 0 {
      SumAtLeast(n - 1, f, c);
    }
  }

  /** Under a termwise bound, the two sums are equal exactly when every pair of terms is. */
  lemma {:induction false} SumTight(n: nat, f: nat -> nat, g: nat -> nat)
    requires forall i: nat :: i < n ==> f(i) <= g(i)
    ensures Sum(n, f) == Sum(n, g) <==> forall i: nat :: i < n ==> f(i) == g(i)
  {
    if n > 0 {
      SumTight(n - 1, f, g);
      SumMono(n - 1, f, g);
    }
  }

  lemma {:induction false} SumAdd(n: nat, f: nat -> nat, g: nat -> nat, h: nat -> nat)
    requires forall i: nat :: i < n ==> h(i) == f(i) + g(i)
    ensures Sum(n, h) == Sum(n, f) + Sum(n, g)
  {
    if n > 0 {
      SumAdd(n - 1, f, g, h);
    }
  }

  /** A sum of non-negative terms is at least each of its terms. */
  lemma {:induction false} SumAtLeastTerm(n: nat, f: nat -> nat, k: nat)
    requires k < n
    ensures f(k) <= Sum(n, f)
  {
    if k < n - 1 {
      SumAtLeastTerm(n - 1, f, k);
    }
  }

  /** Counting a predicate is summing its indicator terms. */
  lemma {:induction false} CountIsSum(n: nat, p: nat -> bool)
    ensures Count(n, p) == Sum(n, IndOf(p))
  {
    if n > 0 {
      CountIsSum(n - 1, p);
    }
  }

  /** Nothing is counted exactly when no index satisfies the predicate. */
  lemma {:induction false} CountZero(n: nat, p: nat -> bool)
    ensures Count(n, p) == 0 <==> forall i: nat :: i < n ==> !p(i)
  {
    if n > 0 {
      CountZero(n - 1, p);
    }
  }

  /** At most one index is counted exactly when no two distinct indices satisfy the predicate. */
  lemma {:induction false} CountAtMostOne(n: nat, p: nat -> bool)
    ensures Count(n, p) <= 1 <==> forall i: nat, j: nat :: i < n && j < n && p(i) && p(j) ==> i == j
  {
    if n > 0 {
      CountAtMostOne(n - 1, p);
      if p(n - 1) {
        CountZero(n - 1, p);
      }
    }
  }

  /**
   * Double counting: summing a two-index table row by row gives the same
   * total as summing it column by column.
   */
  lemma {:induction false} SumExchange(a: nat, b: nat, g: (nat, nat) -> nat, rows: nat -> nat, cols: nat -> nat)
    requires forall i: nat :: i < a ==> rows(i) == Sum(b, Row(g, i))
    requires forall j: nat :: j < b ==> cols(j) == Sum(a, Col(g, j))
    ensures Sum(a, rows) == Sum(b, cols)
  {
    if a == 0 {
      SumConst(b, cols, 0);
    } else {
      var shorter: nat -> nat := j => Sum(a - 1, Col(g, j));
      SumExchange(a - 1, b, g, rows, shorter);
      SumAdd(b, shorter, Row(g, a - 1), cols);
    }
  }

  /** A predicate that holds of exactly one index below n is counted once. */
  lemma {:induction false} CountSingle(n: nat, p: nat -> bool, k: nat)
    requires k < n
    requires forall i: nat :: i < n ==> (p(i) <==> i == k)
    ensures Count(n, p) == 1
  {
    if k < n - 1 {
      CountSingle(n - 1, p, k);
    } else {
      CountZero(n - 1, p);
    }
  }

  /**
   * Counting the positive terms of a sum never exceeds the sum, and the two
   * agree exactly when no term exceeds 1.
   */
  lemma {:induction false} CountPositive(n: nat, f: nat -> nat)
    ensures Count(n, Positive(f)) <= Sum(n, f)
    ensures Count(n, Positive(f)) == Sum(n, f) <==> forall i: nat :: i < n ==> f(i) <= 1
  {
    if n > 0 {
      CountPositive(n - 1, f);
    }
  }
}
