/**
 * Finite sums of integer terms, accumulated left to right as the GEMM
 * kernel's `res += ...` loop does, and the facts that let a flat sum over a
 * combined axis be read as nested sums over its parts.
 */
module Sums {

  /** f(0) + f(1) + ... + f(n - 1). */
  function Sum(n: nat, f: nat -> int): (s: int)
  {
    if n == 0 then 0 else Sum(n - 1, f) + f(n - 1)
  }

  /** The terms of `f` starting at `m`. */
  function Shift(f: nat -> int, m: nat): (shifted: nat -> int)
  {
    (i: nat) => f(m + i)
  }

  /** Row `i` of `f` read as a matrix with rows of length `b`, summed per row. */
  function RowSums(f: nat -> int, b: nat): (sums: nat -> int)
  {
    (i: nat) => Sum(b, Shift(f, i * b))
  }

  /** Sums of pointwise-equal terms are equal. */
  lemma {:induction false} SumExt(n: nat, f: nat -> int, g: nat -> int)
    requires forall i :: 0 <= i < n ==> f(i) == g(i)
    ensures Sum(n, f) == Sum(n, g)
  {
    if n > 0 {
      SumExt(n - 1, f, g);
    }
  }

  /** A sum over m + n terms splits into the first m terms and the remaining n. */
  lemma {:induction false} SumAppend(m: nat, n: nat, f: nat -> int)
    ensures Sum(m + n, f) == Sum(m, f) + Sum(n, Shift(f, m))
  {
    if n > 0 {
      SumAppend(m, n - 1, f);
      assert Shift(f, m)(n - 1) == f(m + n - 1);
    }
  }

  /** A sum over a * b terms is the sum of a rows of b terms each (row-major order). */
  lemma {:induction false} SumNested(a: nat, b: nat, f: nat -> int)
    ensures Sum(a * b, f) == Sum(a, RowSums(f, b))
  {
    if a > 0 {
      SumNested(a - 1, b, f);
      assert a * b == (a - 1) * b + b;
      SumAppend((a - 1) * b, b, f);
      assert RowSums(f, b)(a - 1) == Sum(b, Shift(f, (a - 1) * b));
    }
  }
}
