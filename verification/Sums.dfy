/** Finite sums of reals, as far as products of matrices need them. */
module Sums {
  /** Multiplication, named so that equal factors are seen to give equal products. */
  function Times(x: real, y: real): real {
    x * y
  }

  lemma TimesLaws(x: real, y: real, z: real)
    ensures Times(x, y) == Times(y, x)
    ensures Times(Times(x, y), z) == Times(x, Times(y, z))
    ensures Times(x, y + z) == Times(x, y) + Times(x, z)
    ensures Times(x, -y) == -Times(x, y)
    ensures Times(0.0, x) == 0.0 && Times(1.0, x) == x
  {
  }

  function Sum(f: nat -> real, n: nat): real {
    if n == 0 then 0.0 else Sum(f, n - 1) + f(n - 1)
  }

  lemma {:induction false} SumOfEqual(f: nat -> real, g: nat -> real, n: nat)
    requires forall k: nat | k < n :: f(k) == g(k)
    ensures Sum(f, n) == Sum(g, n)
  {
    if n > 0 {
      SumOfEqual(f, g, n - 1);
    }
  }

  lemma {:induction false} SumOfSums(f: nat -> real, g: nat -> real, h: nat -> real, n: nat)
    requires forall k: nat | k < n :: h(k) == f(k) + g(k)
    ensures Sum(h, n) == Sum(f, n) + Sum(g, n)
  {
    if n > 0 {
      SumOfSums(f, g, h, n - 1);
    }
  }

  lemma {:induction false} SumOfMultiples(a: real, f: nat -> real, h: nat -> real, n: nat)
    requires forall k: nat | k < n :: h(k) == Times(a, f(k))
    ensures Sum(h, n) == Times(a, Sum(f, n))
  {
    if n > 0 {
      SumOfMultiples(a, f, h, n - 1);
      TimesLaws(a, Sum(f, n - 1), f(n - 1));
    }
  }

  lemma {:induction false} SumOfZeros(f: nat -> real, n: nat)
    requires forall k: nat | k < n :: f(k) == 0.0
    ensures Sum(f, n) == 0.0
  {
    if n > 0 {
      SumOfZeros(f, n - 1);
    }
  }

  lemma {:induction false} SumOfOneTerm(f: nat -> real, n: nat, i: nat)
    requires i < n && forall k: nat | k < n && k != i :: f(k) == 0.0
    ensures Sum(f, n) == f(i)
  {
    if i == n - 1 {
      SumOfZeros(f, n - 1);
    } else {
      SumOfOneTerm(f, n - 1, i);
    }
  }

  function Row(f: (nat, nat) -> real, i: nat): nat -> real {
    (j: nat) => f(i, j)
  }

  function Column(f: (nat, nat) -> real, j: nat): nat -> real {
    (i: nat) => f(i, j)
  }

  function RowSums(f: (nat, nat) -> real, n: nat): nat -> real {
    (i: nat) => Sum(Row(f, i), n)
  }

  function ColumnSums(f: (nat, nat) -> real, m: nat): nat -> real {
    (j: nat) => Sum(Column(f, j), m)
  }

  /** The two orders of summing a rectangle agree. */
  lemma {:induction false} Exchange(f: (nat, nat) -> real, m: nat, n: nat)
    ensures Sum(RowSums(f, n), m) == Sum(ColumnSums(f, m), n)
  {
    if m == 0 {
      SumOfZeros(ColumnSums(f, 0), n);
    } else {
      Exchange(f, m - 1, n);
      SumOfSums(ColumnSums(f, m - 1), Row(f, m - 1), ColumnSums(f, m), n);
    }
  }
}
