/** Index arithmetic of matrices that are stored row by row. */
module IndexArithmetic {
  /** r * n + c, by rows. Defined by recursion so that proofs about it stay linear. */
  function Flat(r: nat, c: nat, n: nat): nat {
    if r == 0 then c else n + Flat(r - 1, c, n)
  }

  lemma {:induction false} FlatIs(r: nat, c: nat, n: nat)
    ensures Flat(r, c, n) == r * n + c
  {
    if r > 0 {
      FlatIs(r - 1, c, n);
    }
  }

  lemma {:induction false} FlatInRange(r: nat, c: nat, m: nat, n: nat)
    requires r < m && c < n
    ensures Flat(r, c, n) < m * n
  {
    if r > 0 {
      FlatInRange(r - 1, c, m - 1, n);
    } else {
      assert (m - 1) * n >= 0;
    }
  }

  lemma {:induction false} FlatInjective(r: nat, c: nat, r': nat, c': nat, n: nat)
    requires c < n && c' < n && Flat(r, c, n) == Flat(r', c', n)
    ensures r == r' && c == c'
  {
    if r > 0 && r' > 0 {
      FlatInjective(r - 1, c, r' - 1, c', n);
    } 
  }

  lemma MulAtLeast(n: nat, d: nat)
    requires d >= 1
    ensures n * d >= n
  {
    assert n * d == n * (d - 1) + n;
  }

  lemma MulMonotone(n: nat, a: nat, b: nat)
    requires a <= b
    ensures n * a <= n * b
  {
    assert n * b == n * a + n * (b - a);
  }

  lemma DivModUnique(x: nat, n: nat, q: nat, r: nat)
    requires r < n && x == n * q + r
    ensures x / n == q && x % n == r
  {
    var d := x / n - q;
    assert n * (x / n) == n * q + n * d;
    assert n * -d == -(n * d);
    if d > 0 {
      MulAtLeast(n, d);
    } else if d < 0 {
      MulAtLeast(n, -d);
    }
  }

  /** Every index of the data is the flat index of one row and column. */
  lemma Unflatten(i: nat, m: nat, n: nat) returns (r: nat, c: nat)
    requires 0 < n && i < m * n
    ensures r == i / n && c == i % n && r < m && c < n && i == Flat(r, c, n)
  {
    r, c := i / n, i % n;
    FlatIs(r, c, n);
    assert i == n * r + c;
    if r >= m {
      MulMonotone(n, m, r);
    }
  }

  // ---------- Filling an array row by row ----------

  /** All entries before (row, col) have been written. */
  ghost predicate Filled(s: seq<real>, f: (nat, nat) -> real, n: nat, row: nat, col: nat) {
    forall r: nat, c: nat | c < n && (r < row || (r == row && c < col)) ::
      Flat(r, c, n) < |s| && s[Flat(r, c, n)] == f(r, c)
  }

  lemma FillNext(s: seq<real>, f: (nat, nat) -> real, m: nat, n: nat, row: nat, col: nat)
    requires row < m && col < n && |s| == m * n && Filled(s, f, n, row, col)
    ensures Flat(row, col, n) == row * n + col < |s|
    ensures Filled(s[Flat(row, col, n) := f(row, col)], f, n, row, col + 1)
  {
    FlatInRange(row, col, m, n);
    FlatIs(row, col, n);
    forall r: nat, c: nat | c < n && (r < row || (r == row && c < col))
      ensures Flat(r, c, n) != Flat(row, col, n)
    {
      if Flat(r, c, n) == Flat(row, col, n) {
        FlatInjective(r, c, row, col, n);
      }
    }
  }
}
