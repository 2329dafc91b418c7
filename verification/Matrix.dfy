/**
  Matrices with views: pybricks/tools/pb_type_matrix.c, over the reals instead of floats.

  A matrix object is a window on an array that it may share with others: it carries a scale and
  says whether the array runs by rows or by columns. What it denotes is the function Entry.
 */
module Matrix {
  import opened Common
  import opened IndexArithmetic
  import opened Sums

  // ---------- Values ----------

  datatype Mat = Mat(m: nat, n: nat, scale: real, transposed: bool, data: seq<real>) {
    ghost predicate Valid() {
      m > 0 && n > 0 && |data| == m * n
    }
  }

  function Index(a: Mat, r: nat, c: nat): (i: nat)
    requires r < a.m && c < a.n
    ensures i < a.m * a.n
  {
    FlatInRange(r, c, a.m, a.n);
    FlatInRange(c, r, a.n, a.m);
    if a.transposed then Flat(c, r, a.m) else Flat(r, c, a.n)
  }

  /** Results of matrix arithmetic: a matrix, or a plain number where a 1x1 result would arise. */
  datatype Obj = Matrix(mat: Mat) | Number(x: real) {
    ghost predicate Valid() {
      Matrix? ==> mat.Valid()
    }
  }

  function Rows(a: Obj): nat {
    if a.Matrix? then a.mat.m else 1
  }

  function Cols(a: Obj): nat {
    if a.Matrix? then a.mat.n else 1
  }

  /** What a value denotes, as a total function that is zero outside. */
  function Entry(a: Obj, r: nat, c: nat): real {
    if r >= Rows(a) || c >= Cols(a) then 0.0
    else if a.Number? then a.x
    else if |a.mat.data| != a.mat.m * a.mat.n then 0.0
    else Times(a.mat.data[Index(a.mat, r, c)], a.mat.scale)
  }

  /** Same shape and same entries, however they are stored. */
  ghost predicate Same(a: Obj, b: Obj) {
    && Rows(a) == Rows(b) && Cols(a) == Cols(b)
    && forall r: nat, c: nat :: Entry(a, r, c) == Entry(b, r, c)
  }

  function Terms(a: Obj, b: Obj, r: nat, c: nat): nat -> real {
    (k: nat) => Times(Entry(a, r, k), Entry(b, k, c))
  }

  ghost predicate IsProduct(p: Obj, a: Obj, b: Obj) {
    && Cols(a) == Rows(b) && Rows(p) == Rows(a) && Cols(p) == Cols(b)
    && forall r: nat, c: nat | r < Rows(p) && c < Cols(p) :: Entry(p, r, c) == Sum(Terms(a, b, r, c), Cols(a))
  }

  ghost predicate IsTranspose(t: Obj, a: Obj) {
    && Rows(t) == Cols(a) && Cols(t) == Rows(a)
    && forall r: nat, c: nat :: Entry(t, r, c) == Entry(a, c, r)
  }

  ghost predicate IsScaled(s: Obj, a: Obj, x: real) {
    && Rows(s) == Rows(a) && Cols(s) == Cols(a)
    && forall r: nat, c: nat :: Entry(s, r, c) == Times(Entry(a, r, c), x)
  }

  ghost predicate IsSum(s: Obj, a: Obj, b: Obj, add: bool) {
    && Rows(a) == Rows(b) == Rows(s) && Cols(a) == Cols(b) == Cols(s)
    && forall r: nat, c: nat :: Entry(s, r, c) == Entry(a, r, c) + (if add then Entry(b, r, c) else -Entry(b, r, c))
  }

  // ---------- The matrix object ----------

  class MatrixObj {
    const m: nat
    const n: nat
    const scale: real
    const transposed: bool
    const data: array<real>

    ghost predicate Valid() {
      m > 0 && n > 0 && data.Length == m * n
    }

    ghost function Value(): Mat
      reads data
    {
      Mat(m, n, scale, transposed, data[..])
    }

    constructor (m: nat, n: nat, scale: real, transposed: bool, data: array<real>)
      ensures this.m == m && this.n == n && this.scale == scale && this.transposed == transposed && this.data == data
    {
      this.m, this.n, this.scale, this.transposed, this.data := m, n, scale, transposed, data;
    }

    /** Add or subtract, entry by entry, into new memory. */
    method Add(rhs: MatrixObj, add: bool) returns (r: Result<MatrixObj>)
      requires Valid() && rhs.Valid()
      ensures r.Err? <==> m != rhs.m || n != rhs.n
      ensures r.Err? ==> r.error == InvalidArg
      ensures r.Ok? ==>
                && fresh(r.value) && fresh(r.value.data) && r.value.Valid()
                && IsSum(Matrix(r.value.Value()), Matrix(Value()), Matrix(rhs.Value()), add)
    {
      if n != rhs.n || m != rhs.m {
        return Err(InvalidArg);
      }
      var out := new real[m * n];
      ghost var f := SumAt(Value(), rhs.Value(), add);
      for row := 0 to m
        invariant Filled(out[..], f, n, row, 0)
      {
        for col := 0 to n
          invariant Filled(out[..], f, n, row, col)
        {
          ghost var before := out[..];
          FillNext(before, f, m, n, row, col);
          var x := AddEntry(rhs, add, row, col);
          out[row * n + col] := x;
          assert out[..] == before[row * n + col := f(row, col)];
        }
      }
      var ret := new MatrixObj(m, n, 1.0, false, out);
      FilledIsSum(ret.Value(), Value(), rhs.Value(), add);
      r := Ok(ret);
    }

    /** One entry of the sum, read through both views. */
    method AddEntry(rhs: MatrixObj, add: bool, row: nat, col: nat) returns (x: real)
      requires Valid() && rhs.Valid() && m == rhs.m && n == rhs.n && row < m && col < n
      ensures x == SumAt(Value(), rhs.Value(), add)(row, col)
    {
      IndexIs(Value(), row, col);
      IndexIs(rhs.Value(), row, col);
      var idx := row * n + col;
      var lhsIdx := if transposed then col * m + row else idx;
      var rhsIdx := if rhs.transposed then col * m + row else idx;
      if add {
        x := Times(data[lhsIdx], scale) + Times(rhs.data[rhsIdx], rhs.scale);
      } else {
        x := Times(data[lhsIdx], scale) - Times(rhs.data[rhsIdx], rhs.scale);
      }
    }

    /** The row of the left factor times the column of the right one. */
    method Dot(rhs: MatrixObj, row: nat, col: nat) returns (sum: real)
      requires Valid() && rhs.Valid() && n == rhs.m && row < m && col < rhs.n
      ensures sum == RawDot(Value(), rhs.Value())(row, col)
    {
      sum := 0.0;
      for k := 0 to n
        invariant sum == Sum(RawTerms(Value(), rhs.Value(), row, col), k)
      {
        IndexIs(Value(), row, k);
        IndexIs(rhs.Value(), k, col);
        var lhsIdx := if transposed then k * m + row else row * n + k;
        var rhsIdx := if rhs.transposed then col * rhs.m + k else k * rhs.n + col;
        sum := sum + Times(data[lhsIdx], rhs.data[rhsIdx]);
      }
    }

    /** The product of two matrices, as a number if it is 1x1. */
    method Mul(rhs: MatrixObj) returns (r: Result<Operand>)
      requires Valid() && rhs.Valid()
      ensures r.Err? <==> n != rhs.m
      ensures r.Err? ==> r.error == InvalidArg
      ensures r.Ok? ==>
                && OperandValid(r.value)
                && (r.value.Ref? ==> fresh(r.value.matrix) && fresh(r.value.matrix.data))
                && IsProduct(Denoted(r.value), Matrix(Value()), Matrix(rhs.Value()))
                && (r.value.Plain? <==> m == 1 && rhs.n == 1)
    {
      if n != rhs.m {
        return Err(InvalidArg);
      }
      var rm, rn := m, rhs.n;
      var out := new real[rm * rn];
      ghost var f := RawDot(Value(), rhs.Value());
      for row := 0 to rm
        invariant Filled(out[..], f, rn, row, 0)
      {
        for col := 0 to rn
          invariant Filled(out[..], f, rn, row, col)
        {
          ghost var before := out[..];
          FillNext(before, f, rm, rn, row, col);
          var sum := Dot(rhs, row, col);
          out[row * rn + col] := sum;
          assert out[..] == before[row * rn + col := f(row, col)];
        }
      }
      var ret := new MatrixObj(rm, rn, Times(scale, rhs.scale), false, out);
      FilledIsProduct(ret.Value(), Value(), rhs.Value());
      if rm == 1 && rn == 1 {
        NumberProduct(ret.Value(), Matrix(Value()), Matrix(rhs.Value()));
        return Ok(Plain(Times(out[0], ret.scale)));
      }
      r := Ok(Ref(ret));
    }

    /** A scaled view on the same memory. */
    method Scale(x: real) returns (r: MatrixObj)
      requires Valid()
      ensures fresh(r) && r.data == data && r.Valid()
      ensures IsScaled(Matrix(r.Value()), Matrix(Value()), x)
    {
      r := new MatrixObj(m, n, Times(scale, x), transposed, data);
      forall row: nat, col: nat | row < m && col < n
        ensures Entry(Matrix(r.Value()), row, col) == Times(Entry(Matrix(Value()), row, col), x)
      {
        TimesLaws(Raw(Value(), row, col), scale, x);
        assert Index(r.Value(), row, col) == Index(Value(), row, col);
      }
    }

    /** A transposed view on the same memory. */
    method T() returns (r: MatrixObj)
      requires Valid()
      ensures fresh(r) && r.data == data && r.Valid()
      ensures IsTranspose(Matrix(r.Value()), Matrix(Value()))
    {
      r := new MatrixObj(n, m, scale, !transposed, data);
      assert n * m == m * n;
      forall row: nat, col: nat | row < n && col < m
        ensures Entry(Matrix(r.Value()), row, col) == Entry(Matrix(Value()), col, row)
      {
        assert Index(r.Value(), row, col) == Index(Value(), col, row);
      }
    }

    method GetScalar(row: nat, col: nat) returns (r: Result<real>)
      requires Valid()
      ensures r == if row < m && col < n then Ok(Entry(Matrix(Value()), row, col)) else Err(InvalidArg)
    {
      if row >= m || col >= n {
        return Err(InvalidArg);
      }
      IndexIs(Value(), row, col);
      var idx := if transposed then col * m + row else row * n + col;
      r := Ok(Times(data[idx], scale));
    }

    /** a[row, col], where negative indices count from the end. */
    method SubscrPair(row: int, col: int) returns (r: Result<real>)
      requires Valid()
      ensures r == if 0 <= row + m && row < m && 0 <= col + n && col < n
                   then Ok(Entry(Matrix(Value()), if row < 0 then row + m else row, if col < 0 then col + n else col))
                   else Err(IndexError)
    {
      var rr: int := if row < 0 then row + m else row;
      var cc: int := if col < 0 then col + n else col;
      if cc >= 0 && rr >= 0 && cc < n && rr < m {
        IndexIs(Value(), rr, cc);
        var idx := if transposed then cc * m + rr else rr * n + cc;
        return Ok(Times(data[idx], scale));
      }
      r := Err(IndexError);
    }

    /** a[k], counting row by row in either layout; a negative k counts from the end. The size fits in memory. */
    method Subscr(k: int) returns (r: Result<real>)
      requires Valid() && m * n <= MAX_LENGTH && IsWord(k)
      ensures 0 <= k + m * n && k < m * n ==>
                var i := if k < 0 then k + m * n else k;
                r == Ok(Entry(Matrix(Value()), i / n, i % n))
      ensures !(0 <= k + m * n && k < m * n) ==>
                (r.Ok? <==> AcceptedBeyond(m, n, transposed, if k < 0 then k + m * n else k))
      ensures r.Err? ==> r.error == IndexError
    {
      var len := m * n;
      var idx: int := k;
      if idx < 0 {
        idx := idx + len;
      }
      if 0 <= idx < len {
        StoredIsIndex(Value(), idx);
      }
      idx := Stored(m, n, transposed, idx);
      if idx < 0 || idx >= len {
        return Err(IndexError);
      }
      r := Ok(Times(data[idx], scale));
    }
  }

  // ---------- Linear indices in machine words ----------

  const WORD: nat := 0x1_0000_0000

  /** As many four-byte floats as a 32-bit address space can hold. */
  const MAX_LENGTH: nat := 0x4000_0000

  /** mp_int_t on the hubs. */
  predicate IsWord(i: int) {
    -0x8000_0000 <= i < 0x8000_0000
  }

  function Signed(x: nat): (i: int)
    ensures IsWord(i)
  {
    if x % WORD < 0x8000_0000 then x % WORD else x % WORD - WORD
  }

  /** The place in the data of linear index i, computed in unsigned words if the matrix is transposed. */
  function Stored(m: nat, n: nat, transposed: bool, i: int): int
    requires n > 0
  {
    if transposed then Signed(i % WORD / n + (i % WORD % n) * m) else i
  }

  lemma StoredIsIndex(a: Mat, i: nat)
    requires a.n > 0 && i < a.m * a.n <= MAX_LENGTH
    ensures i / a.n < a.m && i % a.n < a.n && Stored(a.m, a.n, a.transposed, i) == Index(a, i / a.n, i % a.n)
  {
    var r, c := Unflatten(i, a.m, a.n);
    FlatIs(c, r, a.m);
    FlatInRange(c, r, a.n, a.m);
    assert i % WORD == i;
  }

  /** An index outside the matrix that nevertheless leads to a place inside the data. */
  predicate AcceptedBeyond(m: nat, n: nat, transposed: bool, i: int)
    requires n > 0
  {
    0 <= Stored(m, n, transposed, i) < m * n
  }

  /** All linear indices out of range are rejected exactly for matrices by rows and for single columns. */
  lemma BoundsCheckSoundIff(m: nat, n: nat, transposed: bool)
    requires m > 0 && n > 0 && m * n <= MAX_LENGTH
    ensures (forall i | IsWord(i) && !(0 <= i < m * n) :: !AcceptedBeyond(m, n, transposed, i)) <==> !transposed || n == 1
  {
    if transposed && n > 1 {
      FirstBeyondAccepted(m, n);
    } else if transposed {
      forall i | IsWord(i) && !(0 <= i < m * n) ensures !AcceptedBeyond(m, n, true, i) {
        assert i % WORD / 1 == i % WORD && i % WORD % 1 == 0;
      }
    }
  }

  lemma FirstBeyondAccepted(m: nat, n: nat)
    requires m > 0 && n > 1 && m * n <= MAX_LENGTH
    ensures IsWord(m * n) && AcceptedBeyond(m, n, true, m * n)
  {
    MulAtLeast(m, n - 1);
    assert m * n == m + m * (n - 1);
    DivModUnique(m * n, n, m, 0);
    assert m * n % WORD == m * n;
  }

  datatype Operand = Ref(matrix: MatrixObj) | Plain(x: real)

  ghost predicate OperandValid(o: Operand) {
    o.Ref? ==> o.matrix.Valid()
  }

  ghost function Denoted(o: Operand): Obj
    reads if o.Ref? then {o.matrix.data} else {}
  {
    match o
    case Ref(a) => Matrix(a.Value())
    case Plain(x) => Number(x)
  }

  // ---------- Lemmas about the loops ----------

  /** The index that the code computes. */
  lemma IndexIs(a: Mat, r: nat, c: nat)
    requires r < a.m && c < a.n
    ensures Index(a, r, c) == if a.transposed then c * a.m + r else r * a.n + c
  {
    FlatIs(r, c, a.n);
    FlatIs(c, r, a.m);
  }

  function SumAt(a: Mat, b: Mat, add: bool): (nat, nat) -> real {
    (r: nat, c: nat) =>
      Entry(Matrix(a), r, c) + (if add then Entry(Matrix(b), r, c) else -Entry(Matrix(b), r, c))
  }

  lemma FilledIsSum(s: Mat, a: Mat, b: Mat, add: bool)
    requires a.Valid() && b.Valid() && s.Valid() && a.m == b.m == s.m && a.n == b.n == s.n
    requires !s.transposed && s.scale == 1.0 && Filled(s.data, SumAt(a, b, add), s.n, s.m, 0)
    ensures IsSum(Matrix(s), Matrix(a), Matrix(b), add)
  {
    forall r: nat, c: nat | r < s.m && c < s.n
      ensures Entry(Matrix(s), r, c) == SumAt(a, b, add)(r, c)
    {
      assert Index(s, r, c) == Flat(r, c, s.n);
    }
  }

  function Raw(a: Mat, r: nat, c: nat): real {
    if r < a.m && c < a.n && |a.data| == a.m * a.n then a.data[Index(a, r, c)] else 0.0
  }

  function RawTerms(a: Mat, b: Mat, r: nat, c: nat): nat -> real {
    (k: nat) => Times(Raw(a, r, k), Raw(b, k, c))
  }

  function RawDot(a: Mat, b: Mat): (nat, nat) -> real {
    (r: nat, c: nat) => Sum(RawTerms(a, b, r, c), a.n)
  }

  lemma ScaleOut(x: real, s: real, y: real, t: real)
    ensures Times(Times(x, s), Times(y, t)) == Times(Times(s, t), Times(x, y))
  {
    TimesLaws(x, s, Times(y, t));
    TimesLaws(s, y, t);
    TimesLaws(s, t, y);
    TimesLaws(y, t, t);
    TimesLaws(x, Times(s, t), y);
    TimesLaws(Times(s, t), x, y);
  }

  /** Multiplying the scales afterwards is the same as scaling every factor. */
  lemma ScaledTerms(a: Mat, b: Mat, r: nat, c: nat)
    requires a.Valid() && b.Valid() && a.n == b.m && r < a.m && c < b.n
    ensures Sum(Terms(Matrix(a), Matrix(b), r, c), a.n) ==
            Times(Times(a.scale, b.scale), Sum(RawTerms(a, b, r, c), a.n))
  {
    var f, h, s := RawTerms(a, b, r, c), Terms(Matrix(a), Matrix(b), r, c), Times(a.scale, b.scale);
    forall k: nat | k < a.n ensures h(k) == Times(s, f(k)) {
      ScaleOut(Raw(a, r, k), a.scale, Raw(b, k, c), b.scale);
    }
    SumOfMultiples(s, f, h, a.n);
  }

  lemma FilledIsProduct(p: Mat, a: Mat, b: Mat)
    requires a.Valid() && b.Valid() && p.Valid() && a.n == b.m && p.m == a.m && p.n == b.n
    requires !p.transposed && p.scale == Times(a.scale, b.scale) && Filled(p.data, RawDot(a, b), p.n, p.m, 0)
    ensures IsProduct(Matrix(p), Matrix(a), Matrix(b))
  {
    forall r: nat, c: nat | r < p.m && c < p.n
      ensures Entry(Matrix(p), r, c) == Sum(Terms(Matrix(a), Matrix(b), r, c), a.n)
    {
      assert Index(p, r, c) == Flat(r, c, p.n);
      assert Entry(Matrix(p), r, c) == Times(RawDot(a, b)(r, c), p.scale);
      ScaledTerms(a, b, r, c);
      TimesLaws(RawDot(a, b)(r, c), p.scale, 0.0);
    }
  }

  lemma NumberProduct(p: Mat, a: Obj, b: Obj)
    requires p.Valid() && p.m == 1 && p.n == 1 && !p.transposed && IsProduct(Matrix(p), a, b)
    ensures IsProduct(Number(Times(p.data[0], p.scale)), a, b)
  {
    assert Entry(Matrix(p), 0, 0) == Times(p.data[0], p.scale);
  }

  // ---------- The multiplication operator ----------

  /**
    a * b in the user program, for any mix of matrices and numbers. Conforming operands give their
    product, and a number scales whatever shape the other operand has.
   */
  method Multiply(a: Operand, b: Operand) returns (r: Result<Operand>)
    requires OperandValid(a) && OperandValid(b)
    ensures a.Ref? && b.Ref? && Cols(Denoted(a)) != Rows(Denoted(b)) <==> r.Err?
    ensures r.Ok? ==>
              && OperandValid(r.value)
              && (Cols(Denoted(a)) == Rows(Denoted(b)) ==> IsProduct(Denoted(r.value), Denoted(a), Denoted(b)))
              && (b.Plain? ==> IsScaled(Denoted(r.value), Denoted(a), b.x))
              && (a.Plain? ==> IsScaled(Denoted(r.value), Denoted(b), a.x))
  {
    if a.Ref? && b.Ref? {
      r := a.matrix.Mul(b.matrix);
    } else if a.Ref? {
      var s := a.matrix.Scale(b.x);
      ScalingIsProduct(Matrix(s.Value()), Matrix(a.matrix.Value()), b.x);
      r := Ok(Ref(s));
    } else if b.Ref? {
      var s := b.matrix.Scale(a.x);
      ScalingIsProduct(Matrix(s.Value()), Matrix(b.matrix.Value()), a.x);
      r := Ok(Ref(s));
    } else {
      TimesLaws(a.x, b.x, 0.0);
      ScalingIsProduct(Number(Times(a.x, b.x)), Number(a.x), b.x);
      r := Ok(Plain(Times(a.x, b.x)));
    }
  }

  /** Scaling by a number is the product with a 1x1 matrix, on whichever side it conforms. */
  lemma ScalingIsProduct(s: Obj, a: Obj, x: real)
    requires IsScaled(s, a, x)
    ensures Cols(a) == 1 ==> IsProduct(s, a, Number(x))
    ensures Rows(a) == 1 ==> IsProduct(s, Number(x), a)
  {
    forall r: nat, c: nat | r < Rows(s) && c < Cols(s)
      ensures Cols(a) == 1 ==> Entry(s, r, c) == Sum(Terms(a, Number(x), r, c), 1)
      ensures Rows(a) == 1 ==> Entry(s, r, c) == Sum(Terms(Number(x), a, r, c), 1)
    {
      TimesLaws(Entry(a, r, c), x, 0.0);
      SumOfOne(Terms(a, Number(x), r, c));
      SumOfOne(Terms(Number(x), a, r, c));
    }
  }

  lemma SumOfOne(f: nat -> real)
    ensures Sum(f, 1) == f(0)
  {
    assert Sum(f, 0) == 0.0;
  }

  // ---------- Matrices from rows of numbers ----------

  function RowsAt(rows: seq<seq<real>>): (nat, nat) -> real {
    (r: nat, c: nat) => if r < |rows| && c < |rows[r]| then rows[r][c] else 0.0
  }

  ghost predicate Rectangular(rows: seq<seq<real>>) {
    rows != [] && rows[0] != [] && forall r | 0 <= r < |rows| :: |rows[r]| == |rows[0]|
  }

  /** Matrix(rows): the entries are those of the rows, and a single one is a number. */
  method MakeNew(rows: seq<seq<real>>) returns (r: Result<Operand>)
    ensures r.Ok? <==> Rectangular(rows) || (|rows| == 1 && |rows[0]| == 1)
    ensures r.Err? ==> r.error == InvalidArg
    ensures r.Ok? ==>
              && OperandValid(r.value) && (r.value.Ref? ==> fresh(r.value.matrix) && fresh(r.value.matrix.data))
              && (r.value.Plain? <==> |rows| == 1 && |rows[0]| == 1)
              && Rows(Denoted(r.value)) == |rows| && Cols(Denoted(r.value)) == |rows[0]|
              && forall i, j | 0 <= i < |rows| && 0 <= j < |rows[i]| :: Entry(Denoted(r.value), i, j) == rows[i][j]
  {
    if rows == [] || rows[0] == [] {
      return Err(InvalidArg);
    }
    var m, n := |rows|, |rows[0]|;
    if m == 1 && n == 1 {
      return Ok(Plain(rows[0][0]));
    }
    var data := new real[m * n];
    ghost var f := RowsAt(rows);
    for row := 0 to m
      invariant Filled(data[..], f, n, row, 0)
      invariant forall i | 0 <= i < row :: |rows[i]| == n
    {
      if |rows[row]| != n {
        return Err(InvalidArg);
      }
      for col := 0 to n
        invariant Filled(data[..], f, n, row, col)
      {
        ghost var before := data[..];
        FillNext(before, f, m, n, row, col);
        data[row * n + col] := rows[row][col];
        assert data[..] == before[row * n + col := f(row, col)];
      }
    }
    var ret := new MatrixObj(m, n, 1.0, false, data);
    FilledIs(ret.Value(), f);
    r := Ok(Ref(ret));
  }

  lemma FilledIs(a: Mat, f: (nat, nat) -> real)
    requires a.Valid() && !a.transposed && a.scale == 1.0 && Filled(a.data, f, a.n, a.m, 0)
    ensures forall r: nat, c: nat | r < a.m && c < a.n :: Entry(Matrix(a), r, c) == f(r, c)
  {
    forall r: nat, c: nat | r < a.m && c < a.n ensures Entry(Matrix(a), r, c) == f(r, c) {
      assert Index(a, r, c) == Flat(r, c, a.n);
      TimesLaws(f(r, c), 1.0, 0.0);
    }
  }

  // ---------- Bitmaps ----------

  function Pow2(n: nat): (p: nat)
    ensures p > 0
  {
    if n == 0 then 1 else 2 * Pow2(n - 1)
  }

  /** The sum of the low n bits, each weighted by its power of two. */
  function BitSum(src: nat, n: nat): nat {
    if n == 0 then 0 else BitSum(src, n - 1) + Bit(src, n - 1) * Pow2(n - 1)
  }

  lemma {:induction false} BitSumOfHalf(src: nat, n: nat)
    ensures BitSum(src, n + 1) == src % 2 + 2 * BitSum(src / 2, n)
  {
    if n > 0 {
      BitSumOfHalf(src, n - 1);
      var b, w := Bit(src / 2, n - 1), Pow2(n - 1);
      assert b * (2 * w) == 2 * (b * w);
    } else {
      assert BitSum(src, 0) == 0 && Pow2(0) == 1;
    }
  }

  /** The low bits are each 0 or 1 and sum to the number modulo the power of two. */
  lemma {:induction false} BitsAreNumber(src: nat, n: nat)
    ensures BitSum(src, n) == src % Pow2(n)
    ensures forall i: nat :: Bit(src, i) < 2
    decreases n
  {
    forall i: nat ensures Bit(src, i) < 2 { BitIsBinary(src, i); }
    if n > 0 {
      BitSumOfHalf(src, n - 1);
      BitsAreNumber(src / 2, n - 1);
      ModuloDouble(src, Pow2(n - 1));
    }
  }

  lemma {:induction false} BitIsBinary(src: nat, i: nat)
    ensures Bit(src, i) < 2
  {
    if i > 0 {
      BitIsBinary(src / 2, i - 1);
    }
  }

  lemma ModuloDouble(x: nat, m: nat)
    requires m > 0
    ensures x % (2 * m) == x % 2 + 2 * (x / 2 % m)
  {
    var q, r := x / 2 / m, x / 2 % m;
    assert x / 2 == m * q + r;
    assert x == 2 * m * q + (x % 2 + 2 * r);
    DivModUnique(x, 2 * m, q, x % 2 + 2 * r);
  }

  function Bit(src: nat, i: nat): nat
  {
    if i == 0 then src % 2 else Bit(src / 2, i - 1)
  }

  /** A matrix from the low mn bits of a word, whose last entry is the lowest bit. */
  method MakeBitmap(m: nat, n: nat, scale: real, src: nat) returns (r: MatrixObj)
    requires m > 0 && n > 0 && m * n <= 32
    ensures fresh(r) && fresh(r.data) && r.Valid() && r.m == m && r.n == n
    ensures forall row: nat, col: nat | row < m && col < n ::
              Flat(row, col, n) < m * n &&
              Entry(Matrix(r.Value()), row, col) == Times(Bit(src, m * n - 1 - Flat(row, col, n)) as real, scale)
  {
    var data := new real[m * n];
    var len := m * n;
    for i := 0 to len
      invariant forall j | 0 <= j < i :: data[len - j - 1] == Bit(src, j) as real
    {
      data[len - i - 1] := Bit(src, i) as real;
    }
    r := new MatrixObj(m, n, scale, false, data);
    forall row: nat, col: nat | row < m && col < n
      ensures Flat(row, col, n) < len
      ensures Entry(Matrix(r.Value()), row, col) == Times(Bit(src, len - 1 - Flat(row, col, n)) as real, scale)
    {
      FlatInRange(row, col, m, n);
      var j := len - 1 - Flat(row, col, n);
      assert data[len - j - 1] == Bit(src, j) as real;
      assert Index(r.Value(), row, col) == len - j - 1;
    }
  }
}
