/**
  The laws of matrix algebra for the values that the loops compute.

  They hold for all conforming operands with any mix of transposed and scaled views, and for
  numbers that stand for 1x1 results, since all that they use is what the operations are proved to
  denote.
 */
module MatrixAlgebra {
  import opened Sums
  import opened Matrix

  /** Sums of products with a fixed factor, in both positions. */
  lemma FactorRight(f: nat -> real, h: nat -> real, x: real, n: nat)
    requires forall k: nat | k < n :: h(k) == Times(f(k), x)
    ensures Sum(h, n) == Times(Sum(f, n), x)
  {
    forall k: nat | k < n ensures h(k) == Times(x, f(k)) {
      TimesLaws(f(k), x, 0.0);
    }
    SumOfMultiples(x, f, h, n);
    TimesLaws(x, Sum(f, n), 0.0);
  }

  /** (AB)' == B'A' */
  lemma TransposeOfProduct(ab: Obj, a: Obj, b: Obj, abT: Obj, aT: Obj, bT: Obj, q: Obj)
    requires IsProduct(ab, a, b) && IsTranspose(abT, ab)
    requires IsTranspose(aT, a) && IsTranspose(bT, b) && IsProduct(q, bT, aT)
    ensures Same(abT, q)
  {
    forall r: nat, c: nat | r < Rows(q) && c < Cols(q)
      ensures Entry(abT, r, c) == Entry(q, r, c)
    {
      forall k: nat ensures Terms(a, b, c, r)(k) == Terms(bT, aT, r, c)(k) {
        TimesLaws(Entry(a, c, k), Entry(b, k, r), 0.0);
      }
      SumOfEqual(Terms(a, b, c, r), Terms(bT, aT, r, c), Cols(a));
    }
  }

  /** A column with a single one in row k picks column k of the left factor. */
  lemma UnitColumnPicks(p: Obj, a: Obj, e: Obj, k: nat, c: nat)
    requires IsProduct(p, a, e) && k < Cols(a) && c < Cols(e)
    requires forall i: nat | i < Rows(e) :: Entry(e, i, c) == if i == k then 1.0 else 0.0
    ensures forall r: nat | r < Rows(a) :: Entry(p, r, c) == Entry(a, r, k)
  {
    forall r: nat | r < Rows(a) ensures Entry(p, r, c) == Entry(a, r, k) {
      forall i: nat | i < Cols(a)
        ensures Terms(a, e, r, c)(i) == if i == k then Entry(a, r, k) else 0.0
      {
        TimesLaws(Entry(a, r, i), 1.0, 0.0);
        TimesLaws(Entry(a, r, i), 0.0, 0.0);
        TimesLaws(1.0, Entry(a, r, i), 0.0);
        TimesLaws(0.0, Entry(a, r, i), 0.0);
      }
      SumOfOneTerm(Terms(a, e, r, c), Cols(a), k);
    }
  }

  ghost predicate IsIdentity(e: Obj) {
    && Rows(e) == Cols(e)
    && forall i: nat, j: nat | i < Rows(e) && j < Cols(e) :: Entry(e, i, j) == if i == j then 1.0 else 0.0
  }

  /** AI == A and IA == A */
  lemma IdentityIsNeutral(ai: Obj, ia: Obj, a: Obj, e: Obj, f: Obj)
    requires IsIdentity(e) && IsProduct(ai, a, e) && IsIdentity(f) && IsProduct(ia, f, a)
    ensures Same(ai, a) && Same(ia, a)
  {
    forall r: nat, c: nat | r < Rows(a) && c < Cols(a)
      ensures Entry(ai, r, c) == Entry(a, r, c) && Entry(ia, r, c) == Entry(a, r, c)
    {
      UnitColumnPicks(ai, a, e, c, c);
      UnitRowPicks(ia, f, a, r, c);
    }
  }

  lemma UnitRowPicks(p: Obj, e: Obj, a: Obj, r: nat, c: nat)
    requires IsIdentity(e) && IsProduct(p, e, a) && r < Rows(a) && c < Cols(a)
    ensures Entry(p, r, c) == Entry(a, r, c)
  {
    forall k: nat | k < Rows(a) ensures Terms(e, a, r, c)(k) == if k == r then Entry(a, r, c) else 0.0 {
      TimesLaws(1.0, Entry(a, k, c), 0.0);
      TimesLaws(0.0, Entry(a, k, c), 0.0);
    }
    SumOfOneTerm(Terms(e, a, r, c), Rows(a), r);
  }

  /** a(r,k) b(k,l) c(l,j), for fixed r and j. */
  function Triple(a: Obj, b: Obj, c: Obj, r: nat, j: nat): (nat, nat) -> real {
    (k: nat, l: nat) => Times(Times(Entry(a, r, k), Entry(b, k, l)), Entry(c, l, j))
  }

  lemma LeftFirst(ab: Obj, a: Obj, b: Obj, c: Obj, r: nat, j: nat)
    requires IsProduct(ab, a, b) && Cols(b) == Rows(c) && r < Rows(a)
    ensures Sum(Terms(ab, c, r, j), Cols(ab)) == Sum(ColumnSums(Triple(a, b, c, r, j), Cols(a)), Cols(b))
  {
    forall l: nat | l < Cols(b)
      ensures Terms(ab, c, r, j)(l) == ColumnSums(Triple(a, b, c, r, j), Cols(a))(l)
    {
      FactorRight(Terms(a, b, r, l), Column(Triple(a, b, c, r, j), l), Entry(c, l, j), Cols(a));
    }
    SumOfEqual(Terms(ab, c, r, j), ColumnSums(Triple(a, b, c, r, j), Cols(a)), Cols(b));
  }

  lemma RightFirst(bc: Obj, a: Obj, b: Obj, c: Obj, r: nat, j: nat)
    requires IsProduct(bc, b, c) && Cols(a) == Rows(b) && j < Cols(c)
    ensures Sum(Terms(a, bc, r, j), Cols(a)) == Sum(RowSums(Triple(a, b, c, r, j), Cols(b)), Cols(a))
  {
    forall k: nat | k < Cols(a)
      ensures Terms(a, bc, r, j)(k) == RowSums(Triple(a, b, c, r, j), Cols(b))(k)
    {
      forall l: nat | l < Cols(b)
        ensures Row(Triple(a, b, c, r, j), k)(l) == Times(Entry(a, r, k), Terms(b, c, k, j)(l))
      {
        TimesLaws(Entry(a, r, k), Entry(b, k, l), Entry(c, l, j));
      }
      SumOfMultiples(Entry(a, r, k), Terms(b, c, k, j), Row(Triple(a, b, c, r, j), k), Cols(b));
    }
    SumOfEqual(Terms(a, bc, r, j), RowSums(Triple(a, b, c, r, j), Cols(b)), Cols(a));
  }

  /** (AB)C == A(BC), also where AB or BC has collapsed to a number. */
  lemma ProductAssociates(ab: Obj, abC: Obj, bc: Obj, aBC: Obj, a: Obj, b: Obj, c: Obj)
    requires IsProduct(ab, a, b) && IsProduct(abC, ab, c)
    requires IsProduct(bc, b, c) && IsProduct(aBC, a, bc)
    ensures Same(abC, aBC)
  {
    forall r: nat, j: nat | r < Rows(a) && j < Cols(c)
      ensures Entry(abC, r, j) == Entry(aBC, r, j)
    {
      LeftFirst(ab, a, b, c, r, j);
      RightFirst(bc, a, b, c, r, j);
      Exchange(Triple(a, b, c, r, j), Cols(a), Cols(b));
    }
  }

  /** a(r,k) c(k,j), with the sign of the operation. */
  function Signed(a: Obj, c: Obj, r: nat, j: nat, sign: real): nat -> real {
    (k: nat) => Times(sign, Times(Entry(a, r, k), Entry(c, k, j)))
  }

  function Sign(add: bool): real {
    if add then 1.0 else -1.0
  }

  function Negated(z: real, add: bool): real {
    if add then z else -z
  }

  lemma SignTimes(x: real, add: bool)
    ensures Times(Sign(add), x) == Negated(x, add)
  {
    TimesLaws(1.0, x, 0.0);
    TimesLaws(x, 1.0, 0.0);
    TimesLaws(x, -1.0, 0.0);
  }

  lemma TermDistributes(x: real, y: real, z: real, add: bool)
    ensures Times(x, y + Negated(z, add)) == Times(x, y) + Times(Sign(add), Times(x, z))
  {
    TimesLaws(x, y, Negated(z, add));
    TimesLaws(x, z, 0.0);
    SignTimes(Times(x, z), add);
  }

  lemma EntryDistributes(bc: Obj, a: Obj, b: Obj, c: Obj, add: bool, r: nat, j: nat)
    requires IsSum(bc, b, c, add) && Cols(a) == Rows(b) && r < Rows(a) && j < Cols(b)
    ensures Sum(Terms(a, bc, r, j), Cols(a)) ==
            Sum(Terms(a, b, r, j), Cols(a)) + Negated(Sum(Terms(a, c, r, j), Cols(a)), add)
  {
    var signed := Signed(a, c, r, j, Sign(add));
    forall k: nat | k < Cols(a)
      ensures Terms(a, bc, r, j)(k) == Terms(a, b, r, j)(k) + signed(k)
    {
      assert Entry(bc, k, j) == Entry(b, k, j) + Negated(Entry(c, k, j), add);
      TermDistributes(Entry(a, r, k), Entry(b, k, j), Entry(c, k, j), add);
    }
    SumOfMultiples(Sign(add), Terms(a, c, r, j), signed, Cols(a));
    SignTimes(Sum(Terms(a, c, r, j), Cols(a)), add);
    SumOfSums(Terms(a, b, r, j), signed, Terms(a, bc, r, j), Cols(a));
  }

  /** A(B+C) == AB + AC, and the same for differences. */
  lemma ProductDistributes(bc: Obj, aBC: Obj, ab: Obj, ac: Obj, s: Obj, a: Obj, b: Obj, c: Obj, add: bool)
    requires IsSum(bc, b, c, add) && IsProduct(aBC, a, bc)
    requires IsProduct(ab, a, b) && IsProduct(ac, a, c) && IsSum(s, ab, ac, add)
    ensures Same(aBC, s)
  {
    forall r: nat, j: nat | r < Rows(a) && j < Cols(b)
      ensures Entry(aBC, r, j) == Entry(s, r, j)
    {
      EntryDistributes(bc, a, b, c, add, r, j);
    }
  }

  /** Scaling commutes with multiplication, wherever the factor is applied. */
  lemma ScaleMovesThroughProduct(sa: Obj, a: Obj, b: Obj, x: real, ab: Obj, saB: Obj, sAB: Obj)
    requires IsScaled(sa, a, x) && IsProduct(saB, sa, b)
    requires IsProduct(ab, a, b) && IsScaled(sAB, ab, x)
    ensures Same(saB, sAB)
  {
    forall r: nat, j: nat | r < Rows(a) && j < Cols(b)
      ensures Entry(saB, r, j) == Entry(sAB, r, j)
    {
      forall k: nat | k < Cols(a)
        ensures Terms(sa, b, r, j)(k) == Times(Terms(a, b, r, j)(k), x)
      {
        TimesLaws(Entry(a, r, k), x, Entry(b, k, j));
        TimesLaws(x, Entry(b, k, j), 0.0);
        TimesLaws(Entry(a, r, k), Entry(b, k, j), x);
      }
      FactorRight(Terms(a, b, r, j), Terms(sa, b, r, j), x, Cols(a));
    }
  }
}
