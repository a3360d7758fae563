/** Rows of field elements, the two row operations of Gauss-Jordan elimination, and what they keep. */
module Matrices {
  import opened Fields

  type Matrix<T> = seq<seq<T>>

  ghost predicate Shape<T>(a: Matrix<T>, rows: nat, cols: nat) {
    |a| == rows && forall i :: 0 <= i < rows ==> |a[i]| == cols
  }

  /** The sum of the first n products a[j] * x[j] */
  function Dot<T>(f: Field<T>, a: seq<T>, x: seq<T>, n: nat): T
    requires n <= |a| && n <= |x|
  {
    if n == 0 then f.zero else f.add(Dot(f, a, x, n - 1), f.mul(a[n - 1], x[n - 1]))
  }

  function ScaledRow<T>(f: Field<T>, r: seq<T>, p: T): (s: seq<T>)
    ensures |s| == |r|
  {
    seq(|r|, j requires 0 <= j < |r| => f.div(r[j], p))
  }

  function CombinedRow<T>(f: Field<T>, r2: seq<T>, r: seq<T>, s: T): (c: seq<T>)
    requires |r| == |r2|
    ensures |c| == |r|
  {
    seq(|r|, j requires 0 <= j < |r| => f.add(r2[j], f.mul(r[j], s)))
  }

  lemma {:induction false} DotScaled<T(!new)>(f: Field<T>, r: seq<T>, p: T, x: seq<T>, n: nat)
    requires IsField(f) && p != f.zero && n <= |r| && n <= |x|
    ensures f.mul(Dot(f, ScaledRow(f, r, p), x, n), p) == Dot(f, r, x, n)
  {
    hide IsField;
    if n == 0 {
      MulZero(f, p);
    } else {
      var d, u, v := Dot(f, ScaledRow(f, r, p), x, n - 1), f.div(r[n - 1], p), x[n - 1];
      DotScaled(f, r, p, x, n - 1);
      Distribute(f, d, f.mul(u, v), p);
      MulComm(f, u, v);
      MulAssoc(f, v, u, p);
      DivMul(f, r[n - 1], p);
      MulComm(f, v, r[n - 1]);
    }
  }

  lemma {:induction false} DotCombined<T(!new)>(f: Field<T>, r2: seq<T>, r: seq<T>, s: T, x: seq<T>, n: nat)
    requires IsField(f) && |r| == |r2| && n <= |r| && n <= |x|
    ensures Dot(f, CombinedRow(f, r2, r, s), x, n) == f.add(Dot(f, r2, x, n), f.mul(Dot(f, r, x, n), s))
  {
    hide IsField;
    if n == 0 {
      MulZero(f, s);
      AddZero(f, f.zero);
    } else {
      DotCombined(f, r2, r, s, x, n - 1);
      CombinedStep(f, Dot(f, r2, x, n - 1), Dot(f, r, x, n - 1), s, r2[n - 1], r[n - 1], x[n - 1]);
    }
  }

  lemma CombinedStep<T(!new)>(f: Field<T>, d2: T, d: T, s: T, a2: T, a: T, v: T)
    requires IsField(f)
    ensures f.add(f.add(d2, f.mul(d, s)), f.mul(f.add(a2, f.mul(a, s)), v))
         == f.add(f.add(d2, f.mul(a2, v)), f.mul(f.add(d, f.mul(a, v)), s))
  {
    hide IsField;
    Distribute(f, a2, f.mul(a, s), v);
    Distribute(f, d, f.mul(a, v), s);
    AddSwap(f, d2, f.mul(d, s), f.mul(a2, v), f.mul(f.mul(a, s), v));
    MulAssoc(f, a, s, v);
    MulComm(f, s, v);
    MulAssoc(f, a, v, s);
  }

  lemma {:induction false} DotZero<T(!new)>(f: Field<T>, a: seq<T>, x: seq<T>, n: nat)
    requires IsField(f) && n <= |a| && n <= |x|
    requires forall j :: 0 <= j < n ==> a[j] == f.zero || x[j] == f.zero
    ensures Dot(f, a, x, n) == f.zero
  {
    hide IsField;
    if n > 0 {
      DotZero(f, a, x, n - 1);
      MulZero(f, a[n - 1]);
      MulZero(f, x[n - 1]);
      AddZero(f, f.zero);
    }
  }

  /** A sum with only one nonzero term */
  lemma {:induction false} DotSingle<T(!new)>(f: Field<T>, a: seq<T>, x: seq<T>, n: nat, k: nat)
    requires IsField(f) && n <= |a| && n <= |x| && k < n
    requires forall j :: 0 <= j < n && j != k ==> a[j] == f.zero || x[j] == f.zero
    ensures Dot(f, a, x, n) == f.mul(a[k], x[k])
  {
    hide IsField;
    if k == n - 1 {
      DotZero(f, a, x, n - 1);
      AddZero(f, f.mul(a[k], x[k]));
    } else {
      DotSingle(f, a, x, n - 1, k);
      MulZero(f, a[n - 1]);
      MulZero(f, x[n - 1]);
      AddZero(f, f.mul(a[k], x[k]));
    }
  }

  // ----- systems of equations L x = R y

  /** x and y satisfy the first m rows of L x = R y. */
  ghost predicate Solves<T>(f: Field<T>, l: Matrix<T>, r: Matrix<T>, m: nat, x: seq<T>, y: seq<T>)
    requires m <= |l| && m <= |r|
    requires Shape(l, |l|, |x|) && Shape(r, |r|, |y|)
  {
    forall i :: 0 <= i < m ==> Dot(f, l[i], x, |x|) == Dot(f, r[i], y, |y|)
  }

  /** The first m rows of two systems have the same solutions. */
  ghost predicate SameSolutions<T(!new)>(f: Field<T>, l: Matrix<T>, r: Matrix<T>, l2: Matrix<T>, r2: Matrix<T>,
                                         rows: nat, leftcols: nat, m: nat)
    requires m <= rows
    requires Shape(l, rows, leftcols) && Shape(l2, rows, leftcols) && Shape(r, rows, rows) && Shape(r2, rows, rows)
  {
    forall x: seq<T>, y: seq<T> :: |x| == leftcols && |y| == rows ==>
      (Solves(f, l, r, m, x, y) <==> Solves(f, l2, r2, m, x, y))
  }

  function Scaled<T>(f: Field<T>, a: Matrix<T>, k: nat, p: T): Matrix<T>
    requires k < |a|
  {
    a[k := ScaledRow(f, a[k], p)]
  }

  /** Row k, multiplied by s, taken from row i */
  function Subtracted<T>(f: Field<T>, a: Matrix<T>, i: nat, k: nat, s: T): Matrix<T>
    requires i < |a| && k < |a| && |a[i]| == |a[k]|
  {
    a[i := CombinedRow(f, a[i], a[k], s)]
  }

  lemma ScaledShape<T>(f: Field<T>, a: Matrix<T>, k: nat, p: T, rows: nat, cols: nat)
    requires Shape(a, rows, cols) && k < rows
    ensures Shape(Scaled(f, a, k, p), rows, cols)
  {
  }

  lemma SubtractedShape<T>(f: Field<T>, a: Matrix<T>, i: nat, k: nat, s: T, rows: nat, cols: nat)
    requires Shape(a, rows, cols) && i < rows && k < rows
    ensures Shape(Subtracted(f, a, i, k, s), rows, cols)
  {
  }

  lemma ScalingKeepsSolutions<T(!new)>(f: Field<T>, l: Matrix<T>, r: Matrix<T>, k: nat, p: T,
                                       rows: nat, leftcols: nat, m: nat)
    requires IsField(f) && p != f.zero && k < rows && m <= rows
    requires Shape(l, rows, leftcols) && Shape(r, rows, rows)
    requires Shape(Scaled(f, l, k, p), rows, leftcols) && Shape(Scaled(f, r, k, p), rows, rows)
    ensures SameSolutions(f, l, r, Scaled(f, l, k, p), Scaled(f, r, k, p), rows, leftcols, m)
  {
    hide IsField, ScaledRow, Dot;
    forall x: seq<T>, y: seq<T> | |x| == leftcols && |y| == rows
      ensures Solves(f, l, r, m, x, y) <==> Solves(f, Scaled(f, l, k, p), Scaled(f, r, k, p), m, x, y)
    {
      DotScaled(f, l[k], p, x, |x|);
      DotScaled(f, r[k], p, y, |y|);
      var u, v := Dot(f, ScaledRow(f, l[k], p), x, |x|), Dot(f, ScaledRow(f, r[k], p), y, |y|);
      if f.mul(u, p) == f.mul(v, p) { MulCancel(f, u, v, p); }
      var l2, r2 := Scaled(f, l, k, p), Scaled(f, r, k, p);
      forall i | 0 <= i < m
        ensures Dot(f, l[i], x, |x|) == Dot(f, r[i], y, |y|) <==> Dot(f, l2[i], x, |x|) == Dot(f, r2[i], y, |y|)
      {
      }
    }
  }

  lemma AddedEqually<T(!new)>(f: Field<T>, a: T, b: T, t: T, u: T, s: T, c: T, d: T)
    requires IsField(f) && t == u
    requires c == f.add(a, f.mul(t, s)) && d == f.add(b, f.mul(u, s))
    ensures a == b <==> c == d
  {
    hide *;
    AddSameRight(f, a, b, f.mul(t, s));
  }

  lemma SubtractingKeepsSolutions<T(!new)>(f: Field<T>, l: Matrix<T>, r: Matrix<T>, i: nat, k: nat, s: T,
                                           rows: nat, leftcols: nat, m: nat)
    requires IsField(f) && i < rows && k < m && m <= rows && i != k
    requires Shape(l, rows, leftcols) && Shape(r, rows, rows)
    requires Shape(Subtracted(f, l, i, k, s), rows, leftcols) && Shape(Subtracted(f, r, i, k, s), rows, rows)
    ensures SameSolutions(f, l, r, Subtracted(f, l, i, k, s), Subtracted(f, r, i, k, s), rows, leftcols, m)
  {
    hide IsField, CombinedRow, Dot;
    forall x: seq<T>, y: seq<T> | |x| == leftcols && |y| == rows
      ensures Solves(f, l, r, m, x, y) <==> Solves(f, Subtracted(f, l, i, k, s), Subtracted(f, r, i, k, s), m, x, y)
    {
      var l2, r2 := Subtracted(f, l, i, k, s), Subtracted(f, r, i, k, s);
      assert l2[k] == l[k] && r2[k] == r[k];
      if Dot(f, l[k], x, |x|) == Dot(f, r[k], y, |y|) {
        DotCombined(f, l[i], l[k], s, x, leftcols);
        DotCombined(f, r[i], r[k], s, y, rows);
        AddedEqually(f, Dot(f, l[i], x, leftcols), Dot(f, r[i], y, rows),
                     Dot(f, l[k], x, leftcols), Dot(f, r[k], y, rows), s,
                     Dot(f, l2[i], x, leftcols), Dot(f, r2[i], y, rows));
        forall j | 0 <= j < m
          ensures Dot(f, l[j], x, |x|) == Dot(f, r[j], y, |y|) <==> Dot(f, l2[j], x, |x|) == Dot(f, r2[j], y, |y|)
        {
        }
      }
    }
  }

  lemma SameSolutionsTrans<T(!new)>(f: Field<T>, l: Matrix<T>, r: Matrix<T>, l2: Matrix<T>, r2: Matrix<T>,
                                    l3: Matrix<T>, r3: Matrix<T>, rows: nat, leftcols: nat, m: nat)
    requires m <= rows
    requires Shape(l, rows, leftcols) && Shape(l2, rows, leftcols) && Shape(l3, rows, leftcols)
    requires Shape(r, rows, rows) && Shape(r2, rows, rows) && Shape(r3, rows, rows)
    requires SameSolutions(f, l, r, l2, r2, rows, leftcols, m) && SameSolutions(f, l2, r2, l3, r3, rows, leftcols, m)
    ensures SameSolutions(f, l, r, l3, r3, rows, leftcols, m)
  {
  }

  // ----- leading blocks

  /** No nonzero y, with nothing past its first m entries, is taken to zero by the first m rows of r:
      the leading m by m block of r is regular. */
  ghost predicate Regular<T(!new)>(f: Field<T>, r: Matrix<T>, m: nat)
    requires m <= |r| && Shape(r, |r|, |r|)
  {
    forall y: seq<T> ::
      |y| == |r| && (forall j :: m <= j < |r| ==> y[j] == f.zero) &&
      (forall i :: 0 <= i < m ==> Dot(f, r[i], y, |r|) == f.zero)
      ==> forall j :: 0 <= j < m ==> y[j] == f.zero
  }

  /** The first k columns of r are columns of the identity matrix. */
  ghost predicate IdentityColumns<T>(f: Field<T>, r: Matrix<T>, k: nat)
    requires k <= |r| && Shape(r, |r|, |r|)
  {
    forall i, j :: 0 <= i < |r| && 0 <= j < k ==> r[i][j] == if i == j then f.one else f.zero
  }

  function Zeros<T>(f: Field<T>, n: nat): seq<T> {
    seq(n, _ => f.zero)
  }

  /** Rows that start like the identity and have the solutions of the first rows of a system
      show that the leading block of the system is regular. */
  lemma IdentityMeansRegular<T(!new)>(f: Field<T>, l0: Matrix<T>, r0: Matrix<T>, l: Matrix<T>, r: Matrix<T>,
                                      rows: nat, leftcols: nat, m: nat)
    requires IsField(f) && m <= rows
    requires Shape(l0, rows, leftcols) && Shape(l, rows, leftcols) && Shape(r0, rows, rows) && Shape(r, rows, rows)
    requires SameSolutions(f, l0, r0, l, r, rows, leftcols, m) && IdentityColumns(f, r, m)
    ensures Regular(f, r0, m)
  {
    hide IsField;
    forall y: seq<T> | |y| == rows && (forall j :: m <= j < rows ==> y[j] == f.zero) &&
                       (forall i :: 0 <= i < m ==> Dot(f, r0[i], y, rows) == f.zero)
      ensures forall j :: 0 <= j < m ==> y[j] == f.zero
    {
      var x := Zeros(f, leftcols);
      forall i | 0 <= i < m
        ensures Dot(f, l0[i], x, |x|) == f.zero && Dot(f, l[i], x, |x|) == f.zero
      {
        DotZero(f, l0[i], x, |x|);
        DotZero(f, l[i], x, |x|);
      }
      assert Solves(f, l0, r0, m, x, y);
      assert Solves(f, l, r, m, x, y);
      forall i | 0 <= i < m
        ensures y[i] == f.zero
      {
        DotSingle(f, r[i], y, rows, i);
        MulOne(f, y[i]);
      }
    }
  }

  /** The vector that a zero pivot in column k exposes */
  function Exposed<T>(f: Field<T>, r: Matrix<T>, k: nat): seq<T>
    requires k < |r| && Shape(r, |r|, |r|)
  {
    seq(|r|, j requires 0 <= j < |r| => if j < k then r[j][k] else if j == k then f.one else f.zero)
  }

  lemma {:induction false} DotTwo<T(!new)>(f: Field<T>, a: seq<T>, y: seq<T>, n: nat, i: nat, k: nat)
    requires IsField(f) && n <= |a| && n <= |y| && i < k < n
    requires forall j :: 0 <= j < n && j != i && j != k ==> a[j] == f.zero || y[j] == f.zero
    ensures Dot(f, a, y, n) == f.add(f.mul(a[i], y[i]), f.mul(a[k], y[k]))
  {
    hide IsField;
    if k == n - 1 {
      DotSingle(f, a, y, n - 1, i);
    } else {
      DotTwo(f, a, y, n - 1, i, k);
      MulZero(f, a[n - 1]);
      MulZero(f, y[n - 1]);
      AddZero(f, Dot(f, a, y, n - 1));
    }
  }

  lemma ZeroPivotMeansSingular<T(!new)>(f: Field<T>, l0: Matrix<T>, r0: Matrix<T>, l: Matrix<T>, r: Matrix<T>,
                                        rows: nat, leftcols: nat, k: nat)
    requires IsField(f) && k < rows
    requires Shape(l0, rows, leftcols) && Shape(l, rows, leftcols) && Shape(r0, rows, rows) && Shape(r, rows, rows)
    requires SameSolutions(f, l0, r0, l, r, rows, leftcols, k + 1)
    requires IdentityColumns(f, r, k) && r[k][k] == f.zero
    ensures !Regular(f, r0, k + 1)
  {
    hide IsField;
    var x, y := Zeros(f, leftcols), Exposed(f, r, k);
    forall i | 0 <= i < k + 1
      ensures Dot(f, l0[i], x, |x|) == f.zero && Dot(f, l[i], x, |x|) == f.zero
      ensures Dot(f, r[i], y, rows) == f.zero
    {
      DotZero(f, l0[i], x, |x|);
      DotZero(f, l[i], x, |x|);
      ExposedRow(f, r, i, k);
    }
    assert Solves(f, l, r, k + 1, x, y);
    assert Solves(f, l0, r0, k + 1, x, y);
    ZeroNotOne(f);
    assert y[k] == f.one;
  }

  lemma ExposedRow<T(!new)>(f: Field<T>, r: Matrix<T>, i: nat, k: nat)
    requires IsField(f) && i <= k < |r| && Shape(r, |r|, |r|)
    requires IdentityColumns(f, r, k) && r[k][k] == f.zero
    ensures Dot(f, r[i], Exposed(f, r, k), |r|) == f.zero
  {
    hide IsField;
    var y := Exposed(f, r, k);
    if i == k {
      DotZero(f, r[i], y, |r|);
    } else {
      DotTwo(f, r[i], y, |r|, i, k);
      MulOne(f, y[i]);
      MulOne(f, r[i][k]);
      AddSelf(f, r[i][k]);
    }
  }
}
