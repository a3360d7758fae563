/** ReedSolomon<g>::GaussElim: Gauss-Jordan elimination in place, without row or column swaps. */
module Elimination {
  import opened Fields
  import opened Matrices

  /** The rows of a two-dimensional array */
  ghost function Rows<T>(m: array2<T>): (a: Matrix<T>)
    reads m
    ensures Shape(a, m.Length0, m.Length1)
    ensures forall i, j :: 0 <= i < m.Length0 && 0 <= j < m.Length1 ==> a[i][j] == m[i, j]
  {
    seq(m.Length0, i requires 0 <= i < m.Length0 reads m =>
      seq(m.Length1, j requires 0 <= j < m.Length1 reads m => m[i, j]))
  }

  lemma SameRows<T>(a: Matrix<T>, b: Matrix<T>, rows: nat, cols: nat)
    requires Shape(a, rows, cols) && Shape(b, rows, cols)
    requires forall i, j :: 0 <= i < rows && 0 <= j < cols ==> a[i][j] == b[i][j]
    ensures a == b
  {
    forall i | 0 <= i < rows
      ensures a[i] == b[i]
    {
    }
  }

  /** Divide one row by the pivot, leaving out the entries that are zero. */
  method ScaleRow<T(==,!new)>(f: Field<T>, m: array2<T>, row: nat, from: nat, pivot: T)
    requires IsField(f) && pivot != f.zero && row < m.Length0 && from <= m.Length1
    modifies m
    ensures forall i, j :: 0 <= i < m.Length0 && 0 <= j < m.Length1 ==>
              m[i, j] == if i == row && j >= from then f.div(old(m[i, j]), pivot) else old(m[i, j])
  {
    hide IsField;
    DivZeroAndSelf(f, pivot);
    for col := from to m.Length1
      invariant forall i, j :: 0 <= i < m.Length0 && 0 <= j < m.Length1 ==>
        m[i, j] == if i == row && from <= j < col then f.div(old(m[i, j]), pivot) else old(m[i, j])
    {
      if m[row, col] != f.zero {
        m[row, col] := f.div(m[row, col], pivot);
      }
    }
  }

  /** Take scale times row `row` from row `row2`, leaving out the entries that are zero. */
  method SubtractRow<T(==,!new)>(f: Field<T>, m: array2<T>, row: nat, row2: nat, from: nat, scale: T)
    requires IsField(f) && row < m.Length0 && row2 < m.Length0 && row != row2 && from <= m.Length1
    modifies m
    ensures forall i, j :: 0 <= i < m.Length0 && 0 <= j < m.Length1 ==>
              m[i, j] == if i == row2 && j >= from
                         then f.add(old(m[i, j]), f.mul(old(m[row, j]), scale)) else old(m[i, j])
  {
    hide IsField;
    MulZero(f, scale);
    for col := from to m.Length1
      invariant forall i, j :: 0 <= i < m.Length0 && 0 <= j < m.Length1 ==>
        m[i, j] == if i == row2 && from <= j < col
                   then f.add(old(m[i, j]), f.mul(old(m[row, j]), scale)) else old(m[i, j])
    {
      AddZero(f, m[row2, col]);
      if m[row, col] != f.zero {
        if scale == f.one {
          // the scaling factor happens to be 1: just subtract rows
          MulOne(f, m[row, col]);
          m[row2, col] := f.add(m[row2, col], m[row, col]);
        } else {
          m[row2, col] := f.add(m[row2, col], f.mul(m[row, col], scale));
        }
      }
    }
  }

  // ----- what the two row operations do to the matrix as a whole

  lemma ScaledRows<T(!new)>(f: Field<T>, a: Matrix<T>, b: Matrix<T>, rows: nat, cols: nat, k: nat, p: T)
    requires Shape(a, rows, cols) && Shape(b, rows, cols) && k < rows
    requires forall i, j :: 0 <= i < rows && 0 <= j < cols ==> b[i][j] == if i == k then f.div(a[i][j], p) else a[i][j]
    ensures b == Scaled(f, a, k, p)
  {
    ScaledShape(f, a, k, p, rows, cols);
    SameRows(b, Scaled(f, a, k, p), rows, cols);
  }

  lemma SubtractedRows<T(!new)>(f: Field<T>, a: Matrix<T>, b: Matrix<T>, rows: nat, cols: nat, i2: nat, k: nat, s: T)
    requires Shape(a, rows, cols) && Shape(b, rows, cols) && k < rows && i2 < rows
    requires forall i, j :: 0 <= i < rows && i != i2 && 0 <= j < cols ==> b[i][j] == a[i][j]
    requires forall j :: 0 <= j < cols ==> b[i2][j] == f.add(a[i2][j], f.mul(a[k][j], s))
    ensures b == Subtracted(f, a, i2, k, s)
  {
    SubtractedShape(f, a, i2, k, s, rows, cols);
    SameRows(b, Subtracted(f, a, i2, k, s), rows, cols);
  }

  /** What elimination has reached after the first `row` pivots */
  ghost predicate Reached<T(!new)>(f: Field<T>, l0: Matrix<T>, r0: Matrix<T>, l: Matrix<T>, r: Matrix<T>,
                                   rows: nat, leftcols: nat, row: nat)
    requires Shape(l0, rows, leftcols) && Shape(r0, rows, rows)
  {
    && row <= rows
    && Shape(l, rows, leftcols) && Shape(r, rows, rows)
    && IdentityColumns(f, r, row)
    && (forall m :: row <= m <= rows ==> SameSolutions(f, l0, r0, l, r, rows, leftcols, m))
  }

  /** Within pivot k: the rows before `next`, other than k, have been cleared in column k. */
  ghost predicate Clearing<T(!new)>(f: Field<T>, l0: Matrix<T>, r0: Matrix<T>, l: Matrix<T>, r: Matrix<T>,
                                    rows: nat, leftcols: nat, k: nat, next: nat)
    requires Shape(l0, rows, leftcols) && Shape(r0, rows, rows)
  {
    && k < rows && next <= rows
    && Shape(l, rows, leftcols) && Shape(r, rows, rows)
    && IdentityColumns(f, r, k)
    && r[k][k] == f.one
    && (forall i :: 0 <= i < next && i != k ==> r[i][k] == f.zero)
    && (forall m :: k < m <= rows ==> SameSolutions(f, l0, r0, l, r, rows, leftcols, m))
  }

  lemma AfterScaling<T(!new)>(f: Field<T>, l0: Matrix<T>, r0: Matrix<T>, l: Matrix<T>, r: Matrix<T>,
                              rows: nat, leftcols: nat, k: nat)
    requires IsField(f) && Shape(l0, rows, leftcols) && Shape(r0, rows, rows) && k < rows
    requires Reached(f, l0, r0, l, r, rows, leftcols, k) && r[k][k] != f.zero
    ensures Clearing(f, l0, r0, Scaled(f, l, k, r[k][k]), Scaled(f, r, k, r[k][k]), rows, leftcols, k, 0)
  {
    hide IsField, SameSolutions;
    var p := r[k][k];
    var l2, r2 := Scaled(f, l, k, p), Scaled(f, r, k, p);
    ScaledShape(f, l, k, p, rows, leftcols);
    ScaledShape(f, r, k, p, rows, rows);
    DivZeroAndSelf(f, p);
    forall m | k < m <= rows
      ensures SameSolutions(f, l0, r0, l2, r2, rows, leftcols, m)
    {
      ScalingKeepsSolutions(f, l, r, k, p, rows, leftcols, m);
      SameSolutionsTrans(f, l0, r0, l, r, l2, r2, rows, leftcols, m);
    }
  }

  lemma AfterSubtracting<T(!new)>(f: Field<T>, l0: Matrix<T>, r0: Matrix<T>, l: Matrix<T>, r: Matrix<T>,
                                  rows: nat, leftcols: nat, k: nat, i: nat)
    requires IsField(f) && Shape(l0, rows, leftcols) && Shape(r0, rows, rows)
    requires i < rows && i != k && Clearing(f, l0, r0, l, r, rows, leftcols, k, i)
    ensures Clearing(f, l0, r0, Subtracted(f, l, i, k, r[i][k]), Subtracted(f, r, i, k, r[i][k]),
                     rows, leftcols, k, i + 1)
  {
    hide IsField, SameSolutions;
    var s := r[i][k];
    var l2, r2 := Subtracted(f, l, i, k, s), Subtracted(f, r, i, k, s);
    SubtractedShape(f, l, i, k, s, rows, leftcols);
    SubtractedShape(f, r, i, k, s, rows, rows);
    MulOne(f, s);
    AddSelf(f, s);
    MulZero(f, s);
    forall j | 0 <= j < k
      ensures f.add(r[i][j], f.zero) == r[i][j]
    {
      AddZero(f, r[i][j]);
    }
    forall m | k < m <= rows
      ensures SameSolutions(f, l0, r0, l2, r2, rows, leftcols, m)
    {
      SubtractingKeepsSolutions(f, l, r, i, k, s, rows, leftcols, m);
      SameSolutionsTrans(f, l0, r0, l, r, l2, r2, rows, leftcols, m);
    }
  }

  lemma AfterSkipping<T(!new)>(f: Field<T>, l0: Matrix<T>, r0: Matrix<T>, l: Matrix<T>, r: Matrix<T>,
                               rows: nat, leftcols: nat, k: nat, i: nat)
    requires Shape(l0, rows, leftcols) && Shape(r0, rows, rows)
    requires i < rows && Clearing(f, l0, r0, l, r, rows, leftcols, k, i) && (i == k || r[i][k] == f.zero)
    ensures Clearing(f, l0, r0, l, r, rows, leftcols, k, i + 1)
  {
    hide SameSolutions;
  }

  lemma AfterClearing<T(!new)>(f: Field<T>, l0: Matrix<T>, r0: Matrix<T>, l: Matrix<T>, r: Matrix<T>,
                               rows: nat, leftcols: nat, k: nat)
    requires IsField(f) && Shape(l0, rows, leftcols) && Shape(r0, rows, rows)
    requires Clearing(f, l0, r0, l, r, rows, leftcols, k, rows)
    ensures Reached(f, l0, r0, l, r, rows, leftcols, k + 1) && Regular(f, r0, k + 1)
  {
    hide IsField, SameSolutions, Regular;
    IdentityMeansRegular(f, l0, r0, l, r, rows, leftcols, k + 1);
  }

  lemma Begin<T(!new)>(f: Field<T>, l0: Matrix<T>, r0: Matrix<T>, rows: nat, leftcols: nat)
    requires Shape(l0, rows, leftcols) && Shape(r0, rows, rows)
    ensures Reached(f, l0, r0, l0, r0, rows, leftcols, 0)
  {
  }

  /** Columns past the pivots that are zero in every pivot row are never touched. */
  ghost predicate TailKept<T>(f: Field<T>, r0: Matrix<T>, r: Matrix<T>, rows: nat, pivots: nat)
    requires Shape(r0, rows, rows) && Shape(r, rows, rows) && pivots <= rows
  {
    forall c :: pivots <= c < rows && ZeroAbove(f, r0, pivots, c) ==>
      forall i :: 0 <= i < rows ==> r[i][c] == r0[i][c]
  }

  ghost predicate ZeroAbove<T>(f: Field<T>, r: Matrix<T>, pivots: nat, c: nat)
    requires pivots <= |r| && forall i :: 0 <= i < pivots ==> c < |r[i]|
  {
    forall i :: 0 <= i < pivots ==> r[i][c] == f.zero
  }

  lemma TailScaled<T(!new)>(f: Field<T>, r0: Matrix<T>, r: Matrix<T>, rows: nat, pivots: nat, k: nat, p: T)
    requires IsField(f) && Shape(r0, rows, rows) && Shape(r, rows, rows) && k < pivots <= rows && p != f.zero
    requires TailKept(f, r0, r, rows, pivots) && Shape(Scaled(f, r, k, p), rows, rows)
    ensures TailKept(f, r0, Scaled(f, r, k, p), rows, pivots)
  {
    hide IsField;
    DivZeroAndSelf(f, p);
  }

  lemma TailSubtracted<T(!new)>(f: Field<T>, r0: Matrix<T>, r: Matrix<T>, rows: nat, pivots: nat, i: nat, k: nat, s: T)
    requires IsField(f) && Shape(r0, rows, rows) && Shape(r, rows, rows) && k < pivots <= rows && i < rows
    requires TailKept(f, r0, r, rows, pivots) && Shape(Subtracted(f, r, i, k, s), rows, rows)
    ensures TailKept(f, r0, Subtracted(f, r, i, k, s), rows, pivots)
  {
    hide IsField;
    MulZero(f, s);
    forall c | pivots <= c < rows
      ensures f.add(r[i][c], f.zero) == r[i][c]
    {
      AddZero(f, r[i][c]);
    }
  }

  /** Clear column k of every row but k. */
  method ClearColumn<T(==,!new)>(f: Field<T>, left: array2<T>, right: array2<T>, k: nat, pivots: nat,
                                 ghost l0: Matrix<T>, ghost r0: Matrix<T>)
    requires IsField(f) && left != right
    requires right.Length0 == right.Length1 == left.Length0 && k < pivots <= left.Length0
    requires Shape(l0, left.Length0, left.Length1) && Shape(r0, left.Length0, left.Length0)
    requires Clearing(f, l0, r0, Rows(left), Rows(right), left.Length0, left.Length1, k, 0)
    requires TailKept(f, r0, Rows(right), left.Length0, pivots)
    modifies left, right
    ensures Clearing(f, l0, r0, Rows(left), Rows(right), left.Length0, left.Length1, k, left.Length0)
    ensures TailKept(f, r0, Rows(right), left.Length0, pivots)
  {
    hide IsField, TailKept, SameSolutions;
    var rows, leftcols := left.Length0, left.Length1;
    for row2 := 0 to rows
      invariant Clearing(f, l0, r0, Rows(left), Rows(right), rows, leftcols, k, row2)
      invariant TailKept(f, r0, Rows(right), rows, pivots)
    {
      ghost var l, r := Rows(left), Rows(right);
      var scale := right[row2, k];
      if row2 != k && scale != f.zero {
        SubtractRow(f, left, k, row2, 0, scale);
        SubtractRow(f, right, k, row2, k, scale);
        SubtractedRows(f, l, Rows(left), rows, leftcols, row2, k, scale);
        PivotRowStart(f, r, k, row2, scale);
        SubtractedRows(f, r, Rows(right), rows, rows, row2, k, scale);
        AfterSubtracting(f, l0, r0, l, r, rows, leftcols, k, row2);
        TailSubtracted(f, r0, r, rows, pivots, row2, k, scale);
      } else {
        AfterSkipping(f, l0, r0, l, r, rows, leftcols, k, row2);
      }
    }
  }

  /** The entries of the pivot row that the column range skips are zero. */
  lemma PivotRowStart<T(!new)>(f: Field<T>, r: Matrix<T>, k: nat, i: nat, s: T)
    requires IsField(f) && k < |r| && i < |r| && Shape(r, |r|, |r|) && IdentityColumns(f, r, k)
    ensures forall j :: 0 <= j < k ==> f.add(r[i][j], f.mul(r[k][j], s)) == r[i][j]
  {
    hide IsField;
    MulZero(f, s);
    forall j | 0 <= j < k
      ensures f.add(r[i][j], f.mul(r[k][j], s)) == r[i][j]
    {
      AddZero(f, r[i][j]);
    }
  }

  lemma PivotRowScaled<T(!new)>(f: Field<T>, r: Matrix<T>, k: nat, p: T)
    requires IsField(f) && k < |r| && Shape(r, |r|, |r|) && IdentityColumns(f, r, k) && p != f.zero
    ensures forall j :: 0 <= j < k ==> f.div(r[k][j], p) == r[k][j]
    ensures f.div(p, p) == f.one
  {
    hide IsField;
    DivZeroAndSelf(f, p);
  }

  lemma DivOne<T(!new)>(f: Field<T>, a: T)
    requires IsField(f)
    ensures f.div(a, f.one) == a
  {
    hide IsField;
    ZeroNotOne(f);
    DivMul(f, a, f.one);
    MulOne(f, f.div(a, f.one));
  }

  lemma ScaledByOne<T(!new)>(f: Field<T>, a: Matrix<T>, rows: nat, cols: nat, k: nat)
    requires IsField(f) && Shape(a, rows, cols) && k < rows
    ensures Scaled(f, a, k, f.one) == a
  {
    hide IsField;
    forall j | 0 <= j < cols
      ensures f.div(a[k][j], f.one) == a[k][j]
    {
      DivOne(f, a[k][j]);
    }
    ScaledRows(f, a, a, rows, cols, k, f.one);
  }

  /** Bring the pivot of row k to 1. */
  method ScalePivotRow<T(==,!new)>(f: Field<T>, left: array2<T>, right: array2<T>, k: nat, pivot: T)
    requires IsField(f) && left != right
    requires right.Length0 == right.Length1 == left.Length0 && k < left.Length0
    requires IdentityColumns(f, Rows(right), k) && pivot == right[k, k] && pivot != f.zero
    modifies left, right
    ensures Rows(left) == Scaled(f, old(Rows(left)), k, pivot)
    ensures Rows(right) == Scaled(f, old(Rows(right)), k, pivot)
  {
    hide IsField;
    var rows, leftcols := left.Length0, left.Length1;
    ghost var l, r := Rows(left), Rows(right);
    if pivot != f.one {
      PivotRowScaled(f, r, k, pivot);
      ScaleRow(f, left, k, 0, pivot);
      right[k, k] := f.one;
      ScaleRow(f, right, k, k + 1, pivot);
      ScaledRows(f, l, Rows(left), rows, leftcols, k, pivot);
      ScaledRows(f, r, Rows(right), rows, rows, k, pivot);
    } else {
      ScaledByOne(f, l, rows, leftcols, k);
      ScaledByOne(f, r, rows, rows, k);
    }
  }

  /** GaussElim. It succeeds exactly when every leading block of the right matrix, up to `pivots`, is
      regular; then the first columns of the right matrix are those of the identity and the equations
      L x = R y have the solutions they had. */
  method GaussElim<T(==,!new)>(f: Field<T>, left: array2<T>, right: array2<T>, pivots: nat) returns (ok: bool)
    requires IsField(f) && left != right
    requires right.Length0 == right.Length1 == left.Length0 && pivots <= left.Length0
    modifies left, right
    ensures ok <==> forall m :: 1 <= m <= pivots ==> Regular(f, old(Rows(right)), m)
    ensures ok ==> IdentityColumns(f, Rows(right), pivots)
    ensures ok ==> forall m :: pivots <= m <= left.Length0 ==>
              SameSolutions(f, old(Rows(left)), old(Rows(right)), Rows(left), Rows(right),
                            left.Length0, left.Length1, m)
    ensures TailKept(f, old(Rows(right)), Rows(right), left.Length0, pivots)
  {
    hide IsField, TailKept, SameSolutions, Regular;
    var rows, leftcols := left.Length0, left.Length1;
    ghost var l0, r0 := Rows(left), Rows(right);
    Begin(f, l0, r0, rows, leftcols);
    TailRefl(f, r0, rows, pivots);
    for row := 0 to pivots
      invariant Reached(f, l0, r0, Rows(left), Rows(right), rows, leftcols, row)
      invariant TailKept(f, r0, Rows(right), rows, pivots)
      invariant forall m :: 1 <= m <= row ==> Regular(f, r0, m)
    {
      ghost var l, r := Rows(left), Rows(right);
      var pivot := right[row, row];
      if pivot == f.zero {
        ZeroPivotMeansSingular(f, l0, r0, l, r, rows, leftcols, row);
        return false;
      }
      ScalePivotRow(f, left, right, row, pivot);
      AfterScaling(f, l0, r0, l, r, rows, leftcols, row);
      TailScaled(f, r0, r, rows, pivots, row, pivot);
      ClearColumn(f, left, right, row, pivots, l0, r0);
      AfterClearing(f, l0, r0, Rows(left), Rows(right), rows, leftcols, row);
    }
    return true;
  }

  lemma TailRefl<T>(f: Field<T>, r: Matrix<T>, rows: nat, pivots: nat)
    requires Shape(r, rows, rows) && pivots <= rows
    ensures TailKept(f, r, r, rows, pivots)
  {
  }
}
