/** The class ReedSolomon<g>: which blocks and recovery blocks there are, and the matrix computed from them. */
module ReedSolomon {
  import opened Fields
  import opened Matrices
  import opened Elimination
  import opened Vandermonde

  datatype RSOutputRow = RSOutputRow(present: bool, exponent: nat)

  // ----- what the class keeps, as functions of the flags it was given

  /** The first n indexes whose flag is `want` */
  function Indexes(present: seq<bool>, want: bool, n: nat): (s: seq<nat>)
    requires n <= |present|
    ensures forall i :: 0 <= i < |s| ==> s[i] < n && present[s[i]] == want
  {
    if n == 0 then []
    else Indexes(present, want, n - 1) + if present[n - 1] == want then [n - 1] else []
  }

  function Exponents(rows: seq<RSOutputRow>, want: bool): seq<nat> {
    if rows == [] then []
    else
      var n := |rows| - 1;
      Exponents(rows[..n], want) + if rows[n].present == want then [rows[n].exponent] else []
  }

  /** Output rows with the exponents low, low + 1, ..., end - 1 */
  function OutputRange(present: bool, low: nat, end: nat): seq<RSOutputRow> {
    if end <= low then [] else OutputRange(present, low, end - 1) + [RSOutputRow(present, end - 1)]
  }

  /** The entries of s at the given indexes */
  function Pick<T>(s: seq<T>, index: seq<nat>): (p: seq<T>)
    requires forall i :: 0 <= i < |index| ==> index[i] < |s|
    ensures |p| == |index|
  {
    seq(|index|, i requires 0 <= i < |index| => s[index[i]])
  }

  /** One word of the recovery block with exponent e: the sum of data[i] * base[i]^e */
  function RecoveryWord<T>(f: Field<T>, bases: seq<T>, data: seq<T>, e: nat): T
    requires |data| == |bases|
  {
    Dot(f, Powers(f, bases, e), data, |data|)
  }

  function RecoveryWords<T>(f: Field<T>, bases: seq<T>, data: seq<T>, exponents: seq<nat>): (r: seq<T>)
    requires |data| == |bases|
    ensures |r| == |exponents|
  {
    seq(|exponents|, i requires 0 <= i < |exponents| => RecoveryWord(f, bases, data, exponents[i]))
  }

  // ----- a recovery word splits over present and missing blocks

  lemma {:induction false} DotAppend<T(!new)>(f: Field<T>, a: seq<T>, x: seq<T>, b: seq<T>, y: seq<T>, n: nat)
    requires IsField(f) && |a| == |x| && n <= |b| && n <= |y|
    ensures Dot(f, a + b, x + y, |a| + n) == f.add(Dot(f, a, x, |a|), Dot(f, b, y, n))
  {
    hide IsField;
    if n == 0 {
      DotLocal(f, a, x, a + b, x + y, |a|);
      AddZero(f, Dot(f, a, x, |a|));
    } else {
      DotAppend(f, a, x, b, y, n - 1);
      AddAssoc(f, Dot(f, a, x, |a|), Dot(f, b, y, n - 1), f.mul(b[n - 1], y[n - 1]));
    }
  }

  lemma {:induction false} DotLocal<T>(f: Field<T>, a: seq<T>, x: seq<T>, b: seq<T>, y: seq<T>, n: nat)
    requires n <= |a| && n <= |x| && n <= |b| && n <= |y|
    requires forall j :: 0 <= j < n ==> a[j] == b[j] && x[j] == y[j]
    ensures Dot(f, a, x, n) == Dot(f, b, y, n)
  {
    if n > 0 { DotLocal(f, a, x, b, y, n - 1); }
  }

  lemma {:induction false} SplitSum<T(!new)>(f: Field<T>, present: seq<bool>, a: seq<T>, x: seq<T>, n: nat)
    requires IsField(f) && n <= |present| && |present| <= |a| && |present| <= |x|
    ensures var p, m := Indexes(present, true, n), Indexes(present, false, n);
            Dot(f, a, x, n) == f.add(Dot(f, Pick(a, p), Pick(x, p), |p|), Dot(f, Pick(a, m), Pick(x, m), |m|))
  {
    hide IsField;
    if n == 0 {
      AddZero(f, f.zero);
    } else {
      SplitSum(f, present, a, x, n - 1);
      var p, m := Indexes(present, true, n - 1), Indexes(present, false, n - 1);
      var dp, dm, t := Dot(f, Pick(a, p), Pick(x, p), |p|), Dot(f, Pick(a, m), Pick(x, m), |m|),
          f.mul(a[n - 1], x[n - 1]);
      if present[n - 1] {
        assert Indexes(present, true, n) == p + [n - 1] && Indexes(present, false, n) == m;
        hide Indexes, Pick;
        PickOneMore(f, a, x, p, n - 1);
        AddAssoc(f, dp, dm, t);
        AddComm(f, dm, t);
        AddAssoc(f, dp, t, dm);
      } else {
        assert Indexes(present, true, n) == p && Indexes(present, false, n) == m + [n - 1];
        hide Indexes, Pick;
        PickOneMore(f, a, x, m, n - 1);
        AddAssoc(f, dp, dm, t);
      }
    }
  }

  lemma PickOneMore<T(!new)>(f: Field<T>, a: seq<T>, x: seq<T>, p: seq<nat>, k: nat)
    requires k < |a| && k < |x|
    requires forall i :: 0 <= i < |p| ==> p[i] < |a| && p[i] < |x|
    ensures var q := p + [k];
            Dot(f, Pick(a, q), Pick(x, q), |q|) == f.add(Dot(f, Pick(a, p), Pick(x, p), |p|), f.mul(a[k], x[k]))
  {
    var q := p + [k];
    DotLocal(f, Pick(a, q), Pick(x, q), Pick(a, p), Pick(x, p), |p|);
  }

  lemma SplitRecovery<T(!new)>(f: Field<T>, present: seq<bool>, bases: seq<T>, data: seq<T>, e: nat)
    requires IsField(f) && |bases| == |data| == |present|
    ensures var p, m := Indexes(present, true, |present|), Indexes(present, false, |present|);
            RecoveryWord(f, bases, data, e) ==
              f.add(RecoveryWord(f, Pick(bases, p), Pick(data, p), e),
                  RecoveryWord(f, Pick(bases, m), Pick(data, m), e))
  {
    var p, m := Indexes(present, true, |present|), Indexes(present, false, |present|);
    SplitSum(f, present, Powers(f, bases, e), data, |present|);
    assert Pick(Powers(f, bases, e), p) == Powers(f, Pick(bases, p), e);
    assert Pick(Powers(f, bases, e), m) == Powers(f, Pick(bases, m), e);
  }

  // ----- the data solves the system that Compute sets up

  /** The vector that a row of the left matrix is applied to: the present blocks, then as many recovery
      words as there are missing blocks */
  function Inputs<T>(f: Field<T>, present: seq<bool>, bases: seq<T>, data: seq<T>, used: seq<nat>): (x: seq<T>)
    requires |bases| == |data| == |present|
    ensures |x| == |Indexes(present, true, |present|)| + |used|
  {
    Pick(data, Indexes(present, true, |present|)) + RecoveryWords(f, bases, data, used)
  }

  /** What the rows compute: the missing blocks, then the missing recovery words */
  function Outputs<T>(f: Field<T>, present: seq<bool>, bases: seq<T>, data: seq<T>, absent: seq<nat>): (y: seq<T>)
    requires |bases| == |data| == |present|
    ensures |y| == |Indexes(present, false, |present|)| + |absent|
  {
    Pick(data, Indexes(present, false, |present|)) + RecoveryWords(f, bases, data, absent)
  }

  function UnitEntry<T>(f: Field<T>, v: seq<T>, unit: int): T {
    if 0 <= unit < |v| then v[unit] else f.zero
  }

  lemma DotSystemRow<T(!new)>(f: Field<T>, bases: seq<T>, d: seq<T>, e: nat, v: seq<T>, unit: int)
    requires IsField(f) && |d| == |bases|
    ensures Dot(f, SystemRow(f, bases, e, |v|, unit), d + v, |d| + |v|)
         == f.add(RecoveryWord(f, bases, d, e), UnitEntry(f, v, unit))
  {
    hide IsField, Power;
    var u := seq(|v|, j => if j == unit then f.one else f.zero);
    assert SystemRow(f, bases, e, |v|, unit) == Powers(f, bases, e) + u;
    DotAppend(f, Powers(f, bases, e), d, u, v, |v|);
    if 0 <= unit < |v| {
      DotSingle(f, u, v, |v|, unit);
      MulOne(f, v[unit]);
    } else {
      DotZero(f, u, v, |v|);
    }
  }

  /** The equation of one row, with any words in place of the recovery words: for a row of a recovery block that is
      used it says that the word in its place is the recovery word, and for the other rows it says nothing. */
  lemma RowMeans<T(!new)>(f: Field<T>, present: seq<bool>, bases: seq<T>, data: seq<T>, u: seq<T>,
                          used: seq<nat>, absent: seq<nat>, i: nat)
    requires IsField(f) && |bases| == |data| == |present|
    requires |u| == |used| == |Indexes(present, false, |present|)| && i < |used| + |absent|
    ensures var p, m := Indexes(present, true, |present|), Indexes(present, false, |present|);
            var exponents := used + absent;
            var x, y := Pick(data, p) + u, Outputs(f, present, bases, data, absent);
            var l, r := LeftStart(f, Pick(bases, p), Pick(bases, m), exponents),
                RightStart(f, Pick(bases, m), exponents);
            Dot(f, l[i], x, |x|) == Dot(f, r[i], y, |y|)
            <==> (i < |used| ==> u[i] == RecoveryWord(f, bases, data, used[i]))
  {
    hide IsField, Power, Dot, RecoveryWord, Indexes;
    var p, m := Indexes(present, true, |present|), Indexes(present, false, |present|);
    var e := (used + absent)[i];
    var a := RecoveryWords(f, bases, data, absent);
    DotSystemRow(f, Pick(bases, p), Pick(data, p), e, u, i);
    DotSystemRow(f, Pick(bases, m), Pick(data, m), e, a, i - |m|);
    SplitRecovery(f, present, bases, data, e);
    var rp, rm := RecoveryWord(f, Pick(bases, p), Pick(data, p), e), RecoveryWord(f, Pick(bases, m), Pick(data, m), e);
    AddZero(f, rp);
    AddZero(f, rm);
    if i < |used| {
      Balance(f, rp, rm, u[i]);
    } else {
      Balance(f, rp, rm, f.zero);
      AddComm(f, rp, rm);
      AddCancel(f, rp, rm);
      AddComm(f, rm, f.add(rp, rm));
      AddCancel(f, rm, rp);
      AddComm(f, f.add(rp, rm), rm);
    }
  }

  /** In characteristic two, a + t = b means t = a + b. */
  lemma Balance<T(!new)>(f: Field<T>, a: T, b: T, t: T)
    requires IsField(f)
    ensures f.add(a, t) == b <==> t == f.add(a, b)
  {
    hide IsField;
    AddComm(f, a, t);
    AddComm(f, a, b);
    AddCancel(f, t, a);
    AddCancel(f, b, a);
  }

  /** l turns the words that are read into the words that are wanted, whatever the data. */
  ghost predicate Reconstructs<T(!new)>(f: Field<T>, l: Matrix<T>, present: seq<bool>, bases: seq<T>,
                                        used: seq<nat>, absent: seq<nat>)
    requires |bases| == |present| && |used| == |Indexes(present, false, |present|)|
  {
    var rows, cols := |used| + |absent|, |Indexes(present, true, |present|)| + |used|;
    && Shape(l, rows, cols)
    && forall data: seq<T>, i | |data| == |bases| && 0 <= i < rows ::
         Dot(f, l[i], Inputs(f, present, bases, data, used), cols) == Outputs(f, present, bases, data, absent)[i]
  }

  /** The words x, of which u stand for the recovery blocks, give all the words that are wanted. */
  ghost predicate Gives<T>(f: Field<T>, l: Matrix<T>, present: seq<bool>, bases: seq<T>, data: seq<T>, u: seq<T>,
                           absent: seq<nat>)
    requires |bases| == |data| == |present| && |u| == |Indexes(present, false, |present|)|
  {
    var x, y := Pick(data, Indexes(present, true, |present|)) + u, Outputs(f, present, bases, data, absent);
    Shape(l, |y|, |x|) && forall i :: 0 <= i < |y| ==> Dot(f, l[i], x, |x|) == y[i]
  }

  /** And nothing but the recovery words gives them. */
  ghost predicate Faithful<T(!new)>(f: Field<T>, l: Matrix<T>, present: seq<bool>, bases: seq<T>,
                                    used: seq<nat>, absent: seq<nat>)
    requires |bases| == |present| && |used| == |Indexes(present, false, |present|)|
  {
    forall data: seq<T>, u: seq<T> | |data| == |bases| && |u| == |used| ::
      Gives(f, l, present, bases, data, u, absent) ==> u == RecoveryWords(f, bases, data, used)
  }

  /** The system that Compute sets up says that the words in place of the recovery blocks are the recovery words. */
  lemma StartMeans<T(!new)>(f: Field<T>, present: seq<bool>, bases: seq<T>, data: seq<T>, u: seq<T>,
                            used: seq<nat>, absent: seq<nat>)
    requires IsField(f) && |bases| == |data| == |present| && |u| == |used| == |Indexes(present, false, |present|)|
    ensures var p, m := Indexes(present, true, |present|), Indexes(present, false, |present|);
            var exponents := used + absent;
            var x, y := Pick(data, p) + u, Outputs(f, present, bases, data, absent);
            var l, r := LeftStart(f, Pick(bases, p), Pick(bases, m), exponents),
                RightStart(f, Pick(bases, m), exponents);
            Solves(f, l, r, |exponents|, x, y) <==> u == RecoveryWords(f, bases, data, used)
  {
    hide IsField, LeftStart, RightStart, Outputs, Dot, RecoveryWord, Indexes;
    var w := RecoveryWords(f, bases, data, used);
    forall i | 0 <= i < |used| + |absent|
      ensures var p, m := Indexes(present, true, |present|), Indexes(present, false, |present|);
              var exponents := used + absent;
              var x, y := Pick(data, p) + u, Outputs(f, present, bases, data, absent);
              var l, r := LeftStart(f, Pick(bases, p), Pick(bases, m), exponents),
                  RightStart(f, Pick(bases, m), exponents);
              Dot(f, l[i], x, |x|) == Dot(f, r[i], y, |y|) <==> (i < |used| ==> u[i] == w[i])
    {
      RowMeans(f, present, bases, data, u, used, absent, i);
    }
  }

  lemma IdentityRow<T(!new)>(f: Field<T>, r: Matrix<T>, y: seq<T>, i: nat)
    requires IsField(f) && Shape(r, |r|, |r|) && IdentityColumns(f, r, |r|) && |y| == |r| && i < |r|
    ensures Dot(f, r[i], y, |y|) == y[i]
  {
    hide IsField, Dot;
    DotSingle(f, r[i], y, |y|, i);
    MulOne(f, y[i]);
  }

  /** Beside an identity, the left rows give the solution. */
  lemma IdentityGives<T(!new)>(f: Field<T>, l: Matrix<T>, r: Matrix<T>, x: seq<T>, y: seq<T>)
    requires IsField(f) && Shape(l, |y|, |x|) && Shape(r, |y|, |y|) && IdentityColumns(f, r, |y|)
    ensures Solves(f, l, r, |y|, x, y) <==> forall i :: 0 <= i < |y| ==> Dot(f, l[i], x, |x|) == y[i]
  {
    hide IsField, Dot, IdentityColumns;
    forall i | 0 <= i < |y| ensures Dot(f, r[i], y, |y|) == y[i] {
      IdentityRow(f, r, y, i);
    }
  }

  lemma SameAt<T(!new)>(f: Field<T>, l: Matrix<T>, r: Matrix<T>, l2: Matrix<T>, r2: Matrix<T>, x: seq<T>, y: seq<T>)
    requires Shape(l, |y|, |x|) && Shape(l2, |y|, |x|) && Shape(r, |y|, |y|) && Shape(r2, |y|, |y|)
    requires SameSolutions(f, l, r, l2, r2, |y|, |x|, |y|)
    ensures Solves(f, l, r, |y|, x, y) <==> Solves(f, l2, r2, |y|, x, y)
  {
    hide Solves;
  }

  /** The left matrix has the solutions of the start, beside an identity. */
  ghost predicate Solved<T(!new)>(f: Field<T>, l: Matrix<T>, r: Matrix<T>, present: seq<bool>, bases: seq<T>,
                                  used: seq<nat>, absent: seq<nat>)
    requires |bases| == |present| && |used| == |Indexes(present, false, |present|)|
  {
    var p, m := Indexes(present, true, |present|), Indexes(present, false, |present|);
    var exponents := used + absent;
    var rows, cols := |exponents|, |p| + |m|;
    && Shape(l, rows, cols) && Shape(r, rows, rows) && IdentityColumns(f, r, rows)
    && SameSolutions(f, LeftStart(f, Pick(bases, p), Pick(bases, m), exponents),
                     RightStart(f, Pick(bases, m), exponents), l, r, rows, cols, rows)
  }

  /** For one set of data blocks, the rows give what is wanted exactly from the recovery words. */
  lemma SolvedGives<T(!new)>(f: Field<T>, l: Matrix<T>, r: Matrix<T>, present: seq<bool>, bases: seq<T>,
                             data: seq<T>, u: seq<T>, used: seq<nat>, absent: seq<nat>)
    requires IsField(f) && |bases| == |data| == |present| && |u| == |used| == |Indexes(present, false, |present|)|
    requires Solved(f, l, r, present, bases, used, absent)
    ensures Gives(f, l, present, bases, data, u, absent) <==> u == RecoveryWords(f, bases, data, used)
  {
    hide IsField, LeftStart, RightStart, Outputs, Dot, IdentityColumns, SameSolutions, Solves, Indexes, RecoveryWords,
         Gives;
    var p, m := Indexes(present, true, |present|), Indexes(present, false, |present|);
    var x, y := Pick(data, p) + u, Outputs(f, present, bases, data, absent);
    StartMeans(f, present, bases, data, u, used, absent);
    SameAt(f, LeftStart(f, Pick(bases, p), Pick(bases, m), used + absent), RightStart(f, Pick(bases, m), used + absent),
           l, r, x, y);
    IdentityGives(f, l, r, x, y);
    GivesDefined(f, l, present, bases, data, u, absent);
  }

  lemma GivesDefined<T(!new)>(f: Field<T>, l: Matrix<T>, present: seq<bool>, bases: seq<T>, data: seq<T>, u: seq<T>,
                              absent: seq<nat>)
    requires |bases| == |data| == |present| && |u| == |Indexes(present, false, |present|)|
    requires Shape(l, |u| + |absent|, |Indexes(present, true, |present|)| + |u|)
    ensures var x, y := Pick(data, Indexes(present, true, |present|)) + u, Outputs(f, present, bases, data, absent);
            Gives(f, l, present, bases, data, u, absent) <==> forall i :: 0 <= i < |y| ==> Dot(f, l[i], x, |x|) == y[i]
  {
  }

  /** A left matrix with the solutions of the start, beside an identity, reconstructs. */
  lemma SolvedReconstructs<T(!new)>(f: Field<T>, l: Matrix<T>, r: Matrix<T>, present: seq<bool>, bases: seq<T>,
                                    used: seq<nat>, absent: seq<nat>)
    requires IsField(f) && |bases| == |present| && |used| == |Indexes(present, false, |present|)|
    requires Solved(f, l, r, present, bases, used, absent)
    ensures Reconstructs(f, l, present, bases, used, absent) && Faithful(f, l, present, bases, used, absent)
  {
    hide IsField, Solved, Gives, Outputs, Inputs, Dot, Indexes, RecoveryWords;
    SolvedShape(f, l, r, present, bases, used, absent);
    forall data: seq<T>, i | |data| == |bases| && 0 <= i < |used| + |absent|
      ensures Dot(f, l[i], Inputs(f, present, bases, data, used), |Indexes(present, true, |present|)| + |used|)
           == Outputs(f, present, bases, data, absent)[i]
    {
      SolvedGives(f, l, r, present, bases, data, RecoveryWords(f, bases, data, used), used, absent);
      GivesAt(f, l, present, bases, data, used, absent, i);
    }
    forall data: seq<T>, u: seq<T> | |data| == |bases| && |u| == |used|
      ensures Gives(f, l, present, bases, data, u, absent) ==> u == RecoveryWords(f, bases, data, used)
    {
      SolvedGives(f, l, r, present, bases, data, u, used, absent);
    }
  }

  lemma SolvedShape<T(!new)>(f: Field<T>, l: Matrix<T>, r: Matrix<T>, present: seq<bool>, bases: seq<T>,
                             used: seq<nat>, absent: seq<nat>)
    requires |bases| == |present| && |used| == |Indexes(present, false, |present|)|
    requires Solved(f, l, r, present, bases, used, absent)
    ensures Shape(l, |used| + |absent|, |Indexes(present, true, |present|)| + |used|)
  {
    hide SameSolutions, IdentityColumns;
  }

  lemma GivesAt<T(!new)>(f: Field<T>, l: Matrix<T>, present: seq<bool>, bases: seq<T>, data: seq<T>,
                         used: seq<nat>, absent: seq<nat>, i: nat)
    requires |bases| == |data| == |present| && |used| == |Indexes(present, false, |present|)| && i < |used| + |absent|
    requires Gives(f, l, present, bases, data, RecoveryWords(f, bases, data, used), absent)
    ensures Shape(l, |used| + |absent|, |Indexes(present, true, |present|)| + |used|)
    ensures Dot(f, l[i], Inputs(f, present, bases, data, used), |Indexes(present, true, |present|)| + |used|)
         == Outputs(f, present, bases, data, absent)[i]
  {
    hide Dot, Outputs;
  }

  /** With nothing missing the right matrix is the identity from the start. */
  lemma NothingMissing<T(!new)>(f: Field<T>, r: Matrix<T>, exponents: seq<nat>)
    requires r == RightStart(f, [], exponents)
    ensures IdentityColumns(f, r, |r|)
  {
  }

  // ----- the tails of the rows: the identity part of the right matrix survives elimination

  lemma TailIsIdentity<T(!new)>(f: Field<T>, missing: seq<T>, exponents: seq<nat>, r: Matrix<T>)
    requires |missing| <= |exponents| && Shape(r, |exponents|, |exponents|)
    requires TailKept(f, RightStart(f, missing, exponents), r, |exponents|, |missing|)
    requires IdentityColumns(f, r, |missing|)
    ensures IdentityColumns(f, r, |exponents|)
  {
    hide Power;
    var r0, pivots := RightStart(f, missing, exponents), |missing|;
    forall i, c | 0 <= i < |exponents| && 0 <= c < |exponents|
      ensures r[i][c] == if i == c then f.one else f.zero
    {
      if c >= pivots {
        assert ZeroAbove(f, r0, pivots, c);
        assert r[i][c] == r0[i][c];
      }
    }
  }

  // ----- filling in the matrices

  /** Write one row: powers of the bases, then n entries that are zero but for a one at `unit`. */
  method FillRow<T(!new)>(f: Field<T>, m: array2<T>, row: nat, bases: seq<T>, exponent: nat, n: nat, unit: int)
    requires row < m.Length0 && m.Length1 == |bases| + n
    modifies m
    ensures Rows(m)[row] == SystemRow(f, bases, exponent, n, unit)
    ensures forall i :: 0 <= i < m.Length0 && i != row ==> Rows(m)[i] == old(Rows(m))[i]
  {
    for col := 0 to |bases|
      invariant forall j :: 0 <= j < col ==> m[row, j] == Power(f, bases[j], exponent)
      invariant forall i, j :: 0 <= i < m.Length0 && i != row && 0 <= j < m.Length1 ==> m[i, j] == old(m[i, j])
    {
      m[row, col] := Power(f, bases[col], exponent);
    }
    for col := 0 to n
      invariant forall j :: 0 <= j < |bases| ==> m[row, j] == Power(f, bases[j], exponent)
      invariant forall j :: |bases| <= j < |bases| + col ==> m[row, j] == if j - |bases| == unit then f.one else f.zero
      invariant forall i, j :: 0 <= i < m.Length0 && i != row && 0 <= j < m.Length1 ==> m[i, j] == old(m[i, j])
    {
      m[row, col + |bases|] := if col == unit then f.one else f.zero;
    }
    assert Rows(m)[row] == SystemRow(f, bases, exponent, n, unit);
  }

  // ----- walking through the output rows

  lemma {:induction false} ExponentsPrefix(rows: seq<RSOutputRow>, want: bool, k: nat)
    requires k <= |rows|
    ensures Exponents(rows[..k], want) <= Exponents(rows, want)
    decreases |rows|
  {
    if k == |rows| {
      assert rows[..k] == rows;
    } else {
      ExponentsPrefix(rows[..|rows| - 1], want, k);
      assert rows[..|rows| - 1][..k] == rows[..k];
    }
  }

  lemma ExponentsStep(rows: seq<RSOutputRow>, want: bool, k: nat)
    requires k < |rows|
    ensures Exponents(rows[..k + 1], want)
         == Exponents(rows[..k], want) + if rows[k].present == want then [rows[k].exponent] else []
  {
    assert rows[..k + 1][..k] == rows[..k];
  }

  /** Advance to the next output row with the wanted flag: it holds the k-th exponent of its kind. */
  method NextRow(rows: seq<RSOutputRow>, want: bool, start: nat, ghost k: nat) returns (next: nat)
    requires start <= |rows| && k < |Exponents(rows, want)|
    requires Exponents(rows[..start], want) == Exponents(rows, want)[..k]
    ensures next < |rows| && rows[next].exponent == Exponents(rows, want)[k]
    ensures Exponents(rows[..next + 1], want) == Exponents(rows, want)[..k + 1]
  {
    next := start;
    assert rows[..|rows|] == rows;
    while rows[next].present != want
      invariant next < |rows|
      invariant Exponents(rows[..next], want) == Exponents(rows, want)[..k]
      decreases |rows| - next
    {
      ExponentsStep(rows, want, next);
      next := next + 1;
    }
    ExponentsStep(rows, want, next);
    ExponentsPrefix(rows, want, next + 1);
  }

  lemma StartRows<T>(f: Field<T>, present: seq<T>, missing: seq<T>, exponents: seq<nat>, i: nat)
    requires |missing| <= |exponents| && i < |exponents|
    ensures LeftStart(f, present, missing, exponents)[i]
         == SystemRow(f, present, exponents[i], |missing|, if i < |missing| then i else -1)
    ensures RightStart(f, missing, exponents)[i]
         == SystemRow(f, missing, exponents[i], |exponents| - |missing|, if i < |missing| then -1 else i - |missing|)
  {
  }

  lemma SolvedAtOnce<T(!new)>(f: Field<T>, l: Matrix<T>, r: Matrix<T>, rows: nat, cols: nat)
    requires Shape(l, rows, cols) && Shape(r, rows, rows)
    ensures SameSolutions(f, l, r, l, r, rows, cols, rows)
  {
  }

  lemma NoExponents(rows: seq<RSOutputRow>, want: bool)
    ensures Exponents(rows[..0], want) == []
  {
  }

  // ----- the class

  class ReedSolomon<T(==,!new)> {
    const field: Field<T>
    var inputcount: nat              // total number of input blocks
    var datapresent: nat
    var datamissing: nat
    var datapresentindex: seq<nat>   // the indexes of the data blocks that are present
    var datamissingindex: seq<nat>   // the indexes of the data blocks that are missing
    var database: seq<T>             // the base of each input block
    var outputcount: nat
    var parpresent: nat
    var parmissing: nat
    var outputrows: seq<RSOutputRow>
    var leftmatrix: array2?<T>
    ghost var present: seq<bool>     // the flags given to SetInput

    constructor (f: Field<T>)
      ensures field == f && Unset() && OutputsValid() && outputrows == [] && leftmatrix == null
    {
      field := f;
      inputcount, datapresent, datamissing := 0, 0, 0;
      datapresentindex, datamissingindex, database, present := [], [], [], [];
      outputcount, parpresent, parmissing, outputrows := 0, 0, 0, [];
      leftmatrix := null;
    }

    ghost predicate Unset()
      reads this
    {
      inputcount == 0 && InputsValid()
    }

    /** The input side after the first |present| blocks */
    ghost predicate InputsValid()
      reads this
    {
      && |database| == |present| == inputcount
      && datapresentindex == Indexes(present, true, |present|) && datapresent == |datapresentindex|
      && datamissingindex == Indexes(present, false, |present|) && datamissing == |datamissingindex|
    }

    ghost predicate OutputsValid()
      reads this
    {
      && outputcount == |outputrows|
      && parpresent == |Exponents(outputrows, true)|
      && parmissing == |Exponents(outputrows, false)|
    }

    ghost function MissingBases(): seq<T>
      requires InputsValid()
      reads this
    {
      Pick(database, datamissingindex)
    }

    /** The exponents of the recovery blocks that stand in for the missing data blocks */
    ghost function Used(): (u: seq<nat>)
      requires InputsValid() && OutputsValid() && datamissing <= parpresent
      reads this
      ensures |u| == datamissing
    {
      Exponents(outputrows, true)[..datamissing]
    }

    ghost function Absent(): (a: seq<nat>)
      requires OutputsValid()
      reads this
      ensures |a| == parmissing
    {
      Exponents(outputrows, false)
    }

    /** Record one output block. */
    method SetOutput(isPresent: bool, exponent: nat)
      requires OutputsValid()
      modifies `outputrows, `outputcount, `parpresent, `parmissing
      ensures OutputsValid() && outputrows == old(outputrows) + [RSOutputRow(isPresent, exponent)]
    {
      var n := |outputrows|;
      outputrows := outputrows + [RSOutputRow(isPresent, exponent)];
      assert outputrows[..n] == old(outputrows);
      outputcount := outputcount + 1;
      if isPresent {
        parpresent := parpresent + 1;
      } else {
        parmissing := parmissing + 1;
      }
    }

    /** Record the output blocks low, low + 1, ..., high. */
    method SetOutputs(isPresent: bool, low: nat, high: nat)
      requires OutputsValid()
      modifies `outputrows, `outputcount, `parpresent, `parmissing
      ensures OutputsValid()
      ensures outputrows == old(outputrows) + OutputRange(isPresent, low, high + 1)
    {
      var exponent := low;
      while exponent <= high
        invariant low <= exponent && (exponent <= high + 1 || exponent == low)
        invariant OutputsValid()
        invariant outputrows == old(outputrows) + OutputRange(isPresent, low, exponent)
      {
        SetOutput(isPresent, exponent);
        exponent := exponent + 1;
      }
    }

    /** The rows of both matrices are as they should start, up to row `rows`. */
    ghost predicate Filled(left: array2<T>, right: array2?<T>, rows: nat)
      requires InputsValid() && OutputsValid() && datamissing <= parpresent
      reads this, left, right
    {
      var present, missing, exponents := Pick(database, datapresentindex), MissingBases(), Used() + Absent();
      && rows <= |exponents| == left.Length0 && left.Length1 == datapresent + datamissing
      && (right == null <==> datamissing == 0)
      && (right != null ==> left != right && right.Length0 == right.Length1 == left.Length0)
      && (forall i :: 0 <= i < rows ==> Rows(left)[i] == LeftStart(field, present, missing, exponents)[i])
      && (right != null ==> forall i :: 0 <= i < rows ==> Rows(right)[i] == RightStart(field, missing, exponents)[i])
    }

    /** One row for each recovery block that stands in for a missing data block */
    method FillUsedRows(left: array2<T>, right: array2?<T>)
      requires InputsValid() && OutputsValid() && datamissing <= parpresent && Filled(left, right, 0)
      modifies left, right
      ensures Filled(left, right, datamissing)
    {
      hide Power, SystemRow, Exponents, Indexes, LeftStart, RightStart;
      var present, missing := Pick(database, datapresentindex), Pick(database, datamissingindex);
      ghost var exponents := Used() + Absent();
      var next := 0;
      NoExponents(outputrows, true);
      for row := 0 to datamissing
        invariant next <= |outputrows| && Exponents(outputrows[..next], true) == Exponents(outputrows, true)[..row]
        invariant Filled(left, right, row)
      {
        next := NextRow(outputrows, true, next, row);
        var exponent := outputrows[next].exponent;
        StartRows(field, present, missing, exponents, row);
        FillRow(field, left, row, present, exponent, datamissing, row);
        FillRow(field, right, row, missing, exponent, parmissing, -1);
        next := next + 1;
      }
    }

    /** One row for each recovery block to be computed */
    method FillAbsentRows(left: array2<T>, right: array2?<T>)
      requires InputsValid() && OutputsValid() && datamissing <= parpresent && Filled(left, right, datamissing)
      modifies left, right
      ensures Filled(left, right, datamissing + parmissing)
    {
      hide Power, SystemRow, Exponents, Indexes, LeftStart, RightStart;
      var present, missing := Pick(database, datapresentindex), Pick(database, datamissingindex);
      ghost var exponents := Used() + Absent();
      var next := 0;
      NoExponents(outputrows, false);
      for row := 0 to parmissing
        invariant next <= |outputrows| && Exponents(outputrows[..next], false) == Exponents(outputrows, false)[..row]
        invariant Filled(left, right, row + datamissing)
      {
        next := NextRow(outputrows, false, next, row);
        var exponent := outputrows[next].exponent;
        StartRows(field, present, missing, exponents, row + datamissing);
        FillRow(field, left, row + datamissing, present, exponent, datamissing, -1);
        if datamissing > 0 {
          FillRow(field, right, row + datamissing, missing, exponent, parmissing, row);
        }
        next := next + 1;
      }
    }

    /** Compute: set up the Vandermonde system and, if anything is missing, solve it. */
    method Compute() returns (ok: bool)
      requires IsField(field) && InputsValid() && OutputsValid()
      modifies `leftmatrix
      ensures ok <==>
        && datamissing <= parpresent && datamissing + parmissing > 0
        && forall m :: 1 <= m <= datamissing ==> Regular(field, RightStart(field, MissingBases(), Used() + Absent()), m)
      ensures ok ==> leftmatrix != null && fresh(leftmatrix)
      ensures ok ==> Reconstructs(field, Rows(leftmatrix), present, database, Used(), Absent())
      ensures ok ==> Faithful(field, Rows(leftmatrix), present, database, Used(), Absent())
    {
      hide IsField, Regular, SameSolutions, TailKept, Reconstructs, Faithful, LeftStart, RightStart;
      if datamissing > parpresent || datamissing + parmissing == 0 {
        return false;
      }
      var outcount, incount := datamissing + parmissing, datapresent + datamissing;
      var zero := field.zero;
      var left := new T[outcount, incount]((i, j) => zero);
      var right: array2?<T> := null;
      if datamissing > 0 {
        right := new T[outcount, outcount]((i, j) => zero);
      }
      leftmatrix := left;
      FillUsedRows(left, right);
      FillAbsentRows(left, right);
      ghost var bases, missing, exponents := Pick(database, datapresentindex), MissingBases(), Used() + Absent();
      assert Rows(left) == LeftStart(field, bases, missing, exponents);
      if datamissing > 0 {
        ghost var start := Rows(right);
        assert start == RightStart(field, missing, exponents);
        ok := GaussElim(field, left, right, datamissing);
        assert ok <==> forall m :: 1 <= m <= datamissing ==> Regular(field, start, m);
        assert MissingBases() == missing && Used() + Absent() == exponents;
        assert ok <==> forall m :: 1 <= m <= datamissing ==>
            Regular(field, RightStart(field, MissingBases(), Used() + Absent()), m);
        if ok {
          TailIsIdentity(field, missing, exponents, Rows(right));
          SolvedReconstructs(field, Rows(left), Rows(right), present, database, Used(), Absent());
        }
      } else {
        ok := true;
        NothingMissing(field, RightStart(field, missing, exponents), exponents);
        SolvedAtOnce(field, Rows(left), RightStart(field, missing, exponents), outcount, incount);
        SolvedReconstructs(field, Rows(left), RightStart(field, missing, exponents), present, database, Used(),
            Absent());
      }
    }
  }
}
