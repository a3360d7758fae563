/** The rows that ReedSolomon<g>::Compute writes, and when their leading blocks are regular. */
module Vandermonde {
  import opened Fields
  import opened Matrices

  /** A row of either matrix: the bases raised to the row's exponent, then n entries that are all
      zero, or one at place `unit` */
  function SystemRow<T>(f: Field<T>, bases: seq<T>, e: nat, n: nat, unit: int): (r: seq<T>)
    ensures |r| == |bases| + n
  {
    seq(|bases|, j requires 0 <= j < |bases| => Power(f, bases[j], e)) +
    seq(n, j => if j == unit then f.one else f.zero)
  }

  /** The right matrix before elimination: first the rows of the recovery blocks that are used, one
      for each missing data block, then the rows of the missing recovery blocks */
  function RightStart<T>(f: Field<T>, missing: seq<T>, exponents: seq<nat>): (r: Matrix<T>)
    requires |missing| <= |exponents|
    ensures Shape(r, |exponents|, |exponents|)
  {
    seq(|exponents|, i requires 0 <= i < |exponents| =>
      SystemRow(f, missing, exponents[i], |exponents| - |missing|, i - |missing|))
  }

  /** The left matrix before elimination */
  function LeftStart<T>(f: Field<T>, present: seq<T>, missing: seq<T>, exponents: seq<nat>): (l: Matrix<T>)
    ensures Shape(l, |exponents|, |present| + |missing|)
  {
    seq(|exponents|, i requires 0 <= i < |exponents| => SystemRow(f, present, exponents[i], |missing|, i))
  }

  // ----- power sums

  /** The sum of the first n terms z[j] * beta[j]^i */
  function PowerSums<T>(f: Field<T>, z: seq<T>, beta: seq<T>, n: nat, i: nat): T
    requires n <= |z| && n <= |beta|
  {
    if n == 0 then f.zero
    else f.add(PowerSums(f, z, beta, n - 1, i), f.mul(z[n - 1], Power(f, beta[n - 1], i)))
  }

  function Weighted<T>(f: Field<T>, z: seq<T>, beta: seq<T>, c: T): (w: seq<T>)
    requires |z| == |beta|
    ensures |w| == |z|
  {
    seq(|z|, j requires 0 <= j < |z| => f.mul(z[j], f.add(beta[j], c)))
  }

  lemma {:induction false} WeightedSums<T(!new)>(f: Field<T>, z: seq<T>, beta: seq<T>, c: T, n: nat, i: nat)
    requires IsField(f) && |z| == |beta| && n <= |z|
    ensures PowerSums(f, Weighted(f, z, beta, c), beta, n, i)
         == f.add(PowerSums(f, z, beta, n, i + 1), f.mul(PowerSums(f, z, beta, n, i), c))
  {
    hide IsField;
    if n == 0 {
      MulZero(f, c);
      AddZero(f, f.zero);
    } else {
      WeightedSums(f, z, beta, c, n - 1, i);
      WeightedStep(f, PowerSums(f, z, beta, n - 1, i + 1), PowerSums(f, z, beta, n - 1, i), c,
                   z[n - 1], beta[n - 1], Power(f, beta[n - 1], i));
    }
  }

  lemma WeightedStep<T(!new)>(f: Field<T>, s1: T, s0: T, c: T, z: T, b: T, p: T)
    requires IsField(f)
    ensures f.add(f.add(s1, f.mul(s0, c)), f.mul(f.mul(z, f.add(b, c)), p))
         == f.add(f.add(s1, f.mul(z, f.mul(p, b))), f.mul(f.add(s0, f.mul(z, p)), c))
  {
    hide IsField;
    MulAssoc(f, z, f.add(b, c), p);
    Distribute(f, b, c, p);
    MulComm(f, b, p);
    Distribute(f, f.mul(p, b), f.mul(c, p), z);
    Distribute(f, s0, f.mul(z, p), c);
    MulAssoc(f, z, p, c);
    MulComm(f, p, c);
    AddSwap(f, s1, f.mul(s0, c), f.mul(z, f.mul(p, b)), f.mul(z, f.mul(c, p)));
  }

  ghost predicate Distinct<T>(s: seq<T>) {
    forall i, j :: 0 <= i < j < |s| ==> s[i] != s[j]
  }

  /** Only zero weights make all the power sums of distinct values vanish. */
  lemma {:induction false} PowerSumsKernel<T(!new)>(f: Field<T>, z: seq<T>, beta: seq<T>, n: nat)
    requires IsField(f) && |z| == |beta| && n <= |z|
    requires forall i, j :: 0 <= i < j < n ==> beta[i] != beta[j]
    requires forall i: nat :: i < n ==> PowerSums(f, z, beta, n, i) == f.zero
    ensures forall j :: 0 <= j < n ==> z[j] == f.zero
    decreases n
  {
    hide IsField;
    if n > 0 {
      var k, c := n - 1, beta[n - 1];
      var w := Weighted(f, z, beta, c);
      forall i: nat | i < k
        ensures PowerSums(f, w, beta, k, i) == f.zero
      {
        WeightedSums(f, z, beta, c, n, i);
        MulZero(f, c);
        AddZero(f, f.zero);
        LastWeight(f, z, beta, n, i);
      }
      PowerSumsKernel(f, w, beta, k);
      forall j | 0 <= j < n - 1
        ensures z[j] == f.zero
      {
        assert w[j] == f.zero;
        AddCancel(f, beta[j], c);
        NoZeroDivisors(f, z[j], f.add(beta[j], c));
      }
      PowerSumsZero(f, z, beta, n - 1, 0);
      assert PowerSums(f, z, beta, n, 0) == f.add(f.zero, f.mul(z[n - 1], f.one));
      MulOne(f, z[n - 1]);
      AddZero(f, z[n - 1]);
    }
  }

  lemma LastWeight<T(!new)>(f: Field<T>, z: seq<T>, beta: seq<T>, n: nat, i: nat)
    requires IsField(f) && |z| == |beta| && 0 < n <= |z|
    ensures var w := Weighted(f, z, beta, beta[n - 1]);
            PowerSums(f, w, beta, n, i) == PowerSums(f, w, beta, n - 1, i)
  {
    hide IsField;
    var w, p := Weighted(f, z, beta, beta[n - 1]), Power(f, beta[n - 1], i);
    AddSelf(f, beta[n - 1]);
    MulZero(f, z[n - 1]);
    MulZero(f, p);
    AddZero(f, PowerSums(f, w, beta, n - 1, i));
  }

  lemma {:induction false} PowerSumsZero<T(!new)>(f: Field<T>, z: seq<T>, beta: seq<T>, n: nat, i: nat)
    requires IsField(f) && n <= |z| && n <= |beta|
    requires forall j :: 0 <= j < n ==> z[j] == f.zero
    ensures PowerSums(f, z, beta, n, i) == f.zero
  {
    hide IsField;
    if n > 0 {
      PowerSumsZero(f, z, beta, n - 1, i);
      MulZero(f, Power(f, beta[n - 1], i));
      AddZero(f, f.zero);
    }
  }

  // ----- exponents in arithmetic progression

  /** e, e + s, e + 2s, ... on the rows of the recovery blocks that are used */
  ghost predicate Progression(exponents: seq<nat>, used: nat, e: nat, s: nat)
    requires used <= |exponents|
  {
    forall i :: 0 <= i < used ==> exponents[i] == e + i * s
  }

  function Powers<T>(f: Field<T>, bases: seq<T>, s: nat): (p: seq<T>)
    ensures |p| == |bases|
  {
    seq(|bases|, j requires 0 <= j < |bases| => Power(f, bases[j], s))
  }

  function Weights<T>(f: Field<T>, bases: seq<T>, y: seq<T>, e: nat): (z: seq<T>)
    requires |bases| <= |y|
    ensures |z| == |bases|
  {
    seq(|bases|, j requires 0 <= j < |bases| => f.mul(y[j], Power(f, bases[j], e)))
  }

  /** b^(e + i s) = b^e (b^s)^i */
  lemma ProgressionPower<T(!new)>(f: Field<T>, b: T, e: nat, s: nat, i: nat)
    requires IsField(f)
    ensures Power(f, b, e + i * s) == f.mul(Power(f, b, e), Power(f, Power(f, b, s), i))
  {
    hide IsField, Power;
    PowerSum(f, b, e, i * s);
    PowerProduct(f, b, s, i);
    assert i * s == s * i;
  }

  /** A row of the system, seen as a power sum */
  lemma {:induction false} RowIsPowerSum<T(!new)>(f: Field<T>, bases: seq<T>, row: seq<T>, y: seq<T>,
                                                  e: nat, s: nat, i: nat, n: nat)
    requires IsField(f) && n <= |bases| <= |y| && |bases| <= |row|
    requires forall j :: 0 <= j < |bases| ==> row[j] == Power(f, bases[j], e + i * s)
    ensures Dot(f, row, y, n) == PowerSums(f, Weights(f, bases, y, e), Powers(f, bases, s), n, i)
  {
    hide IsField, Power;
    if n > 0 {
      RowIsPowerSum(f, bases, row, y, e, s, i, n - 1);
      var b, v := bases[n - 1], y[n - 1];
      ProgressionPower(f, b, e, s, i);
      var p, q := Power(f, b, e), Power(f, Power(f, b, s), i);
      MulComm(f, f.mul(p, q), v);
      MulAssoc(f, v, p, q);
    }
  }

  lemma {:induction false} DotPrefix<T(!new)>(f: Field<T>, a: seq<T>, y: seq<T>, n: nat, m: nat)
    requires IsField(f) && m <= n <= |a| && n <= |y|
    requires forall j :: m <= j < n ==> y[j] == f.zero
    ensures Dot(f, a, y, n) == Dot(f, a, y, m)
  {
    hide IsField;
    if m < n {
      DotPrefix(f, a, y, n - 1, m);
      MulZero(f, a[n - 1]);
      AddZero(f, Dot(f, a, y, n - 1));
    }
  }

  lemma StartEntry<T>(f: Field<T>, missing: seq<T>, exponents: seq<nat>, i: nat, j: nat)
    requires |missing| <= |exponents| && i < |exponents| && j < |missing|
    ensures RightStart(f, missing, exponents)[i][j] == Power(f, missing[j], exponents[i])
  {
  }

  /** One equation of the kernel, as a power sum */
  lemma KernelSum<T(!new)>(f: Field<T>, missing: seq<T>, exponents: seq<nat>, y: seq<T>, e: nat, s: nat, m: nat, i: nat)
    requires IsField(f) && i < m <= |missing| <= |exponents| == |y| && Progression(exponents, |missing|, e, s)
    requires forall j :: m <= j < |y| ==> y[j] == f.zero
    ensures Dot(f, RightStart(f, missing, exponents)[i], y, |y|)
         == PowerSums(f, Weights(f, missing, y, e), Powers(f, missing, s), m, i)
  {
    hide IsField, Power, Dot, RightStart;
    var row := RightStart(f, missing, exponents)[i];
    forall j | 0 <= j < |missing|
      ensures row[j] == Power(f, missing[j], e + i * s)
    {
      StartEntry(f, missing, exponents, i, j);
    }
    RowIsPowerSum(f, missing, row, y, e, s, i, m);
    DotPrefix(f, row, y, |y|, m);
  }

  lemma KernelTrivial<T(!new)>(f: Field<T>, missing: seq<T>, exponents: seq<nat>, y: seq<T>, e: nat, s: nat, m: nat)
    requires IsField(f) && m <= |missing| <= |exponents| == |y| && Progression(exponents, |missing|, e, s)
    requires forall b :: b in missing ==> b != f.zero
    requires Distinct(Powers(f, missing, s)) && forall j :: m <= j < |y| ==> y[j] == f.zero
    requires forall i :: 0 <= i < m ==> Dot(f, RightStart(f, missing, exponents)[i], y, |y|) == f.zero
    ensures forall j :: 0 <= j < m ==> y[j] == f.zero
  {
    hide IsField, Power, Dot, RightStart, PowerSums, Progression;
    var z, beta := Weights(f, missing, y, e), Powers(f, missing, s);
    forall i: nat | i < m
      ensures PowerSums(f, z, beta, m, i) == f.zero
    {
      KernelSum(f, missing, exponents, y, e, s, m, i);
    }
    PowerSumsKernel(f, z, beta, m);
    forall j | 0 <= j < m
      ensures y[j] == f.zero
    {
      assert z[j] == f.zero;
      assert missing[j] in missing;
      PowerNonzero(f, missing[j], e);
      NoZeroDivisors(f, y[j], Power(f, missing[j], e));
    }
  }

  lemma DistinctMeansRegular<T(!new)>(f: Field<T>, missing: seq<T>, exponents: seq<nat>, e: nat, s: nat, m: nat)
    requires IsField(f) && m <= |missing| <= |exponents| && Progression(exponents, |missing|, e, s)
    requires forall b :: b in missing ==> b != f.zero
    requires Distinct(Powers(f, missing, s))
    ensures Regular(f, RightStart(f, missing, exponents), m)
  {
    hide IsField, Power, Dot, RightStart, Progression, Distinct, Powers;
    var r := RightStart(f, missing, exponents);
    forall y: seq<T> | |y| == |r| && (forall j :: m <= j < |r| ==> y[j] == f.zero) &&
                       (forall i :: 0 <= i < m ==> Dot(f, r[i], y, |r|) == f.zero)
      ensures forall j :: 0 <= j < m ==> y[j] == f.zero
    {
      KernelTrivial(f, missing, exponents, y, e, s, m);
    }
  }

  /** Two bases with the same s-th power: the vector that the first rows take to zero */
  function Clash<T>(f: Field<T>, missing: seq<T>, rows: nat, e: nat, i: nat, j: nat): seq<T>
    requires i < j < |missing|
  {
    seq(rows, k => if k == i then Power(f, missing[j], e) else if k == j then Power(f, missing[i], e) else f.zero)
  }

  lemma CrossProducts<T(!new)>(f: Field<T>, p: T, q: T, t: T)
    requires IsField(f)
    ensures f.add(f.mul(f.mul(p, t), q), f.mul(f.mul(q, t), p)) == f.zero
  {
    hide IsField;
    MulComm(f, p, t);
    MulComm(f, q, t);
    MulAssoc(f, t, p, q);
    MulAssoc(f, t, q, p);
    MulComm(f, p, q);
    AddSelf(f, f.mul(f.mul(p, t), q));
  }

  lemma ClashMeansSingular<T(!new)>(f: Field<T>, missing: seq<T>, exponents: seq<nat>, e: nat, s: nat, i: nat, j: nat)
    requires IsField(f) && i < j < |missing| <= |exponents| && Progression(exponents, j + 1, e, s)
    requires missing[i] != f.zero && Power(f, missing[i], s) == Power(f, missing[j], s)
    ensures !Regular(f, RightStart(f, missing, exponents), j + 1)
  {
    hide IsField, Power, Dot;
    var r, rows := RightStart(f, missing, exponents), |exponents|;
    var y := Clash(f, missing, rows, e, i, j);
    forall k | 0 <= k < j + 1
      ensures Dot(f, r[k], y, rows) == f.zero
    {
      DotTwo(f, r[k], y, rows, i, j);
      StartEntry(f, missing, exponents, k, i);
      StartEntry(f, missing, exponents, k, j);
      var p, q, t := Power(f, missing[i], e), Power(f, missing[j], e), Power(f, Power(f, missing[i], s), k);
      ProgressionPower(f, missing[i], e, s, k);
      ProgressionPower(f, missing[j], e, s, k);
      CrossProducts(f, p, q, t);
    }
    PowerNonzero(f, missing[i], e);
    assert y[j] != f.zero;
  }

  /** With exponents e, e + s, e + 2s, ... on the used rows, elimination meets no zero pivot exactly
      when the s-th powers of the missing bases are distinct. */
  lemma ProgressionRegular<T(!new)>(f: Field<T>, missing: seq<T>, exponents: seq<nat>, e: nat, s: nat)
    requires IsField(f) && |missing| <= |exponents| && Progression(exponents, |missing|, e, s)
    requires forall b :: b in missing ==> b != f.zero
    ensures (forall m :: 1 <= m <= |missing| ==> Regular(f, RightStart(f, missing, exponents), m))
            <==> Distinct(Powers(f, missing, s))
  {
    hide IsField, Power, Regular, RightStart;
    var beta := Powers(f, missing, s);
    if Distinct(beta) {
      forall m | 1 <= m <= |missing|
        ensures Regular(f, RightStart(f, missing, exponents), m)
      {
        DistinctMeansRegular(f, missing, exponents, e, s, m);
      }
    } else {
      var i, j :| 0 <= i < j < |beta| && beta[i] == beta[j];
      assert missing[i] in missing;
      ClashMeansSingular(f, missing, exponents, e, s, i, j);
    }
  }

  /** Consecutive exponents never fail: the bases themselves are distinct. */
  lemma ConsecutiveRegular<T(!new)>(f: Field<T>, missing: seq<T>, exponents: seq<nat>, e: nat, m: nat)
    requires IsField(f) && 1 <= m <= |missing| <= |exponents|
    requires forall i :: 0 <= i < |missing| ==> exponents[i] == e + i
    requires Distinct(missing) && forall b :: b in missing ==> b != f.zero
    ensures Regular(f, RightStart(f, missing, exponents), m)
  {
    hide IsField, Regular, RightStart;
    forall j | 0 <= j < |missing|
      ensures Power(f, missing[j], 1) == missing[j]
    {
      MulOne(f, missing[j]);
      assert Power(f, missing[j], 0) == f.one;
    }
    assert Powers(f, missing, 1) == missing;
    assert Progression(exponents, |missing|, e, 1);
    ProgressionRegular(f, missing, exponents, e, 1);
  }

  // ----- a regular system whose leading block is singular

  lemma DotThree<T(!new)>(f: Field<T>, a: seq<T>, y: seq<T>)
    requires IsField(f) && |a| == |y| == 3
    ensures Dot(f, a, y, 3) == f.add(f.add(f.mul(a[0], y[0]), f.mul(a[1], y[1])), f.mul(a[2], y[2]))
  {
    hide IsField;
    DotTwo(f, a, y, 2, 0, 1);
  }

  /** a + b + c = 0 and u a + u b + w c = 0, where u and w differ */
  lemma LastVanishes<T(!new)>(f: Field<T>, a: T, b: T, c: T, u: T, w: T)
    requires IsField(f) && u != w
    requires f.add(f.add(a, b), c) == f.zero
    requires f.add(f.add(f.mul(u, a), f.mul(u, b)), f.mul(w, c)) == f.zero
    ensures c == f.zero && a == b
  {
    hide IsField;
    AddCancel(f, f.add(a, b), c);
    Distribute(f, a, b, u);
    Distribute(f, u, w, c);
    AddCancel(f, u, w);
    MulComm(f, f.add(u, w), c);
    NoZeroDivisors(f, c, f.add(u, w));
    AddCancel(f, a, b);
  }

  /** u p a + u q a + t c = 0 with c = 0, where p and q differ and u is not zero */
  lemma FirstVanishes<T(!new)>(f: Field<T>, a: T, c: T, u: T, p: T, q: T, t: T)
    requires IsField(f) && u != f.zero && p != q && c == f.zero
    requires f.add(f.add(f.mul(f.mul(u, p), a), f.mul(f.mul(u, q), a)), f.mul(t, c)) == f.zero
    ensures a == f.zero
  {
    hide IsField;
    MulZero(f, t);
    AddZero(f, f.add(f.mul(f.mul(u, p), a), f.mul(f.mul(u, q), a)));
    Distribute(f, f.mul(u, p), f.mul(u, q), a);
    Distribute(f, p, q, u);
    AddCancel(f, p, q);
    var d := f.add(p, q);
    if f.mul(u, d) == f.zero { NoZeroDivisors(f, u, d); }
    MulComm(f, f.mul(u, d), a);
    NoZeroDivisors(f, a, f.mul(u, d));
  }

  lemma ThreeRows<T(!new)>(f: Field<T>, p: T, q: T, r: T, s: nat)
    requires IsField(f)
    ensures var m := RightStart(f, [p, q, r], [0, s, s + 1]);
            && m[0] == [f.one, f.one, f.one]
            && m[1] == [Power(f, p, s), Power(f, q, s), Power(f, r, s)]
            && m[2] == [f.mul(Power(f, p, s), p), f.mul(Power(f, q, s), q), f.mul(Power(f, r, s), r)]
  {
    hide IsField;
    forall b: T ensures Power(f, b, 0) == f.one && Power(f, b, s + 1) == f.mul(Power(f, b, s), b) {
    }
    hide Power;
    var m := RightStart(f, [p, q, r], [0, s, s + 1]);
    assert m[0] == [Power(f, p, 0), Power(f, q, 0), Power(f, r, 0)];
    assert m[2] == [Power(f, p, s + 1), Power(f, q, s + 1), Power(f, r, s + 1)];
  }

  /** Three bases, of which just the first two have the same s-th power, and the exponents 0, s, s + 1: the leading
      two by two block is singular, though the whole system is regular. Elimination without swaps stops at its zero
      pivot. */
  lemma SingularInside<T(!new)>(f: Field<T>, p: T, q: T, r: T, s: nat)
    requires IsField(f) && p != f.zero && p != q
    requires Power(f, p, s) == Power(f, q, s) && Power(f, p, s) != Power(f, r, s)
    ensures var m := RightStart(f, [p, q, r], [0, s, s + 1]); !Regular(f, m, 2) && Regular(f, m, 3)
  {
    hide IsField, Power, Dot, RightStart;
    var m := RightStart(f, [p, q, r], [0, s, s + 1]);
    ClashMeansSingular(f, [p, q, r], [0, s, s + 1], 0, s, 0, 1);
    ThreeRows(f, p, q, r, s);
    PowerNonzero(f, p, s);
    forall y: seq<T> | |y| == 3 && forall i :: 0 <= i < 3 ==> Dot(f, m[i], y, 3) == f.zero
      ensures forall j :: 0 <= j < 3 ==> y[j] == f.zero
    {
      var u, w := Power(f, p, s), Power(f, r, s);
      assert Dot(f, m[0], y, 3) == f.zero && Dot(f, m[1], y, 3) == f.zero && Dot(f, m[2], y, 3) == f.zero;
      DotThree(f, m[0], y);
      DotThree(f, m[1], y);
      DotThree(f, m[2], y);
      MulOne(f, y[0]);
      MulOne(f, y[1]);
      MulOne(f, y[2]);
      LastVanishes(f, y[0], y[1], y[2], u, w);
      FirstVanishes(f, y[0], y[2], u, p, q, f.mul(w, r));
    }
  }
}
