/** How many blocks of a given size a list of files takes, and how that number depends on the size. */
module Ceilings {
  /** The quotient, rounded up */
  function Ceil(a: nat, b: nat): nat
    requires b > 0
  {
    (a + b - 1) / b
  }

  /** It is the least number of pieces of size b that hold a. */
  lemma CeilBounds(a: nat, b: nat, n: nat)
    requires b > 0
    ensures a <= Ceil(a, b) * b < a + b
    ensures Ceil(a, b) <= n <==> a <= n * b
  {
    var c := Ceil(a, b);
    assert a + b - 1 == c * b + (a + b - 1) % b;
    if c <= n {
      assert c * b <= n * b;
    } else {
      assert n * b <= (c - 1) * b == c * b - b;
    }
  }

  /** Bytes in units of four */
  function Quads(size: nat): nat {
    (size + 3) / 4
  }

  function Total(qs: seq<nat>): nat {
    if qs == [] then 0 else Total(qs[..|qs| - 1]) + qs[|qs| - 1]
  }

  /** The number of blocks of a given size that files take */
  function Blocks(qs: seq<nat>, size: nat): nat
    requires size > 0
  {
    if qs == [] then 0 else Blocks(qs[..|qs| - 1], size) + Ceil(qs[|qs| - 1], size)
  }

  function AllQuads(sizes: seq<nat>): (qs: seq<nat>)
    ensures |qs| == |sizes|
  {
    seq(|sizes|, i requires 0 <= i < |sizes| => Quads(sizes[i]))
  }

  /** Counting blocks of 4 * size bytes is counting blocks of size units of four bytes. */
  lemma CeilOfQuads(a: nat, size: nat)
    requires size > 0
    ensures Ceil(Quads(a), size) == Ceil(a, 4 * size)
  {
    hide Ceil;
    var n, m := Ceil(Quads(a), size), Ceil(a, 4 * size);
    CeilBounds(a, 4 * size, n);
    CeilBounds(Quads(a), size, m);
    CeilBounds(Quads(a), size, n);
    CeilBounds(a, 4 * size, m);
    FourTimes(n, size);
    FourTimes(m, size);
    QuadsBound(a, n * size);
    QuadsBound(a, m * size);
  }

  lemma FourTimes(n: nat, size: nat)
    ensures n * (4 * size) == 4 * (n * size)
  {
  }

  lemma QuadsBound(a: nat, k: nat)
    ensures Quads(a) <= k <==> a <= 4 * k
  {
  }

  lemma {:induction false} BlocksOfQuads(sizes: seq<nat>, size: nat)
    requires size > 0
    ensures Blocks(AllQuads(sizes), size) == Blocks(sizes, 4 * size)
  {
    if sizes != [] {
      hide Ceil, Quads;
      var n := |sizes| - 1;
      BlocksOfQuads(sizes[..n], size);
      assert AllQuads(sizes)[..n] == AllQuads(sizes[..n]);
      CeilOfQuads(sizes[n], size);
    }
  }

  /** Larger blocks, fewer of them */
  lemma {:induction false} BlocksDecrease(qs: seq<nat>, s: nat, t: nat)
    requires 0 < s <= t
    ensures Blocks(qs, s) >= Blocks(qs, t)
  {
    if qs != [] {
      hide Ceil;
      var q := qs[|qs| - 1];
      BlocksDecrease(qs[..|qs| - 1], s, t);
      CeilBounds(q, s, 0);
      CeilBounds(q, t, Ceil(q, s));
      Wider(Ceil(q, s), s, t);
    }
  }

  lemma Wider(c: nat, s: nat, t: nat)
    requires s <= t
    ensures c * s <= c * t
  {
  }

  /** The blocks hold all the data, and each file wastes less than one of them. */
  lemma {:induction false} BlocksHold(qs: seq<nat>, s: nat)
    requires s > 0
    ensures Total(qs) <= Blocks(qs, s) * s <= Total(qs) + |qs| * (s - 1)
  {
    if qs != [] {
      hide Ceil;
      var n := |qs| - 1;
      BlocksHold(qs[..n], s);
      CeilBounds(qs[n], s, 0);
      Distribute(Blocks(qs[..n], s), Ceil(qs[n], s), n, s);
    }
  }

  lemma Distribute(a: nat, b: nat, n: nat, s: nat)
    requires s > 0
    ensures (a + b) * s == a * s + b * s && (n + 1) * (s - 1) == n * (s - 1) + (s - 1)
  {
  }

  lemma {:induction false} BlocksAtMost(qs: seq<nat>, s: nat)
    requires s > 0
    ensures Blocks(qs, s) <= Total(qs)
  {
    if qs != [] {
      hide Ceil;
      BlocksAtMost(qs[..|qs| - 1], s);
      CeilBounds(qs[|qs| - 1], s, qs[|qs| - 1]);
      assert qs[|qs| - 1] <= qs[|qs| - 1] * s;
    }
  }

  lemma {:induction false} BlocksOfOne(qs: seq<nat>)
    ensures Blocks(qs, 1) == Total(qs)
  {
    if qs != [] { BlocksOfOne(qs[..|qs| - 1]); }
  }

  /** One block for each file, if the blocks are large enough and no file is empty; never fewer */
  lemma {:induction false} OneEach(qs: seq<nat>, s: nat)
    requires s > 0 && forall i :: 0 <= i < |qs| ==> qs[i] > 0
    ensures Blocks(qs, s) >= |qs|
    ensures (forall i :: 0 <= i < |qs| ==> qs[i] <= s) ==> Blocks(qs, s) == |qs|
  {
    if qs != [] {
      hide Ceil;
      OneEach(qs[..|qs| - 1], s);
      CeilBounds(qs[|qs| - 1], s, 0);
      CeilBounds(qs[|qs| - 1], s, 1);
    }
  }

  // ----- the bounds of the search

  /** At the lower bound there are at least as many blocks as are wanted. */
  lemma LowerBound(qs: seq<nat>, n: nat)
    requires 0 < n <= Total(qs)
    ensures Total(qs) / n > 0 && Blocks(qs, Total(qs) / n) >= n
  {
    var t := Total(qs);
    var s := t / n;
    Quotient(t, n);
    BlocksHold(qs, s);
    var b := Blocks(qs, s);
    hide Blocks, Total;
    if b < n {
      Strict(b, n, s);
    }
  }

  lemma Quotient(t: nat, n: nat)
    requires 0 < n <= t
    ensures t / n > 0 && n * (t / n) <= t < n * (t / n) + n
  {
  }

  lemma Strict(b: nat, n: nat, s: nat)
    requires b < n && s > 0
    ensures b * s < n * s
  {
  }

  /** And at most twice as many and one more for each file */
  lemma NotFar(qs: seq<nat>, n: nat)
    requires 0 < n <= Total(qs)
    ensures Total(qs) / n > 0 && Blocks(qs, Total(qs) / n) < 2 * n + |qs|
  {
    var t := Total(qs);
    var s := t / n;
    Quotient(t, n);
    BlocksHold(qs, s);
    var b := Blocks(qs, s);
    hide Blocks, Total;
    if b >= 2 * n + |qs| {
      Far(b, n, |qs|, s, t);
    }
  }

  lemma Far(b: nat, n: nat, m: nat, s: nat, t: nat)
    requires s > 0 && t < n * s + n && b >= 2 * n + m && n > 0
    ensures b * s > t + m * (s - 1)
  {
    assert b * s >= (2 * n + m) * s;
    assert (2 * n + m) * s == 2 * (n * s) + m * s;
    assert m * (s - 1) == m * s - m;
    assert n * s >= n;
  }

  /** At the upper bound there are at most as many. */
  lemma UpperBound(qs: seq<nat>, n: nat)
    requires |qs| < n <= Total(qs)
    ensures Ceil(Total(qs), n - |qs|) > 0 && Blocks(qs, Ceil(Total(qs), n - |qs|)) <= n
    ensures Total(qs) / n <= Ceil(Total(qs), n - |qs|)
  {
    var t, m := Total(qs), |qs|;
    var u := Ceil(t, n - m);
    CeilBounds(t, n - m, 0);
    assert u > 0;
    BlocksHold(qs, u);
    Quotient(t, n);
    var b := Blocks(qs, u);
    hide Blocks, Total, Ceil;
    if b > n {
      Upper(b, n, m, u, t);
    }
    if t / n > u {
      Smaller(u, t / n, n, m, t);
    }
  }

  lemma Upper(b: nat, n: nat, m: nat, u: nat, t: nat)
    requires m < n && u > 0 && t <= u * (n - m) && b > n
    ensures b * u > t + m * (u - 1)
  {
    Larger(b, n + 1, u);
    assert (n + 1) * u == n * u + u;
    assert u * (n - m) == n * u - m * u;
    assert m * (u - 1) == m * u - m;
  }

  lemma Larger(b: nat, n: nat, u: nat)
    requires b >= n
    ensures b * u >= n * u
  {
  }

  lemma Smaller(u: nat, s: nat, n: nat, m: nat, t: nat)
    requires u < s && m < n && n * s <= t
    ensures u * (n - m) < t
  {
    assert u * (n - m) <= u * n;
    assert u * n < s * n;
  }
}
