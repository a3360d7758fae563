/** The powers of x in GF(2^n): with a primitive generator they run through every nonzero element
    exactly once before they come back to 1. The log and antilog tables rest on this. */
module Orders {
  import opened Bits
  import opened Galois

  /** x to the power l */
  function XPow(n: nat, g: nat, l: nat): nat {
    if l == 0 then 1 else XTime(n, g, XPow(n, g, l - 1))
  }

  /** a to the power k, by repeated multiplication */
  function GPow(n: nat, g: nat, a: nat, k: nat): nat {
    if k == 0 then 1 else GMul(n, g, GPow(n, g, a, k - 1), a)
  }

  /** x has multiplicative order 2^n - 1. */
  ghost predicate Primitive(n: nat, g: nat) {
    && Gen(n, g)
    && XPow(n, g, Pow2(n) - 1) == 1
    && forall m :: 0 < m < Pow2(n) - 1 ==> XPow(n, g, m) != 1
  }

  lemma {:induction false} XPowBound(n: nat, g: nat, l: nat)
    requires Gen(n, g)
    ensures XPow(n, g, l) < Pow2(n)
  {
    if l == 0 {
      assert Pow2(n) == 2 * Pow2(n - 1);
    } else {
      XPowBound(n, g, l - 1);
      XTimeBound(n, g, XPow(n, g, l - 1));
    }
  }

  lemma {:induction false} XPowSum(n: nat, g: nat, i: nat, j: nat)
    requires Gen(n, g)
    ensures XPow(n, g, i + j) == GMul(n, g, XPow(n, g, i), XPow(n, g, j))
  {
    XPowBound(n, g, i);
    if j == 0 {
      GMulOne(n, g, XPow(n, g, i));
    } else {
      XPowSum(n, g, i, j - 1);
      XPowBound(n, g, j - 1);
      GMulXTimeRight(n, g, XPow(n, g, i), XPow(n, g, j - 1));
    }
  }

  lemma {:induction false} XPowMultiple(n: nat, g: nat, m: nat, k: nat)
    requires Gen(n, g) && XPow(n, g, m) == 1
    ensures XPow(n, g, m * k) == 1
  {
    if k == 0 {
      assert m * k == 0;
    } else {
      XPowMultiple(n, g, m, k - 1);
      assert m * k == m * (k - 1) + m;
      XPowSum(n, g, m * (k - 1), m);
      XPowBound(n, g, 0);
      GMulOne(n, g, 1);
    }
  }

  lemma XPowPeriod(n: nat, g: nat, m: nat, q: nat, r: nat)
    requires Gen(n, g) && XPow(n, g, m) == 1
    ensures XPow(n, g, m * q + r) == XPow(n, g, r)
  {
    hide XPow, GMul, Pow2;
    XPowMultiple(n, g, m, q);
    XPowSum(n, g, m * q, r);
    XPowBound(n, g, r);
    GMulOne(n, g, XPow(n, g, r));
  }

  // ----- an order divides 2^n - 1; checking 2^n - 1 divided by each of its primes is enough

  ghost predicate Prime(p: nat) {
    p >= 2 && forall m :: 2 <= m < p ==> p % m != 0
  }

  function Product(ps: seq<nat>): nat {
    if ps == [] then 1 else ps[0] * Product(ps[1..])
  }

  lemma MulAtLeast(p: nat, d: int)
    requires d >= 1
    ensures p * d >= p
  {
  }

  lemma DivModUnique(p: nat, v: int, q: int, r: int)
    requires p > 0 && v == p * q + r && 0 <= r < p
    ensures v / p == q && v % p == r
  {
    var d := v / p - q;
    assert p * (v / p) + v % p == p * q + r;
    assert p * d == r - v % p;
    if d >= 1 { MulAtLeast(p, d); }
    if d <= -1 { MulAtLeast(p, -d); }
  }

  /** (a - b * d) * k is a multiple of p when a * k and d * k are */
  lemma ReduceFactor(p: int, a: int, b: int, d: int, k: int, u: int, v: int)
    requires a * k == p * u && d * k == p * v
    ensures (a - b * d) * k == p * (u - b * v)
  {
    assert (a - b * d) * k == a * k - b * (d * k);
    assert b * (p * v) == p * (b * v);
  }

  /** Euclid's lemma: a prime that divides h * k divides h or k. */
  lemma {:induction false} Euclid(p: nat, h: nat, k: nat, c: int)
    requires Prime(p) && h * k == p * c
    ensures h % p == 0 || k % p == 0
    decreases if h >= p then h + p else h
  {
    if h >= p {
      ReduceFactor(p, h, h / p, p, k, c, k);
      assert h % p == h - h / p * p;
      Euclid(p, h % p, k, c - h / p * k);
      DivModUnique(p, h % p, 0, h % p);
    } else if h > 1 {
      ReduceFactor(p, p, p / h, h, k, k, c);
      assert p % h == p - p / h * h;
      Euclid(p, p % h, k, k - p / h * c);
      DivModUnique(p, p % h, 0, p % h);
      assert p % h != 0;
    } else if h == 1 {
      DivModUnique(p, k, c, 0);
    }
  }

  lemma FactorOfOne(h: nat, k: nat)
    requires h * k == 1
    ensures h == 1
  {
    if h >= 2 && k >= 1 {
      MulAtLeast(h, k);
    }
  }

  lemma {:induction false} PrimeInFactor(ps: seq<nat>, h: nat, k: nat)
    requires h > 1 && h * k == Product(ps)
    requires forall q :: q in ps ==> Prime(q)
    ensures exists p :: p in ps && p > 0 && h % p == 0
    decreases |ps|
  {
    if ps == [] {
      FactorOfOne(h, k);
    } else {
      var p0, rest := ps[0], Product(ps[1..]);
      Euclid(p0, h, k, rest);
      if h % p0 != 0 {
        var k' := k / p0;
        assert k == p0 * k';
        assert p0 * (h * k') == p0 * rest;
        Cancel(p0, h * k', rest);
        PrimeInFactor(ps[1..], h, k');
        var p :| p in ps[1..] && p > 0 && h % p == 0;
        assert p in ps;
      }
    }
  }

  lemma Cancel(p: nat, a: nat, b: nat)
    requires p > 0 && p * a == p * b
    ensures a == b
  {
    assert p * (a - b) == 0;
  }

  /** The first positive power of x that is 1, given that some power below l is */
  lemma {:induction false} LeastOrder(n: nat, g: nat, l: nat, w: nat) returns (m: nat)
    requires Gen(n, g) && 0 < w <= l && XPow(n, g, w) == 1
    ensures 0 < m <= w && XPow(n, g, m) == 1
    ensures forall k :: 0 < k < m ==> XPow(n, g, k) != 1
    decreases l
  {
    if k :| 0 < k < w && XPow(n, g, k) == 1 {
      m := LeastOrder(n, g, l - 1, k);
    } else {
      m := w;
    }
  }

  lemma FactorSplit(N: nat, m: nat, h: nat, p: nat)
    requires p > 0 && h % p == 0 && h * m == N
    ensures N / p == m * (h / p)
  {
    var h' := h / p;
    assert h == p * h';
    assert N == p * (m * h');
    DivModUnique(p, N, m * h', 0);
  }

  /** x^(N) = 1 and x^(N/p) != 1 for every prime p dividing N = 2^n - 1 make x primitive. */
  lemma PrimitiveByPrimes(n: nat, g: nat, N: nat, ps: seq<nat>)
    requires Gen(n, g) && Product(ps) == N == Pow2(n) - 1
    requires forall p :: p in ps ==> Prime(p)
    requires XPow(n, g, N) == 1
    requires forall p :: p in ps && p > 0 ==> XPow(n, g, N / p) != 1
    ensures Primitive(n, g)
  {
    forall w | 0 < w < N
      ensures XPow(n, g, w) != 1
    {
      if XPow(n, g, w) == 1 {
        NoSmallOrder(n, g, N, ps, w);
      }
    }
  }

  lemma NoSmallOrder(n: nat, g: nat, N: nat, ps: seq<nat>, w: nat)
    requires Gen(n, g) && Product(ps) == N
    requires forall p :: p in ps ==> Prime(p)
    requires XPow(n, g, N) == 1
    requires 0 < w < N && XPow(n, g, w) == 1
    ensures exists p :: p in ps && p > 0 && XPow(n, g, N / p) == 1
  {
    hide XPow, Gen;
    var m := LeastOrder(n, g, N, w);
    var h := OrderDivides(n, g, N, m);
    PrimeInFactor(ps, h, m);
    var p :| p in ps && p > 0 && h % p == 0;
    FactorSplit(N, m, h, p);
    XPowMultiple(n, g, m, h / p);
  }

  lemma OrderDivides(n: nat, g: nat, N: nat, m: nat) returns (h: nat)
    requires Gen(n, g) && XPow(n, g, N) == 1
    requires 0 < m < N && XPow(n, g, m) == 1
    requires forall k :: 0 < k < m ==> XPow(n, g, k) != 1
    ensures h > 1 && h * m == N
  {
    hide *;
    h := N / m;
    assert N == m * h + N % m;
    XPowPeriod(n, g, m, h, N % m);
    if h <= 1 {
      MulAtMost(m, h);
    }
  }

  lemma MulAtMost(m: nat, h: nat)
    requires h <= 1
    ensures m * h <= m
  {
  }
}
