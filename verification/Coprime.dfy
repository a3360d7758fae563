/** Counting the numbers that no prime of a list divides. */
module Coprime {
  import opened Orders

  predicate Free(ps: seq<nat>, l: nat)
    requires forall p :: p in ps ==> p > 0
  {
    forall p :: p in ps ==> l % p != 0
  }

  /** How many numbers below n are free */
  function Count(ps: seq<nat>, n: nat): nat
    requires forall p :: p in ps ==> p > 0
  {
    if n == 0 then 0 else Count(ps, n - 1) + if Free(ps, n - 1) then 1 else 0
  }

  /** How many free numbers below n are multiples of q */
  function CountMultiples(ps: seq<nat>, q: nat, n: nat): nat
    requires q > 0 && forall p :: p in ps ==> p > 0
  {
    if n == 0 then 0 else CountMultiples(ps, q, n - 1) + if Free(ps, n - 1) && (n - 1) % q == 0 then 1 else 0
  }

  ghost predicate DistinctPrimes(ps: seq<nat>) {
    && (forall p :: p in ps ==> Prime(p))
    && (forall i, j :: 0 <= i < j < |ps| ==> ps[i] != ps[j])
  }

  lemma {:induction false} DividesProduct(ps: seq<nat>, p: nat)
    requires p in ps && p > 0
    ensures exists c: nat :: Product(ps) == p * c
  {
    if ps[0] == p {
      assert Product(ps) == p * Product(ps[1..]);
    } else {
      DividesProduct(ps[1..], p);
      var c: nat :| Product(ps[1..]) == p * c;
      assert Product(ps) == p * (ps[0] * c);
    }
  }

  lemma RemainderPeriod(ps: seq<nat>, m: nat, k: nat, l: nat, p: nat)
    requires p in ps && p > 0 && m == Product(ps)
    ensures (m * k + l) % p == l % p
  {
    DividesProduct(ps, p);
    var c: nat :| m == p * c;
    hide *;
    assert m * k == p * (c * k);
    AddMultiple(p, c * k, l);
  }

  /** Adding a multiple of the product changes nothing. */
  lemma FreePeriod(ps: seq<nat>, m: nat, k: nat, l: nat)
    requires (forall p :: p in ps ==> p > 0) && m == Product(ps)
    ensures Free(ps, m * k + l) == Free(ps, l)
  {
    hide Product;
    var n := m * k + l;
    forall p | p in ps
      ensures n % p == l % p
    {
      RemainderPeriod(ps, m, k, l, p);
    }
  }

  lemma AddMultiple(p: nat, c: nat, l: nat)
    requires p > 0
    ensures (p * c + l) % p == l % p
  {
    assert l == p * (l / p) + l % p;
    assert p * c + l == p * (c + l / p) + l % p;
    DivModUnique(p, p * c + l, c + l / p, l % p);
  }

  lemma {:induction false} CountShift(ps: seq<nat>, m: nat, k: nat, l: nat)
    requires (forall p :: p in ps ==> p > 0) && m == Product(ps)
    ensures Count(ps, m * k + l) == Count(ps, m * k) + Count(ps, l)
  {
    hide Free;
    if l > 0 {
      CountShift(ps, m, k, l - 1);
      FreePeriod(ps, m, k, l - 1);
      assert m * k + l - 1 == m * k + (l - 1);
    }
  }

  lemma {:induction false} CountPeriod(ps: seq<nat>, m: nat, k: nat)
    requires (forall p :: p in ps ==> p > 0) && m == Product(ps)
    ensures Count(ps, m * k) == k * Count(ps, m)
  {
    hide Count, Product;
    if k > 0 {
      CountPeriod(ps, m, k - 1);
      CountShift(ps, m, k - 1, m);
      assert m * k == m * (k - 1) + m;
      assert k * Count(ps, m) == (k - 1) * Count(ps, m) + Count(ps, m);
    } else {
      assert m * k == 0;
      CountNone(ps);
    }
  }

  lemma CountNone(ps: seq<nat>)
    requires forall p :: p in ps ==> p > 0
    ensures Count(ps, 0) == 0
  {
  }

  /** Multiplying by another prime changes nothing. */
  lemma FreeTimes(ps: seq<nat>, q: nat, k: nat)
    requires DistinctPrimes(ps) && Prime(q) && q !in ps
    ensures Free(ps, q * k) == Free(ps, k)
  {
    forall p | p in ps
      ensures (q * k) % p == 0 <==> k % p == 0
    {
      PrimeTimes(p, q, k);
    }
  }

  lemma PrimeTimes(p: nat, q: nat, k: nat)
    requires Prime(p) && Prime(q) && p != q
    ensures (q * k) % p == 0 <==> k % p == 0
  {
    if (q * k) % p == 0 {
      var c := (q * k) / p;
      assert q * k == p * c;
      Euclid(p, q, k, c);
      if q % p == 0 { PrimeDivisor(p, q); }
    }
    if k % p == 0 {
      var c := k / p;
      assert k == p * c;
      assert q * k == p * (q * c);
      DivModUnique(p, q * k, q * c, 0);
    }
  }

  lemma PrimeDivisor(p: nat, q: nat)
    requires Prime(p) && Prime(q) && q % p == 0
    ensures p == q
  {
    if p > q {
      DivModUnique(p, q, 0, q);
    }
  }

  /** Between two multiples of q there is no other. */
  lemma {:induction false} CountBetween(ps: seq<nat>, q: nat, k: nat, l: nat)
    requires q > 0 && (forall p :: p in ps ==> p > 0) && 1 <= l <= q
    ensures CountMultiples(ps, q, q * k + l) == CountMultiples(ps, q, q * k) + if Free(ps, q * k) then 1 else 0
    decreases l
  {
    hide Free;
    if l == 1 {
      DivModUnique(q, q * k, k, 0);
    } else {
      CountBetween(ps, q, k, l - 1);
      DivModUnique(q, q * k + (l - 1), k, l - 1);
      assert q * k + l - 1 == q * k + (l - 1);
    }
  }

  lemma {:induction false} CountMultiplesScaled(ps: seq<nat>, q: nat, k: nat)
    requires DistinctPrimes(ps) && Prime(q) && q !in ps && q > 0 && (forall p :: p in ps ==> p > 0)
    ensures CountMultiples(ps, q, q * k) == Count(ps, k)
  {
    if k == 0 {
      assert q * k == 0;
    } else {
      hide Free, CountMultiples, DistinctPrimes, Prime;
      CountMultiplesScaled(ps, q, k - 1);
      CountBetween(ps, q, k - 1, q);
      assert q * k == q * (k - 1) + q;
      FreeTimes(ps, q, k - 1);
    }
  }

  lemma FreeExtend(ps: seq<nat>, q: nat, l: nat)
    requires q > 0 && forall p :: p in ps ==> p > 0
    ensures forall p :: p in [q] + ps ==> p > 0
    ensures Free([q] + ps, l) <==> Free(ps, l) && l % q != 0
  {
    var qs := [q] + ps;
    assert q in qs;
    assert forall p :: p in ps ==> p in qs;
    assert forall p :: p in qs ==> p == q || p in ps;
  }

  lemma {:induction false} CountSplit(ps: seq<nat>, q: nat, n: nat)
    requires q > 0 && forall p :: p in ps ==> p > 0
    ensures Count([q] + ps, n) + CountMultiples(ps, q, n) == Count(ps, n)
  {
    hide Free;
    if n > 0 {
      CountSplit(ps, q, n - 1);
      FreeExtend(ps, q, n - 1);
    }
  }

  function Totient(ps: seq<nat>): int {
    if ps == [] then 1 else (ps[0] - 1) * Totient(ps[1..])
  }

  lemma CountWithPrime(ps: seq<nat>, q: nat, m: nat)
    requires DistinctPrimes(ps) && Prime(q) && q !in ps && q > 0 && (forall p :: p in ps ==> p > 0) && m == Product(ps)
    ensures Count([q] + ps, q * m) == (q - 1) * Count(ps, m)
  {
    hide *;
    CountSplit(ps, q, q * m);
    CountPeriod(ps, m, q);
    assert m * q == q * m;
    CountMultiplesScaled(ps, q, m);
    assert (q - 1) * Count(ps, m) == q * Count(ps, m) - Count(ps, m);
  }

  /** Euler's totient of a product of distinct primes */
  lemma {:induction false} CountIsTotient(ps: seq<nat>)
    requires DistinctPrimes(ps)
    ensures Count(ps, Product(ps)) == Totient(ps)
    decreases |ps|
  {
    if ps == [] {
      assert Free([], 0);
      assert Count([], 1) == 1;
    } else {
      var q, rest := ps[0], ps[1..];
      assert ps == [q] + rest;
      CountIsTotient(rest);
      CountWithPrime(rest, q, Product(rest));
    }
  }
}
