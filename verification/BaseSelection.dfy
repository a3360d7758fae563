/** ReedSolomon<Galois16>::SetInput: the base of each input block is a power of x whose exponent is
    relatively prime to 65535. */
module BaseSelection {
  import opened Bits
  import opened Galois
  import opened Orders
  import opened Generators
  import opened GaloisTables
  import opened Coprime
  import opened Fields
  import opened Galois16
  import opened ReedSolomon

  const LIMIT: nat := 65535

  // ----- the greatest common divisor

  ghost predicate Divides(d: nat, a: nat) {
    exists c: nat :: a == d * c
  }

  ghost predicate Common(c: nat, a: nat, b: nat) {
    Divides(c, a) && Divides(c, b)
  }

  /** The common divisors of a and b are the divisors of d. */
  ghost predicate IsGcd(d: nat, a: nat, b: nat) {
    d > 0 && forall c: nat :: Common(c, a, b) <==> Divides(c, d)
  }

  lemma SubtractMultiple(d: nat, e: nat, f: nat, r: nat)
    requires d * e == d * f + r
    ensures exists c: nat :: r == d * c
  {
    assert d * (e - f) == r;
    if e >= f {
      assert r == d * (e - f);
    } else {
      NonNegativeProduct(d, f - e);
      assert r == d * 0;
    }
  }

  lemma NonNegativeProduct(a: nat, b: nat)
    ensures a * b >= 0
  {
  }

  lemma DividesRemainder(d: nat, a: nat, b: nat, q: nat, r: nat)
    requires a == b * q + r && Divides(d, b)
    ensures Divides(d, a) <==> Divides(d, r)
  {
    var c: nat :| b == d * c;
    ProductAssoc(d, c, q);
    if Divides(d, a) {
      var e: nat :| a == d * e;
      SubtractMultiple(d, e, c * q, r);
    }
    if Divides(d, r) {
      var e: nat :| r == d * e;
      AddMultiples(d, c * q, e);
    }
  }

  lemma ProductAssoc(a: nat, b: nat, c: nat)
    ensures a * b * c == a * (b * c)
  {
  }

  lemma AddMultiples(d: nat, e: nat, f: nat)
    ensures Divides(d, d * e + d * f)
  {
    assert d * e + d * f == d * (e + f);
  }

  lemma CommonStep(c: nat, a: nat, b: nat)
    requires b > 0
    ensures Common(c, a, b) <==> Common(c, a % b, b)
    ensures Common(c, b, a) <==> Common(c, b, a % b)
  {
    hide Divides;
    if Divides(c, b) {
      DividesRemainder(c, a, b, a / b, a % b);
    }
  }

  lemma CommonWithZero(c: nat, a: nat)
    ensures Common(c, a, 0) <==> Divides(c, a)
    ensures Common(c, 0, a) <==> Divides(c, a)
  {
    assert 0 == c * 0;
  }

  /** gcd, which answers 0 when either number is 0 */
  method Gcd(a0: nat, b0: nat) returns (d: nat)
    ensures a0 == 0 || b0 == 0 ==> d == 0
    ensures a0 > 0 && b0 > 0 ==> IsGcd(d, a0, b0)
  {
    var a: nat, b: nat := a0, b0;
    if a == 0 || b == 0 {
      return 0;
    }
    hide Common, Divides;
    while a > 0 && b > 0
      invariant a > 0 || b > 0
      invariant forall c: nat :: Common(c, a, b) <==> Common(c, a0, b0)
      decreases a + b
    {
      if a > b {
        forall c: nat ensures Common(c, a, b) <==> Common(c, a % b, b) { CommonStep(c, a, b); }
        a := a % b;
      } else {
        forall c: nat ensures Common(c, a, b) <==> Common(c, a, b % a) { CommonStep(c, b, a); }
        b := b % a;
      }
    }
    forall c: nat ensures Common(c, a, b) <==> Divides(c, a + b) { CommonWithZero(c, a + b); }
    return a + b;
  }

  // ----- which logs are usable

  const PRIMES: seq<nat> := [3, 5, 17, 257]

  lemma PrimesOfLimit()
    ensures DistinctPrimes(PRIMES) && (forall p :: p in PRIMES ==> p > 0)
    ensures Product(PRIMES) == LIMIT && Totient(PRIMES) == 32768
  {
    hide Prime;
    SmallPrimes();
    Product4(3, 5, 17, 257);
    assert PRIMES[1..] == [5, 17, 257] && [5, 17, 257][1..] == [17, 257] && [17, 257][1..] == [257] && [257][1..] == [];
    assert Totient([257]) == 256;
    assert Totient([17, 257]) == 16 * 256;
    assert Totient([5, 17, 257]) == 4 * 16 * 256;
  }

  /** l is relatively prime to 65535. */
  predicate Usable(l: nat) {
    l % 3 != 0 && l % 5 != 0 && l % 17 != 0 && l % 257 != 0
  }

  lemma UsableIsFree(l: nat)
    ensures forall p :: p in PRIMES ==> p > 0
    ensures Usable(l) <==> Free(PRIMES, l)
  {
    assert 3 in PRIMES && 5 in PRIMES && 17 in PRIMES && 257 in PRIMES;
    assert forall p :: p in PRIMES ==> p == 3 || p == 5 || p == 17 || p == 257;
  }

  lemma ModZeroDivides(p: nat, l: nat)
    requires p > 0
    ensures l % p == 0 <==> Divides(p, l)
  {
    if l % p == 0 {
      assert l == p * (l / p);
    } else if Divides(p, l) {
      var c: nat :| l == p * c;
      DivModUnique(p, l, c, 0);
    }
  }

  lemma DivisorOfOne(d: nat)
    ensures Divides(d, 1) <==> d == 1
  {
    if Divides(d, 1) {
      var c: nat :| 1 == d * c;
      FactorOfOne(d, c);
    }
    assert 1 == 1 * 1;
  }

  /** A common divisor above 1 shares a prime with 65535. */
  lemma CommonHasPrime(c: nat, l: nat)
    requires Common(c, LIMIT, l) && c != 1
    ensures !Usable(l)
  {
    PrimesOfLimit();
    UsableIsFree(l);
    hide Product, Usable, Prime;
    var k: nat :| LIMIT == c * k;
    PrimeInFactor(PRIMES, c, k);
    var p :| p in PRIMES && p > 0 && c % p == 0;
    var e: nat :| l == c * e;
    ProductAssoc(p, c / p, e);
    assert c == p * (c / p);
    ModZeroDivides(p, l);
  }

  lemma PrimeIsCommon(p: nat, l: nat)
    requires p in PRIMES && p > 0 && l % p == 0
    ensures Common(p, LIMIT, l)
  {
    ModZeroDivides(p, l);
    ModZeroDivides(p, LIMIT);
  }

  lemma UsableMeansGcdOne(l: nat, d: nat)
    requires l == 0 ==> d == 0
    requires l > 0 ==> IsGcd(d, LIMIT, l)
    ensures d == 1 <==> Usable(l)
  {
    if l > 0 {
      hide Usable, Divides, Common;
      DivisorOfOne(d);
      ModZeroDivides(d, d);
      if d != 1 {
        assert Common(d, LIMIT, l);
        CommonHasPrime(d, l);
      } else {
        NoPrimeCommon(l);
      }
    }
  }

  lemma NoPrimeCommon(l: nat)
    requires IsGcd(1, LIMIT, l)
    ensures Usable(l)
  {
    hide Divides, Common;
    forall p | p == 3 || p == 5 || p == 17 || p == 257
      ensures l % p != 0
    {
      if l % p == 0 {
        PrimeIsCommon(p, l);
        DivisorOfOne(p);
      }
    }
  }

  /** How many usable logs there are below n */
  function UsableBelow(n: nat): nat {
    if n == 0 then 0 else UsableBelow(n - 1) + if Usable(n - 1) then 1 else 0
  }

  lemma {:induction false} UsableBelowIsCount(n: nat)
    ensures forall p :: p in PRIMES ==> p > 0
    ensures UsableBelow(n) == Count(PRIMES, n)
  {
    PrimesOfLimit();
    hide Usable, Free, Product;
    if n > 0 {
      UsableBelowIsCount(n - 1);
      UsableIsFree(n - 1);
    }
  }

  /** There are exactly 32768 of them below 65535. */
  lemma UsableTotal()
    ensures UsableBelow(LIMIT) == 32768
  {
    PrimesOfLimit();
    UsableBelowIsCount(LIMIT);
    CountIsTotient(PRIMES);
  }

  lemma {:induction false} UsableBelowMonotone(m: nat, n: nat)
    requires m <= n
    ensures UsableBelow(m) <= UsableBelow(n)
    decreases n - m
  {
    hide Usable;
    if m < n { UsableBelowMonotone(m, n - 1); }
  }

  lemma UsableEnd()
    ensures !Usable(LIMIT) && Usable(LIMIT + 1) && UsableBelow(LIMIT + 1) == 32768
  {
    UsableTotal();
  }

  // ----- SetInput

  /** base is the power of x whose log is the usable number with exactly i usable numbers below it. */
  ghost predicate IsBase(base: u16, i: nat) {
    exists l: nat :: BaseLog(base, i, l)
  }

  ghost predicate BaseLog(base: u16, i: nat, l: nat) {
    l < LIMIT && Usable(l) && UsableBelow(l) == i && base == XPow(16, G16, l)
  }

  /** The bases of the blocks, in order */
  ghost predicate Bases(bases: seq<u16>) {
    forall i :: 0 <= i < |bases| ==> IsBase(bases[i], i)
  }

  /** Move logbase up to the next usable number. */
  method NextLog(start: nat) returns (logbase: nat)
    requires start <= LIMIT + 1
    ensures start <= logbase <= LIMIT + 1
    ensures Usable(logbase) && UsableBelow(logbase) == UsableBelow(start)
  {
    hide Usable;
    logbase := start;
    UsableEnd();
    var d := Gcd(LIMIT, logbase);
    UsableMeansGcdOne(logbase, d);
    while d != 1
      invariant start <= logbase <= LIMIT + 1
      invariant UsableBelow(logbase) == UsableBelow(start)
      invariant d == 1 <==> Usable(logbase)
      decreases LIMIT + 1 - logbase
    {
      logbase := logbase + 1;
      d := Gcd(LIMIT, logbase);
      UsableMeansGcdOne(logbase, d);
    }
  }

  /** SetInput: succeeds for at most 32768 blocks; the base of a block depends on its index alone. */
  method SetInput(rs: ReedSolomon<u16>, table: GaloisTable, present: seq<bool>) returns (ok: bool)
    requires rs.Unset() && rs.present == []
    requires table.Valid() && table.bits == 16 && table.generator == G16
    modifies rs`inputcount, rs`database, rs`datapresent, rs`datapresentindex, rs`datamissing, rs`datamissingindex,
             rs`present
    ensures ok <==> |present| <= 32768
    ensures ok ==> rs.InputsValid() && rs.present == present
    ensures ok ==> forall i :: 0 <= i < |present| ==> IsBase(rs.database[i], i)
  {
    hide Usable, XPow, UsableBelow, BaseLog, IsBase, Indexes, Primitive, Gen, Pow2, Filled;
    NoIndexes(rs.present);
    NoIndexes(present);
    rs.inputcount := |present|;
    var logbase := 0;
    NoneBelow();
    UsableEnd();
    assert present[..0] == [];
    for index := 0 to |present|
      invariant logbase <= LIMIT && UsableBelow(logbase) == index <= 32768
      invariant |rs.database| == index && rs.inputcount == |present|
      invariant rs.datapresentindex == Indexes(present, true, index) && rs.datapresent == |rs.datapresentindex|
      invariant rs.datamissingindex == Indexes(present, false, index) && rs.datamissing == |rs.datamissingindex|
      invariant forall i :: 0 <= i < index ==> IsBase(rs.database[i], i)
    {
      NextIndexes(present, index);
      if present[index] {
        rs.datapresentindex := rs.datapresentindex + [index];
        rs.datapresent := rs.datapresent + 1;
      } else {
        rs.datamissingindex := rs.datamissingindex + [index];
        rs.datamissing := rs.datamissing + 1;
      }
      logbase := NextLog(logbase);
      if logbase >= LIMIT {
        LastLog(logbase);
        return false;
      }
      Setting();
      var base := table.ALog(logbase);
      FoundBase(base, index, logbase);
      rs.database := rs.database + [base];
      logbase := logbase + 1;
    }
    rs.present := present;
    return true;
  }

  lemma NoIndexes(present: seq<bool>)
    ensures Indexes(present, true, 0) == [] && Indexes(present, false, 0) == []
  {
  }

  lemma NextIndexes(present: seq<bool>, n: nat)
    requires n < |present|
    ensures Indexes(present, present[n], n + 1) == Indexes(present, present[n], n) + [n]
    ensures Indexes(present, !present[n], n + 1) == Indexes(present, !present[n], n)
  {
  }

  lemma NoneBelow()
    ensures UsableBelow(0) == 0
  {
  }

  lemma LastLog(l: nat)
    requires l == LIMIT || l == LIMIT + 1
    ensures UsableBelow(l) == 32768
  {
    UsableTotal();
    UsableEnd();
  }

  lemma FoundBase(base: nat, i: nat, l: nat)
    requires l < LIMIT && Usable(l) && UsableBelow(l) == i && base == XPow(16, G16, l)
    ensures base < 65536 && IsBase(base, i) && UsableBelow(l + 1) == i + 1 && i < 32768
  {
    hide XPow, Primitive, Gen, Pow2;
    Setting();
    XPowBound(16, G16, l);
    UsableTotal();
    UsableBelowMonotone(l + 1, LIMIT);
    hide Usable;
    assert BaseLog(base, i, l);
  }

  function AllTrue(n: nat): (s: seq<bool>)
    ensures |s| == n && forall i :: 0 <= i < n ==> s[i]
  {
    seq(n, _ => true)
  }

  /** The overload of SetInput for blocks that are all present */
  method SetInputCount(rs: ReedSolomon<u16>, table: GaloisTable, count: nat) returns (ok: bool)
    requires rs.Unset() && rs.present == []
    requires table.Valid() && table.bits == 16 && table.generator == G16
    modifies rs`inputcount, rs`database, rs`datapresent, rs`datapresentindex, rs`datamissing, rs`datamissingindex,
             rs`present
    ensures ok <==> count <= 32768
    ensures ok ==> rs.InputsValid() && rs.present == AllTrue(count) && rs.datamissing == 0
    ensures ok ==> forall i :: 0 <= i < count ==> IsBase(rs.database[i], i)
  {
    ok := SetInput(rs, table, AllTrue(count));
    AllPresent(AllTrue(count), count);
  }

  lemma {:induction false} AllPresent(present: seq<bool>, n: nat)
    requires n <= |present| && forall i :: 0 <= i < n ==> present[i]
    ensures Indexes(present, false, n) == []
  {
    if n > 0 { AllPresent(present, n - 1); }
  }

  // ----- what makes the bases fit for a Vandermonde matrix

  /** Between two usable logs with different counts there is a strict order. */
  lemma LogOrder(a: u16, i: nat, l: nat, b: u16, j: nat, m: nat)
    requires BaseLog(a, i, l) && BaseLog(b, j, m)
    ensures i == j <==> l == m
    ensures i < j <==> l < m
  {
    hide Usable, XPow;
    if l < m { UsableBelowMonotone(l + 1, m); }
    if m < l { UsableBelowMonotone(m + 1, l); }
  }

  /** Block i has one base, whatever the call that chose it; different blocks have different bases; none is 0. */
  lemma BasesDistinct(a: u16, i: nat, b: u16, j: nat)
    requires IsBase(a, i) && IsBase(b, j)
    ensures a == b <==> i == j
    ensures a != 0
  {
    hide XPow, BaseLog;
    var l: nat :| BaseLog(a, i, l);
    var m: nat :| BaseLog(b, j, m);
    LogOrder(a, i, l, b, j, m);
    BaseIsPower(a, i, l);
    BaseIsPower(b, j, m);
    Setting();
    XPowNonzero(16, G16, l);
    if l < m { XPowInjective(16, G16, l, m); }
    if m < l { XPowInjective(16, G16, m, l); }
  }

  lemma BaseIsPower(a: u16, i: nat, l: nat)
    requires BaseLog(a, i, l)
    ensures a == XPow(16, G16, l) && l < LIMIT && Usable(l)
  {
  }

  /** The primes of the limit go into m when they go into l * m and none goes into l. */
  lemma {:induction false} CoprimeFactor(ps: seq<nat>, l: nat, m: nat, c: nat)
    requires (forall p :: p in ps ==> Prime(p)) && (forall p :: p in ps ==> p > 0) && Free(ps, l)
    requires l * m == Product(ps) * c
    ensures exists k: nat :: m == Product(ps) * k
    decreases |ps|
  {
    hide Prime;
    if ps == [] {
      assert m == Product(ps) * m;
    } else {
      var p, rest := ps[0], Product(ps[1..]);
      ProductAssoc(p, rest, c);
      var k := CoprimeStep(p, rest * c, l, m);
      assert forall q :: q in ps[1..] ==> q in ps;
      CoprimeFactor(ps[1..], l, k, c);
      var d: nat :| k == rest * d;
      ProductAssoc(p, rest, d);
    }
  }

  lemma CoprimeStep(p: nat, e: nat, l: nat, m: nat) returns (k: nat)
    requires Prime(p) && p > 0 && l % p != 0 && l * m == p * e
    ensures m == p * k && l * k == e
  {
    hide Prime;
    Euclid(p, l, m, e);
    k := m / p;
    assert m == p * k;
    SwapFactors(l, p, k);
    Cancel(p, l * k, e);
  }

  lemma SwapFactors(a: nat, b: nat, c: nat)
    ensures a * (b * c) == b * (a * c)
  {
  }

  /** x^(l m) = 1 exactly when 65535 divides l m. */
  lemma OrderOfX(e: nat)
    ensures XPow(16, G16, e) == 1 <==> e % LIMIT == 0
  {
    Setting();
    PrimitiveOne(16, G16);
    XPowPeriod(16, G16, LIMIT, e / LIMIT, e % LIMIT);
    assert e == LIMIT * (e / LIMIT) + e % LIMIT;
    assert 0 < e % LIMIT < LIMIT ==> XPow(16, G16, e % LIMIT) != 1;
    XPowZero(16, G16);
  }

  /** Each base has multiplicative order 65535. */
  lemma BaseOrder(a: u16, i: nat, m: nat)
    requires IsBase(a, i)
    ensures Power(GF16(), a, m) == 1 <==> m % LIMIT == 0
  {
    hide XPow, Usable, Product, Free, Power;
    var l: nat :| BaseLog(a, i, l);
    Setting();
    PowerIsGPow(a, m);
    GPowIsXPow(16, G16, l, m);
    OrderOfX(l * m);
    FactorOrder(l, m);
  }

  /** 65535 divides l m exactly when it divides m, for a usable l. */
  lemma FactorOrder(l: nat, m: nat)
    requires Usable(l)
    ensures l * m >= 0 && ((l * m) % LIMIT == 0 <==> m % LIMIT == 0)
  {
    hide Usable, Product, Free;
    NonNegativeProduct(l, m);
    if (l * m) % LIMIT == 0 {
      MultipleOf(l * m);
      PrimesOfLimit();
      UsableIsFree(l);
      CoprimeFactor(PRIMES, l, m, (l * m) / LIMIT);
      var k: nat :| m == LIMIT * k;
      DivModUnique(LIMIT, m, k, 0);
    }
    if m % LIMIT == 0 {
      MultipleOf(m);
      SwapFactors(l, LIMIT, m / LIMIT);
      DivModUnique(LIMIT, l * m, l * (m / LIMIT), 0);
    }
  }

  lemma MultipleOf(m: nat)
    requires m % LIMIT == 0
    ensures m == LIMIT * (m / LIMIT)
  {
  }
}
