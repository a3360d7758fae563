/** The log and antilog tables, and the operators of Galois<bits, generator, valuetype> that use them. */
module GaloisTables {
  import opened Bits
  import opened Galois
  import opened Orders

  // ----- the powers of x are all the nonzero elements

  lemma Inverse(n: nat, g: nat, i: nat)
    requires Primitive(n, g) && i < Pow2(n) - 1
    ensures GMul(n, g, XPow(n, g, i), XPow(n, g, Pow2(n) - 1 - i)) == 1
  {
    XPowSum(n, g, i, Pow2(n) - 1 - i);
  }

  lemma XPowNonzero(n: nat, g: nat, i: nat)
    requires Primitive(n, g) && i < Pow2(n) - 1
    ensures XPow(n, g, i) != 0
  {
    Inverse(n, g, i);
    GMulZero(n, g, XPow(n, g, Pow2(n) - 1 - i));
  }

  /** A power of x past the limit is the power with the limit taken off. */
  lemma XPowWrap(n: nat, g: nat, l: nat)
    requires Primitive(n, g)
    ensures XPow(n, g, l + (Pow2(n) - 1)) == XPow(n, g, l)
  {
    XPowPeriod(n, g, Pow2(n) - 1, 1, l);
  }

  lemma PrimitiveGen(n: nat, g: nat)
    requires Primitive(n, g)
    ensures Gen(n, g)
  {
  }

  lemma XPowQuotient(n: nat, g: nat, i: nat, j: nat)
    requires Primitive(n, g) && i < j < Pow2(n) - 1 && XPow(n, g, i) == XPow(n, g, j)
    ensures XPow(n, g, j - i) == 1
  {
    hide XPow, GMul, Primitive, Pow2;
    var k := Pow2(n) - 1 - i;
    PrimitiveGen(n, g);
    Inverse(n, g, i);
    XPowSum(n, g, j, k);
    assert j + k == j - i + (Pow2(n) - 1);
    XPowWrap(n, g, j - i);
  }

  lemma XPowInjective(n: nat, g: nat, i: nat, j: nat)
    requires Primitive(n, g) && i < j < Pow2(n) - 1
    ensures XPow(n, g, i) != XPow(n, g, j)
  {
    hide XPow;
    if XPow(n, g, i) == XPow(n, g, j) {
      XPowQuotient(n, g, i, j);
    }
  }

  ghost function PowersOfX(n: nat, g: nat, k: nat): set<nat> {
    if k == 0 then {} else PowersOfX(n, g, k - 1) + {XPow(n, g, k - 1)}
  }

  lemma {:induction false} PowersIndex(n: nat, g: nat, k: nat, a: nat) returns (l: nat)
    requires a in PowersOfX(n, g, k)
    ensures l < k && XPow(n, g, l) == a
  {
    hide XPow;
    if a == XPow(n, g, k - 1) {
      l := k - 1;
    } else {
      l := PowersIndex(n, g, k - 1, a);
    }
  }

  lemma {:induction false} PowersCount(n: nat, g: nat, k: nat)
    requires Primitive(n, g) && k <= Pow2(n) - 1
    ensures |PowersOfX(n, g, k)| == k
  {
    hide XPow, Primitive;
    if k > 0 {
      PowersCount(n, g, k - 1);
      if XPow(n, g, k - 1) in PowersOfX(n, g, k - 1) {
        var l := PowersIndex(n, g, k - 1, XPow(n, g, k - 1));
        XPowInjective(n, g, l, k - 1);
      }
    }
  }

  ghost function Range(k: nat): (s: set<nat>)
    ensures |s| == k && forall a :: a in s <==> 1 <= a <= k
  {
    if k == 0 then {} else Range(k - 1) + {k}
  }

  lemma SubsetFull(s: set<nat>, t: set<nat>)
    requires s <= t && |s| == |t|
    ensures s == t
  {
    if a :| a in t && a !in s {
      assert s <= t - {a};
      CardMonotone(s, t - {a});
    }
  }

  lemma {:induction false} CardMonotone(s: set<nat>, t: set<nat>)
    requires s <= t
    ensures |s| <= |t|
    decreases s
  {
    if a :| a in s {
      CardMonotone(s - {a}, t - {a});
    }
  }

  /** Every nonzero element is a power of x below 2^n - 1; by XPowInjective of exactly one. */
  lemma LogExists(n: nat, g: nat, a: nat) returns (l: nat)
    requires Primitive(n, g) && 0 < a < Pow2(n)
    ensures l < Pow2(n) - 1 && XPow(n, g, l) == a
  {
    hide XPow;
    var N := Pow2(n) - 1;
    PowersCount(n, g, N);
    forall b | b in PowersOfX(n, g, N)
      ensures b in Range(N)
    {
      var i := PowersIndex(n, g, N, b);
      XPowBound(n, g, i);
      XPowNonzero(n, g, i);
    }
    SubsetFull(PowersOfX(n, g, N), Range(N));
    assert a in Range(N);
    l := PowersIndex(n, g, N, a);
  }

  lemma {:induction false} GPowIsXPow(n: nat, g: nat, l: nat, k: nat)
    requires Gen(n, g)
    ensures GPow(n, g, XPow(n, g, l), k) == XPow(n, g, l * k)
  {
    hide XPow;
    if k == 0 {
      assert l * k == 0;
      assert XPow(n, g, 0) == 1 by { XPowZero(n, g); }
    } else {
      GPowIsXPow(n, g, l, k - 1);
      assert l * k == l * (k - 1) + l;
      XPowSum(n, g, l * (k - 1), l);
    }
  }

  lemma XPowZero(n: nat, g: nat)
    ensures XPow(n, g, 0) == 1
  {
  }

  lemma {:induction false} GPowZero(n: nat, g: nat, k: nat)
    requires Gen(n, g) && k > 0
    ensures GPow(n, g, 0, k) == 0
  {
    if k == 1 {
      XPowBound(n, g, 0);
      GMulComm(n, g, 1, 0);
      GMulZero(n, g, 1);
    } else {
      GPowZero(n, g, k - 1);
      GMulZero(n, g, 0);
    }
  }

  // ----- the tables

  /** The tables after l steps of the constructor's loop */
  ghost predicate Filled(n: nat, g: nat, log: seq<nat>, antilog: seq<nat>, l: nat) {
    && |log| == |antilog| == Pow2(n) && l < Pow2(n)
    && (forall i :: 0 <= i < l ==> antilog[i] == XPow(n, g, i) && 0 < antilog[i] < |log|)
    && (forall i :: 0 <= i < l ==> log[antilog[i]] == i)
  }

  lemma FillStep(n: nat, g: nat, log: seq<nat>, antilog: seq<nat>, l: nat, b: nat)
    requires Primitive(n, g) && l < Pow2(n) - 1 && Filled(n, g, log, antilog, l) && b == XPow(n, g, l)
    ensures 0 < b < |log| && Filled(n, g, log[b := l], antilog[l := b], l + 1)
  {
    hide Primitive, XPow, Pow2;
    PrimitiveGen(n, g);
    XPowBound(n, g, l);
    XPowNonzero(n, g, l);
    forall i | 0 <= i < l
      ensures antilog[i] != b
    {
      XPowInjective(n, g, i, l);
    }
  }

  lemma NothingFilled(n: nat, g: nat, log: seq<nat>, antilog: seq<nat>)
    requires |log| == |antilog| == Pow2(n)
    ensures Filled(n, g, log, antilog, 0)
  {
  }

  /** The places that the loop leaves over can be put to another use. */
  lemma FilledEnd(n: nat, g: nat, log: seq<nat>, antilog: seq<nat>)
    requires Filled(n, g, log, antilog, Pow2(n) - 1)
    ensures |log| == |antilog| == Pow2(n)
    ensures Filled(n, g, log[0 := Pow2(n) - 1], antilog[Pow2(n) - 1 := 0], Pow2(n) - 1)
  {
    hide XPow, Pow2;
  }

  lemma FilledLog(n: nat, g: nat, log: seq<nat>, antilog: seq<nat>, a: nat)
    requires Primitive(n, g) && Filled(n, g, log, antilog, Pow2(n) - 1) && 0 < a < Pow2(n)
    ensures log[a] < Pow2(n) - 1 && antilog[log[a]] == XPow(n, g, log[a]) == a
  {
    hide Primitive, XPow, Pow2;
    var l := LogExists(n, g, a);
    assert antilog[l] == a;
  }

  lemma XPowNext(n: nat, g: nat, l: nat)
    requires Primitive(n, g)
    ensures XPow(n, g, 0) == 1
    ensures XPow(n, g, l + 1) == if 2 * XPow(n, g, l) >= Pow2(n) then Xor(2 * XPow(n, g, l), g) else 2 * XPow(n, g, l)
  {
  }

  /** Reading antilog where the operators read it */
  lemma AntilogAt(n: nat, g: nat, log: seq<nat>, antilog: seq<nat>, l: nat)
    requires Primitive(n, g) && Filled(n, g, log, antilog, Pow2(n) - 1) && l < 2 * (Pow2(n) - 1)
    ensures var limit := Pow2(n) - 1;
            (if l >= limit then antilog[l - limit] else antilog[l]) == XPow(n, g, l) < Pow2(n)
  {
    hide Primitive, XPow, Pow2;
    PrimitiveGen(n, g);
    XPowBound(n, g, l);
    if l >= Pow2(n) - 1 {
      XPowWrap(n, g, l - (Pow2(n) - 1));
    }
  }

  lemma FilledSize(n: nat, g: nat, log: seq<nat>, antilog: seq<nat>, l: nat)
    requires Filled(n, g, log, antilog, l)
    ensures |log| == |antilog| == Pow2(n)
  {
  }

  lemma MulByLogs(n: nat, g: nat, log: seq<nat>, antilog: seq<nat>, a: nat, b: nat)
    requires Primitive(n, g) && Filled(n, g, log, antilog, Pow2(n) - 1) && a < Pow2(n) && b < Pow2(n)
    ensures a == 0 || b == 0 ==> GMul(n, g, a, b) == 0
    ensures a != 0 && b != 0 ==>
              var limit, sum := Pow2(n) - 1, log[a] + log[b];
              log[a] < limit && log[b] < limit &&
              (if sum >= limit then antilog[sum - limit] else antilog[sum]) == GMul(n, g, a, b) < Pow2(n)
  {
    hide Primitive, XPow, Pow2, Filled;
    FilledSize(n, g, log, antilog, Pow2(n) - 1);
    PrimitiveGen(n, g);
    GMulZero(n, g, b);
    GMulComm(n, g, a, b);
    if a != 0 && b != 0 {
      FilledLog(n, g, log, antilog, a);
      FilledLog(n, g, log, antilog, b);
      XPowSum(n, g, log[a], log[b]);
      AntilogAt(n, g, log, antilog, log[a] + log[b]);
    }
  }

  lemma DivByLogs(n: nat, g: nat, log: seq<nat>, antilog: seq<nat>, a: nat, b: nat)
    requires Primitive(n, g) && Filled(n, g, log, antilog, Pow2(n) - 1) && a < Pow2(n) && b < Pow2(n)
    ensures GMul(n, g, 0, b) == 0
    ensures a != 0 && b != 0 ==>
              var limit: nat, sum: int := Pow2(n) - 1, log[a] as int - log[b];
              log[a] < limit && log[b] < limit &&
              var r := if sum < 0 then antilog[sum + limit] else antilog[sum];
              r < Pow2(n) && GMul(n, g, r, b) == a
  {
    hide Primitive, XPow, Pow2, Filled;
    FilledSize(n, g, log, antilog, Pow2(n) - 1);
    PrimitiveGen(n, g);
    GMulZero(n, g, b);
    if a != 0 && b != 0 {
      FilledLog(n, g, log, antilog, a);
      FilledLog(n, g, log, antilog, b);
      var l: int := log[a] as int - log[b];
      if l < 0 {
        AntilogAt(n, g, log, antilog, l + (Pow2(n) - 1));
        XPowSum(n, g, l + (Pow2(n) - 1), log[b]);
        XPowWrap(n, g, log[a]);
        assert log[a] + (Pow2(n) - 1) == l + (Pow2(n) - 1) + log[b];
      } else {
        AntilogAt(n, g, log, antilog, l);
        XPowSum(n, g, l, log[b]);
      }
    }
  }

  lemma FoldSum(count: nat, h: nat, l: nat)
    requires count >= 1
    ensures (count - 1) * h + (h + l) == count * h + l
  {
  }

  /** The shift and mask of pow take off whole multiples of the limit. */
  lemma FoldProduct(n: nat, g: nat, p: nat, high: nat, low: nat)
    requires Primitive(n, g) && p == Pow2(n) * high + low
    ensures XPow(n, g, p) == XPow(n, g, high + low)
  {
    hide Primitive, XPow, Pow2;
    FoldSum(Pow2(n), high, low);
    PrimitiveGen(n, g);
    PrimitiveOne(n, g);
    XPowPeriod(n, g, Pow2(n) - 1, high, high + low);
  }

  lemma PrimitiveOne(n: nat, g: nat)
    requires Primitive(n, g)
    ensures XPow(n, g, Pow2(n) - 1) == 1
  {
  }

  lemma MulLe(a: nat, b: nat, c: nat)
    requires b <= c
    ensures a * b <= a * c
  {
  }

  lemma QuotientLess(p: nat, c: nat, d: nat)
    requires c > 0 && p < c * d
    ensures p / c < d
  {
    if p / c >= d { MulLe(c, d, p / c); }
  }

  /** The product in pow fits 32 bits, and its two halves add up to less than twice the limit. */
  lemma ProductFits(count: nat, l: nat, k: nat)
    requires 2 <= count <= 0x10000 && l < count - 1 && k <= count - 1
    ensures l * k < 0x1_0000_0000
    ensures (l * k) / count + (l * k) % count < 2 * (count - 1)
  {
    MulLe(l, k, count - 1);
    MulLe(count - 1, l, count - 2);
    MulLe(count - 1, count - 2, 0xFFFE);
    ProductSwap(count, l, l * k);
    QuotientLess(l * k, count, count - 1);
  }

  lemma ProductSwap(count: nat, l: nat, p: nat)
    requires count >= 2 && p <= l * (count - 1) && (count - 1) * l <= (count - 1) * (count - 2)
    ensures p < count * (count - 1)
  {
  }

  lemma GPowNone(n: nat, g: nat, a: nat)
    ensures GPow(n, g, a, 0) == 1
  {
  }

  /** The sum that pow looks up: the 32-bit product of a log and an exponent, its high part
      (sum >> Bits) added to its low part (sum & Limit) */
  function Folded(n: nat, l: nat, k: nat): nat {
    var product := (l * k) % 0x1_0000_0000;
    product / Pow2(n) + product % Pow2(n)
  }

  lemma PowByLogs(n: nat, g: nat, log: seq<nat>, antilog: seq<nat>, a: nat, k: nat)
    requires Primitive(n, g) && Filled(n, g, log, antilog, Pow2(n) - 1)
    requires a < Pow2(n) && k <= Pow2(n) - 1 && n <= 16
    ensures GPow(n, g, a, 0) == 1 && 1 < Pow2(n)
    ensures k > 0 ==> GPow(n, g, 0, k) == 0
    ensures a != 0 ==>
              var limit := Pow2(n) - 1;
              log[a] < limit &&
              var sum := Folded(n, log[a], k);
              sum < 2 * limit &&
              (if sum >= limit then antilog[sum - limit] else antilog[sum]) == GPow(n, g, a, k) < Pow2(n)
  {
    hide Primitive, XPow, Filled, Pow2, GPow;
    FilledSize(n, g, log, antilog, Pow2(n) - 1);
    PrimitiveGen(n, g);
    GPowNone(n, g, a);
    XPowBound(n, g, 0);
    XPowZero(n, g);
    if k > 0 { GPowZero(n, g, k); }
    if a != 0 {
      FilledLog(n, g, log, antilog, a);
      GPowIsXPow(n, g, log[a], k);
      Pow2At16(n);
      ProductFits(Pow2(n), log[a], k);
      FoldAntilog(n, g, log, antilog, log[a] * k);
      NoWrap(log[a] * k);
    }
  }

  lemma NoWrap(p: nat)
    requires p < 0x1_0000_0000
    ensures p % 0x1_0000_0000 == p
  {
  }

  lemma FoldAntilog(n: nat, g: nat, log: seq<nat>, antilog: seq<nat>, p: nat)
    requires Primitive(n, g) && Filled(n, g, log, antilog, Pow2(n) - 1)
    requires p / Pow2(n) + p % Pow2(n) < 2 * (Pow2(n) - 1)
    ensures var limit, sum := Pow2(n) - 1, p / Pow2(n) + p % Pow2(n);
            (if sum >= limit then antilog[sum - limit] else antilog[sum]) == XPow(n, g, p) < Pow2(n)
  {
    hide XPow, Primitive, Filled, Pow2;
    FilledSize(n, g, log, antilog, Pow2(n) - 1);
    FoldProduct(n, g, p, p / Pow2(n), p % Pow2(n));
    AntilogAt(n, g, log, antilog, p / Pow2(n) + p % Pow2(n));
  }

  lemma Pow2At16(n: nat)
    requires n <= 16
    ensures Pow2(n) <= 0x10000
  {
    PowersGrow(n, 16);
    assert Pow2(4) == 16;
    assert Pow2(8) == 256;
    assert Pow2(12) == 4096;
    assert Pow2(16) == 65536;
  }

  class GaloisTable {
    const bits: nat
    const generator: nat
    const log: array<nat>
    const antilog: array<nat>

    ghost predicate Valid()
      reads this, log, antilog
    {
      && Primitive(bits, generator)
      && Filled(bits, generator, log[..], antilog[..], Pow2(bits) - 1)
      && log[0] == Pow2(bits) - 1
      && antilog[Pow2(bits) - 1] == 0
    }

    /** The constructor of GaloisTable: one pass of a shift register through its whole period */
    constructor (bits: nat, generator: nat)
      requires Primitive(bits, generator)
      ensures Valid() && this.bits == bits && this.generator == generator
      ensures fresh(log) && fresh(antilog)
    {
      this.bits, this.generator := bits, generator;
      log := new nat[Pow2(bits)];
      antilog := new nat[Pow2(bits)];
      new;
      hide Primitive, XPow, Pow2, Xor, Filled;
      NothingFilled(bits, generator, log[..], antilog[..]);
      var count := Pow2(bits);
      var limit := count - 1;
      var b := 1;
      var l := 0;
      XPowNext(bits, generator, 0);
      while l < limit
        invariant 0 <= l <= limit
        invariant b == XPow(bits, generator, l)
        invariant log.Length == antilog.Length == count
        invariant Filled(bits, generator, log[..], antilog[..], l)
      {
        FillStep(bits, generator, log[..], antilog[..], l, b);
        XPowNext(bits, generator, l);
        log[b] := l;
        antilog[l] := b;
        b := b * 2;
        if b >= count { b := Xor(b, generator); }
        l := l + 1;
      }
      FilledEnd(bits, generator, log[..], antilog[..]);
      log[0] := limit;
      antilog[limit] := 0;
    }

    // Galois::operator *
    function Mul(a: nat, b: nat): (r: nat)
      requires Valid() && a < Pow2(bits) && b < Pow2(bits)
      reads this, log, antilog
      ensures r == GMul(bits, generator, a, b) < Pow2(bits)
    {
      hide GMul, Pow2, Primitive, Filled;
      FilledSize(bits, generator, log[..], antilog[..], Pow2(bits) - 1);
      MulByLogs(bits, generator, log[..], antilog[..], a, b);
      var limit := Pow2(bits) - 1;
      if a == 0 || b == 0 then 0
      else
        var sum := log[a] + log[b];
        if sum >= limit then antilog[sum - limit] else antilog[sum]
    }

    // Galois::operator /, which answers 0 for a divisor of 0
    function Div(a: nat, b: nat): (r: nat)
      requires Valid() && a < Pow2(bits) && b < Pow2(bits)
      reads this, log, antilog
      ensures r < Pow2(bits)
      ensures b != 0 ==> GMul(bits, generator, r, b) == a
      ensures b == 0 ==> r == 0
    {
      hide GMul, Pow2, Primitive, Filled;
      FilledSize(bits, generator, log[..], antilog[..], Pow2(bits) - 1);
      DivByLogs(bits, generator, log[..], antilog[..], a, b);
      var limit := Pow2(bits) - 1;
      if a == 0 then 0
      else if b == 0 then 0
      else
        var sum := log[a] as int - log[b];
        if sum < 0 then antilog[sum + limit] else antilog[sum]
    }

    // Galois::pow, on a 32-bit product
    function Pow(a: nat, k: nat): (r: nat)
      requires Valid() && a < Pow2(bits) && k <= Pow2(bits) - 1 && bits <= 16
      reads this, log, antilog
      ensures r == GPow(bits, generator, a, k) < Pow2(bits)
    {
      hide GPow, Pow2, Primitive, Filled, Folded;
      FilledSize(bits, generator, log[..], antilog[..], Pow2(bits) - 1);
      PowByLogs(bits, generator, log[..], antilog[..], a, k);
      var limit := Pow2(bits) - 1;
      if k == 0 then 1
      else if a == 0 then 0
      else
        var sum := Folded(bits, log[a], k);
        if sum >= limit then antilog[sum - limit] else antilog[sum]
    }

    // Galois::ALog
    function ALog(l: nat): (r: nat)
      requires Valid() && l < Pow2(bits)
      reads this, log, antilog
      ensures r == if l < Pow2(bits) - 1 then XPow(bits, generator, l) else 0
    {
      antilog[l]
    }

    // Galois::Log
    function Log(a: nat): (r: nat)
      requires Valid() && a < Pow2(bits)
      reads this, log, antilog
      ensures a != 0 ==> r < Pow2(bits) - 1 && XPow(bits, generator, r) == a
      ensures a == 0 ==> r == Pow2(bits) - 1
    {
      if a != 0 then FilledLog(bits, generator, log[..], antilog[..], a); log[a] else log[a]
    }
  }
}
