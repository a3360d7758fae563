/** The CRC of a block is the remainder of a polynomial division: the meaning of the shift register. */
module CrcPolynomial {
  import opened Bits
  import opened Bytes
  import opened Galois
  import opened Crc

  /** x^32 + x^26 + x^23 + x^22 + x^16 + x^12 + x^11 + x^10 + x^8 + x^7 + x^5 + x^4 + x^2 + x + 1 */
  const DIVISOR: nat := 0x104C11DB7

  // ----- the register has its highest power in its lowest bit

  /** The low n bits in reverse order */
  function Reversed(n: nat, c: nat): nat {
    if n == 0 then 0 else Pow2(n - 1) * (c % 2) + Reversed(n - 1, c / 2)
  }

  lemma {:induction false} ReversedBound(n: nat, c: nat)
    ensures Reversed(n, c) < Pow2(n)
  {
    if n > 0 { ReversedBound(n - 1, c / 2); }
  }

  lemma BitXor(a: nat, b: nat)
    requires a < 2 && b < 2
    ensures Xor(a, b) == (a + b) % 2
  {
    XorHalf(a, b);
    XorZero(0);
    assert Xor(0, 0) == 0;
  }

  lemma {:induction false} ReversedXor(n: nat, a: nat, b: nat)
    ensures Reversed(n, Xor(a, b)) == Xor(Reversed(n, a), Reversed(n, b))
  {
    hide Xor, Pow2, Reversed;
    if n == 0 {
      XorZero(0);
      ReversedNone(a);
      ReversedNone(b);
      ReversedNone(Xor(a, b));
    } else {
      ReversedXor(n - 1, a / 2, b / 2);
      XorHalf(a, b);
      ReversedBound(n - 1, a / 2);
      ReversedBound(n - 1, b / 2);
      XorSplit(n - 1, Reversed(n - 1, a / 2), Reversed(n - 1, b / 2), a % 2, b % 2);
      BitXor(a % 2, b % 2);
      ReversedTop(n, a);
      ReversedTop(n, b);
      ReversedTop(n, Xor(a, b));
    }
  }

  lemma ReversedTop(n: nat, c: nat)
    requires n > 0
    ensures Reversed(n, c) == Reversed(n - 1, c / 2) + Pow2(n - 1) * (c % 2)
  {
    hide Pow2;
  }

  /** A number with a zero bit at its top end */
  lemma {:induction false} ReversedMore(n: nat, h: nat)
    requires h < Pow2(n)
    ensures Reversed(n + 1, h) == 2 * Reversed(n, h)
  {
    if n > 0 {
      ReversedMore(n - 1, h / 2);
      TwicePower(n, h % 2);
    }
  }

  lemma TwicePower(n: nat, b: nat)
    requires n > 0
    ensures Pow2(n) * b == 2 * (Pow2(n - 1) * b)
  {
  }

  lemma {:induction false} ReversedWide(n: nat, k: nat, h: nat)
    requires h < Pow2(n)
    ensures Reversed(n + k, h) == Shl(k, Reversed(n, h))
  {
    if k > 0 {
      ReversedWide(n, k - 1, h);
      PowersGrow(n, n + k - 1);
      ReversedMore(n + k - 1, h);
    }
  }

  lemma ReversedStep(n: nat, c: nat, p: nat)
    requires p == Pow2(n)
    ensures Reversed(n + 1, c) == (if c % 2 == 1 then p else 0) + Reversed(n, c / 2)
  {
    hide Pow2;
  }

  lemma PowersOn(n: nat, p: nat)
    requires Pow2(n) == p
    ensures Pow2(n + 1) == 2 * p && Pow2(n + 2) == 4 * p && Pow2(n + 3) == 8 * p && Pow2(n + 4) == 16 * p
  {
  }

  /** Four bits at a time */
  lemma ReversedFour(n: nat, c: nat, p: nat)
    requires p == Pow2(n)
    ensures Pow2(n + 4) == 16 * p
    ensures Reversed(n + 4, c) ==
            (if c % 2 == 1 then 8 * p else 0) + (if c / 2 % 2 == 1 then 4 * p else 0)
            + (if c / 4 % 2 == 1 then 2 * p else 0) + (if c / 8 % 2 == 1 then p else 0) + Reversed(n, c / 16)
  {
    PowersOn(n, p);
    ReversedStep(n + 3, c, 8 * p);
    ReversedStep(n + 2, c / 2, 4 * p);
    ReversedStep(n + 1, c / 4, 2 * p);
    ReversedStep(n, c / 8, p);
    hide *;
    Quarters(c);
  }

  lemma Quarters(c: nat)
    ensures c / 2 / 2 == c / 4 && c / 4 / 2 == c / 8 && c / 8 / 2 == c / 16
  {
  }

  lemma ReversedDivisor()
    ensures Reversed(32, 0xEDB88320) == 0x4C11DB7
  {
    hide Reversed, Pow2;
    ReversedNone(0x0);
    ReversedFour(0, 0xE, 0x1);
    assert Reversed(4, 0xE) == 0x7;
    ReversedFour(4, 0xED, 0x10);
    assert Reversed(8, 0xED) == 0xB7;
    ReversedFour(8, 0xEDB, 0x100);
    assert Reversed(12, 0xEDB) == 0xDB7;
    ReversedFour(12, 0xEDB8, 0x1000);
    assert Reversed(16, 0xEDB8) == 0x1DB7;
    ReversedFour(16, 0xEDB88, 0x10000);
    assert Reversed(20, 0xEDB88) == 0x11DB7;
    ReversedFour(20, 0xEDB883, 0x100000);
    assert Reversed(24, 0xEDB883) == 0xC11DB7;
    ReversedFour(24, 0xEDB8832, 0x1000000);
    assert Reversed(28, 0xEDB8832) == 0x4C11DB7;
    ReversedFour(28, 0xEDB88320, 0x10000000);
    assert Reversed(32, 0xEDB88320) == 0x4C11DB7;
  }

  lemma ReversedOnes()
    ensures Reversed(32, 0xFFFFFFFF) == 0xFFFFFFFF
  {
    hide Reversed, Pow2;
    ReversedNone(0x0);
    ReversedFour(0, 0xF, 0x1);
    assert Reversed(4, 0xF) == 0xF;
    ReversedFour(4, 0xFF, 0x10);
    assert Reversed(8, 0xFF) == 0xFF;
    ReversedFour(8, 0xFFF, 0x100);
    assert Reversed(12, 0xFFF) == 0xFFF;
    ReversedFour(12, 0xFFFF, 0x1000);
    assert Reversed(16, 0xFFFF) == 0xFFFF;
    ReversedFour(16, 0xFFFFF, 0x10000);
    assert Reversed(20, 0xFFFFF) == 0xFFFFF;
    ReversedFour(20, 0xFFFFFF, 0x100000);
    assert Reversed(24, 0xFFFFFF) == 0xFFFFFF;
    ReversedFour(24, 0xFFFFFFF, 0x1000000);
    assert Reversed(28, 0xFFFFFFF) == 0xFFFFFFF;
    ReversedFour(28, 0xFFFFFFFF, 0x10000000);
    assert Reversed(32, 0xFFFFFFFF) == 0xFFFFFFFF;
  }

  lemma ReversedNone(c: nat)
    ensures Reversed(0, c) == 0 && Pow2(0) == 1
  {
  }

  // ----- polynomials modulo the divisor

  /** a is b plus a multiple of the divisor. */
  ghost predicate Congruent(a: nat, b: nat) {
    exists q: nat :: IsQuotient(a, b, q)
  }

  ghost predicate IsQuotient(a: nat, b: nat, q: nat) {
    a == Xor(CMul(DIVISOR, q), b)
  }

  lemma CongruentSelf(a: nat)
    ensures Congruent(a, a)
  {
    hide Xor;
    assert CMul(DIVISOR, 0) == 0;
    XorZero(a);
    assert IsQuotient(a, a, 0);
  }

  lemma CongruentSum(a: nat, b: nat, c: nat, d: nat)
    requires Congruent(a, b) && Congruent(c, d)
    ensures Congruent(Xor(a, c), Xor(b, d))
  {
    hide Xor, CMul;
    var p: nat :| IsQuotient(a, b, p);
    var q: nat :| IsQuotient(c, d, q);
    CMulAddRight(DIVISOR, p, q);
    XorSwap(CMul(DIVISOR, p), b, CMul(DIVISOR, q), d);
    assert IsQuotient(Xor(a, c), Xor(b, d), Xor(p, q));
  }

  lemma CongruentOn(a: nat, b: nat, c: nat)
    requires Congruent(a, b) && Congruent(b, c)
    ensures Congruent(a, c)
  {
    hide Xor, CMul;
    var p: nat :| IsQuotient(a, b, p);
    var q: nat :| IsQuotient(b, c, q);
    CMulAddRight(DIVISOR, p, q);
    XorAssoc(CMul(DIVISOR, p), CMul(DIVISOR, q), c);
    assert IsQuotient(a, c, Xor(p, q));
  }

  lemma {:induction false} CMulDouble(a: nat, q: nat)
    ensures CMul(2 * a, q) == 2 * CMul(a, q) && CMul(a, 2 * q) == 2 * CMul(a, q)
    decreases q
  {
    CMulLeft(a, q);
    CMulStep(a, 2 * q);
    HalfOf(q, 0);
    XorZero(CMul(2 * a, q));
  }

  lemma {:induction false} CMulLeft(a: nat, q: nat)
    ensures CMul(2 * a, q) == 2 * CMul(a, q)
    decreases q
  {
    if q > 0 {
      hide Xor;
      CMulLeft(2 * a, q / 2);
      XorDouble(if q % 2 == 1 then a else 0, CMul(2 * a, q / 2));
    }
  }

  lemma CongruentDouble(a: nat, b: nat)
    requires Congruent(a, b)
    ensures Congruent(2 * a, 2 * b)
  {
    hide Xor, CMul;
    var q: nat :| IsQuotient(a, b, q);
    CMulDouble(DIVISOR, q);
    XorDouble(CMul(DIVISOR, q), b);
    assert IsQuotient(2 * a, 2 * b, 2 * q);
  }

  lemma {:induction false} CongruentShl(k: nat, a: nat, b: nat)
    requires Congruent(a, b)
    ensures Congruent(Shl(k, a), Shl(k, b))
  {
    hide Congruent;
    if k > 0 {
      CongruentShl(k - 1, a, b);
      CongruentDouble(Shl(k - 1, a), Shl(k - 1, b));
    }
  }

  lemma {:induction false} ShlXor(k: nat, a: nat, b: nat)
    ensures Shl(k, Xor(a, b)) == Xor(Shl(k, a), Shl(k, b))
  {
    hide Xor;
    if k > 0 {
      ShlXor(k - 1, a, b);
      XorDouble(Shl(k - 1, a), Shl(k - 1, b));
    }
  }

  lemma {:induction false} ShlTwice(j: nat, k: nat, a: nat)
    ensures Shl(j, Shl(k, a)) == Shl(j + k, a)
  {
    if j > 0 { ShlTwice(j - 1, k, a); }
  }

  /** Multiplication by x and reduction is congruent to multiplication by x. */
  lemma ReducedCongruent(a: nat)
    ensures Congruent(2 * a, XTime(32, DIVISOR, a))
  {
    hide Xor, Pow2;
    if 2 * a >= Pow2(32) {
      DivisorOnce();
      XorCancel(2 * a, DIVISOR);
      XorComm(Xor(2 * a, DIVISOR), DIVISOR);
      assert IsQuotient(2 * a, Xor(2 * a, DIVISOR), 1);
    } else {
      CongruentSelf(2 * a);
    }
  }

  lemma DivisorOnce()
    ensures CMul(DIVISOR, 1) == DIVISOR
  {
    assert CMul(2 * DIVISOR, 0) == 0;
    XorZero(DIVISOR);
  }

  /** A multiple of the divisor has a power of at least 32, unless it is zero. */
  lemma {:induction false} MultipleIsLarge(q: nat)
    requires q > 0
    ensures CMul(DIVISOR, q) >= 0x1_0000_0000
    decreases q
  {
    hide Xor;
    var m := q / 2;
    if m == 0 {
      DivisorOnce();
    } else {
      MultipleIsLarge(m);
      CMulStep(DIVISOR, q);
      CMulDouble(DIVISOR, m);
      HighStays(if q % 2 == 1 then DIVISOR else 0, 2 * CMul(DIVISOR, m));
    }
  }

  lemma HighStays(a: nat, b: nat)
    requires a < 0x2_0000_0000 <= b
    ensures Xor(a, b) >= 0x1_0000_0000
  {
    var h, l := b / 0x2_0000_0000, b % 0x2_0000_0000;
    assert Pow2(33) == 0x2_0000_0000 by { Pow2Of32(); }
    hide Xor, Pow2;
    XorSplit(33, a, l, 0, h);
    XorZero(h);
  }

  /** There is only one remainder. */
  lemma RemainderUnique(a: nat, r: nat, t: nat)
    requires Congruent(a, r) && Congruent(a, t) && r < 0x1_0000_0000 && t < 0x1_0000_0000
    ensures r == t
  {
    hide Xor, CMul;
    var p: nat :| IsQuotient(a, r, p);
    var q: nat :| IsQuotient(a, t, q);
    var x, y := CMul(DIVISOR, p), CMul(DIVISOR, q);
    CMulAddRight(DIVISOR, p, q);
    XorSwap(x, r, y, t);
    XorSelf(a);
    XorCancel(r, t);
    XorZero(t);
    if Xor(p, q) > 0 { MultipleIsLarge(Xor(p, q)); }
    SumZero(Xor(x, y), Xor(r, t));
    Pow2Of32();
    XorBound(32, r, t);
    if Xor(p, q) == 0 {
      assert CMul(DIVISOR, 0) == 0 by { NoMultiple(); }
      SumZero(r, t);
    }
  }

  lemma NoMultiple()
    ensures CMul(DIVISOR, 0) == 0
  {
  }

  lemma SumZero(a: nat, b: nat)
    ensures Xor(a, b) == 0 ==> a == b
  {
    hide Xor;
    XorCancel(a, b);
    XorZero(b);
  }

  // ----- one shift of the register is one step of the division

  lemma TopSplit(h: nat, y: nat)
    requires y < Pow2(32) && Pow2(32) == 0x1_0000_0000
    ensures Xor(0x1_0000_0000 + y, DIVISOR) == Xor(y, 0x04C11DB7)
  {
    hide Xor, Pow2;
    XorSplit(32, y, 0x04C11DB7, 1, 1);
    XorSelf(1);
  }

  lemma Powers32()
    ensures Pow2(31) == 0x8000_0000 && Pow2(32) == 0x1_0000_0000
  {
    Pow2Of32();
  }

  lemma ShiftDivides(c: nat)
    requires c < 0x1_0000_0000
    ensures Reversed(32, Shift(c)) == XTime(32, DIVISOR, Reversed(32, c))
  {
    var h, r := c / 2, Reversed(31, c / 2);
    Powers32();
    ReversedStep(31, c, 0x8000_0000);
    hide Xor, Pow2, Reversed;
    ReversedBound(31, h);
    ReversedMore(31, h);
    ReversedDivisor();
    if c % 2 == 1 {
      ReversedXor(32, h, POLYNOMIAL);
      TopSplit(0, 2 * r);
    } else {
      XorZero(h);
    }
  }

  function Reduced(k: nat, a: nat): nat {
    if k == 0 then a else XTime(32, DIVISOR, Reduced(k - 1, a))
  }

  lemma {:induction false} ShiftsDivide(c: nat, k: nat)
    requires c < 0x1_0000_0000
    ensures Reversed(32, Shifts(c, k)) == Reduced(k, Reversed(32, c))
  {
    hide Reversed, Shift, XTime;
    if k > 0 {
      ShiftsDivide(c, k - 1);
      ShiftsWidth(c, k - 1);
      ShiftDivides(Shifts(c, k - 1));
    }
  }

  lemma {:induction false} ManyReduced(k: nat, a: nat)
    ensures Congruent(Shl(k, a), Reduced(k, a))
  {
    hide Congruent, XTime;
    if k == 0 {
      CongruentSelf(a);
    } else {
      ManyReduced(k - 1, a);
      CongruentDouble(Shl(k - 1, a), Reduced(k - 1, a));
      ReducedCongruent(Reduced(k - 1, a));
      CongruentOn(Shl(k, a), 2 * Reduced(k - 1, a), Reduced(k, a));
    }
  }

  // ----- the message as a polynomial

  /** The bits of the bytes, lowest bit first, are the coefficients from the highest power down. */
  function Polynomial(s: seq<u8>): nat {
    if s == [] then 0 else Xor(Shl(8, Polynomial(s[..|s| - 1])), Reversed(8, s[|s| - 1]))
  }

  /** The message, times x^32, plus the initial value of the register in front of it */
  function Dividend(start: nat, s: seq<u8>): nat {
    Xor(Shl(32, Polynomial(s)), Shl(8 * |s|, Reversed(32, start)))
  }

  lemma ByteEnters(c: nat, ch: u8)
    requires c < 0x1_0000_0000
    ensures Xor(c, ch) < 0x1_0000_0000
    ensures Reversed(32, Xor(c, ch)) == Xor(Reversed(32, c), Shl(24, Reversed(8, ch)))
  {
    hide Xor, Reversed, Shl;
    Powers32();
    assert Pow2(8) == 256;
    hide Pow2;
    XorBound(32, c, ch);
    ReversedXor(32, c, ch);
    ReversedWide(8, 24, ch);
  }

  lemma DividendGrows(start: nat, s: seq<u8>)
    requires s != []
    ensures Dividend(start, s) == Xor(Shl(8, Dividend(start, s[..|s| - 1])), Shl(32, Reversed(8, s[|s| - 1])))
  {
    hide Xor, Reversed, Shl;
    var t, b, r := s[..|s| - 1], Reversed(8, s[|s| - 1]), Reversed(32, start);
    ShlXor(32, Shl(8, Polynomial(t)), b);
    ShlTwice(32, 8, Polynomial(t));
    ShlTwice(8, 32, Polynomial(t));
    ShlXor(8, Shl(32, Polynomial(t)), Shl(8 * |t|, r));
    ShlTwice(8, 8 * |t|, r);
    var m, u, v := Shl(40, Polynomial(t)), Shl(32, b), Shl(8 * |s|, r);
    XorAssoc(m, u, v);
    XorComm(u, v);
    XorAssoc(m, v, u);
  }

  /** The register, read with its highest power in its lowest bit, is the remainder of the message on division by the
      polynomial of the CRC. */
  lemma {:induction false} RegisterIsRemainder(start: nat, s: seq<u8>)
    requires start < 0x1_0000_0000
    ensures Congruent(Dividend(start, s), Reversed(32, Register(start, s)))
    ensures Reversed(32, Register(start, s)) < 0x1_0000_0000
  {
    hide Xor, Reversed, Shifts, Congruent, Pow2, Shl, Dividend, Reduced;
    Powers32();
    ReversedBound(32, Register(start, s));
    if s == [] {
      NoDividend(start);
      CongruentSelf(Reversed(32, start));
    } else {
      var t, ch := s[..|s| - 1], s[|s| - 1];
      var c := Register(start, t);
      RegisterWidth(start, t);
      RegisterIsRemainder(start, t);
      ByteEnters(c, ch);
      ShiftsDivide(Xor(c, ch), 8);
      var r, b := Reversed(32, c), Reversed(8, ch);
      ManyReduced(8, Xor(r, Shl(24, b)));
      ShlXor(8, r, Shl(24, b));
      ShlTwice(8, 24, b);
      CongruentShl(8, Dividend(start, t), r);
      CongruentSelf(Shl(32, b));
      CongruentSum(Shl(8, Dividend(start, t)), Shl(8, r), Shl(32, b), Shl(32, b));
      DividendGrows(start, s);
      CongruentOn(Dividend(start, s), Xor(Shl(8, r), Shl(32, b)), Reversed(32, Register(start, s)));
    }
  }

  lemma NoDividend(start: nat)
    ensures Dividend(start, []) == Reversed(32, start)
  {
    hide Xor, Reversed;
    ShlNothing(32);
    XorZero(Reversed(32, start));
    assert Shl(8 * 0, Reversed(32, start)) == Reversed(32, start);
  }

  lemma {:induction false} ShlNothing(k: nat)
    ensures Shl(k, 0) == 0
  {
    if k > 0 { ShlNothing(k - 1); }
  }

  /** The CRC32 of a block: the remainder of its polynomial, times x^32, with 32 ones in front, complemented */
  lemma CrcIsRemainder(s: seq<u8>)
    ensures var r := Xor(ONES, Reversed(32, BlockCrc(s)));
            && r < 0x1_0000_0000
            && Congruent(Xor(Shl(32, Polynomial(s)), Shl(8 * |s|, ONES)), r)
  {
    hide Xor, Reversed, Congruent, Shl, Polynomial, Register;
    RegisterIsRemainder(ONES, s);
    ReversedOnes();
    ReversedXor(32, ONES, Register(ONES, s));
    XorCancel(Reversed(32, Register(ONES, s)), ONES);
  }
}
