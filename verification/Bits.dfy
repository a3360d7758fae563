/** Exclusive or on natural numbers, read as bit strings or as polynomials over GF(2).
    The program's `^` on u8, u16, u32 and u64 is this function restricted to the width. */
module Bits {
  function Pow2(n: nat): (r: nat)
    ensures r >= 1
  {
    if n == 0 then 1 else 2 * Pow2(n - 1)
  }

  lemma {:induction false} PowersGrow(i: nat, j: nat)
    requires i <= j
    ensures Pow2(i) <= Pow2(j)
    decreases j
  {
    if i < j { PowersGrow(i, j - 1); }
  }

  function Xor(a: nat, b: nat): nat
    decreases a + b
  {
    if a == 0 && b == 0 then 0 else 2 * Xor(a / 2, b / 2) + (a % 2 + b % 2) % 2
  }

  lemma {:induction false} XorZero(a: nat)
    ensures Xor(a, 0) == a && Xor(0, a) == a
  {
    if a > 0 { XorZero(a / 2); }
  }

  lemma {:induction false} XorSelf(a: nat)
    ensures Xor(a, a) == 0
  {
    if a > 0 { XorSelf(a / 2); }
  }

  lemma {:induction false} XorComm(a: nat, b: nat)
    ensures Xor(a, b) == Xor(b, a)
    decreases a + b
  {
    if a > 0 || b > 0 { XorComm(a / 2, b / 2); }
  }

  lemma HalfOf(h: nat, l: nat)
    requires l < 2
    ensures (2 * h + l) / 2 == h && (2 * h + l) % 2 == l
  {
  }

  /** The low bit and the rest of an exclusive or. */
  lemma XorHalf(a: nat, b: nat)
    ensures Xor(a, b) / 2 == Xor(a / 2, b / 2) && Xor(a, b) % 2 == (a % 2 + b % 2) % 2
  {
    var h, l := Xor(a / 2, b / 2), (a % 2 + b % 2) % 2;
    HalfOf(h, l);
    assert Xor(a, b) == 2 * h + l;
  }

  lemma XorDigit(a: nat, b: nat, u: nat, v: nat)
    requires a < 2 && b < 2
    ensures Xor(a + 2 * u, b + 2 * v) == (a + b) % 2 + 2 * Xor(u, v)
  {
    HalfOf(u, a);
    HalfOf(v, b);
    XorHalf(a + 2 * u, b + 2 * v);
  }

  lemma XorDouble(a: nat, b: nat)
    ensures Xor(2 * a, 2 * b) == 2 * Xor(a, b)
  {
    HalfOf(a, 0);
    HalfOf(b, 0);
    XorHalf(2 * a, 2 * b);
  }

  lemma BitAssoc(a: nat, b: nat, c: nat)
    requires a < 2 && b < 2 && c < 2
    ensures ((a + b) % 2 + c) % 2 == (a + (b + c) % 2) % 2
  {
  }

  /** Numbers with the same low bit, whose halves differ by r */
  lemma FromHalves(l: nat, m: nat, r: nat)
    requires l / 2 == m / 2 + r && l % 2 == m % 2
    ensures l == m + 2 * r
  {
  }

  lemma {:induction false} XorAssoc(a: nat, b: nat, c: nat)
    ensures Xor(Xor(a, b), c) == Xor(a, Xor(b, c))
    decreases a + b + c
  {
    hide Xor;
    if a > 0 || b > 0 || c > 0 {
      XorAssoc(a / 2, b / 2, c / 2);
      XorHalf(a, b);
      XorHalf(b, c);
      XorHalf(Xor(a, b), c);
      XorHalf(a, Xor(b, c));
      BitAssoc(a % 2, b % 2, c % 2);
      FromHalves(Xor(Xor(a, b), c), Xor(a, Xor(b, c)), 0);
    } else {
      XorSelf(0);
    }
  }

  lemma XorCancel(a: nat, b: nat)
    ensures Xor(Xor(a, b), b) == a && Xor(b, Xor(b, a)) == a && Xor(b, Xor(a, b)) == a
  {
    XorAssoc(a, b, b);
    XorAssoc(b, b, a);
    XorComm(a, b);
    XorSelf(b);
    XorZero(a);
  }

  lemma XorSwap(a: nat, b: nat, c: nat, d: nat)
    ensures Xor(Xor(a, b), Xor(c, d)) == Xor(Xor(a, c), Xor(b, d))
  {
    XorAssoc(a, b, Xor(c, d));
    XorAssoc(b, c, d);
    XorComm(b, c);
    XorAssoc(c, b, d);
    XorAssoc(a, c, Xor(b, d));
  }

  /** Adding 2 * u and 2 * v to the operands adds Xor(u, v) to the upper half of the result. */
  lemma XorCarryFree(a: nat, b: nat, u: nat, v: nat, r: nat)
    requires Xor(a / 2 + u, b / 2 + v) == Xor(a / 2, b / 2) + r
    ensures Xor(a + 2 * u, b + 2 * v) == Xor(a, b) + 2 * r
  {
    hide Xor;
    AddEven(a, u);
    AddEven(b, v);
    XorHalf(a + 2 * u, b + 2 * v);
    XorHalf(a, b);
    FromHalves(Xor(a + 2 * u, b + 2 * v), Xor(a, b), r);
  }

  lemma AddEven(a: nat, u: nat)
    ensures (a + 2 * u) / 2 == a / 2 + u && (a + 2 * u) % 2 == a % 2
  {
  }

  lemma {:induction false} XorBound(n: nat, a: nat, b: nat)
    requires a < Pow2(n) && b < Pow2(n)
    ensures Xor(a, b) < Pow2(n)
  {
    if n > 0 {
      XorBound(n - 1, a / 2, b / 2);
      XorHalf(a, b);
    }
  }

  /** c shifted left by n bits */
  function Shl(n: nat, c: nat): nat {
    if n == 0 then c else 2 * Shl(n - 1, c)
  }

  lemma {:induction false} ShlIsProduct(n: nat, c: nat)
    ensures Shl(n, c) == Pow2(n) * c
  {
    if n > 0 { ShlIsProduct(n - 1, c); }
  }

  lemma {:induction false} XorShl(n: nat, a: nat, b: nat, c: nat, d: nat)
    requires a < Pow2(n) && b < Pow2(n)
    ensures Xor(a + Shl(n, c), b + Shl(n, d)) == Xor(a, b) + Shl(n, Xor(c, d))
  {
    if n == 0 {
      XorSelf(0);
      assert Shl(0, c) == c && Shl(0, d) == d && Shl(0, Xor(c, d)) == Xor(c, d);
    } else {
      assert Pow2(n) == 2 * Pow2(n - 1);
      hide Xor, Pow2;
      XorShl(n - 1, a / 2, b / 2, c, d);
      XorCarryFree(a, b, Shl(n - 1, c), Shl(n - 1, d), Shl(n - 1, Xor(c, d)));
    }
  }

  /** Exclusive or acts separately on the low n bits and on the bits above them. */
  lemma XorSplit(n: nat, a: nat, b: nat, c: nat, d: nat)
    requires a < Pow2(n) && b < Pow2(n)
    ensures Xor(a + Pow2(n) * c, b + Pow2(n) * d) == Xor(a, b) + Pow2(n) * Xor(c, d)
  {
    XorShl(n, a, b, c, d);
    ShlIsProduct(n, c);
    ShlIsProduct(n, d);
    ShlIsProduct(n, Xor(c, d));
  }

  /** The top bit of a number below 2^(n+1) and of an exclusive or of two of them. */
  lemma XorTop(n: nat, a: nat, b: nat)
    requires a < 2 * Pow2(n) && b < 2 * Pow2(n)
    ensures Xor(a, b) < 2 * Pow2(n)
    ensures Xor(a, b) >= Pow2(n) <==> (a >= Pow2(n)) != (b >= Pow2(n))
  {
    var p := Pow2(n);
    var c, d := if a >= p then 1 else 0, if b >= p then 1 else 0;
    XorSplit(n, a - p * c, b - p * d, c, d);
    XorBound(n, a - p * c, b - p * d);
    assert Xor(0, 0) == 0 && Xor(0, 1) == 1 && Xor(1, 0) == 1 && Xor(1, 1) == 0;
  }

  /** A number taken or not, as a bit says */
  lemma PickAdd(a: nat, x: nat, y: nat)
    requires x < 2 && y < 2
    ensures Xor(if x == 1 then a else 0, if y == 1 then a else 0) == if (x + y) % 2 == 1 then a else 0
  {
    hide Xor;
    XorZero(a);
    XorSelf(a);
    XorSelf(0);
  }
}
