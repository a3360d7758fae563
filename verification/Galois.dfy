/** The field GF(2^n) of the template Galois<bits, generator, valuetype>: polynomials over GF(2)
    of degree below n, multiplied without carries and reduced modulo the generator.
    This is the meaning that the log and antilog tables of GaloisTable are proved against. */
module Galois {
  import opened Bits

  /** The template arguments: n bits, and a generator polynomial of degree n. */
  ghost predicate Gen(n: nat, g: nat) {
    n >= 1 && Pow2(n) <= g < 2 * Pow2(n)
  }

  /** Multiplication by the polynomial x. */
  function XTime(n: nat, g: nat, a: nat): nat {
    if 2 * a >= Pow2(n) then Xor(2 * a, g) else 2 * a
  }

  /** Carry-less multiplication modulo the generator. b may be a polynomial of any degree. */
  function GMul(n: nat, g: nat, a: nat, b: nat): nat
    decreases b
  {
    if b == 0 then 0
    else Xor(if b % 2 == 1 then a else 0, GMul(n, g, XTime(n, g, a), b / 2))
  }

  // ----- XTime is linear

  lemma XTimeBound(n: nat, g: nat, a: nat)
    requires Gen(n, g) && a < Pow2(n)
    ensures XTime(n, g, a) < Pow2(n)
  {
    XorTop(n, 2 * a, g);
  }

  lemma XTimeAdd(n: nat, g: nat, a: nat, b: nat)
    requires Gen(n, g) && a < Pow2(n) && b < Pow2(n)
    ensures XTime(n, g, Xor(a, b)) == Xor(XTime(n, g, a), XTime(n, g, b))
  {
    var u, v := 2 * a, 2 * b;
    XorDouble(a, b);
    XorTop(n, u, v);
    if u >= Pow2(n) && v >= Pow2(n) {
      XorSwap(u, g, v, g);
      XorSelf(g);
      XorZero(Xor(u, v));
    } else if u >= Pow2(n) {
      XorAssoc(u, g, v);
      XorComm(g, v);
      XorAssoc(u, v, g);
    } else if v >= Pow2(n) {
      XorAssoc(u, v, g);
    }
  }

  // ----- GMul is bilinear and commutes with XTime

  lemma {:induction false} GMulBound(n: nat, g: nat, a: nat, b: nat)
    requires Gen(n, g) && a < Pow2(n)
    ensures GMul(n, g, a, b) < Pow2(n)
    decreases b
  {
    if b > 0 {
      XTimeBound(n, g, a);
      GMulBound(n, g, XTime(n, g, a), b / 2);
      XorBound(n, if b % 2 == 1 then a else 0, GMul(n, g, XTime(n, g, a), b / 2));
    }
  }

  /** Unfolding GMul without the special case for 0. */
  lemma GMulStep(n: nat, g: nat, a: nat, b: nat)
    ensures GMul(n, g, a, b) == Xor(if b % 2 == 1 then a else 0, GMul(n, g, XTime(n, g, a), b / 2))
  {
    if b == 0 { assert Xor(0, 0) == 0; }
  }

  lemma {:induction false} GMulAddLeft(n: nat, g: nat, a: nat, b: nat, c: nat)
    requires Gen(n, g) && a < Pow2(n) && b < Pow2(n)
    ensures GMul(n, g, Xor(a, b), c) == Xor(GMul(n, g, a, c), GMul(n, g, b, c))
    decreases c
  {
    if c == 0 {
      XorZero(0);
    } else {
      var ta, tb := XTime(n, g, a), XTime(n, g, b);
      XTimeBound(n, g, a);
      XTimeBound(n, g, b);
      XTimeAdd(n, g, a, b);
      GMulAddLeft(n, g, ta, tb, c / 2);
      if c % 2 == 1 {
        XorSwap(a, GMul(n, g, ta, c / 2), b, GMul(n, g, tb, c / 2));
      } else {
        XorSwap(0, GMul(n, g, ta, c / 2), 0, GMul(n, g, tb, c / 2));
        XorZero(0);
      }
    }
  }

  lemma {:induction false} GMulAddRight(n: nat, g: nat, a: nat, b: nat, c: nat)
    requires Gen(n, g) && a < Pow2(n)
    ensures GMul(n, g, a, Xor(b, c)) == Xor(GMul(n, g, a, b), GMul(n, g, a, c))
    decreases b + c
  {
    if b == 0 && c == 0 {
      XorZero(0);
    } else {
      hide XTime, Xor, Pow2, GMul;
      var t := XTime(n, g, a);
      XTimeBound(n, g, a);
      GMulAddRight(n, g, t, b / 2, c / 2);
      XorHalf(b, c);
      GMulStep(n, g, a, Xor(b, c));
      GMulStep(n, g, a, b);
      GMulStep(n, g, a, c);
      var pb, pc := if b % 2 == 1 then a else 0, if c % 2 == 1 then a else 0;
      XorSwap(pb, GMul(n, g, t, b / 2), pc, GMul(n, g, t, c / 2));
      PickAdd(a, b % 2, c % 2);
    }
  }

  lemma {:induction false} GMulXTimeLeft(n: nat, g: nat, a: nat, b: nat)
    requires Gen(n, g) && a < Pow2(n)
    ensures GMul(n, g, XTime(n, g, a), b) == XTime(n, g, GMul(n, g, a, b))
    decreases b
  {
    XTimeZero(n, g);
    if b > 0 {
      var t := XTime(n, g, a);
      var p := if b % 2 == 1 then a else 0;
      XTimeBound(n, g, a);
      GMulBound(n, g, t, b / 2);
      GMulXTimeLeft(n, g, t, b / 2);
      XTimeAdd(n, g, p, GMul(n, g, t, b / 2));
    }
  }

  lemma XTimeZero(n: nat, g: nat)
    ensures XTime(n, g, 0) == 0
  {
  }

  lemma {:induction false} GMulZero(n: nat, g: nat, b: nat)
    ensures GMul(n, g, 0, b) == 0
    decreases b
  {
    if b > 0 {
      XTimeZero(n, g);
      GMulZero(n, g, b / 2);
      XorZero(0);
    }
  }

  /** b without its lowest bit, shifted back */
  lemma SplitLow(b: nat)
    ensures Xor(b % 2, 2 * (b / 2)) == b
  {
    HalfOf(b / 2, 0);
    XorHalf(b % 2, 2 * (b / 2));
    XorZero(b / 2);
  }

  lemma {:induction false} GMulOne(n: nat, g: nat, b: nat)
    requires Gen(n, g) && b < Pow2(n)
    ensures GMul(n, g, 1, b) == b && GMul(n, g, b, 1) == b
    decreases b
  {
    if b > 0 {
      GMulOne(n, g, b / 2);
      GMulXTimeLeft(n, g, 1, b / 2);
      SplitLow(b);
    }
    XorZero(b);
    assert GMul(n, g, XTime(n, g, b), 0) == 0;
  }

  /** The generator itself is zero in the field: GMul really reduces modulo it. */
  lemma {:induction false} GMulGenerator(n: nat, g: nat, a: nat)
    requires Gen(n, g) && a < Pow2(n)
    ensures GMul(n, g, a, g) == 0
    decreases a
  {
    if a == 0 {
      GMulZero(n, g, g);
    } else if a == 1 {
      GMulGeneratorOne(n, g);
    } else {
      hide Xor, GMul, Pow2;
      GMulGenerator(n, g, a / 2);
      GMulGenerator(n, g, a % 2);
      GMulXTimeLeft(n, g, a / 2, g);
      XTimeBound(n, g, a / 2);
      SplitLow(a);
      GMulAddLeft(n, g, a % 2, 2 * (a / 2), g);
      XTimeZero(n, g);
      XorZero(0);
    }
  }

  lemma TopBit(n: nat, r: nat)
    requires r < Pow2(n)
    ensures Xor(Pow2(n), r) == Pow2(n) + r && Xor(Pow2(n), Pow2(n) + r) == r
  {
    hide Xor, Pow2;
    XorSplit(n, 0, r, 1, 0);
    XorZero(r);
    XorZero(1);
    XorCancel(r, Pow2(n));
    XorComm(r, Pow2(n));
  }

  lemma GeneratorTop(n: nat, g: nat)
    requires Gen(n, g)
    ensures n > 0 && Pow2(n) <= g && Pow2(n) == 2 * Pow2(n - 1)
    ensures Xor(Pow2(n), g - Pow2(n)) == g
    ensures XTime(n, g, Pow2(n - 1)) == g - Pow2(n)
  {
    hide Xor;
    TopBit(n, g - Pow2(n));
  }

  lemma GMulTop(n: nat, g: nat)
    requires Gen(n, g)
    ensures GMul(n, g, 1, Pow2(n)) == g - Pow2(n)
  {
    GeneratorTop(n, g);
    var half := Pow2(n - 1);
    hide Xor, GMul, XTime, Pow2;
    GMulOne(n, g, half);
    HalfOf(half, 0);
    GMulStep(n, g, 1, 2 * half);
    GMulXTimeLeft(n, g, 1, half);
    XorZero(g - Pow2(n));
  }

  lemma GMulGeneratorOne(n: nat, g: nat)
    requires Gen(n, g)
    ensures GMul(n, g, 1, g) == 0
  {
    GeneratorTop(n, g);
    GMulTop(n, g);
    hide Xor, GMul, XTime, Pow2;
    var r: nat := g - Pow2(n);
    GMulAddRight(n, g, 1, Pow2(n), r);
    GMulOne(n, g, r);
    XorSelf(r);
  }

  lemma GMulXTimeRight(n: nat, g: nat, a: nat, b: nat)
    requires Gen(n, g) && a < Pow2(n) && b < Pow2(n)
    ensures GMul(n, g, a, XTime(n, g, b)) == XTime(n, g, GMul(n, g, a, b))
  {
    GMulXTimeLeft(n, g, a, b);
    HalfOf(b, 0);
    GMulStep(n, g, a, 2 * b);
    XorZero(GMul(n, g, XTime(n, g, a), b));
    if 2 * b >= Pow2(n) {
      GMulAddRight(n, g, a, 2 * b, g);
      GMulGenerator(n, g, a);
      XorZero(GMul(n, g, a, 2 * b));
    }
  }

  // ----- the ring laws

  /** The shape every inductive argument over field elements uses: b = (b mod x) + x * (b div x). */
  lemma GMulSplitRight(n: nat, g: nat, a: nat, b: nat)
    requires Gen(n, g) && a < Pow2(n) && b < Pow2(n)
    ensures GMul(n, g, a, b) == Xor(if b % 2 == 1 then a else 0, XTime(n, g, GMul(n, g, a, b / 2)))
  {
    GMulStep(n, g, a, b);
    GMulXTimeLeft(n, g, a, b / 2);
  }

  lemma GMulSplitLeft(n: nat, g: nat, a: nat, b: nat)
    requires Gen(n, g) && a < Pow2(n) && b < Pow2(n)
    ensures GMul(n, g, b, a) == Xor(if b % 2 == 1 then a else 0, XTime(n, g, GMul(n, g, b / 2, a)))
  {
    SplitLow(b);
    GMulAddLeft(n, g, b % 2, 2 * (b / 2), a);
    assert XTime(n, g, b / 2) == 2 * (b / 2);
    GMulXTimeLeft(n, g, b / 2, a);
    GMulOne(n, g, a);
    GMulZero(n, g, a);
  }

  lemma {:induction false} GMulComm(n: nat, g: nat, a: nat, b: nat)
    requires Gen(n, g) && a < Pow2(n) && b < Pow2(n)
    ensures GMul(n, g, a, b) == GMul(n, g, b, a)
    decreases b
  {
    if b == 0 {
      GMulZero(n, g, a);
    } else {
      GMulComm(n, g, a, b / 2);
      GMulSplitRight(n, g, a, b);
      GMulSplitLeft(n, g, a, b);
    }
  }

  lemma {:induction false} GMulAssoc(n: nat, g: nat, a: nat, b: nat, c: nat)
    requires Gen(n, g) && a < Pow2(n) && b < Pow2(n) && c < Pow2(n)
    ensures GMul(n, g, GMul(n, g, a, b), c) == GMul(n, g, a, GMul(n, g, b, c))
    decreases c
  {
    if c > 0 {
      var ab, bc := GMul(n, g, a, b), GMul(n, g, b, c / 2);
      GMulBound(n, g, a, b);
      GMulBound(n, g, b, c / 2);
      GMulAssoc(n, g, a, b, c / 2);
      GMulSplitRight(n, g, ab, c);
      GMulSplitRight(n, g, b, c);
      GMulAddRight(n, g, a, if c % 2 == 1 then b else 0, XTime(n, g, bc));
      GMulXTimeRight(n, g, a, bc);
    }
  }

  // ----- the reference: an unreduced carry-less product, and its remainder

  /** The product of two polynomials over GF(2), not reduced */
  function CMul(a: nat, b: nat): nat
    decreases b
  {
    if b == 0 then 0 else Xor(if b % 2 == 1 then a else 0, CMul(2 * a, b / 2))
  }

  /** The multiple of the generator that GMul takes away on the way */
  function Quotient(n: nat, g: nat, a: nat, b: nat): nat
    decreases b
  {
    if b == 0 then 0
    else Xor(if 2 * a >= Pow2(n) then b / 2 else 0, Quotient(n, g, XTime(n, g, a), b / 2))
  }

  lemma {:induction false} CMulAddLeft(a: nat, b: nat, c: nat)
    ensures CMul(Xor(a, b), c) == Xor(CMul(a, c), CMul(b, c))
    decreases c
  {
    if c == 0 {
      XorZero(0);
    } else {
      XorDouble(a, b);
      CMulAddLeft(2 * a, 2 * b, c / 2);
      var pa, pb := if c % 2 == 1 then a else 0, if c % 2 == 1 then b else 0;
      XorSwap(pa, CMul(2 * a, c / 2), pb, CMul(2 * b, c / 2));
      XorZero(0);
    }
  }

  lemma CMulStep(a: nat, b: nat)
    ensures CMul(a, b) == Xor(if b % 2 == 1 then a else 0, CMul(2 * a, b / 2))
  {
    if b == 0 { XorZero(0); }
  }

  lemma {:induction false} CMulAddRight(a: nat, b: nat, c: nat)
    ensures CMul(a, Xor(b, c)) == Xor(CMul(a, b), CMul(a, c))
    decreases b + c
  {
    if b == 0 && c == 0 {
      XorZero(0);
    } else {
      hide Xor, CMul;
      CMulAddRight(2 * a, b / 2, c / 2);
      XorHalf(b, c);
      CMulStep(a, Xor(b, c));
      CMulStep(a, b);
      CMulStep(a, c);
      var pb, pc := if b % 2 == 1 then a else 0, if c % 2 == 1 then a else 0;
      XorSwap(pb, CMul(2 * a, b / 2), pc, CMul(2 * a, c / 2));
      PickAdd(a, b % 2, c % 2);
    }
  }

  /** GMul is the remainder of the carry-less product on division by the generator:
      the product is a multiple of the generator plus GMul, and GMul has degree below n. */
  lemma {:induction false} GMulIsRemainder(n: nat, g: nat, a: nat, b: nat)
    requires Gen(n, g) && a < Pow2(n)
    ensures CMul(a, b) == Xor(CMul(g, Quotient(n, g, a, b)), GMul(n, g, a, b))
    ensures GMul(n, g, a, b) < Pow2(n)
    decreases b
  {
    GMulBound(n, g, a, b);
    if b == 0 {
      XorZero(0);
    } else {
      var t, m := XTime(n, g, a), b / 2;
      var bit, q := if b % 2 == 1 then a else 0, Quotient(n, g, t, b / 2);
      XTimeBound(n, g, a);
      GMulIsRemainder(n, g, t, m);
      var take := if 2 * a >= Pow2(n) then m else 0;
      assert CMul(2 * a, m) == Xor(CMul(g, take), CMul(t, m)) by {
        if 2 * a >= Pow2(n) {
          XorCancel(2 * a, g);
          XorComm(t, g);
          CMulAddLeft(g, t, m);
        } else {
          XorZero(CMul(t, m));
        }
      }
      CMulAddRight(g, take, q);
      RemainderShuffle(bit, CMul(g, take), CMul(g, q), GMul(n, g, t, m));
    }
  }

  lemma RemainderShuffle(p: nat, u: nat, v: nat, w: nat)
    ensures Xor(p, Xor(u, Xor(v, w))) == Xor(Xor(u, v), Xor(p, w))
  {
    XorAssoc(u, v, w);
    XorComm(p, Xor(Xor(u, v), w));
    XorAssoc(Xor(u, v), w, p);
    XorComm(w, p);
  }
}
