/** Field elements as lists of octets of bits, low bit first. Arithmetic on this form needs no
    division, so the verifier can carry out the few concrete products that the generators need. */
module Words {
  import opened Bits
  import opened Galois

  datatype Bit = O | I

  function Plus(a: Bit, b: Bit): Bit {
    match a
    case O => b
    case I => match b case O => I case I => O
  }

  datatype Word =
    | Nil
    | Oct(b0: Bit, b1: Bit, b2: Bit, b3: Bit, b4: Bit, b5: Bit, b6: Bit, b7: Bit, rest: Word)

  function Len(w: Word): nat {
    match w
    case Nil => 0
    case Oct(_, _, _, _, _, _, _, _, rest) => 8 + Len(rest)
  }

  function Add(a: Word, b: Word): Word {
    match a
    case Nil => b
    case Oct(a0, a1, a2, a3, a4, a5, a6, a7, ra) =>
      match b
      case Nil => a
      case Oct(b0, b1, b2, b3, b4, b5, b6, b7, rb) =>
        Oct(Plus(a0, b0), Plus(a1, b1), Plus(a2, b2), Plus(a3, b3), Plus(a4, b4), Plus(a5, b5), Plus(a6, b6),
            Plus(a7, b7), Add(ra, rb))
  }

  /** w shifted up by one bit, with c coming in at the bottom; Top is the bit that falls out */
  function Shift(c: Bit, w: Word): Word
    decreases w
  {
    match w
    case Nil => Nil
    case Oct(b0, b1, b2, b3, b4, b5, b6, b7, rest) => Oct(c, b0, b1, b2, b3, b4, b5, b6, Shift(b7, rest))
  }

  function Top(c: Bit, w: Word): Bit
    decreases w
  {
    match w
    case Nil => c
    case Oct(_, _, _, _, _, _, _, b7, rest) => Top(b7, rest)
  }

  /** Multiplication by x; g is the generator without its leading term. */
  function Times(g: Word, w: Word): Word {
    if Top(O, w) == I then Add(Shift(O, w), g) else Shift(O, w)
  }

  function If(b: Bit, w: Word): Word {
    match b case O => Nil case I => w
  }

  function Mul(g: Word, a: Word, b: Word): Word
    decreases b
  {
    match b
    case Nil => Nil
    case Oct(b0, b1, b2, b3, b4, b5, b6, b7, rest) =>
      var x1 := Times(g, a);
      var x2 := Times(g, x1);
      var x3 := Times(g, x2);
      var x4 := Times(g, x3);
      var x5 := Times(g, x4);
      var x6 := Times(g, x5);
      var x7 := Times(g, x6);
      Add(If(b0, a), Add(If(b1, x1), Add(If(b2, x2), Add(If(b3, x3),
      Add(If(b4, x4), Add(If(b5, x5), Add(If(b6, x6), Add(If(b7, x7), Mul(g, Times(g, x7), rest)))))))))
  }

  // ----- the number a word stands for

  function Val(b: Bit): nat {
    match b case O => 0 case I => 1
  }

  function Low(b: Bit, r: nat): nat {
    Val(b) + 2 * r
  }

  function Octet(b0: Bit, b1: Bit, b2: Bit, b3: Bit, b4: Bit, b5: Bit, b6: Bit, b7: Bit, r: nat): nat {
    Low(b0, Low(b1, Low(b2, Low(b3, Low(b4, Low(b5, Low(b6, Low(b7, r))))))))
  }

  function Num(w: Word): nat {
    match w
    case Nil => 0
    case Oct(b0, b1, b2, b3, b4, b5, b6, b7, rest) => Octet(b0, b1, b2, b3, b4, b5, b6, b7, Num(rest))
  }

  lemma LowIs(b: Bit, r: nat)
    ensures Low(b, r) == Val(b) + 2 * r
  {
  }

  lemma ValPlus(a: Bit, b: Bit, c: Bit)
    requires c == Plus(a, b)
    ensures Val(a) < 2 && Val(b) < 2 && Val(c) == (Val(a) + Val(b)) % 2
  {
  }

  lemma XorLow(a: Bit, b: Bit, c: Bit, u: nat, v: nat, w: nat)
    requires c == Plus(a, b) && w == Xor(u, v)
    ensures Low(c, w) == Xor(Low(a, u), Low(b, v))
  {
    hide *;
    ValPlus(a, b, c);
    XorDigit(Val(a), Val(b), u, v);
    LowIs(a, u);
    LowIs(b, v);
    LowIs(c, w);
  }

  lemma {:induction false} AddNum(a: Word, b: Word)
    ensures Num(Add(a, b)) == Xor(Num(a), Num(b))
  {
    if a == Nil {
      XorZero(Num(b));
    } else if b == Nil {
      XorZero(Num(a));
    } else {
      AddNum(a.rest, b.rest);
      AddOctet(a, b, Add(a, b));
    }
  }

  lemma NumOct(w: Word)
    requires w.Oct?
    ensures Num(w)
         == Low(w.b0, Low(w.b1, Low(w.b2, Low(w.b3, Low(w.b4, Low(w.b5, Low(w.b6, Low(w.b7, Num(w.rest)))))))))
  {
  }

  lemma AddOctet(a: Word, b: Word, c: Word)
    requires a.Oct? && b.Oct? && c.Oct?
    requires c.b0 == Plus(a.b0, b.b0) && c.b1 == Plus(a.b1, b.b1) && c.b2 == Plus(a.b2, b.b2)
             && c.b3 == Plus(a.b3, b.b3)
    requires c.b4 == Plus(a.b4, b.b4) && c.b5 == Plus(a.b5, b.b5) && c.b6 == Plus(a.b6, b.b6)
             && c.b7 == Plus(a.b7, b.b7)
    requires Num(c.rest) == Xor(Num(a.rest), Num(b.rest))
    ensures Num(c) == Xor(Num(a), Num(b))
  {
    hide *;
    NumOct(a);
    NumOct(b);
    NumOct(c);
    var u7, v7, w7 := Low(a.b7, Num(a.rest)), Low(b.b7, Num(b.rest)), Low(c.b7, Num(c.rest));
    var u6, v6, w6 := Low(a.b6, u7), Low(b.b6, v7), Low(c.b6, w7);
    var u5, v5, w5 := Low(a.b5, u6), Low(b.b5, v6), Low(c.b5, w6);
    var u4, v4, w4 := Low(a.b4, u5), Low(b.b4, v5), Low(c.b4, w5);
    var u3, v3, w3 := Low(a.b3, u4), Low(b.b3, v4), Low(c.b3, w4);
    var u2, v2, w2 := Low(a.b2, u3), Low(b.b2, v3), Low(c.b2, w3);
    var u1, v1, w1 := Low(a.b1, u2), Low(b.b1, v2), Low(c.b1, w2);
    XorLow(a.b7, b.b7, c.b7, Num(a.rest), Num(b.rest), Num(c.rest));
    XorLow(a.b6, b.b6, c.b6, u7, v7, w7);
    XorLow(a.b5, b.b5, c.b5, u6, v6, w6);
    XorLow(a.b4, b.b4, c.b4, u5, v5, w5);
    XorLow(a.b3, b.b3, c.b3, u4, v4, w4);
    XorLow(a.b2, b.b2, c.b2, u3, v3, w3);
    XorLow(a.b1, b.b1, c.b1, u2, v2, w2);
    XorLow(a.b0, b.b0, c.b0, u1, v1, w1);
  }

  lemma {:induction false} AddLen(a: Word, b: Word)
    requires Len(a) == Len(b)
    ensures Len(Add(a, b)) == Len(a)
  {
    if a.Oct? && b.Oct? {
      AddLen(a.rest, b.rest);
    }
  }

  lemma {:induction false} ShiftLen(c: Bit, w: Word)
    ensures Len(Shift(c, w)) == Len(w)
    decreases w
  {
    match w
    case Nil =>
    case Oct(_, _, _, _, _, _, _, b7, rest) => ShiftLen(b7, rest);
  }

  lemma {:induction false} NumBound(w: Word)
    ensures Num(w) < Pow2(Len(w))
  {
    match w
    case Nil =>
    case Oct(b0, b1, b2, b3, b4, b5, b6, b7, rest) =>
      NumBound(rest);
      Pow2Octet(Len(rest));
      hide Pow2;
      assert Octet(b0, b1, b2, b3, b4, b5, b6, b7, Num(rest)) < 256 + 256 * Num(rest);
  }

  lemma {:induction false} ShiftNum(c: Bit, w: Word)
    ensures Num(Shift(c, w)) + Pow2(Len(w)) * Val(Top(c, w)) == 2 * Num(w) + Val(c)
    decreases w
  {
    if w.Oct? {
      ShiftNum(w.b7, w.rest);
      ShiftWord(c, w);
    }
  }

  lemma ShiftParts(c: Bit, w: Word)
    requires w.Oct?
    ensures Num(w) == Octet(w.b0, w.b1, w.b2, w.b3, w.b4, w.b5, w.b6, w.b7, Num(w.rest))
    ensures Num(Shift(c, w)) == Octet(c, w.b0, w.b1, w.b2, w.b3, w.b4, w.b5, w.b6, Num(Shift(w.b7, w.rest)))
    ensures Top(c, w) == Top(w.b7, w.rest) && Len(w) == 8 + Len(w.rest)
  {
    hide Octet;
  }

  lemma ShiftWord(c: Bit, w: Word)
    requires w.Oct?
    requires Num(Shift(w.b7, w.rest)) + Pow2(Len(w.rest)) * Val(Top(w.b7, w.rest)) == 2 * Num(w.rest) + Val(w.b7)
    ensures Num(Shift(c, w)) + Pow2(Len(w)) * Val(Top(c, w)) == 2 * Num(w) + Val(c)
  {
    hide *;
    var p, t := Pow2(Len(w.rest)), Val(Top(w.b7, w.rest));
    ShiftParts(c, w);
    Pow2Octet(Len(w.rest));
    ShiftOctet(c, w.b0, w.b1, w.b2, w.b3, w.b4, w.b5, w.b6, w.b7, Num(w.rest), Num(Shift(w.b7, w.rest)), p * t);
    MulAssoc(256, p, t);
  }

  lemma MulAssoc(a: nat, b: nat, c: nat)
    ensures a * b * c == a * (b * c)
  {
  }

  lemma Pow2Octet(n: nat)
    ensures Pow2(8 + n) == 256 * Pow2(n)
  {
    assert Pow2(n + 2) == 4 * Pow2(n);
    assert Pow2(n + 4) == 4 * Pow2(n + 2);
    assert Pow2(n + 6) == 4 * Pow2(n + 4);
    assert Pow2(n + 8) == 4 * Pow2(n + 6);
  }

  /** Bringing in c below a digit b: s and k are the shifted upper digits and their carry. */
  lemma ShiftLow(c: Bit, b: Bit, r: nat, s: nat, k: nat)
    requires s + k == 2 * r + Val(b)
    ensures Low(c, s) + 2 * k == 2 * Low(b, r) + Val(c)
  {
  }

  lemma ShiftOctet(c: Bit, b0: Bit, b1: Bit, b2: Bit, b3: Bit, b4: Bit, b5: Bit, b6: Bit, b7: Bit,
                   r: nat, s: nat, k: nat)
    requires s + k == 2 * r + Val(b7)
    ensures Octet(c, b0, b1, b2, b3, b4, b5, b6, s) + 256 * k
         == 2 * Octet(b0, b1, b2, b3, b4, b5, b6, b7, r) + Val(c)
  {
    hide Low, Val;
    var s7, r7 := Low(b6, s), Low(b7, r);
    var s6, r6 := Low(b5, s7), Low(b6, r7);
    var s5, r5 := Low(b4, s6), Low(b5, r6);
    var s4, r4 := Low(b3, s5), Low(b4, r5);
    var s3, r3 := Low(b2, s4), Low(b3, r4);
    var s2, r2 := Low(b1, s3), Low(b2, r3);
    var s1, r1 := Low(b0, s2), Low(b1, r2);
    ShiftLow(b6, b7, r, s, k);
    ShiftLow(b5, b6, r7, s7, 2 * k);
    ShiftLow(b4, b5, r6, s6, 4 * k);
    ShiftLow(b3, b4, r5, s5, 8 * k);
    ShiftLow(b2, b3, r4, s4, 16 * k);
    ShiftLow(b1, b2, r3, s3, 32 * k);
    ShiftLow(b0, b1, r2, s2, 64 * k);
    ShiftLow(c, b0, r1, s1, 128 * k);
  }

  // ----- words compute in the field

  /** g is the generator without its leading term, on n bits. */
  ghost predicate Represents(n: nat, gen: nat, g: Word) {
    Gen(n, gen) && Len(g) == n && Num(g) + Pow2(n) == gen
  }

  lemma TimesNum(n: nat, gen: nat, g: Word, w: Word)
    requires Represents(n, gen, g) && Len(w) == n
    ensures Num(Times(g, w)) == XTime(n, gen, Num(w)) && Len(Times(g, w)) == n
  {
    var s, p := Shift(O, w), Pow2(n);
    ShiftNum(O, w);
    ShiftLen(O, w);
    NumBound(s);
    hide Xor, Num, Len, Pow2, Shift, Top;
    if Top(O, w) == I {
      AddNum(s, g);
      AddLen(s, g);
      NumBound(g);
      assert 2 * Num(w) == Num(s) + p * 1 && gen == Num(g) + p * 1;
      XorSplit(n, Num(s), Num(g), 1, 1);
      XorSelf(1);
    }
  }

  lemma NumNil()
    ensures Num(Nil) == 0
  {
  }

  /** One bit of the multiplier */
  lemma MulBit(n: nat, gen: nat, a: Word, x: Word, b: Bit, r: nat, low: Word, high: Word)
    requires Gen(n, gen) && Num(x) == XTime(n, gen, Num(a))
    requires Num(high) == GMul(n, gen, Num(x), r)
    requires low == If(b, a)
    ensures Num(Add(low, high)) == GMul(n, gen, Num(a), Low(b, r))
  {
    hide Xor, GMul, Add, Num, XTime;
    AddNum(low, high);
    HalfOf(r, Val(b));
    GMulStep(n, gen, Num(a), Low(b, r));
    assert Low(b, r) / 2 == r && Low(b, r) % 2 == Val(b);
    assert Num(If(b, a)) == if b == I then Num(a) else 0 by {
      NumNil();
    }
  }

  lemma {:induction false} MulNum(n: nat, gen: nat, g: Word, a: Word, b: Word)
    requires Represents(n, gen, g) && Len(a) == n
    ensures Num(Mul(g, a, b)) == GMul(n, gen, Num(a), Num(b))
    decreases b
  {
    match b
    case Nil =>
    case Oct(b0, b1, b2, b3, b4, b5, b6, b7, rest) =>
      hide Xor, GMul, Low, Add, Times, If, XTime, Len, Represents, Pow2;
      var x1 := Times(g, a);
      var x2 := Times(g, x1);
      var x3 := Times(g, x2);
      var x4 := Times(g, x3);
      var x5 := Times(g, x4);
      var x6 := Times(g, x5);
      var x7 := Times(g, x6);
      var x8 := Times(g, x7);
      TimesNum(n, gen, g, a);
      TimesNum(n, gen, g, x1);
      TimesNum(n, gen, g, x2);
      TimesNum(n, gen, g, x3);
      TimesNum(n, gen, g, x4);
      TimesNum(n, gen, g, x5);
      TimesNum(n, gen, g, x6);
      TimesNum(n, gen, g, x7);
      MulNum(n, gen, g, x8, rest);
      var m8, r8 := Mul(g, x8, rest), Num(rest);
      var m7, r7 := Add(If(b7, x7), m8), Low(b7, r8);
      var m6, r6 := Add(If(b6, x6), m7), Low(b6, r7);
      var m5, r5 := Add(If(b5, x5), m6), Low(b5, r6);
      var m4, r4 := Add(If(b4, x4), m5), Low(b4, r5);
      var m3, r3 := Add(If(b3, x3), m4), Low(b3, r4);
      var m2, r2 := Add(If(b2, x2), m3), Low(b2, r3);
      var m1, r1 := Add(If(b1, x1), m2), Low(b1, r2);
      MulBit(n, gen, x7, x8, b7, r8, If(b7, x7), m8);
      MulBit(n, gen, x6, x7, b6, r7, If(b6, x6), m7);
      MulBit(n, gen, x5, x6, b5, r6, If(b5, x5), m6);
      MulBit(n, gen, x4, x5, b4, r5, If(b4, x4), m5);
      MulBit(n, gen, x3, x4, b3, r4, If(b3, x3), m4);
      MulBit(n, gen, x2, x3, b2, r3, If(b2, x2), m3);
      MulBit(n, gen, x1, x2, b1, r2, If(b1, x1), m2);
      MulBit(n, gen, a, x1, b0, r1, If(b0, a), m1);
  }

  lemma {:induction false} NumInjective(a: Word, b: Word)
    requires Len(a) == Len(b) && Num(a) == Num(b)
    ensures a == b
  {
    if a.Oct? && b.Oct? {
      LowInjective(a, b);
      NumInjective(a.rest, b.rest);
    }
  }

  lemma LowInjective(a: Word, b: Word)
    requires a.Oct? && b.Oct? && Num(a) == Num(b)
    ensures Num(a.rest) == Num(b.rest) && a == b.(rest := a.rest)
  {
    var u7, v7 := Low(a.b7, Num(a.rest)), Low(b.b7, Num(b.rest));
    var u6, v6 := Low(a.b6, u7), Low(b.b6, v7);
    var u5, v5 := Low(a.b5, u6), Low(b.b5, v6);
    var u4, v4 := Low(a.b4, u5), Low(b.b4, v5);
    var u3, v3 := Low(a.b3, u4), Low(b.b3, v4);
    var u2, v2 := Low(a.b2, u3), Low(b.b2, v3);
    var u1, v1 := Low(a.b1, u2), Low(b.b1, v2);
    assert Low(a.b0, u1) == Low(b.b0, v1);
    LowSame(a.b0, b.b0, u1, v1);
    LowSame(a.b1, b.b1, u2, v2);
    LowSame(a.b2, b.b2, u3, v3);
    LowSame(a.b3, b.b3, u4, v4);
    LowSame(a.b4, b.b4, u5, v5);
    LowSame(a.b5, b.b5, u6, v6);
    LowSame(a.b6, b.b6, u7, v7);
    LowSame(a.b7, b.b7, Num(a.rest), Num(b.rest));
  }

  lemma LowSame(a: Bit, b: Bit, u: nat, v: nat)
    requires Low(a, u) == Low(b, v)
    ensures a == b && u == v
  {
  }
}
