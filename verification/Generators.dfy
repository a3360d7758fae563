/** The two generators the program uses, 0x1100B over 16 bits and 0x11D over 8 bits, are primitive.
    The powers of x this takes are listed as words; each is one product of earlier ones. */
module Generators {
  import opened Bits
  import opened Galois
  import opened Orders
  import opened Words

  const G16: nat := 0x1100B
  const G8: nat := 0x11D

  // the generators without their leading terms
  const WORD16 := Oct(I, I, O, I, O, O, O, O, Oct(O, O, O, O, I, O, O, O, Nil))
  const WORD8 := Oct(I, O, I, I, I, O, O, O, Nil)

  // w is x^e in GF(2^16), in GF(2^8)
  ghost predicate Is16(e: nat, w: Word) {
    XPow(16, G16, e) == Num(w) && Len(w) == 16
  }

  ghost predicate Is8(e: nat, w: Word) {
    XPow(8, G8, e) == Num(w) && Len(w) == 8
  }

  lemma Represented16()
    ensures Represents(16, G16, WORD16) && Pow2(16) == 65536
  {
    assert Pow2(4) == 16;
    assert Pow2(8) == 256;
    assert Pow2(12) == 4096;
    assert Pow2(16) == 65536;
    assert Num(WORD16) == 0x100B;
    assert Len(WORD16) == 16;
  }

  lemma Represented8()
    ensures Represents(8, G8, WORD8) && Pow2(8) == 256
  {
    assert Pow2(4) == 16;
    assert Pow2(8) == 256;
    assert Num(WORD8) == 0x1D;
    assert Len(WORD8) == 8;
  }

  lemma Product16(d: nat, e: nat, u: Word, v: Word, w: Word)
    requires Is16(d, u) && Is16(e, v) && Mul(WORD16, u, v) == w && Len(w) == 16
    ensures Is16(d + e, w)
  {
    hide Represents, Num, Len, Mul, XPow;
    Represented16();
    MulNum(16, G16, WORD16, u, v);
    RepresentsGen(16, G16, WORD16);
    XPowSum(16, G16, d, e);
  }

  lemma Product8(d: nat, e: nat, u: Word, v: Word, w: Word)
    requires Is8(d, u) && Is8(e, v) && Mul(WORD8, u, v) == w && Len(w) == 8
    ensures Is8(d + e, w)
  {
    hide Represents, Num, Len, Mul, XPow;
    Represented8();
    MulNum(8, G8, WORD8, u, v);
    RepresentsGen(8, G8, WORD8);
    XPowSum(8, G8, d, e);
  }

  lemma RepresentsGen(n: nat, gen: nat, g: Word)
    requires Represents(n, gen, g)
    ensures Gen(n, gen)
  {
  }

  // powers of x in GF(2^16)
  const P16_1 := Oct(O, I, O, O, O, O, O, O, Oct(O, O, O, O, O, O, O, O, Nil))
  const P16_2 := Oct(O, O, I, O, O, O, O, O, Oct(O, O, O, O, O, O, O, O, Nil))
  const P16_4 := Oct(O, O, O, O, I, O, O, O, Oct(O, O, O, O, O, O, O, O, Nil))
  const P16_8 := Oct(O, O, O, O, O, O, O, O, Oct(I, O, O, O, O, O, O, O, Nil))
  const P16_16 := Oct(I, I, O, I, O, O, O, O, Oct(O, O, O, O, I, O, O, O, Nil))
  const P16_32 := Oct(O, I, I, I, I, I, I, I, Oct(I, I, O, I, I, O, O, O, Nil))
  const P16_64 := Oct(O, O, I, O, O, I, O, O, Oct(O, O, I, I, I, O, I, O, Nil))
  const P16_128 := Oct(I, I, I, O, O, O, I, O, Oct(O, I, I, O, O, I, I, I, Nil))
  const P16_256 := Oct(I, I, I, I, O, I, O, O, Oct(I, I, O, I, O, O, O, O, Nil))
  const P16_512 := Oct(O, I, I, I, I, O, O, I, Oct(O, I, I, O, I, O, O, O, Nil))
  const P16_1024 := Oct(O, O, O, I, I, I, I, O, Oct(O, I, O, I, O, O, O, O, Nil))
  const P16_2048 := Oct(O, O, O, O, O, O, O, I, Oct(I, I, I, O, I, O, O, O, Nil))
  const P16_4096 := Oct(I, I, I, O, O, I, O, O, Oct(I, I, O, I, I, O, O, O, Nil))
  const P16_8192 := Oct(I, O, I, O, O, I, I, O, Oct(I, O, I, I, O, O, O, O, Nil))
  const P16_16384 := Oct(I, O, I, I, O, O, I, O, Oct(O, I, I, O, I, O, I, O, Nil))
  const P16_32768 := Oct(O, I, I, O, O, O, I, I, Oct(O, O, O, O, I, I, I, I, Nil))
  const P16_65536 := Oct(O, I, O, O, O, O, O, O, Oct(O, O, O, O, O, O, O, O, Nil))
  const P16_257 := Oct(O, I, I, I, I, O, I, O, Oct(O, I, I, O, I, O, O, O, Nil))
  const P16_4112 := Oct(I, O, O, I, O, I, I, I, Oct(I, I, O, I, O, O, O, O, Nil))
  const P16_4369 := Oct(O, I, O, I, I, O, O, O, Oct(O, O, O, O, O, O, O, O, Nil))
  const P16_8738 := Oct(O, O, I, O, O, O, I, O, Oct(I, O, O, O, O, O, O, O, Nil))
  const P16_17476 := Oct(I, I, O, I, I, O, O, O, Oct(O, O, O, O, O, O, O, O, Nil))
  const P16_21845 := Oct(O, I, I, I, I, O, I, O, Oct(I, O, O, O, O, O, O, O, Nil))

  lemma Start16()
    ensures Is16(1, P16_1)
  {
    Represented16();
    assert XPow(16, G16, 0) == 1;
    assert XPow(16, G16, 1) == XTime(16, G16, 1) == 2;
    assert Num(P16_1) == 2 && Len(P16_1) == 16;
  }

  lemma Power16_2()
    requires Is16(1, P16_1)
    ensures Is16(2, P16_2)
  {
    hide Is16, XPow;
    Product16(1, 1, P16_1, P16_1, P16_2);
  }

  lemma Power16_4()
    requires Is16(2, P16_2)
    ensures Is16(4, P16_4)
  {
    hide Is16, XPow;
    Product16(2, 2, P16_2, P16_2, P16_4);
  }

  lemma Power16_8()
    requires Is16(4, P16_4)
    ensures Is16(8, P16_8)
  {
    hide Is16, XPow;
    Product16(4, 4, P16_4, P16_4, P16_8);
  }

  lemma Power16_16()
    requires Is16(8, P16_8)
    ensures Is16(16, P16_16)
  {
    hide Is16, XPow;
    Product16(8, 8, P16_8, P16_8, P16_16);
  }

  lemma Power16_32()
    requires Is16(16, P16_16)
    ensures Is16(32, P16_32)
  {
    hide Is16, XPow;
    Product16(16, 16, P16_16, P16_16, P16_32);
  }

  lemma Power16_64()
    requires Is16(32, P16_32)
    ensures Is16(64, P16_64)
  {
    hide Is16, XPow;
    Product16(32, 32, P16_32, P16_32, P16_64);
  }

  lemma Power16_128()
    requires Is16(64, P16_64)
    ensures Is16(128, P16_128)
  {
    hide Is16, XPow;
    Product16(64, 64, P16_64, P16_64, P16_128);
  }

  lemma Power16_256()
    requires Is16(128, P16_128)
    ensures Is16(256, P16_256)
  {
    hide Is16, XPow;
    Product16(128, 128, P16_128, P16_128, P16_256);
  }

  lemma Power16_512()
    requires Is16(256, P16_256)
    ensures Is16(512, P16_512)
  {
    hide Is16, XPow;
    Product16(256, 256, P16_256, P16_256, P16_512);
  }

  lemma Power16_1024()
    requires Is16(512, P16_512)
    ensures Is16(1024, P16_1024)
  {
    hide Is16, XPow;
    Product16(512, 512, P16_512, P16_512, P16_1024);
  }

  lemma Power16_2048()
    requires Is16(1024, P16_1024)
    ensures Is16(2048, P16_2048)
  {
    hide Is16, XPow;
    Product16(1024, 1024, P16_1024, P16_1024, P16_2048);
  }

  lemma Power16_4096()
    requires Is16(2048, P16_2048)
    ensures Is16(4096, P16_4096)
  {
    hide Is16, XPow;
    Product16(2048, 2048, P16_2048, P16_2048, P16_4096);
  }

  lemma Power16_8192()
    requires Is16(4096, P16_4096)
    ensures Is16(8192, P16_8192)
  {
    hide Is16, XPow;
    Product16(4096, 4096, P16_4096, P16_4096, P16_8192);
  }

  lemma Power16_16384()
    requires Is16(8192, P16_8192)
    ensures Is16(16384, P16_16384)
  {
    hide Is16, XPow;
    Product16(8192, 8192, P16_8192, P16_8192, P16_16384);
  }

  lemma Power16_32768()
    requires Is16(16384, P16_16384)
    ensures Is16(32768, P16_32768)
  {
    hide Is16, XPow;
    Product16(16384, 16384, P16_16384, P16_16384, P16_32768);
  }

  lemma Power16_65536()
    requires Is16(32768, P16_32768)
    ensures Is16(65536, P16_65536)
  {
    hide Is16, XPow;
    Product16(32768, 32768, P16_32768, P16_32768, P16_65536);
  }

  lemma Power16_257()
    requires Is16(1, P16_1) && Is16(256, P16_256)
    ensures Is16(257, P16_257)
  {
    hide Is16, XPow;
    Product16(1, 256, P16_1, P16_256, P16_257);
  }

  lemma Power16_4112()
    requires Is16(16, P16_16) && Is16(4096, P16_4096)
    ensures Is16(4112, P16_4112)
  {
    hide Is16, XPow;
    Product16(16, 4096, P16_16, P16_4096, P16_4112);
  }

  lemma Power16_4369()
    requires Is16(257, P16_257) && Is16(4112, P16_4112)
    ensures Is16(4369, P16_4369)
  {
    hide Is16, XPow;
    Product16(257, 4112, P16_257, P16_4112, P16_4369);
  }

  lemma Power16_8738()
    requires Is16(4369, P16_4369)
    ensures Is16(8738, P16_8738)
  {
    hide Is16, XPow;
    Product16(4369, 4369, P16_4369, P16_4369, P16_8738);
  }

  lemma Power16_17476()
    requires Is16(8738, P16_8738)
    ensures Is16(17476, P16_17476)
  {
    hide Is16, XPow;
    Product16(8738, 8738, P16_8738, P16_8738, P16_17476);
  }

  lemma Power16_21845()
    requires Is16(17476, P16_17476) && Is16(4369, P16_4369)
    ensures Is16(21845, P16_21845)
  {
    hide Is16, XPow;
    Product16(17476, 4369, P16_17476, P16_4369, P16_21845);
  }

  // powers of x in GF(2^8)
  const P8_1 := Oct(O, I, O, O, O, O, O, O, Nil)
  const P8_2 := Oct(O, O, I, O, O, O, O, O, Nil)
  const P8_4 := Oct(O, O, O, O, I, O, O, O, Nil)
  const P8_8 := Oct(I, O, I, I, I, O, O, O, Nil)
  const P8_16 := Oct(O, O, I, I, O, O, I, O, Nil)
  const P8_32 := Oct(I, O, I, I, I, O, O, I, Nil)
  const P8_64 := Oct(I, I, I, I, I, O, I, O, Nil)
  const P8_128 := Oct(I, O, I, O, O, O, O, I, Nil)
  const P8_256 := Oct(O, I, O, O, O, O, O, O, Nil)
  const P8_17 := Oct(O, O, O, I, I, O, O, I, Nil)
  const P8_68 := Oct(I, O, O, I, I, O, O, I, Nil)
  const P8_85 := Oct(O, I, I, O, I, O, I, I, Nil)

  lemma Start8()
    ensures Is8(1, P8_1)
  {
    Represented8();
    assert XPow(8, G8, 0) == 1;
    assert XPow(8, G8, 1) == XTime(8, G8, 1) == 2;
    assert Num(P8_1) == 2 && Len(P8_1) == 8;
  }

  lemma Power8_2()
    requires Is8(1, P8_1)
    ensures Is8(2, P8_2)
  {
    hide Is8, XPow;
    Product8(1, 1, P8_1, P8_1, P8_2);
  }

  lemma Power8_4()
    requires Is8(2, P8_2)
    ensures Is8(4, P8_4)
  {
    hide Is8, XPow;
    Product8(2, 2, P8_2, P8_2, P8_4);
  }

  lemma Power8_8()
    requires Is8(4, P8_4)
    ensures Is8(8, P8_8)
  {
    hide Is8, XPow;
    Product8(4, 4, P8_4, P8_4, P8_8);
  }

  lemma Power8_16()
    requires Is8(8, P8_8)
    ensures Is8(16, P8_16)
  {
    hide Is8, XPow;
    Product8(8, 8, P8_8, P8_8, P8_16);
  }

  lemma Power8_32()
    requires Is8(16, P8_16)
    ensures Is8(32, P8_32)
  {
    hide Is8, XPow;
    Product8(16, 16, P8_16, P8_16, P8_32);
  }

  lemma Power8_64()
    requires Is8(32, P8_32)
    ensures Is8(64, P8_64)
  {
    hide Is8, XPow;
    Product8(32, 32, P8_32, P8_32, P8_64);
  }

  lemma Power8_128()
    requires Is8(64, P8_64)
    ensures Is8(128, P8_128)
  {
    hide Is8, XPow;
    Product8(64, 64, P8_64, P8_64, P8_128);
  }

  lemma Power8_256()
    requires Is8(128, P8_128)
    ensures Is8(256, P8_256)
  {
    hide Is8, XPow;
    Product8(128, 128, P8_128, P8_128, P8_256);
  }

  lemma Power8_17()
    requires Is8(1, P8_1) && Is8(16, P8_16)
    ensures Is8(17, P8_17)
  {
    hide Is8, XPow;
    Product8(1, 16, P8_1, P8_16, P8_17);
  }

  lemma Power8_68()
    requires Is8(4, P8_4) && Is8(64, P8_64)
    ensures Is8(68, P8_68)
  {
    hide Is8, XPow;
    Product8(4, 64, P8_4, P8_64, P8_68);
  }

  lemma Power8_85()
    requires Is8(17, P8_17) && Is8(68, P8_68)
    ensures Is8(85, P8_85)
  {
    hide Is8, XPow;
    Product8(17, 68, P8_17, P8_68, P8_85);
  }

  lemma Apart16(d: nat, e: nat, v: Word, w: Word)
    requires Is16(d, v) && Is16(e, w) && v != w
    ensures XPow(16, G16, d) != XPow(16, G16, e)
  {
    hide XPow, Num;
    if Num(v) == Num(w) { NumInjective(v, w); }
  }

  lemma Apart8(d: nat, e: nat, v: Word, w: Word)
    requires Is8(d, v) && Is8(e, w) && v != w
    ensures XPow(8, G8, d) != XPow(8, G8, e)
  {
    hide XPow, Num;
    if Num(v) == Num(w) { NumInjective(v, w); }
  }

  lemma Powers16()
    ensures Is16(1, P16_1) && Is16(256, P16_256) && Is16(257, P16_257) && Is16(4112, P16_4112)
    ensures Is16(4369, P16_4369) && Is16(17476, P16_17476) && Is16(21845, P16_21845) && Is16(65536, P16_65536)
  {
    hide *;
    Start16();
    Power16_2();
    Power16_4();
    Power16_8();
    Power16_16();
    Power16_32();
    Power16_64();
    Power16_128();
    Power16_256();
    Power16_512();
    Power16_1024();
    Power16_2048();
    Power16_4096();
    Power16_8192();
    Power16_16384();
    Power16_32768();
    Power16_65536();
    Power16_257();
    Power16_4112();
    Power16_4369();
    Power16_8738();
    Power16_17476();
    Power16_21845();
  }

  lemma Powers8()
    ensures Is8(1, P8_1) && Is8(16, P8_16) && Is8(17, P8_17) && Is8(68, P8_68) && Is8(85, P8_85) && Is8(256, P8_256)
  {
    hide *;
    Start8();
    Power8_2();
    Power8_4();
    Power8_8();
    Power8_16();
    Power8_32();
    Power8_64();
    Power8_128();
    Power8_256();
    Power8_17();
    Power8_68();
    Power8_85();
  }

  /** If x^m is 1 then multiplying by it changes nothing. */
  lemma OneShifts(n: nat, g: nat, m: nat, l: nat)
    requires Gen(n, g) && XPow(n, g, m) == 1
    ensures XPow(n, g, m + l) == XPow(n, g, l)
  {
    XPowSum(n, g, m, l);
    XPowBound(n, g, l);
    GMulOne(n, g, XPow(n, g, l));
  }

  lemma NotOne16(m: nat, l: nat, v: Word, w: Word)
    requires Is16(m + l, v) && Is16(l, w) && v != w
    ensures XPow(16, G16, m) != 1
  {
    hide Is16, XPow;
    Represented16();
    if XPow(16, G16, m) == 1 {
      OneShifts(16, G16, m, l);
      Apart16(m + l, l, v, w);
    }
  }

  lemma NotOne8(m: nat, l: nat, v: Word, w: Word)
    requires Is8(m + l, v) && Is8(l, w) && v != w
    ensures XPow(8, G8, m) != 1
  {
    hide Is8, XPow;
    Represented8();
    if XPow(8, G8, m) == 1 {
      OneShifts(8, G8, m, l);
      Apart8(m + l, l, v, w);
    }
  }

  /** Multiplication by x loses nothing, so x^(l+1) = x gives x^l = 1. */
  lemma StepBack(n: nat, g: nat, l: nat)
    requires Gen(n, g) && g % 2 == 1 && XPow(n, g, l + 1) == 2 && n >= 2
    ensures XPow(n, g, l) == 1
  {
    var a := XPow(n, g, l);
    if 2 * a >= Pow2(n) {
      XorHalf(2 * a, g);
    }
    assert XTime(n, g, a) == 2;
  }

  lemma PrimeByTrial(p: nat, k: nat)
    requires p >= 2 && k >= 2 && k * k > p
    requires forall m :: 2 <= m < k ==> p % m != 0
    ensures Prime(p)
  {
    forall m | 2 <= m < p
      ensures p % m != 0
    {
      if p % m == 0 && m >= k {
        SmallDivisor(p, m, k);
      }
    }
  }

  /** A large divisor has a small partner. */
  lemma SmallDivisor(p: nat, m: nat, k: nat)
    requires 2 <= k <= m < p && k * k > p && p % m == 0
    ensures 2 <= p / m < k && p % (p / m) == 0
  {
    var q := p / m;
    assert p == m * q;
    MulMono(m, q, k);
    MulLess(m, q);
    DivModUnique(q, p, m, 0);
  }

  lemma MulMono(m: nat, q: nat, k: nat)
    requires m >= k
    ensures q >= k ==> m * q >= k * k
  {
    if q >= k {
      assert m * q == k * k + k * (q - k) + (m - k) * q;
    }
  }

  lemma MulLess(m: nat, q: nat)
    ensures q < 2 ==> m * q <= m
  {
  }

  lemma SmallPrimes()
    ensures Prime(3) && Prime(5) && Prime(17) && Prime(257)
  {
    PrimeByTrial(3, 2);
    PrimeByTrial(5, 3);
    PrimeByTrial(17, 5);
    PrimeByTrial(257, 17);
  }

  lemma Primes16()
    ensures Product([3, 5, 17, 257]) == 65535 && forall p :: p in [3, 5, 17, 257] ==> Prime(p)
  {
    hide Prime;
    SmallPrimes();
    Product4(3, 5, 17, 257);
  }

  lemma Quotient16(p: nat)
    requires p == 3 || p == 5 || p == 17 || p == 257
    requires XPow(16, G16, 21845) != 1 && XPow(16, G16, 13107) != 1 && XPow(16, G16, 3855) != 1
             && XPow(16, G16, 255) != 1
    ensures XPow(16, G16, 65535 / p) != 1
  {
    hide *;
    assert 65535 / 3 == 21845 && 65535 / 5 == 13107 && 65535 / 17 == 3855 && 65535 / 257 == 255;
  }

  lemma Orders16()
    ensures Gen(16, G16) && XPow(16, G16, 65535) == 1
    ensures XPow(16, G16, 21845) != 1 && XPow(16, G16, 13107) != 1 && XPow(16, G16, 3855) != 1
            && XPow(16, G16, 255) != 1
  {
    Represented16();
    Powers16();
    hide Is16, XPow, Prime;
    RepresentsGen(16, G16, WORD16);
    NotOne16(255, 1, P16_256, P16_1);
    NotOne16(3855, 257, P16_4112, P16_257);
    NotOne16(13107, 4369, P16_17476, P16_4369);
    Final16();
  }

  /** The generator of the 16-bit field is primitive. */
  lemma Primitive16()
    ensures Primitive(16, G16) && Pow2(16) == 65536
  {
    Represented16();
    Orders16();
    Primes16();
    hide *;
    var ps := [3, 5, 17, 257];
    forall p | p in ps && p > 0 ensures XPow(16, G16, 65535 / p) != 1 {
      Quotient16(p);
    }
    PrimitiveByPrimes(16, G16, 65535, ps);
  }

  /** The generator of the 8-bit field is primitive. */
  lemma Primitive8()
    ensures Primitive(8, G8) && Pow2(8) == 256
  {
    Represented8();
    Powers8();
    hide Is8, XPow, Prime;
    RepresentsGen(8, G8, WORD8);
    NotOne8(15, 1, P8_16, P8_1);
    NotOne8(51, 17, P8_68, P8_17);
    Final8();
    SmallPrimes();
    assert Product([3, 5, 17]) == 255 by { Product3(3, 5, 17); }
    PrimitiveByPrimes(8, G8, 255, [3, 5, 17]);
  }

  lemma Product3(a: nat, b: nat, c: nat)
    ensures Product([a, b, c]) == a * (b * c)
  {
    assert [a, b, c][1..] == [b, c] && [b, c][1..] == [c] && [c][1..] == [];
    assert Product([c]) == c;
    assert Product([b, c]) == b * c;
  }

  lemma Product4(a: nat, b: nat, c: nat, d: nat)
    ensures Product([a, b, c, d]) == a * (b * (c * d))
  {
    assert [a, b, c, d][1..] == [b, c, d];
    Product3(b, c, d);
  }

  lemma FinalNumbers16()
    ensures Num(P16_65536) == 2 && Num(P16_21845) == 350
  {
  }

  /** x^65536 = x, and x^21845 is an even number */
  lemma Final16()
    requires Is16(65536, P16_65536) && Is16(21845, P16_21845)
    ensures XPow(16, G16, 65535) == 1 && XPow(16, G16, 21845) != 1
  {
    FinalNumbers16();
    hide XPow, Num, Represents;
    Represented16();
    RepresentsGen(16, G16, WORD16);
    StepBack(16, G16, 65535);
  }

  lemma FinalNumbers8()
    ensures Num(P8_256) == 2 && Num(P8_85) == 214
  {
  }

  lemma Final8()
    requires Is8(256, P8_256) && Is8(85, P8_85)
    ensures XPow(8, G8, 255) == 1 && XPow(8, G8, 85) != 1
  {
    FinalNumbers8();
    hide XPow, Num, Represents;
    Represented8();
    RepresentsGen(8, G8, WORD8);
    StepBack(8, G8, 255);
  }
}
