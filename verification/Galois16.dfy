/** Galois<16, 0x1100B, u16>: the operators as a Field, and the tables as its implementation. */
module Galois16 {
  import opened Bits
  import opened Galois
  import opened Orders
  import opened Generators
  import opened GaloisTables
  import opened Fields

  type u16 = x: nat | x < 65536

  lemma Setting()
    ensures Primitive(16, G16) && Gen(16, G16) && Pow2(16) == 65536
  {
    Primitive16();
  }

  function Add16(a: u16, b: u16): u16 {
    Setting();
    XorBound(16, a, b);
    Xor(a, b)
  }

  function Mul16(a: u16, b: u16): u16 {
    Setting();
    GMulBound(16, G16, a, b);
    GMul(16, G16, a, b)
  }

  /** b^65534 is the inverse of b. */
  function Inverse16(b: u16): u16 {
    Setting();
    GPowBound(16, G16, b, 65534);
    GPow(16, G16, b, 65534)
  }

  function Div16(a: u16, b: u16): u16 {
    Mul16(a, Inverse16(b))
  }

  function GF16(): Field<u16> {
    Field(0, 1, (a, b) => Add16(a, b), (a, b) => Mul16(a, b), (a, b) => Div16(a, b))
  }

  lemma {:induction false} GPowBound(n: nat, g: nat, b: nat, k: nat)
    requires Gen(n, g) && b < Pow2(n)
    ensures GPow(n, g, b, k) < Pow2(n)
  {
    if k == 0 {
      XPowBound(n, g, 0);
    } else {
      GPowBound(n, g, b, k - 1);
      GMulBound(n, g, GPow(n, g, b, k - 1), b);
    }
  }

  lemma InverseWorks(b: u16)
    requires b != 0
    ensures Mul16(Inverse16(b), b) == 1
  {
    Setting();
    hide XPow, Primitive, Gen, Pow2, GMul;
    var l := LogExists(16, G16, b);
    GPowIsXPow(16, G16, l, 65535);
    PrimitiveOne(16, G16);
    XPowMultiple(16, G16, 65535, l);
    assert l * 65535 == 65535 * l;
    assert GPow(16, G16, b, 65535) == GMul(16, G16, GPow(16, G16, b, 65534), b);
  }

  lemma Laws(a: u16, b: u16, c: u16)
    ensures Add16(a, b) == Add16(b, a) && Add16(Add16(a, b), c) == Add16(a, Add16(b, c))
    ensures Add16(a, 0) == a && Add16(a, a) == 0
    ensures Mul16(a, b) == Mul16(b, a) && Mul16(Mul16(a, b), c) == Mul16(a, Mul16(b, c))
    ensures Mul16(a, 1) == a && Mul16(Add16(a, b), c) == Add16(Mul16(a, c), Mul16(b, c))
    ensures b != 0 ==> Mul16(Div16(a, b), b) == a
  {
    Setting();
    hide Gen, Pow2, GMul, Xor, Inverse16;
    XorComm(a, b);
    XorAssoc(a, b, c);
    XorZero(a);
    XorSelf(a);
    GMulComm(16, G16, a, b);
    GMulAssoc(16, G16, a, b, c);
    GMulOne(16, G16, a);
    GMulAddLeft(16, G16, a, b, c);
    if b != 0 {
      InverseWorks(b);
      GMulAssoc(16, G16, a, Inverse16(b), b);
    }
  }

  /** The 16-bit Galois numbers are a field. */
  lemma GF16IsField()
    ensures IsField(GF16())
  {
    hide Add16, Mul16, Div16;
    var f := GF16();
    forall a, b ensures f.add(a, b) == f.add(b, a) { Laws(a, b, 0); }
    forall a, b, c ensures f.add(f.add(a, b), c) == f.add(a, f.add(b, c)) { Laws(a, b, c); }
    forall a ensures f.add(a, f.zero) == a { Laws(a, 0, 0); }
    forall a ensures f.add(a, a) == f.zero { Laws(a, 0, 0); }
    forall a, b ensures f.mul(a, b) == f.mul(b, a) { Laws(a, b, 0); }
    forall a, b, c ensures f.mul(f.mul(a, b), c) == f.mul(a, f.mul(b, c)) { Laws(a, b, c); }
    forall a ensures f.mul(a, f.one) == a { Laws(a, 0, 0); }
    forall a, b, c ensures f.mul(f.add(a, b), c) == f.add(f.mul(a, c), f.mul(b, c)) { Laws(a, b, c); }
    forall a, b | b != f.zero ensures f.mul(f.div(a, b), b) == a { Laws(a, b, 0); }
  }

  lemma {:induction false} PowerIsGPow(b: u16, k: nat)
    ensures Power(GF16(), b, k) == GPow(16, G16, b, k)
  {
    Setting();
    if k > 0 { PowerIsGPow(b, k - 1); }
  }

  lemma TableMul(t: GaloisTable, a: u16, b: u16)
    requires t.Valid() && t.bits == 16 && t.generator == G16 && Pow2(16) == 65536
    ensures t.Mul(a, b) == GF16().mul(a, b)
  {
    Setting();
    hide Pow2, GMul, Gen, Primitive, Filled;
  }

  lemma TableQuotient(t: GaloisTable, a: u16, b: u16)
    requires t.Valid() && t.bits == 16 && t.generator == G16 && Pow2(16) == 65536
    ensures t.Div(a, b) < 65536
    ensures if b == 0 then t.Div(a, b) == 0 else GMul(16, G16, t.Div(a, b), b) == a
  {
    hide Pow2, GMul, Gen, Primitive, Filled;
  }

  lemma Quotient(d: u16, a: u16, b: u16)
    requires b != 0 && Mul16(d, b) == a
    ensures d == GF16().div(a, b)
  {
    hide IsField, Mul16, Div16;
    GF16IsField();
    Laws(a, b, 0);
    MulCancel(GF16(), d, Div16(a, b), b);
  }

  lemma TableDiv(t: GaloisTable, a: u16, b: u16)
    requires t.Valid() && t.bits == 16 && t.generator == G16 && Pow2(16) == 65536
    ensures t.Div(a, b) == GF16().div(a, b)
  {
    TableQuotient(t, a, b);
    hide IsField, Power, Pow2, GMul, Gen, Primitive, Filled, GPow, GaloisTable.Valid, Inverse16;
    if b == 0 {
      DivByZero(a);
    } else {
      Quotient(t.Div(a, b), a, b);
    }
  }

  lemma TablePow(t: GaloisTable, a: u16, k: nat)
    requires t.Valid() && t.bits == 16 && t.generator == G16 && k <= 65535 && Pow2(16) == 65536
    ensures t.Pow(a, k) == Power(GF16(), a, k)
  {
    Setting();
    PowerIsGPow(a, k);
    hide Power, Pow2, GMul, Gen, Primitive, Filled, GPow, GF16;
  }

  /** The table operators compute the operators of the field. */
  lemma TablesImplementField(t: GaloisTable, a: u16, b: u16, k: nat)
    requires t.Valid() && t.bits == 16 && t.generator == G16 && k <= 65535 && Pow2(16) == 65536
    ensures t.Mul(a, b) == GF16().mul(a, b)
    ensures t.Div(a, b) == GF16().div(a, b)
    ensures t.Pow(a, k) == Power(GF16(), a, k)
  {
    hide *;
    TableMul(t, a, b);
    TableDiv(t, a, b);
    TablePow(t, a, k);
  }

  lemma DivByZero(a: u16)
    ensures Div16(a, 0) == 0
  {
    Setting();
    GPowZero(16, G16, 65534);
    hide GMul, GPow, Gen;
    GMulZero(16, G16, a);
    GMulComm(16, G16, a, 0);
  }
}
