/** GaloisLongMultiplyTable<Galois16> and ReedSolomon<Galois16>::Process: multiplying a whole buffer by
    one factor with tables of products of bytes. */
module LongMultiply {
  import opened Bytes
  import opened Bits
  import opened Galois
  import opened Orders
  import opened Generators
  import opened GaloisTables
  import opened Galois16
  import opened ReedSolomon

  // ----- the product table

  /** The k-th entry of the table: three blocks of 256 * 256 products, low * low, low * high and high * high */
  function Entry(k: nat): u16
    requires k < 0x30000
  {
    var block, ii, jj := k / 0x10000, k / 256 % 256, k % 256;
    if block == 0 then Mul16(ii, jj)
    else if block == 1 then Mul16(ii, 256 * jj)
    else Mul16(256 * ii, 256 * jj)
  }

  lemma EntryIndex(k: nat, block: nat, ii: u8, jj: u8)
    requires block < 3 && k == block * 0x10000 + ii * 256 + jj
    ensures k < 0x30000 && k / 0x10000 == block && k / 256 % 256 == ii && k % 256 == jj
  {
    DivModUnique(256, k, block * 256 + ii, jj);
    DivModUnique(256, block * 256 + ii, block, ii);
    DivModUnique(0x10000, k, block, ii * 256 + jj);
  }

  lemma EntryIs(k: nat, block: nat, ii: u8, jj: u8)
    requires k < 0x30000 && k / 0x10000 == block && k / 256 % 256 == ii && k % 256 == jj
    ensures Entry(k) == if block == 0 then Mul16(ii, jj) else if block == 1 then Mul16(ii, 256 * jj)
                        else Mul16(256 * ii, 256 * jj)
  {
  }

  class LongMultiplyTable {
    const tables: array<u16>

    ghost predicate Valid()
      reads this, tables
    {
      tables.Length == 0x30000 && forall k :: 0 <= k < 0x30000 ==> tables[k] == Entry(k)
    }

    constructor (galois: GaloisTable)
      requires galois.Valid() && galois.bits == 16 && galois.generator == G16
      ensures Valid() && fresh(tables)
    {
      tables := new u16[0x30000];
      new;
      hide Entry;
      var table := 0;
      for i := 0 to 2
        invariant table == if i == 0 then 0 else if i == 1 then 0x20000 else 0x30000
        invariant forall k :: 0 <= k < table ==> tables[k] == Entry(k)
      {
        for j := i to 2
          invariant table == (if i == 0 then j else 1 + j) * 0x10000
          invariant forall k :: 0 <= k < table ==> tables[k] == Entry(k)
        {
          FillProducts(galois, tables, table, i, j);
          table := table + 0x10000;
        }
      }
    }
  }

  /** The 256 * 256 products of a byte shifted by 8 i with a byte shifted by 8 j */
  method FillProducts(galois: GaloisTable, tables: array<u16>, start: nat, i: nat, j: nat)
    requires galois.Valid() && galois.bits == 16 && galois.generator == G16
    requires tables.Length == 0x30000 && i <= j < 2 && start == (if i == 0 then j else 2) * 0x10000
    requires tables as object != galois.log && tables as object != galois.antilog
    modifies tables
    ensures forall k :: start <= k < start + 0x10000 ==> tables[k] == Entry(k)
    ensures forall k :: 0 <= k < 0x30000 && !(start <= k < start + 0x10000) ==> tables[k] == old(tables[k])
  {
    hide Entry, GMul, Primitive, Filled, Pow2;
    var table := start;
    for ii := 0 to 256
      invariant table == start + ii * 256
      invariant forall k :: start <= k < table ==> tables[k] == Entry(k)
      invariant forall k :: 0 <= k < 0x30000 && !(start <= k < table) ==> tables[k] == old(tables[k])
    {
      for jj := 0 to 256
        invariant table == start + ii * 256 + jj
        invariant forall k :: start <= k < table ==> tables[k] == Entry(k)
        invariant forall k :: 0 <= k < 0x30000 && !(start <= k < table) ==> tables[k] == old(tables[k])
      {
        EntryProduct(if i == 0 then j else 2, i, j, ii, jj);
        tables[table] := galois.Mul(if i == 0 then ii else 256 * ii, if j == 0 then jj else 256 * jj);
        table := table + 1;
      }
    }
  }

  lemma EntryProduct(block: nat, i: nat, j: nat, ii: u8, jj: u8)
    requires i <= j < 2 && block == if i == 0 then j else 2
    ensures var k := block * 0x10000 + ii * 256 + jj;
            k < 0x30000 &&
            Entry(k) == GMul(16, G16, if i == 0 then ii else 256 * ii, if j == 0 then jj else 256 * jj)
    ensures Pow2(16) == 65536
  {
    hide GMul, Gen, Primitive, Pow2, Entry;
    Setting();
    var k := block * 0x10000 + ii * 256 + jj;
    EntryIndex(k, block, ii, jj);
    EntryIs(k, block, ii, jj);
  }

  // ----- Process

  /** Two bytes as a 16-bit number, low byte first */
  function Pair(b0: u8, b1: u8): u16 {
    b0 as nat + 256 * b1 as nat
  }

  lemma PairIsXor(b0: u8, b1: u8)
    ensures 256 * b1 as nat < 65536 && Xor(b0, 256 * b1 as nat) == Pair(b0, b1)
  {
    hide Xor;
    assert Pow2(4) == 16;
    assert Pow2(8) == 256;
    hide Pow2;
    XorSplit(8, b0, 0, 0, b1);
    XorZero(b0);
    XorZero(b1);
  }

  /** A product is the sum of the products with the low and with the high byte. */
  lemma SplitProduct(x: u16, b0: u8, b1: u8)
    ensures Add16(Mul16(x, b0), Mul16(x, 256 * b1 as nat)) == Mul16(x, Pair(b0, b1))
    ensures Add16(Mul16(b0, x), Mul16(256 * b1 as nat, x)) == Mul16(Pair(b0, b1), x)
  {
    hide GMul, Gen, Primitive, Xor, Pow2;
    Setting();
    PairIsXor(b0, b1);
    GMulAddRight(16, G16, x, b0, 256 * b1 as nat);
    GMulAddLeft(16, G16, b0, 256 * b1 as nat, x);
  }

  /** L and H hold the products of the factor with every low and every high byte. */
  ghost predicate Products(L: array<u16>, H: array<u16>, factor: u16)
    reads L, H
  {
    && L.Length == H.Length == 256
    && (forall i :: 0 <= i < 256 ==> L[i] == Mul16(factor, i))
    && (forall i :: 0 <= i < 256 ==> H[i] == Mul16(factor, 256 * i))
  }

  lemma LookedUp(factor: u16, i: u8)
    ensures var fl, fh := factor % 256, factor / 256;
            && fl < 256 && fh < 256
            && Add16(Entry(fl * 256 + i), Entry((1 * 256 + i as nat) * 256 + fh)) == Mul16(factor, i)
            && Add16(Entry((1 * 256 + fl) * 256 + i), Entry((2 * 256 + fh) * 256 + i)) == Mul16(factor, 256 * i as nat)
  {
    hide Entry, Mul16, Add16;
    var fl: u8, fh: u8 := factor % 256, factor / 256;
    var x: u16 := 256 * i as nat;
    var k0, k1, k2, k3 := fl as nat * 256 + i, 0x10000 + i as nat * 256 + fh, 0x10000 + fl as nat * 256 + i,
        0x20000 + fh as nat * 256 + i;
    EntryIndex(k0, 0, fl, i);
    EntryIs(k0, 0, fl, i);
    EntryIndex(k1, 1, i, fh);
    EntryIs(k1, 1, i, fh);
    EntryIndex(k2, 1, fl, i);
    EntryIs(k2, 1, fl, i);
    EntryIndex(k3, 2, fh, i);
    EntryIs(k3, 2, fh, i);
    Laws(i, 256 * fh as nat, 0);
    SplitProduct(i, fl, fh);
    SplitProduct(x, fl, fh);
    assert Pair(fl, fh) == factor;
  }

  /** Combine the four tables of byte products into two; the high * low one is read by stride. */
  method CombineTables(t: LongMultiplyTable, factor: u16) returns (L: array<u16>, H: array<u16>)
    requires t.Valid()
    ensures Products(L, H, factor) && fresh(L) && fresh(H)
  {
    hide Entry, Mul16, Add16;
    L := new u16[256];
    H := new u16[256];
    var fl, fh := factor % 256, factor / 256;
    for i := 0 to 256
      invariant forall j :: 0 <= j < i ==> L[j] == Mul16(factor, j)
      invariant forall j :: 0 <= j < i ==> H[j] == Mul16(factor, 256 * j)
    {
      LookedUp(factor, i);
      L[i] := Add16(t.tables[fl * 256 + i], t.tables[(1 * 256 + i) * 256 + fh]);
      H[i] := Add16(t.tables[(1 * 256 + fl) * 256 + i], t.tables[(2 * 256 + fh) * 256 + i]);
    }
  }

  // ----- one 32-bit word

  function Word(lo: u16, hi: u16): nat {
    lo as nat + 65536 * hi as nat
  }

  lemma WordXor(d0: u16, d1: u16, a: u16, b: u16)
    ensures Xor(Word(d0, d1), a) == Word(Add16(d0, a), d1)
    ensures Xor(Word(d0, d1), 65536 * b as nat) == Word(d0, Add16(d1, b))
  {
    hide Xor, Gen, Primitive, Pow2;
    Setting();
    XorSplit(16, d0, a, d1, 0);
    XorSplit(16, d0, 0, d1, b);
    XorZero(d0);
    XorZero(d1);
  }

  /** What the loop of Process does to one word, half by half */
  lemma WordStep(factor: u16, d0: u16, d1: u16, b0: u8, b1: u8, b2: u8, b3: u8)
    ensures Xor(Xor(Xor(Xor(Word(d0, d1), Mul16(factor, b0)), Mul16(factor, 256 * b1 as nat)),
                    65536 * Mul16(factor, b2) as nat), 65536 * Mul16(factor, 256 * b3 as nat) as nat)
         == Word(Add16(d0, Mul16(factor, Pair(b0, b1))), Add16(d1, Mul16(factor, Pair(b2, b3))))
  {
    hide Xor, Mul16, Add16, Word, Pair;
    var p0, p1, p2, p3 := Mul16(factor, b0), Mul16(factor, 256 * b1 as nat), Mul16(factor, b2),
        Mul16(factor, 256 * b3 as nat);
    WordXor(d0, d1, p0, 0);
    WordXor(Add16(d0, p0), d1, p1, 0);
    WordXor(Add16(Add16(d0, p0), p1), d1, 0, p2);
    WordXor(Add16(Add16(d0, p0), p1), Add16(d1, p2), 0, p3);
    Laws(d0, p0, p1);
    Laws(d1, p2, p3);
    SplitProduct(factor, b0, b1);
    SplitProduct(factor, b2, b3);
  }

  lemma WordBytes(b0: u8, b1: u8, b2: u8, b3: u8, s: nat)
    requires s == Word(Pair(b0, b1), Pair(b2, b3))
    ensures s % 256 == b0 && s / 256 % 256 == b1 && s / 65536 % 256 == b2 && s / 16777216 % 256 == b3
  {
    DivModUnique(256, s, b1 as nat + 256 * b2 as nat + 65536 * b3 as nat, b0);
    DivModUnique(256, b1 as nat + 256 * b2 as nat + 65536 * b3 as nat, b2 as nat + 256 * b3 as nat, b1);
    DivModUnique(65536, s, b2 as nat + 256 * b3 as nat, Pair(b0, b1));
    DivModUnique(256, b2 as nat + 256 * b3 as nat, b3, b2);
    DivModUnique(16777216, s, b3, b0 as nat + 256 * b1 as nat + 65536 * b2 as nat);
    DivModUnique(256, b3, 0, b3);
  }

  lemma BytesOf(r: u16)
    ensures Pair(r % 256, r / 256) == r
  {
  }

  /** Read the k-th 32-bit word of a buffer. */
  method Load(src: array<u8>, k: nat) returns (s: nat)
    requires 4 * k + 3 < src.Length
    ensures s == Word(Pair(src[4 * k], src[4 * k + 1]), Pair(src[4 * k + 2], src[4 * k + 3]))
  {
    s := src[4 * k] as nat + 256 * src[4 * k + 1] as nat + 65536 * src[4 * k + 2] as nat
        + 16777216 * src[4 * k + 3] as nat;
  }

  // ----- Process

  /** The h-th 16-bit number of a buffer, of a row of the output buffers */
  ghost function SourceHalf(src: array<u8>, h: nat): u16
    requires 2 * h + 1 < src.Length
    reads src
  {
    Pair(src[2 * h], src[2 * h + 1])
  }

  ghost function TargetHalf(out: array2<u8>, row: nat, h: nat): u16
    requires row < out.Length0 && 2 * h + 1 < out.Length1
    reads out
  {
    Pair(out[row, 2 * h], out[row, 2 * h + 1])
  }

  /** Exclusive-or the products of the four bytes of s into d. */
  method MixWord(L: array<u16>, H: array<u16>, ghost factor: u16, s: nat, d: nat,
                 ghost d0: u16, ghost d1: u16, ghost b0: u8, ghost b1: u8, ghost b2: u8, ghost b3: u8) returns (r: nat)
    requires Products(L, H, factor)
    requires s == Word(Pair(b0, b1), Pair(b2, b3)) && d == Word(d0, d1)
    ensures r == Word(Add16(d0, Mul16(factor, Pair(b0, b1))), Add16(d1, Mul16(factor, Pair(b2, b3))))
  {
    hide Xor, Mul16, Add16, Word, Pair;
    WordBytes(b0, b1, b2, b3, s);
    WordStep(factor, d0, d1, b0, b1, b2, b3);
    r := Xor(Xor(Xor(Xor(d, L[s % 256]), H[s / 256 % 256]), 65536 * L[s / 65536 % 256] as nat),
             65536 * H[s / 16777216 % 256] as nat);
  }

  method ToBytes(d: nat, ghost r0: u16, ghost r1: u16) returns (b0: u8, b1: u8, b2: u8, b3: u8)
    requires d == Word(r0, r1)
    ensures Pair(b0, b1) == r0 && Pair(b2, b3) == r1
  {
    BytesOf(r0);
    BytesOf(r1);
    hide Word, Pair;
    ghost var c0: u8, c1: u8, c2: u8, c3: u8 := r0 % 256, r0 / 256, r1 % 256, r1 / 256;
    WordBytes(c0, c1, c2, c3, d);
    b0, b1, b2, b3 := d % 256, d / 256 % 256, d / 65536 % 256, d / 16777216 % 256;
  }

  /** Write the k-th 32-bit word of a row. */
  method Store(out: array2<u8>, row: nat, k: nat, d: nat, ghost r0: u16, ghost r1: u16)
    requires row < out.Length0 && 4 * k + 3 < out.Length1 && d == Word(r0, r1)
    modifies out
    ensures TargetHalf(out, row, 2 * k) == r0 && TargetHalf(out, row, 2 * k + 1) == r1
    ensures forall i, j :: 0 <= i < out.Length0 && 0 <= j < out.Length1 && !(i == row && 4 * k <= j < 4 * k + 4) ==>
              out[i, j] == old(out[i, j])
  {
    hide Word, Pair;
    var b0, b1, b2, b3 := ToBytes(d, r0, r1);
    out[row, 4 * k] := b0;
    out[row, 4 * k + 1] := b1;
    out[row, 4 * k + 2] := b2;
    out[row, 4 * k + 3] := b3;
  }

  /** The body of the loop of Process */
  method ProcessWord(L: array<u16>, H: array<u16>, ghost factor: u16, src: array<u8>, out: array2<u8>, row: nat, k: nat)
    requires Products(L, H, factor) && row < out.Length0
    requires 4 * k + 3 < src.Length && 4 * k + 3 < out.Length1 && out as object != src
    modifies out
    ensures TargetHalf(out, row, 2 * k)
         == Add16(old(TargetHalf(out, row, 2 * k)), Mul16(factor, SourceHalf(src, 2 * k)))
    ensures TargetHalf(out, row, 2 * k + 1)
         == Add16(old(TargetHalf(out, row, 2 * k + 1)), Mul16(factor, SourceHalf(src, 2 * k + 1)))
    ensures forall i, j :: 0 <= i < out.Length0 && 0 <= j < out.Length1 && !(i == row && 4 * k <= j < 4 * k + 4) ==>
              out[i, j] == old(out[i, j])
  {
    hide Mul16, Add16, Products;
    var s := Load(src, k);
    var d := out[row, 4 * k] as nat + 256 * out[row, 4 * k + 1] as nat + 65536 * out[row, 4 * k + 2] as nat
             + 16777216 * out[row, 4 * k + 3] as nat;
    ghost var d0, d1 := TargetHalf(out, row, 2 * k), TargetHalf(out, row, 2 * k + 1);
    assert d == Word(d0, d1);
    hide Word, Pair;
    var r := MixWord(L, H, factor, s, d, d0, d1, src[4 * k], src[4 * k + 1], src[4 * k + 2], src[4 * k + 3]);
    Store(out, row, k, r, Add16(d0, Mul16(factor, SourceHalf(src, 2 * k))),
          Add16(d1, Mul16(factor, SourceHalf(src, 2 * k + 1))));
  }

  /** Process: add the input buffer, times one entry of the matrix, to a row of the output buffers. */
  method Process(rs: ReedSolomon<u16>, t: LongMultiplyTable, size: nat, inputindex: nat, src: array<u8>,
                 outputindex: nat, out: array2<u8>)
    requires t.Valid() && rs.leftmatrix != null && rs.leftmatrix as object != out
    requires outputindex < rs.leftmatrix.Length0 == out.Length0 && inputindex < rs.leftmatrix.Length1
    requires size % 4 == 0 && size <= src.Length && size <= out.Length1 && out as object != src
             && out as object != t.tables
    modifies out
    ensures forall h :: 0 <= h < size / 2 ==>
              TargetHalf(out, outputindex, h) == Add16(old(TargetHalf(out, outputindex, h)),
                Mul16(rs.leftmatrix[outputindex, inputindex], SourceHalf(src, h)))
    ensures forall i, j :: 0 <= i < out.Length0 && 0 <= j < out.Length1 && !(i == outputindex && j < size) ==>
              out[i, j] == old(out[i, j])
  {
    hide Mul16, Add16, Pair;
    var factor := rs.leftmatrix[outputindex, inputindex];
    if factor == 0 {
      forall h | 0 <= h < size / 2
        ensures Add16(TargetHalf(out, outputindex, h), Mul16(factor, SourceHalf(src, h)))
             == TargetHalf(out, outputindex, h)
      {
        TimesZero(TargetHalf(out, outputindex, h), SourceHalf(src, h));
      }
      return;
    }
    var L, H := CombineTables(t, factor);
    var k := 0;
    while 4 * k < size
      invariant 4 * k <= size && Products(L, H, factor)
      invariant forall h :: 0 <= h < 2 * k ==>
        TargetHalf(out, outputindex, h)
            == Add16(old(TargetHalf(out, outputindex, h)), Mul16(factor, SourceHalf(src, h)))
      invariant forall i, j :: 0 <= i < out.Length0 && 0 <= j < out.Length1 && !(i == outputindex && j < 4 * k) ==>
        out[i, j] == old(out[i, j])
    {
      ProcessWord(L, H, factor, src, out, outputindex, k);
      k := k + 1;
    }
  }

  lemma TimesZero(d: u16, s: u16)
    ensures Add16(d, Mul16(0, s)) == d
  {
    hide GMul, Gen, Primitive;
    Setting();
    GMulZero(16, G16, s);
    XorZero(d);
  }
}
