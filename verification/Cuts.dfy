/** The exponent of a recovery packet has 32 bits, but SetOutput takes 16: what the cut does to a repair. */
module Cuts {
  import opened Fields
  import opened Matrices
  import opened Vandermonde
  import opened Orders
  import opened Galois16
  import opened BaseSelection
  import opened ReedSolomon

  /** The cast to 16 bits */
  function Cut(e: nat): (c: nat)
    ensures c < 65536
  {
    e % 65536
  }

  function CutAll(exponents: seq<nat>): (c: seq<nat>)
    ensures |c| == |exponents|
  {
    seq(|exponents|, k requires 0 <= k < |exponents| => Cut(exponents[k]))
  }

  /** What is cut off is a multiple of the order of the bases. */
  predicate Harmless(e: nat) {
    (e / 65536) % LIMIT == 0
  }

  lemma CutOfSmall(e: nat)
    requires e < 65536
    ensures Cut(e) == e && Harmless(e)
  {
  }

  lemma CutOffRemainder(e: nat)
    ensures (e - Cut(e)) % LIMIT == 0 <==> Harmless(e)
  {
    var q := e / 65536;
    assert e - Cut(e) == LIMIT * q + q;
    DivModUnique(LIMIT, LIMIT * q + q, q + q / LIMIT, q % LIMIT);
  }

  /** The power of a base survives the cut exactly when the cut is harmless. */
  lemma CutPower(b: u16, i: nat, e: nat)
    requires IsBase(b, i)
    ensures Power(GF16(), b, e) == Power(GF16(), b, Cut(e)) <==> Harmless(e)
  {
    hide GF16, IsBase, Power, IsField, Cut, Harmless;
    var f, c := GF16(), Cut(e);
    CutSmaller(e);
    var d := e - c;
    GF16IsField();
    OneOf16();
    BasesDistinct(b, i, b, i);
    PowerNonzero(f, b, c);
    PowerSum(f, b, d, c);
    MulOne(f, Power(f, b, c));
    if Power(f, b, e) == Power(f, b, c) {
      MulCancel(f, Power(f, b, d), f.one, Power(f, b, c));
    }
    BaseOrder(b, i, d);
    CutOffRemainder(e);
  }

  lemma CutSmaller(e: nat)
    ensures Cut(e) <= e
  {
  }

  lemma OneOf16()
    ensures GF16().zero == 0 && GF16().one == 1
  {
  }

  lemma CutWord(bases: seq<u16>, data: seq<u16>, e: nat)
    requires Bases(bases) && |data| == |bases| && Harmless(e)
    ensures RecoveryWord(GF16(), bases, data, e) == RecoveryWord(GF16(), bases, data, Cut(e))
  {
    hide GF16, IsBase, Power, Cut, Harmless, Dot;
    forall i | 0 <= i < |bases| ensures Power(GF16(), bases[i], e) == Power(GF16(), bases[i], Cut(e)) {
      CutPower(bases[i], i, e);
    }
    assert Powers(GF16(), bases, e) == Powers(GF16(), bases, Cut(e));
  }

  /** Data whose recovery words are the powers of the first base */
  function FirstOnly(n: nat): (data: seq<u16>)
    ensures |data| == n
  {
    if n == 0 then [] else [GF16().one] + Zeros(GF16(), n - 1)
  }

  lemma FirstWord(bases: seq<u16>, e: nat)
    requires |bases| > 0
    ensures RecoveryWord(GF16(), bases, FirstOnly(|bases|), e) == Power(GF16(), bases[0], e)
  {
    hide GF16, Power, Dot, IsField;
    GF16IsField();
    DotSingle(GF16(), Powers(GF16(), bases, e), FirstOnly(|bases|), |bases|, 0);
    MulOne(GF16(), Power(GF16(), bases[0], e));
  }

  /** The words that are read, with the exponents in full, give back the missing blocks of all data exactly when
      every cut is harmless. */
  lemma CutReconstruction(l: Matrix<u16>, present: seq<bool>, bases: seq<u16>, exponents: seq<nat>)
    requires Bases(bases) && |bases| == |present| && |exponents| == |Indexes(present, false, |present|)|
    requires Reconstructs(GF16(), l, present, bases, CutAll(exponents), [])
    requires Faithful(GF16(), l, present, bases, CutAll(exponents), [])
    ensures (forall data: seq<u16> :: |data| == |bases| ==>
               Gives(GF16(), l, present, bases, data, RecoveryWords(GF16(), bases, data, exponents), []))
            <==> forall k :: 0 <= k < |exponents| ==> Harmless(exponents[k])
  {
    hide GF16, Power, Dot, Harmless, Cut, Bases, Indexes, RecoveryWord, Gives, Reconstructs, Faithful, FirstOnly,
         IsBase;
    if forall k :: 0 <= k < |exponents| ==> Harmless(exponents[k]) {
      forall data: seq<u16> | |data| == |bases|
        ensures Gives(GF16(), l, present, bases, data, RecoveryWords(GF16(), bases, data, exponents), [])
      {
        HarmlessGives(l, present, bases, exponents, data);
      }
    } else {
      var k :| 0 <= k < |exponents| && !Harmless(exponents[k]);
      HarmfulGivesNot(l, present, bases, exponents, k);
    }
  }

  lemma HarmlessGives(l: Matrix<u16>, present: seq<bool>, bases: seq<u16>, exponents: seq<nat>, data: seq<u16>)
    requires Bases(bases) && |bases| == |present| == |data| && |exponents| == |Indexes(present, false, |present|)|
    requires Reconstructs(GF16(), l, present, bases, CutAll(exponents), [])
    requires forall k :: 0 <= k < |exponents| ==> Harmless(exponents[k])
    ensures Gives(GF16(), l, present, bases, data, RecoveryWords(GF16(), bases, data, exponents), [])
  {
    hide GF16, Power, Dot, Harmless, Cut, Bases, Indexes, RecoveryWord, Outputs, IsBase;
    var u := RecoveryWords(GF16(), bases, data, CutAll(exponents));
    forall k | 0 <= k < |exponents| ensures RecoveryWords(GF16(), bases, data, exponents)[k] == u[k] {
      CutWord(bases, data, exponents[k]);
    }
    assert RecoveryWords(GF16(), bases, data, exponents) == u;
  }

  lemma HarmfulGivesNot(l: Matrix<u16>, present: seq<bool>, bases: seq<u16>, exponents: seq<nat>, k: nat)
    requires Bases(bases) && |bases| == |present| && |exponents| == |Indexes(present, false, |present|)|
    requires Faithful(GF16(), l, present, bases, CutAll(exponents), [])
    requires k < |exponents| && !Harmless(exponents[k])
    ensures !Gives(GF16(), l, present, bases, FirstOnly(|bases|),
                   RecoveryWords(GF16(), bases, FirstOnly(|bases|), exponents), [])
  {
    hide GF16, Power, Dot, Harmless, Cut, Indexes, RecoveryWord, Gives, FirstOnly, IsBase;
    var data := FirstOnly(|bases|);
    assert |bases| > 0 by { IndexesFit(present, false, |present|); }
    FirstWord(bases, exponents[k]);
    FirstWord(bases, Cut(exponents[k]));
    CutPower(bases[0], 0, exponents[k]);
    var u := RecoveryWords(GF16(), bases, data, exponents);
    assert u[k] != RecoveryWords(GF16(), bases, data, CutAll(exponents))[k];
  }

  lemma IndexesFit(present: seq<bool>, want: bool, n: nat)
    requires n <= |present|
    ensures |Indexes(present, want, n)| > 0 ==> n > 0
  {
  }

  // ----- the cut at work

  lemma OneWord<T(!new)>(f: Field<T>, a: seq<T>, x: seq<T>)
    requires IsField(f) && |a| == |x| == 1
    ensures Dot(f, a, x, 1) == f.mul(a[0], x[0])
  {
    hide IsField;
    DotSingle(f, a, x, 1, 0);
  }

  lemma OneLost(bases: seq<u16>, data: seq<u16>, used: seq<nat>)
    requires |bases| == |data| == |used| == 1
    ensures |Indexes([false], false, 1)| == 1 && |Indexes([false], true, 1)| == 0
    ensures Inputs(GF16(), [false], bases, data, used) == [RecoveryWord(GF16(), bases, data, used[0])]
    ensures Outputs(GF16(), [false], bases, data, []) == data
  {
    hide GF16, RecoveryWord;
    assert Indexes([false], false, 1) == [0] && Indexes([false], true, 1) == [];
  }

  /** One block, lost, whose recovery block is read with exponent 0: its words are read back as they are. */
  lemma ReadBack(l: Matrix<u16>, bases: seq<u16>, d: u16)
    requires |bases| == 1 && |Indexes([false], false, 1)| == 1
    requires Reconstructs(GF16(), l, [false], bases, [0], [])
    ensures Shape(l, 1, 1) && GF16().mul(l[0][0], d) == d
  {
    hide GF16, IsField, Indexes, Inputs, Outputs, Dot;
    var f := GF16();
    GF16IsField();
    OneLost(bases, [d], [0]);
    OneWord(f, Powers(f, bases, 0), [d]);
    assert Power(f, bases[0], 0) == f.one;
    MulOne(f, d);
    OneWord(f, l[0], [d]);
  }

  /** The recovery block with exponent 65536 is read as the one with exponent 0, so that a word of the lost block that
      is not zero comes back wrong. */
  lemma CutExample(l: Matrix<u16>, bases: seq<u16>, d: u16)
    requires |bases| == 1 && Bases(bases) && d != 0
    requires |Indexes([false], false, 1)| == 1 && Reconstructs(GF16(), l, [false], bases, CutAll([65536]), [])
    ensures Shape(l, 1, 1) && GF16().mul(l[0][0], RecoveryWord(GF16(), bases, [d], 65536)) != d
  {
    hide Harmless, Cut, IsBase, Power, GF16, IsField, Reconstructs, Indexes, Dot, RecoveryWord;
    var f, b := GF16(), bases[0];
    var w := RecoveryWord(f, bases, [d], 65536);
    CutOf65536();
    assert CutAll([65536]) == [0];
    ReadBack(l, bases, w);
    WordsDiffer(bases, d);
  }

  lemma CutOf65536()
    ensures Cut(65536) == 0 && !Harmless(65536)
  {
  }

  lemma WordsDiffer(bases: seq<u16>, d: u16)
    requires |bases| == 1 && Bases(bases) && d != 0
    ensures RecoveryWord(GF16(), bases, [d], 65536) != d
  {
    hide Harmless, Cut, IsBase, Power, GF16, IsField, Dot;
    var f, b := GF16(), bases[0];
    GF16IsField();
    OneOf16();
    CutOf65536();
    CutPower(b, 0, 65536);
    assert Power(f, b, 0) == f.one by { PowerZero(b); }
    OneWord(f, Powers(f, bases, 65536), [d]);
    MulOne(f, d);
    if f.mul(Power(f, b, 65536), d) == d {
      MulCancel(f, Power(f, b, 65536), f.one, d);
    }
  }

  lemma PowerZero(b: u16)
    ensures Power(GF16(), b, 0) == GF16().one
  {
  }
}
