/** The CRC32 of a block, and the fast form that slides it along a buffer one byte at a time. */
module Crc {
  import opened Bytes
  import opened Bits

  const POLYNOMIAL: nat := 0xEDB88320
  const ONES: nat := 0xFFFFFFFF

  // ----- the reference: one bit at a time

  /** One shift of the register */
  function Shift(c: nat): nat {
    Xor(c / 2, if c % 2 == 1 then POLYNOMIAL else 0)
  }

  function Shifts(c: nat, k: nat): nat {
    if k == 0 then c else Shift(Shifts(c, k - 1))
  }

  /** A byte enters at the low end of the register, which is then shifted eight times. */
  function Enter(crc: nat, ch: u8): nat {
    Shifts(Xor(crc, ch), 8)
  }

  /** The register after all the bytes of s */
  function Register(crc: nat, s: seq<u8>): nat {
    if s == [] then crc else Enter(Register(crc, s[..|s| - 1]), s[|s| - 1])
  }

  /** The CRC32 of a block */
  function BlockCrc(s: seq<u8>): nat {
    Xor(ONES, Register(ONES, s))
  }

  // ----- the register is linear

  lemma ShiftAdd(a: nat, b: nat)
    ensures Shift(Xor(a, b)) == Xor(Shift(a), Shift(b))
  {
    hide Xor;
    XorHalf(a, b);
    var p, q := if a % 2 == 1 then POLYNOMIAL else 0, if b % 2 == 1 then POLYNOMIAL else 0;
    PickAdd(POLYNOMIAL, a % 2, b % 2);
    XorSwap(a / 2, p, b / 2, q);
  }

  lemma {:induction false} ShiftsAdd(a: nat, b: nat, k: nat)
    ensures Shifts(Xor(a, b), k) == Xor(Shifts(a, k), Shifts(b, k))
  {
    hide Xor, Shift;
    if k > 0 {
      ShiftsAdd(a, b, k - 1);
      ShiftAdd(Shifts(a, k - 1), Shifts(b, k - 1));
    }
  }

  /** A number whose low k bits are zero is just shifted down. */
  lemma {:induction false} ShiftsDown(h: nat, k: nat)
    ensures Shifts(Pow2(k) * h, k) == h
    decreases k
  {
    if k > 0 {
      hide Xor, Shifts, Shift;
      assert Pow2(k) * h == Pow2(k - 1) * (2 * h);
      ShiftsDown(2 * h, k - 1);
      OneMore(Pow2(k) * h, k);
      EvenShift(h);
    }
  }

  lemma OneMore(c: nat, k: nat)
    requires k > 0
    ensures Shifts(c, k) == Shift(Shifts(c, k - 1))
  {
  }

  lemma EvenShift(h: nat)
    ensures Shift(2 * h) == h
  {
    HalfOf(h, 0);
    XorZero(h);
  }

  /** The table form of entering a byte: the low byte of the register picks an entry that is exclusive-ored
      with the rest of the register. */
  lemma TableStep(crc: nat, ch: u8)
    ensures Xor(crc % 256, ch) < 256
    ensures Enter(crc, ch) == Xor(crc / 256, Shifts(Xor(crc % 256, ch), 8))
  {
    hide Shifts, Xor, Pow2;
    var h, l := crc / 256, crc % 256;
    Pow2Of8();
    XorBound(8, l, ch);
    var x := Xor(l, ch);
    Parts(crc);
    LowByte(h, l, ch);
    LowByte(h, x, 0);
    ShiftsAdd(x, 256 * h, 8);
    ShiftsDown(h, 8);
    XorComm(Shifts(x, 8), h);
  }

  lemma Parts(c: nat)
    ensures c == c % 256 + 256 * (c / 256)
  {
  }

  /** A byte meets only the low byte of a number. */
  lemma LowByte(h: nat, l: nat, ch: nat)
    requires l < 256 && ch < 256
    ensures Xor(l + 256 * h, ch) == Xor(l, ch) + 256 * h
    ensures Xor(l, 256 * h) == l + 256 * h
  {
    hide Shifts, Xor, Pow2;
    Pow2Of8();
    XorSplit(8, l, ch, h, 0);
    XorSplit(8, l, 0, 0, h);
    XorZero(h);
    XorZero(l);
  }

  lemma Pow2Of8()
    ensures Pow2(8) == 256
  {
    assert Pow2(4) == 16;
  }

  lemma EnterAdd(a: nat, b: nat, ch: u8)
    ensures Enter(Xor(a, b), ch) == Xor(Enter(a, ch), Enter(b, 0))
  {
    hide Shifts, Xor;
    XorAssoc(a, b, ch);
    XorComm(b, ch);
    XorAssoc(a, ch, b);
    ShiftsAdd(Xor(a, ch), b, 8);
    XorZero(b);
  }

  /** The register after n zero bytes */
  function ZeroRegister(c: nat, n: nat): nat {
    if n == 0 then c else Enter(ZeroRegister(c, n - 1), 0)
  }

  lemma {:induction false} RegisterAdd(a: nat, b: nat, s: seq<u8>)
    ensures Register(Xor(a, b), s) == Xor(Register(a, s), ZeroRegister(b, |s|))
  {
    hide Xor, Enter;
    if s != [] {
      RegisterAdd(a, b, s[..|s| - 1]);
      EnterAdd(Register(a, s[..|s| - 1]), ZeroRegister(b, |s| - 1), s[|s| - 1]);
    }
  }

  lemma {:induction false} RegisterConcat(c: nat, s: seq<u8>, t: seq<u8>)
    ensures Register(c, s + t) == Register(Register(c, s), t)
  {
    hide Enter;
    if t == [] {
      assert s + t == s;
    } else {
      RegisterConcat(c, s, t[..|t| - 1]);
      assert (s + t)[..|s + t| - 1] == s + t[..|t| - 1];
    }
  }

  lemma RegisterOne(c: nat, ch: u8)
    ensures Register(c, [ch]) == Enter(c, ch)
  {
    hide Enter;
    assert [ch][..0] == [];
  }

  lemma {:induction false} RegisterZeros(c: nat, s: seq<u8>)
    requires forall i :: 0 <= i < |s| ==> s[i] == 0
    ensures Register(c, s) == ZeroRegister(c, |s|)
  {
    hide Enter;
    if s != [] { RegisterZeros(c, s[..|s| - 1]); }
  }

  /** The register never grows past 32 bits. */
  lemma {:induction false} RegisterWidth(c: nat, s: seq<u8>)
    requires c < 0x1_0000_0000
    ensures Register(c, s) < 0x1_0000_0000
  {
    if s != [] {
      hide Shifts, Xor, Pow2;
      RegisterWidth(c, s[..|s| - 1]);
      Pow2Of32();
      XorBound(32, Register(c, s[..|s| - 1]), s[|s| - 1]);
      ShiftsWidth(Xor(Register(c, s[..|s| - 1]), s[|s| - 1]), 8);
    }
  }

  lemma {:induction false} ShiftsWidth(c: nat, k: nat)
    requires c < 0x1_0000_0000
    ensures Shifts(c, k) < 0x1_0000_0000
  {
    hide Xor, Pow2;
    if k > 0 {
      ShiftsWidth(c, k - 1);
      Pow2Of32();
      XorBound(32, Shifts(c, k - 1) / 2, if Shifts(c, k - 1) % 2 == 1 then POLYNOMIAL else 0);
    }
  }

  lemma Pow2Of32()
    ensures Pow2(32) == 0x1_0000_0000
  {
    assert Pow2(8) == 256;
    assert Pow2(16) == 65536;
    assert Pow2(24) == 0x100_0000;
  }

  // ----- the sliding window

  /** What GenerateWindowTable holds for a byte that leaves a window of n bytes */
  function WindowEntry(n: nat, leaving: u8): nat {
    ZeroRegister(Shifts(leaving, 8), n)
  }

  /** What ComputeWindowMask gives for n bytes */
  function WindowMask(n: nat): nat {
    Xor(ZeroRegister(ONES, n), ONES)
  }

  /** CRCSlideChar */
  function Slide(n: nat, crc: nat, entering: u8, leaving: u8): nat {
    Xor(Enter(crc, entering), WindowEntry(n, leaving))
  }

  /** The mask takes the initial value of the register out of a block's CRC. */
  lemma Masked(s: seq<u8>)
    ensures Xor(WindowMask(|s|), BlockCrc(s)) == Register(0, s)
    ensures Xor(WindowMask(|s|), Register(0, s)) == BlockCrc(s)
  {
    var z, r := ZeroRegister(ONES, |s|), Register(0, s);
    XorZero(ONES);
    RegisterAdd(0, ONES, s);
    hide Xor, Register, ZeroRegister;
    // BlockCrc(s) is ONES ^ (r ^ z)
    XorComm(r, z);
    XorAssoc(z, ONES, r);
    XorComm(ONES, r);
    XorAssoc(z, r, ONES);
    XorComm(Xor(z, r), ONES);
    assert Xor(WindowMask(|s|), r) == BlockCrc(s);
    XorCancel(r, WindowMask(|s|));
  }

  /** Sliding the window by one byte gives the CRC of the new window. */
  lemma SlideIsCrc(s: seq<u8>, entering: u8)
    requires |s| > 0
    ensures Xor(WindowMask(|s|), Slide(|s|, Xor(WindowMask(|s|), BlockCrc(s)), entering, s[0]))
         == BlockCrc(s[1..] + [entering])
  {
    hide Xor, Register, ZeroRegister, Enter, BlockCrc, WindowMask, Shifts;
    var n, t := |s|, s[1..] + [entering];
    var e := Shifts(s[0], 8);
    Masked(s);
    Masked(t);
    assert s + [entering] == [s[0]] + t;
    RegisterConcat(0, s, [entering]);
    RegisterOne(Register(0, s), entering);
    RegisterConcat(0, [s[0]], t);
    RegisterOne(0, s[0]);
    FirstByte(s[0]);
    XorZero(e);
    RegisterAdd(0, e, t);
    XorCancel(Register(0, t), ZeroRegister(e, n));
  }

  lemma FirstByte(ch: u8)
    ensures Enter(0, ch) == Shifts(ch, 8)
  {
    XorZero(ch);
  }

  // ----- the program's tables and loops

  /** GenerateCRC32Table, for the polynomial of the program */
  method GenerateCRC32Table() returns (table: array<nat>)
    ensures fresh(table) && IsTable(table)
  {
    hide Xor, Shifts;
    table := new nat[256];
    for i := 0 to 256
      invariant forall b :: 0 <= b < i ==> table[b] == Shifts(b, 8)
    {
      var crc := i;
      NoShifts(i);
      for j := 0 to 8
        invariant crc == Shifts(i, j)
        modifies {}
      {
        OneMore(i, j + 1);
        crc := Xor(crc / 2, if crc % 2 == 1 then POLYNOMIAL else 0);
      }
      table[i] := crc;
    }
  }

  lemma NoShifts(c: nat)
    ensures Shifts(c, 0) == c
  {
  }

  ghost predicate IsTable(table: array<nat>)
    reads table
  {
    table.Length == 256 && forall b :: 0 <= b < 256 ==> table[b] == Shifts(b, 8)
  }

  /** CRCUpdateChar */
  function UpdateChar(table: array<nat>, crc: nat, ch: u8): (r: nat)
    requires IsTable(table)
    reads table
    ensures r == Enter(crc, ch)
  {
    TableStep(crc, ch);
    Xor(crc / 256, table[Xor(crc % 256, ch)])
  }

  /** CRCUpdateBlock on a buffer */
  method UpdateBlock(table: array<nat>, start: nat, buffer: array<u8>, from: nat, length: nat) returns (crc: nat)
    requires IsTable(table) && from + length <= buffer.Length
    ensures crc == Register(start, buffer[from..from + length])
  {
    hide Enter, IsTable;
    crc := start;
    for i := 0 to length
      invariant crc == Register(start, buffer[from..from + i])
    {
      assert buffer[from..from + i + 1] == buffer[from..from + i] + [buffer[from + i]];
      crc := UpdateChar(table, crc, buffer[from + i]);
    }
  }

  /** CRCUpdateBlock on zeros */
  method UpdateBlockZeros(table: array<nat>, start: nat, length: nat) returns (crc: nat)
    requires IsTable(table)
    ensures crc == ZeroRegister(start, length)
  {
    hide Enter, IsTable;
    crc := start;
    for i := 0 to length
      invariant crc == ZeroRegister(start, i)
    {
      crc := UpdateChar(table, crc, 0);
    }
  }

  /** GenerateWindowTable */
  method GenerateWindowTable(table: array<nat>, window: nat) returns (target: array<nat>)
    requires IsTable(table)
    ensures fresh(target) && IsWindowTable(target, window)
  {
    hide Enter, Shifts;
    target := new nat[256];
    for i := 0 to 256
      invariant forall b :: 0 <= b < i ==> target[b] == WindowEntry(window, b)
    {
      var crc := table[i];
      for j := 0 to window
        invariant crc == ZeroRegister(Shifts(i, 8), j)
      {
        crc := UpdateChar(table, crc, 0);
      }
      target[i] := crc;
    }
  }

  ghost predicate IsWindowTable(target: array<nat>, window: nat)
    reads target
  {
    target.Length == 256 && forall b :: 0 <= b < 256 ==> target[b] == WindowEntry(window, b)
  }

  /** ComputeWindowMask */
  method ComputeWindowMask(table: array<nat>, length: nat) returns (result: nat)
    requires IsTable(table)
    ensures result == WindowMask(length)
  {
    hide Enter, Xor, IsTable;
    result := ONES;
    var window: nat := length;
    while window > 0
      invariant window <= length && result == ZeroRegister(ONES, length - window)
    {
      result := UpdateChar(table, result, 0);
      window := window - 1;
    }
    result := Xor(result, ONES);
  }

  /** CRCSlideChar with the two tables */
  function SlideChar(table: array<nat>, windowtable: array<nat>, window: nat, crc: nat, entering: u8,
                     leaving: u8): (r: nat)
    requires IsTable(table) && IsWindowTable(windowtable, window)
    reads table, windowtable
    ensures r == Slide(window, crc, entering, leaving)
  {
    Xor(UpdateChar(table, crc, entering), windowtable[leaving])
  }
}
