/** Par2Creator: the choice of the block size and the distribution of the recovery blocks over files */
module Planner {
  import opened Bits
  import opened Ceilings

  datatype Scheme = Variable | Uniform | Limited

  /** The recovery blocks of one file */
  datatype Allocation = Allocation(exponent: nat, count: nat)

  function Distance(a: nat, b: nat): nat {
    if a > b then a - b else b - a
  }

  /** Of all block sizes that are multiples of four, the given one makes the number of blocks come closest to n. */
  ghost predicate Best(sizes: seq<nat>, size: nat, n: nat) {
    && size > 0 && size % 4 == 0
    && forall s: nat :: s > 0 ==> Distance(Blocks(sizes, size), n) <= Distance(Blocks(sizes, 4 * s), n)
  }

  /** No block of four times s bytes makes the number come closer to n than d. */
  ghost predicate NoneCloser(qs: seq<nat>, n: nat, d: nat, s: nat)
    requires s > 0
  {
    Distance(Blocks(qs, s), n) >= d
  }

  /** Sizes below the lower end and above the upper end of the search are no better than the ends themselves. */
  lemma Closest(qs: seq<nat>, n: nat, d: nat, low: nat, high: nat)
    requires 0 < low <= high <= low + 1 && Blocks(qs, low) >= n >= Blocks(qs, high)
    requires NoneCloser(qs, n, d, low) && NoneCloser(qs, n, d, high)
    ensures forall s: nat :: s > 0 ==> NoneCloser(qs, n, d, s)
  {
    hide Blocks;
    forall s: nat | s > 0 ensures NoneCloser(qs, n, d, s) {
      if s <= low {
        BlocksDecrease(qs, s, low);
      } else {
        BlocksDecrease(qs, high, s);
      }
    }
  }

  /** The number of blocks: the loop that is written out for every size that is tried */
  method CountBlocks(sizes: seq<nat>, size: nat) returns (count: nat)
    requires size > 0
    ensures count == Blocks(AllQuads(sizes), size)
  {
    hide Ceil, Quads;
    count := 0;
    for i := 0 to |sizes|
      invariant count == Blocks(AllQuads(sizes)[..i], size)
    {
      assert AllQuads(sizes)[..i + 1][..i] == AllQuads(sizes)[..i];
      count := count + Ceil(Quads(sizes[i]), size);
    }
    assert AllQuads(sizes)[..|sizes|] == AllQuads(sizes);
  }

  /** The same for sizes in bytes */
  method CountSizes(sizes: seq<nat>, size: nat) returns (count: nat)
    requires size > 0
    ensures count == Blocks(sizes, size)
  {
    hide Ceil;
    count := 0;
    for i := 0 to |sizes|
      invariant count == Blocks(sizes[..i], size)
    {
      assert sizes[..i + 1][..i] == sizes[..i];
      count := count + Ceil(sizes[i], size);
    }
    assert sizes[..|sizes|] == sizes;
  }

  // ----- the sizes that are tried

  type Size = s: nat | s > 0 witness 1

  ghost function Off(qs: seq<nat>, n: nat, s: Size): nat {
    Distance(Blocks(qs, s), n)
  }

  /** The sizes in the middle that the bisection tries */
  ghost function Middles(qs: seq<nat>, n: nat, low: Size, high: Size): seq<Size>
    requires low <= high
    decreases high - low
  {
    if low + 1 >= high then []
    else
      var middle: Size := (low + high) / 2;
      [middle] + if Blocks(qs, middle) > n then Middles(qs, n, middle, high) else Middles(qs, n, low, middle)
  }

  /** All the sizes that are tried, in order */
  ghost function Tried(qs: seq<nat>, n: nat): (t: seq<Size>)
    requires |qs| < n <= Total(qs)
  {
    LowerBound(qs, n);
    UpperBound(qs, n);
    var low: Size, high: Size := Total(qs) / n, Ceil(Total(qs), n - |qs|);
    [low, high] + Middles(qs, n, low, high)
  }

  /** The first of the sizes that come closest */
  ghost predicate First(qs: seq<nat>, n: nat, tried: seq<Size>, size: Size) {
    exists k :: 0 <= k < |tried| && FirstAt(qs, n, tried, size, k)
  }

  ghost predicate FirstAt(qs: seq<nat>, n: nat, tried: seq<Size>, size: Size, k: nat)
    requires k < |tried|
  {
    && tried[k] == size
    && (forall j :: 0 <= j < k ==> Off(qs, n, tried[j]) > Off(qs, n, size))
    && (forall j :: k <= j < |tried| ==> Off(qs, n, tried[j]) >= Off(qs, n, size))
  }

  /** The size that the search ends with gives few enough blocks. */
  ghost predicate SearchFits(qs: seq<nat>, n: nat)
    requires |qs| < n <= Total(qs)
  {
    exists size: Size :: First(qs, n, Tried(qs, n), size) && Blocks(qs, size) <= 32768
  }

  lemma FirstOne(qs: seq<nat>, n: nat, s: Size)
    ensures First(qs, n, [s], s)
  {
    hide Off;
    assert FirstAt(qs, n, [s], s, 0);
  }

  lemma FirstMore(qs: seq<nat>, n: nat, tried: seq<Size>, best: Size, s: Size)
    requires First(qs, n, tried, best)
    ensures First(qs, n, tried + [s], if Off(qs, n, best) > Off(qs, n, s) then s else best)
  {
    hide Off;
    var k :| 0 <= k < |tried| && FirstAt(qs, n, tried, best, k);
    if Off(qs, n, best) > Off(qs, n, s) {
      assert FirstAt(qs, n, tried + [s], s, |tried|);
    } else {
      assert FirstAt(qs, n, tried + [s], best, k);
    }
  }

  lemma FirstUnique(qs: seq<nat>, n: nat, tried: seq<Size>, a: Size, b: Size)
    requires First(qs, n, tried, a) && First(qs, n, tried, b)
    ensures a == b
  {
    hide Off;
    var i :| 0 <= i < |tried| && FirstAt(qs, n, tried, a, i);
    var k :| 0 <= k < |tried| && FirstAt(qs, n, tried, b, k);
    assert Off(qs, n, tried[i]) >= Off(qs, n, b) && Off(qs, n, tried[k]) >= Off(qs, n, a);
  }

  lemma FitsMeans(qs: seq<nat>, n: nat, size: Size)
    requires |qs| < n <= Total(qs) && First(qs, n, Tried(qs, n), size)
    ensures SearchFits(qs, n) <==> Blocks(qs, size) <= 32768
  {
    hide Blocks, Tried, First;
    if SearchFits(qs, n) {
      var s: Size :| First(qs, n, Tried(qs, n), s) && Blocks(qs, s) <= 32768;
      FirstUnique(qs, n, Tried(qs, n), s, size);
    }
  }

  lemma StillToTry(qs: seq<nat>, n: nat, tried: seq<Size>, low: Size, high: Size)
    requires low + 1 < high
    ensures var middle: Size := (low + high) / 2;
            var rest := if Blocks(qs, middle) > n then Middles(qs, n, middle, high) else Middles(qs, n, low, middle);
            tried + Middles(qs, n, low, high) == tried + [middle] + rest
  {
    hide Blocks;
  }

  /** The binary search: no size brings the number of blocks closer to the wanted one than the size that is found, which
      is the first such size that is tried. */
  method SearchSize(sizes: seq<nat>, wanted: nat) returns (size: nat, count: nat)
    requires |sizes| < wanted <= Total(AllQuads(sizes)) && wanted <= 32768
    ensures size > 0 && count == Blocks(AllQuads(sizes), size)
    ensures forall s: nat :: s > 0 ==> NoneCloser(AllQuads(sizes), wanted, Distance(count, wanted), s)
    ensures First(AllQuads(sizes), wanted, Tried(AllQuads(sizes), wanted), size)
  {
    hide Blocks, Total, Ceil, First, Middles, AllQuads;
    ghost var qs := AllQuads(sizes);
    var totalsize := SumQuads(sizes);
    LowerBound(qs, wanted);
    NotFar(qs, wanted);
    UpperBound(qs, wanted);
    var lowerBound: nat, upperBound: nat := totalsize / wanted, Ceil(totalsize, wanted - |sizes|);
    var bestsize, bestdistance, bestcount := lowerBound, 1000000, 0;
    ghost var tried: seq<Size> := [lowerBound, upperBound];
    count := CountBlocks(sizes, lowerBound);
    if bestdistance > Distance(count, wanted) {
      bestdistance, bestcount, bestsize := Distance(count, wanted), count, lowerBound;
    }
    FirstOne(qs, wanted, lowerBound);
    FirstMore(qs, wanted, [lowerBound], lowerBound, upperBound);
    count := CountBlocks(sizes, upperBound);
    if bestdistance > Distance(count, wanted) {
      bestdistance, bestcount, bestsize := Distance(count, wanted), count, upperBound;
    }
    assert tried == [lowerBound] + [upperBound];
    while lowerBound + 1 < upperBound
      invariant 0 < lowerBound <= upperBound && Blocks(qs, lowerBound) >= wanted >= Blocks(qs, upperBound)
      invariant bestsize > 0 && bestcount == Blocks(qs, bestsize) && bestdistance == Distance(bestcount, wanted)
      invariant NoneCloser(qs, wanted, bestdistance, lowerBound) && NoneCloser(qs, wanted, bestdistance, upperBound)
      invariant tried + Middles(qs, wanted, lowerBound, upperBound) == Tried(qs, wanted)
      invariant First(qs, wanted, tried, bestsize)
      decreases upperBound - lowerBound
    {
      var middle := (lowerBound + upperBound) / 2;
      StillToTry(qs, wanted, tried, lowerBound, upperBound);
      FirstMore(qs, wanted, tried, bestsize, middle);
      tried := tried + [middle];
      count := CountBlocks(sizes, middle);
      if bestdistance > Distance(count, wanted) {
        bestdistance, bestcount, bestsize := Distance(count, wanted), count, middle;
      }
      if count < wanted {
        upperBound := middle;
      } else if count > wanted {
        lowerBound := middle;
      } else {
        upperBound := middle;
      }
    }
    Closest(qs, wanted, bestdistance, lowerBound, upperBound);
    NothingLeft(qs, wanted, tried, lowerBound, upperBound);
    size, count := bestsize, bestcount;
  }

  lemma NothingLeft(qs: seq<nat>, n: nat, tried: seq<Size>, low: Size, high: Size)
    requires low <= high <= low + 1
    ensures tried + Middles(qs, n, low, high) == tried
  {
  }

  // ----- a tie that fails

  const TIE: nat := 268419072   // 16383 * 16384

  lemma TieTotal()
    ensures AllQuads([4 * TIE, 4 * TIE, 4]) == [TIE, TIE, 1]
    ensures Total([TIE, TIE, 1]) == 536838145
  {
    var qs := [TIE, TIE, 1];
    assert qs[..2] == [TIE, TIE] && [TIE, TIE][..1] == [TIE];
    assert Total([TIE]) == TIE;
  }

  lemma TieCount(size: Size)
    ensures Blocks([TIE, TIE, 1], size) == 2 * Ceil(TIE, size) + Ceil(1, size)
  {
    hide Ceil;
    var qs := [TIE, TIE, 1];
    assert qs[..2] == [TIE, TIE] && [TIE, TIE][..1] == [TIE];
    assert Blocks([TIE], size) == Ceil(TIE, size);
  }

  lemma TieCounts()
    ensures Blocks([TIE, TIE, 1], 16383) == 32769
    ensures Blocks([TIE, TIE, 1], 16384) == 32767
    ensures Blocks([TIE, TIE, 1], 16385) == 32767
  {
    TieCount(16383);
    TieCount(16384);
    TieCount(16385);
  }

  lemma TieTried()
    requires Total([TIE, TIE, 1]) == 536838145
    ensures Tried([TIE, TIE, 1], 32768) == [16383, 16385, 16384]
  {
    var qs := [TIE, TIE, 1];
    TieCounts();
    hide Blocks, Total;
    assert Middles(qs, 32768, 16383, 16384) == [];
    assert Middles(qs, 32768, 16383, 16385) == [16384];
  }

  /** Two files of 1073676288 bytes and one of four: for 32768 blocks, blocks of 65536 bytes, 32767 of them, come as
      close as any, but the search keeps to 65532 bytes and 32769 blocks, which it tries first, and fails. */
  lemma TieExample()
    ensures var sizes := [4 * TIE, 4 * TIE, 4];
            && |sizes| < 32768 <= Total(AllQuads(sizes)) && !SearchFits(AllQuads(sizes), 32768)
            && Best(sizes, 65536, 32768) && Blocks(sizes, 65536) == 32767
  {
    var sizes, qs := [4 * TIE, 4 * TIE, 4], [TIE, TIE, 1];
    TieTotal();
    TieCounts();
    TieTried();
    hide Blocks, Total, AllQuads, Tried;
    assert FirstAt(qs, 32768, [16383, 16385, 16384], 16383, 0);
    FitsMeans(qs, 32768, 16383);
    Closest(qs, 32768, 1, 16383, 16384);
    SearchedIsBest(sizes, 16384, 32768);
  }

  method SumQuads(sizes: seq<nat>) returns (total: nat)
    ensures total == Total(AllQuads(sizes))
  {
    hide Quads;
    total := 0;
    for i := 0 to |sizes|
      invariant total == Total(AllQuads(sizes)[..i])
    {
      assert AllQuads(sizes)[..i + 1][..i] == AllQuads(sizes)[..i];
      total := total + Quads(sizes[i]);
    }
    assert AllQuads(sizes)[..|sizes|] == AllQuads(sizes);
  }

  /** Not more blocks than files: the size of the largest file, rounded up to a multiple of four */
  lemma LargestIsBest(sizes: seq<nat>, size: nat)
    requires forall i :: 0 <= i < |sizes| ==> 0 < sizes[i] <= size
    requires size > 0 && size % 4 == 0
    ensures Blocks(sizes, size) == |sizes| && Best(sizes, size, |sizes|)
  {
    OneEach(sizes, size);
  }

  /** More blocks than units of four bytes: blocks of four bytes */
  lemma SmallestIsBest(sizes: seq<nat>, n: nat)
    requires n > Total(AllQuads(sizes))
    ensures Blocks(sizes, 4) == Total(AllQuads(sizes)) && Best(sizes, 4, n)
  {
    hide Blocks, Total;
    BlocksOfQuads(sizes, 1);
    BlocksOfOne(AllQuads(sizes));
    forall s: nat | s > 0 ensures Distance(Blocks(sizes, 4), n) <= Distance(Blocks(sizes, 4 * s), n) {
      BlocksOfQuads(sizes, s);
      BlocksAtMost(AllQuads(sizes), s);
    }
  }

  /** The least multiple of four that no file is larger than */
  ghost predicate LeastHolding(sizes: seq<nat>, size: nat) {
    && IsHolding(sizes, size)
    && forall s: nat :: IsHolding(sizes, s) ==> size <= s
  }

  ghost predicate IsHolding(sizes: seq<nat>, size: nat) {
    size % 4 == 0 && forall i :: 0 <= i < |sizes| ==> sizes[i] <= size
  }

  lemma RoundedIsLeast(sizes: seq<nat>, largest: nat)
    requires largest in sizes && forall i :: 0 <= i < |sizes| ==> sizes[i] <= largest
    ensures LeastHolding(sizes, (largest + 3) / 4 * 4)
  {
    RoundedUp(largest);
    forall s: nat | IsHolding(sizes, s) ensures (largest + 3) / 4 * 4 <= s {
      var i :| 0 <= i < |sizes| && sizes[i] == largest;
      assert largest <= s;
    }
  }

  lemma RoundedUp(n: nat)
    ensures n <= (n + 3) / 4 * 4 && ((n + 3) / 4 * 4) % 4 == 0
  {
  }

  lemma SearchedIsBest(sizes: seq<nat>, size: nat, n: nat)
    requires size > 0
    requires forall s: nat :: s > 0 ==> NoneCloser(AllQuads(sizes), n, Distance(Blocks(AllQuads(sizes), size), n), s)
    ensures Blocks(sizes, 4 * size) == Blocks(AllQuads(sizes), size) && Best(sizes, 4 * size, n)
  {
    hide Blocks, AllQuads;
    BlocksOfQuads(sizes, size);
    forall s: nat | s > 0 ensures Distance(Blocks(sizes, 4 * size), n) <= Distance(Blocks(sizes, 4 * s), n) {
      BlocksOfQuads(sizes, s);
      assert NoneCloser(AllQuads(sizes), n, Distance(Blocks(AllQuads(sizes), size), n), s);
    }
  }

  method Largest(sizes: seq<nat>) returns (largest: nat)
    requires sizes != [] && forall i :: 0 <= i < |sizes| ==> sizes[i] > 0
    ensures largest in sizes && forall i :: 0 <= i < |sizes| ==> sizes[i] <= largest
  {
    largest := 0;
    for i := 0 to |sizes|
      invariant forall j :: 0 <= j < i ==> sizes[j] <= largest
      invariant if i == 0 then largest == 0 else largest in sizes
    {
      if largest < sizes[i] {
        largest := sizes[i];
      }
    }
  }

  // ----- powers of two

  /** The number of binary digits */
  function BitLength(n: nat): nat {
    if n == 0 then 0 else 1 + BitLength(n / 2)
  }

  lemma {:induction false} BitLengthBounds(n: nat)
    ensures n < Pow2(BitLength(n)) && (n > 0 ==> BitLength(n) > 0 && Pow2(BitLength(n) - 1) <= n)
  {
    if n > 1 {
      BitLengthBounds(n / 2);
    }
  }

  /** The loops that shift a number right until it is zero */
  method CountBits(n: nat) returns (bits: nat)
    ensures bits == BitLength(n)
  {
    bits := 0;
    var t := n;
    while t > 0
      invariant bits + BitLength(t) == BitLength(n)
    {
      t := t / 2;
      bits := bits + 1;
    }
  }

  /** The full files of the limited scheme, and what they leave */
  function Whole(n: nat, largest: nat): nat
    requires largest > 0
  {
    if n / largest >= 1 then n / largest - 1 else 0
  }

  function Extra(n: nat, largest: nat): (e: nat)
    requires largest > 0
  {
    WholeFits(n, largest);
    n - Whole(n, largest) * largest
  }

  lemma WholeIs(n: nat, largest: nat, whole: nat)
    requires largest > 0 && whole == if n / largest >= 1 then n / largest - 1 else 0
    ensures whole == Whole(n, largest) && n - whole * largest == Extra(n, largest)
  {
  }

  lemma WholeFits(n: nat, largest: nat)
    requires largest > 0
    ensures Whole(n, largest) * largest <= n
    ensures n > 0 ==> n - Whole(n, largest) * largest > 0
    ensures n - Whole(n, largest) * largest < 2 * largest
    ensures Whole(n, largest) > 0 ==> n - Whole(n, largest) * largest >= largest
  {
    assert n == n / largest * largest + n % largest;
    if n / largest >= 1 {
      assert (n / largest - 1) * largest == n / largest * largest - largest;
    }
  }

  // ----- the distribution of recovery blocks over files

  /** The ranges of exponents follow one another from the first one on. */
  ghost predicate Consecutive(a: seq<Allocation>, from: nat) {
    forall i :: 0 <= i < |a| ==> a[i].exponent == End(a[..i], from)
  }

  function End(a: seq<Allocation>, from: nat): nat {
    if a == [] then from else a[|a| - 1].exponent + a[|a| - 1].count
  }

  ghost predicate Partition(a: seq<Allocation>, from: nat, to: nat) {
    Consecutive(a, from) && End(a, from) == to
  }

  predicate Holds(x: Allocation, e: nat) {
    x.exponent <= e < x.exponent + x.count
  }

  /** The files are in ascending order, within the range. */
  lemma {:induction false} PartitionAscends(a: seq<Allocation>, from: nat, to: nat)
    requires Partition(a, from, to)
    ensures from <= to
    ensures forall i :: 0 <= i < |a| ==> from <= a[i].exponent && a[i].exponent + a[i].count <= to
    ensures forall i, j :: 0 <= i < j < |a| ==> a[i].exponent + a[i].count <= a[j].exponent
  {
    hide Consecutive;
    if a != [] {
      var b, x := a[..|a| - 1], a[|a| - 1];
      ConsecutivePrefix(a, from);
      PartitionAscends(b, from, x.exponent);
      forall i, j | 0 <= i < j < |a| ensures a[i].exponent + a[i].count <= a[j].exponent {
        assert a[i] == b[i];
        if j < |b| { assert a[j] == b[j]; }
      }
      forall i | 0 <= i < |a| ensures from <= a[i].exponent && a[i].exponent + a[i].count <= to {
        if i < |b| { assert a[i] == b[i]; }
      }
    }
  }

  /** Each exponent of the range is in exactly one file, and no other exponent is in any. */
  lemma {:induction false} PartitionCovers(a: seq<Allocation>, from: nat, to: nat, e: nat)
    requires Partition(a, from, to)
    ensures from <= e < to <==> exists i :: 0 <= i < |a| && Holds(a[i], e)
    ensures forall i, j :: 0 <= i < j < |a| ==> !(Holds(a[i], e) && Holds(a[j], e))
  {
    hide Consecutive;
    PartitionAscends(a, from, to);
    if a != [] {
      var b, x := a[..|a| - 1], a[|a| - 1];
      ConsecutivePrefix(a, from);
      PartitionCovers(b, from, x.exponent, e);
      if from <= e < to {
        if Holds(x, e) {
          assert Holds(a[|a| - 1], e);
        } else {
          var i :| 0 <= i < |b| && Holds(b[i], e);
          assert Holds(a[i], e);
        }
      }
    }
  }

  lemma ConsecutivePrefix(a: seq<Allocation>, from: nat)
    requires Consecutive(a, from) && a != []
    ensures Partition(a[..|a| - 1], from, a[|a| - 1].exponent)
  {
    var b := a[..|a| - 1];
    forall i | 0 <= i < |b| ensures b[i].exponent == End(b[..i], from) {
      assert b[..i] == a[..i];
    }
  }

  lemma ConsecutiveOne(a: seq<Allocation>, x: Allocation, from: nat)
    requires Consecutive(a, from) && x.exponent == End(a, from)
    ensures Consecutive(a + [x], from) && End(a + [x], from) == x.exponent + x.count
  {
    forall i | 0 <= i < |a| + 1 ensures (a + [x])[i].exponent == End((a + [x])[..i], from) {
      assert (a + [x])[..i] == a[..i];
      assert a[..|a|] == a;
    }
  }

  lemma {:induction false} ConsecutiveJoin(a: seq<Allocation>, b: seq<Allocation>, from: nat)
    requires Consecutive(a, from) && Consecutive(b, End(a, from))
    ensures Consecutive(a + b, from) && End(a + b, from) == End(b, End(a, from))
  {
    if b == [] {
      assert a + b == a;
    } else {
      var n := |b| - 1;
      ConsecutivePrefix(b, End(a, from));
      ConsecutiveJoin(a, b[..n], from);
      ConsecutiveOne(a + b[..n], b[n], from);
      JoinLast(a, b);
    }
  }

  lemma JoinLast<T>(a: seq<T>, b: seq<T>)
    requires b != []
    ensures a + b == a + b[..|b| - 1] + [b[|b| - 1]]
  {
  }

  lemma OneMore(k: nat, base: nat)
    ensures (k + 1) * base == k * base + base
  {
  }

  lemma DivisionParts(blocks: nat, files: nat)
    requires files > 0
    ensures files * (blocks / files) + blocks % files == blocks && blocks % files < files
  {
  }

  /** The uniform scheme: as even as possible */
  method AllocateUniform(first: nat, blocks: nat, a: array<Allocation>)
    requires a.Length > 1
    modifies a
    ensures Partition(a[..a.Length - 1], first, first + blocks)
    ensures forall i :: 0 <= i < a.Length - 1 ==>
              a[i].count == blocks / (a.Length - 1) + (if i < blocks % (a.Length - 1) then 1 else 0)
  {
    hide Consecutive, End;
    var files := a.Length - 1;
    var exponent: nat := first;
    var base, remainder := blocks / files, blocks % files;
    DivisionParts(blocks, files);
    NoneConsecutive(first);
    for filenumber := 0 to files
      invariant Partition(a[..filenumber], first, exponent)
      invariant exponent == first + filenumber * base + (if filenumber < remainder then filenumber else remainder)
      invariant forall i :: 0 <= i < filenumber ==> a[i].count == base + (if i < remainder then 1 else 0)
    {
      ghost var done := a[..filenumber];
      var count := if filenumber < remainder then base + 1 else base;
      a[filenumber] := Allocation(exponent, count);
      ConsecutiveOne(done, a[filenumber], first);
      assert a[..filenumber + 1] == done + [a[filenumber]];
      OneMore(filenumber, base);
      exponent := exponent + count;
    }
  }

  lemma UniformIsEven(a: seq<Allocation>, blocks: nat)
    requires |a| > 0
    requires forall i :: 0 <= i < |a| ==> a[i].count == blocks / |a| + (if i < blocks % |a| then 1 else 0)
    ensures Even(a)
  {
    var base, rest := blocks / |a|, blocks % |a|;
    forall i, j | 0 <= i < j < |a| ensures a[j].count <= a[i].count <= a[j].count + 1 {
      assert a[i].count == base + (if i < rest then 1 else 0) && a[j].count == base + (if j < rest then 1 else 0);
    }
  }

  lemma NoneConsecutive(from: nat)
    ensures Partition([], from, from)
  {
  }

  /** What is put in file i if the number of blocks doubles from file to file until the blocks run out */
  function Share(blocks: nat, low: nat, i: nat): nat {
    var before := low * Pow2(i) - low;
    if blocks <= before then 0 else if blocks - before <= low * Pow2(i) then blocks - before else low * Pow2(i)
  }

  /** Each file gets twice as many blocks as the one before it, until the blocks run out. */
  ghost predicate Doubling(a: seq<Allocation>, low: nat, end: nat) {
    forall i :: 0 <= i < |a| ==> IsShare(a[i], low * Pow2(i), end)
  }

  /** As many blocks as that, or all that are left before the end */
  predicate IsShare(x: Allocation, most: nat, end: nat) {
    x.exponent <= end && x.count == if most <= end - x.exponent then most else end - x.exponent
  }

  /** The uniform scheme: counts that differ by at most one, the larger ones first */
  ghost predicate Even(a: seq<Allocation>) {
    forall i, j :: 0 <= i < j < |a| ==> a[j].count <= a[i].count <= a[j].count + 1
  }

  /** The variable scheme: doubling from the least power of two for which the files suffice */
  ghost predicate Variably(a: seq<Allocation>, first: nat, blocks: nat) {
    exists k: nat :: LeastShare(blocks, |a|, k) && Doubling(a, Pow2(k), first + blocks)
  }

  /** The limited scheme: 1, 2, 4, ... below, and full files above as soon as the others have a full file's worth of
      blocks */
  ghost predicate Capped(a: seq<Allocation>, first: nat, largest: nat) {
    exists bits: nat, extra: nat :: bits <= |a| && CappedAt(a, first, largest, bits, extra)
  }

  ghost predicate CappedAt(a: seq<Allocation>, first: nat, largest: nat, bits: nat, extra: nat)
    requires bits <= |a|
  {
    && Doubling(a[..bits], 1, first + extra) && End(a[..bits], first) == first + extra && extra < 2 * largest
    && (forall i :: bits <= i < |a| ==> a[i].count == largest && extra >= largest)
  }

  /** The loop that allocates a number of blocks that doubles. There are enough files; should the number pass 32 bits,
      no blocks are left by then, and nothing is taken from a number that has become zero. */
  method AllocateDoubling(first: nat, blocks: nat, low: nat, files: nat, a: array<Allocation>)
    requires files <= a.Length && low > 0 && blocks <= low * Pow2(files) - low
    modifies a
    ensures Partition(a[..files], first, first + blocks) && a[files..] == old(a[files..])
    ensures forall i :: 0 <= i < files ==> a[i].count == Share(blocks, low, i)
    ensures Doubling(a[..files], low, first + blocks)
  {
    hide Consecutive, End, Pow2;
    var exponent: nat, left: nat, number: nat := first, blocks, low;
    NoneConsecutive(first);
    Pow2Start(low);
    for filenumber := 0 to files
      invariant Partition(a[..filenumber], first, exponent) && a[files..] == old(a[files..])
      invariant number == low * Pow2(filenumber) && number >= low && exponent + left == first + blocks
      invariant left == if blocks <= number - low then 0 else blocks - (number - low)
      invariant forall i :: 0 <= i < filenumber ==> a[i].count == Share(blocks, low, i)
      invariant forall i :: 0 <= i < filenumber ==> IsShare(a[i], low * Pow2(i), first + blocks)
    {
      ghost var done := a[..filenumber];
      var count := if number <= left then number else left;
      a[filenumber] := Allocation(exponent, count);
      ConsecutiveOne(done, a[filenumber], first);
      assert a[..filenumber + 1] == done + [a[filenumber]];
      Pow2Step(low, filenumber);
      exponent := exponent + count;
      left := left - count;
      number := 2 * number;
    }
  }

  lemma Pow2Start(low: nat)
    ensures low * Pow2(0) == low
  {
  }

  lemma Pow2Step(low: nat, k: nat)
    requires low > 0
    ensures low * Pow2(k + 1) == 2 * (low * Pow2(k)) && low * Pow2(k) >= low
  {
    assert low * Pow2(k) >= low * 1;
  }

  lemma Twice(low: nat, p: nat)
    ensures 2 * (low * p) == (2 * low) * p
  {
  }

  lemma Less(low: nat, p: nat)
    requires p > 0
    ensures low * (p - 1) == low * p - low
  {
  }

  /** (1 << files) - 1 in 32 bits, on hardware that takes the shift modulo 32 */
  function Capacity(files: nat): nat {
    Pow2(files % 32) - 1
  }

  /** The loop that doubles the capacity has doubled it often enough after n turns. */
  ghost predicate Enough(blocks: nat, files: nat, n: nat) {
    blocks <= Pow2(n) * Capacity(files)
  }

  /** With 2^k blocks in the smallest file all the blocks fit, with fewer they do not. */
  ghost predicate LeastShare(blocks: nat, files: nat, k: nat) {
    Enough(blocks, files, k) && (k > 0 ==> !Enough(blocks, files, k - 1))
  }

  /** The loop ends, unless there are blocks to place and the number of files is a multiple of 32. */
  lemma VariableEnds(blocks: nat, files: nat)
    ensures (exists n: nat :: Enough(blocks, files, n)) <==> blocks == 0 || files % 32 != 0
  {
    if blocks == 0 {
      assert Enough(blocks, files, 0);
    } else if files % 32 != 0 {
      BitLengthBounds(blocks);
      Scaled(Pow2(BitLength(blocks)), Capacity(files));
      assert Enough(blocks, files, BitLength(blocks));
    } else {
      forall n: nat ensures !Enough(blocks, files, n) {
        Scaled(Pow2(n), Capacity(files));
      }
    }
  }

  lemma Scaled(p: nat, c: nat)
    ensures c > 0 ==> p * c >= p
    ensures c == 0 ==> p * c == 0
  {
  }

  /** Up to 31 files the capacity is what the files can hold; the number of files that the program chooses by itself is
      among the safe ones. */
  lemma SafeFiles(files: nat, n: nat)
    requires files < 32 && 0 < n < 65536
    ensures Capacity(files) == Pow2(files) - 1
    ensures 0 < BitLength(n) <= 16
  {
    Sixteen();
    BitLengthBounds(n);
    hide Pow2, BitLength;
    if BitLength(n) > 16 {
      PowersGrow(16, BitLength(n) - 1);
    }
  }

  lemma Sixteen()
    ensures Pow2(16) == 65536
  {
    assert Pow2(4) == 16;
    assert Pow2(8) == 256;
    assert Pow2(12) == 4096;
  }

  /** The variable scheme: the smallest file gets the least power of two for which the files hold all the blocks. */
  method AllocateVariable(first: nat, blocks: nat, a: array<Allocation>)
    requires a.Length > 1 && (a.Length - 1) % 32 != 0
    modifies a
    ensures Partition(a[..a.Length - 1], first, first + blocks)
    ensures exists k: nat :: LeastShare(blocks, a.Length - 1, k) &&
              forall i :: 0 <= i < a.Length - 1 ==> a[i].count == Share(blocks, Pow2(k), i)
    ensures Variably(a[..a.Length - 1], first, blocks)
  {
    hide Partition, Pow2;
    var files := a.Length - 1;
    var lowblockcount := 1;
    var maxrecoveryblocks := Capacity(files);
    ghost var k: nat := 0;
    Pow2Start(1);
    Pow2Step(1, files % 32 - 1);
    while maxrecoveryblocks < blocks
      invariant lowblockcount == Pow2(k) && maxrecoveryblocks == lowblockcount * Capacity(files)
                && maxrecoveryblocks > 0
      invariant k > 0 ==> !Enough(blocks, files, k - 1)
      decreases blocks - maxrecoveryblocks
    {
      Pow2Step(1, k);
      Twice(lowblockcount, Capacity(files));
      lowblockcount := 2 * lowblockcount;
      maxrecoveryblocks := 2 * maxrecoveryblocks;
      k := k + 1;
    }
    EnoughFiles(blocks, files, k);
    AllocateDoubling(first, blocks, lowblockcount, files, a);
    assert LeastShare(blocks, files, k);
  }

  lemma EnoughFiles(blocks: nat, files: nat, k: nat)
    requires Enough(blocks, files, k)
    ensures blocks <= Pow2(k) * Pow2(files) - Pow2(k)
  {
    hide *;
    EnoughMeans(blocks, files, k);
    CapacityAtMost(files);
    Less(Pow2(k), Pow2(files));
    Grown(Pow2(k), Capacity(files), Pow2(files) - 1);
  }

  lemma EnoughMeans(blocks: nat, files: nat, k: nat)
    requires Enough(blocks, files, k)
    ensures blocks <= Pow2(k) * Capacity(files)
  {
    hide Pow2, Capacity;
  }

  lemma CapacityAtMost(files: nat)
    ensures Capacity(files) <= Pow2(files) - 1
  {
    PowersGrow(files % 32, files);
    hide Pow2;
  }

  lemma Grown(p: nat, a: nat, b: nat)
    requires a <= b
    ensures p * a <= p * b
  {
  }

  /** One hundred recovery blocks in seven files */
  lemma VariableExample(a: seq<Allocation>)
    requires |a| == 7 && Partition(a, 0, 100) && Variably(a, 0, 100)
    ensures a[0].count == 1 && a[1].count == 2 && a[2].count == 4 && a[3].count == 8
    ensures a[4].count == 16 && a[5].count == 32 && a[6].count == 37
  {
    var k: nat :| LeastShare(100, 7, k) && Doubling(a, Pow2(k), 100);
    OneInSmallest(k);
    SmallPowers();
    hide Pow2;
    forall i | 0 <= i < 7 ensures IsShare(a[i], Pow2(i), 100) {
      assert IsShare(a[i], 1 * Pow2(i), 100);
    }
    assert a[0].exponent == 0;
    PartitionNext(a, 0, 100, 1);
    PartitionNext(a, 0, 100, 2);
    PartitionNext(a, 0, 100, 3);
    PartitionNext(a, 0, 100, 4);
    PartitionNext(a, 0, 100, 5);
    PartitionNext(a, 0, 100, 6);
  }

  lemma PartitionNext(a: seq<Allocation>, from: nat, to: nat, i: nat)
    requires Partition(a, from, to) && 0 < i < |a|
    ensures a[i].exponent == a[i - 1].exponent + a[i - 1].count
  {
    assert a[..i][i - 1] == a[i - 1];
  }

  lemma SmallPowers()
    ensures Pow2(0) == 1 && Pow2(1) == 2 && Pow2(2) == 4 && Pow2(3) == 8 && Pow2(4) == 16 && Pow2(5) == 32
    ensures Pow2(6) == 64 && Pow2(7) == 128
  {
  }

  lemma OneInSmallest(k: nat)
    requires LeastShare(100, 7, k)
    ensures k == 0 && Pow2(k) == 1
  {
    SmallPowers();
    hide Pow2;
    if k > 0 { EnoughAtOnce(k - 1); }
  }

  lemma EnoughAtOnce(n: nat)
    ensures Enough(100, 7, n)
  {
    SmallPowers();
    assert Capacity(7) == 127;
  }

  /** The number of files of the limited scheme is exactly enough: none of them is empty, and none holds more blocks
      than the largest source file has. */
  lemma ShareLimited(extra: nat, largest: nat, i: nat)
    requires 0 < extra < 2 * largest && i < BitLength(extra)
    ensures 0 < Share(extra, 1, i) <= largest
  {
    var b := BitLength(extra);
    BitLengthBounds(extra);
    hide BitLength;
    Pow2Step(1, b - 1);
    PowersGrow(i, b - 1);
    if i < b - 1 {
      PowersGrow(i + 1, b - 1);
      Pow2Step(1, i);
    }
  }

  lemma OneLess(extra: nat, r: nat, largest: nat)
    requires largest > 0 && extra < 2 * largest && extra + r * largest >= 2 * largest
    ensures r > 0 && (r - 1) * largest == r * largest - largest
  {
  }

  lemma AtLeastOne(r: nat, largest: nat)
    requires r > 0
    ensures r * largest >= largest
  {
  }

  lemma NoneLeft(extra: nat, r: nat, largest: nat)
    requires largest > 0 && extra + r * largest < 2 * largest && (r > 0 ==> extra >= largest)
    ensures r == 0
  {
    if r > 0 { AtLeastOne(r, largest); }
  }

  lemma Pow2End(k: nat)
    ensures 1 * Pow2(k) - 1 == Pow2(k) - 1
  {
  }

  lemma Prepend(x: Allocation, b: seq<Allocation>, to: nat)
    requires Partition(b, x.exponent + x.count, to)
    ensures Partition([x] + b, x.exponent, to)
  {
    NoneConsecutive(x.exponent);
    ConsecutiveOne([], x, x.exponent);
    assert [] + [x] == [x];
    ConsecutiveJoin([x], b, x.exponent);
  }

  lemma Joined(a: seq<Allocation>, b: seq<Allocation>, from: nat, middle: nat, to: nat)
    requires Partition(a, from, middle) && Partition(b, middle, to)
    ensures Partition(a + b, from, to)
  {
    ConsecutiveJoin(a, b, from);
  }

  /** The limited scheme begins at the last file with files that are full. */
  method AllocateFull(first: nat, blocks: nat, largest: nat, a: array<Allocation>, ghost extra: nat, ghost whole: nat,
                      ghost bits: nat)
    returns (filenumber: nat, left: nat)
    requires a.Length == whole + bits + 1 && largest > 0 && bits > 0
    requires blocks == extra + whole * largest && extra < 2 * largest && (whole > 0 ==> extra >= largest)
    modifies a
    ensures filenumber == bits && left == extra
    ensures Partition(a[bits..a.Length - 1], first + extra, first + blocks)
    ensures forall i :: bits <= i < a.Length - 1 ==> a[i].count == largest
  {
    hide *;
    ghost var r: nat := whole;
    var exponent: nat := first + blocks;
    filenumber, left := a.Length - 1, blocks;
    NoneConsecutive(first + blocks);
    assert a[filenumber..a.Length - 1] == [];
    while left >= 2 * largest && filenumber > 0
      invariant r <= whole && filenumber == bits + r && left == extra + r * largest && exponent == first + left
      invariant Partition(a[filenumber..a.Length - 1], exponent, first + blocks)
      invariant forall i :: filenumber <= i < a.Length - 1 ==> a[i].count == largest
      decreases filenumber
    {
      ghost var done := a[filenumber..a.Length - 1];
      OneLess(extra, r, largest);
      filenumber := filenumber - 1;
      exponent := exponent - largest;
      left := left - largest;
      r := r - 1;
      a[filenumber] := Allocation(exponent, largest);
      assert a[filenumber..a.Length - 1] == [a[filenumber]] + done;
      Prepend(a[filenumber], done, first + blocks);
    }
    NoneLeft(extra, r, largest);
  }

  /** The full files, the blocks for the others, and the number of the others */
  lemma LimitedParts(blocks: nat, largest: nat) returns (extra: nat, whole: nat, bits: nat)
    requires blocks > 0 && largest > 0
    ensures Whole(blocks, largest) + BitLength(Extra(blocks, largest)) == whole + bits && bits == BitLength(extra) > 0
    ensures blocks == extra + whole * largest && 0 < extra < 2 * largest && (whole > 0 ==> extra >= largest)
    ensures extra <= 1 * Pow2(bits) - 1
  {
    whole := Whole(blocks, largest);
    extra := Extra(blocks, largest);
    bits := BitLength(extra);
    WholeFits(blocks, largest);
    hide Whole;
    BitLengthBounds(extra);
    Pow2End(bits);
  }

  /** The limited scheme: full files from the top, and below them files of 1, 2, 4, ... blocks */
  method AllocateLimited(first: nat, blocks: nat, largest: nat, a: array<Allocation>)
    requires a.Length > 0 && largest > 0 && blocks > 0
    requires a.Length - 1 == Whole(blocks, largest) + BitLength(Extra(blocks, largest))
    modifies a
    ensures Partition(a[..a.Length - 1], first, first + blocks)
    ensures forall i :: 0 <= i < a.Length - 1 ==> 0 < a[i].count <= largest
    ensures Capped(a[..a.Length - 1], first, largest)
  {
    hide *;
    ghost var extra, whole, bits := LimitedParts(blocks, largest);
    var filenumber, left := AllocateFull(first, blocks, largest, a, extra, whole, bits);
    ghost var top := a[bits..a.Length - 1];
    AllocateDoubling(first, left, 1, filenumber, a);
    TailKept(a[bits..], top, largest);
    assert a[..a.Length - 1] == a[..bits] + a[bits..][..whole];
    Joined(a[..bits], top, first, first + extra, first + blocks);
    LimitedIsCapped(a[..a.Length - 1], first, largest, bits, extra, whole);
    forall i | 0 <= i < a.Length - 1 ensures 0 < a[i].count <= largest {
      if i < bits {
        ShareLimited(extra, largest, i);
      } else {
        assert a[i] == a[bits..][i - bits];
      }
    }
  }

  lemma LimitedIsCapped(a: seq<Allocation>, first: nat, largest: nat, bits: nat, extra: nat, whole: nat)
    requires |a| == bits + whole && Partition(a[..bits], first, first + extra)
    requires Doubling(a[..bits], 1, first + extra) && extra < 2 * largest
    requires whole > 0 ==> extra >= largest
    requires forall i :: bits <= i < |a| ==> a[i].count == largest
    ensures Capped(a, first, largest)
  {
    hide Doubling, End, Consecutive;
    assert CappedAt(a, first, largest, bits, extra);
  }

  lemma TailKept(tail: seq<Allocation>, top: seq<Allocation>, largest: nat)
    requires |tail| == |top| + 1 && tail[..|top|] == top
    requires forall i :: 0 <= i < |top| ==> top[i].count == largest
    ensures forall i :: 0 <= i < |top| ==> tail[i].count == largest
  {
    forall i | 0 <= i < |top| ensures tail[i].count == largest {
      assert tail[..|top|][i] == tail[i];
    }
  }

  lemma SomeFile(n: nat, largest: nat)
    requires n > 0 && largest > 0
    ensures BitLength(Extra(n, largest)) > 0
  {
    WholeFits(n, largest);
  }

  class Par2Creator {
    var blocksize: nat
    var sourceblockcount: nat
    var largestfilesize: nat
    var firstrecoveryblock: nat
    var recoveryblockcount: nat
    var recoveryfilecount: nat

    constructor (blocksize: nat, sourceblockcount: nat, largestfilesize: nat, firstrecoveryblock: nat,
                 recoveryblockcount: nat, recoveryfilecount: nat)
      ensures this.blocksize == blocksize && this.sourceblockcount == sourceblockcount
      ensures this.largestfilesize == largestfilesize && this.firstrecoveryblock == firstrecoveryblock
      ensures this.recoveryblockcount == recoveryblockcount && this.recoveryfilecount == recoveryfilecount
    {
      this.blocksize, this.sourceblockcount, this.largestfilesize := blocksize, sourceblockcount, largestfilesize;
      this.firstrecoveryblock, this.recoveryblockcount := firstrecoveryblock, recoveryblockcount;
      this.recoveryfilecount := recoveryfilecount;
    }

    /** ComputeBlockSizeAndBlockCount: one of the two is given. Empty source files have been left out before. */
    method ComputeBlockSizeAndBlockCount(sizes: seq<nat>) returns (ok: bool)
      requires sizes != [] && forall i :: 0 <= i < |sizes| ==> sizes[i] > 0
      requires sourceblockcount <= 32768
      modifies this`blocksize, this`sourceblockcount
      ensures old(blocksize) > 0 ==> blocksize == old(blocksize) && (ok <==> Blocks(sizes, blocksize) <= 32768)
      ensures old(blocksize) == 0 && old(sourceblockcount) > 0 ==>
                (ok ==> Best(sizes, blocksize, old(sourceblockcount)))
      ensures old(blocksize) == 0 && old(sourceblockcount) > 0 ==>
                var n, qs := old(sourceblockcount), AllQuads(sizes);
                ok <==> n >= |sizes| && (|sizes| < n <= Total(qs) ==> SearchFits(qs, n))
      ensures old(blocksize) == 0 && old(sourceblockcount) > 0 && ok ==>
                var n, qs := old(sourceblockcount), AllQuads(sizes);
                && (n == |sizes| ==> LeastHolding(sizes, blocksize))
                && (n > Total(qs) && n > |sizes| ==> blocksize == 4)
                && (|sizes| < n <= Total(qs) ==>
                      blocksize > 0 && blocksize % 4 == 0 && First(qs, n, Tried(qs, n), blocksize / 4))
      ensures !ok ==> blocksize == old(blocksize) && sourceblockcount == old(sourceblockcount)
      ensures old(blocksize) == 0 && old(sourceblockcount) > 0 && !ok ==>
                old(sourceblockcount) < |sizes|
                || exists size: nat :: Best(sizes, size, old(sourceblockcount)) && Blocks(sizes, size) > 32768
      ensures ok && blocksize > 0 ==> sourceblockcount == Blocks(sizes, blocksize) <= 32768
      ensures old(blocksize) == 0 && old(sourceblockcount) == 0 ==> ok && blocksize == 0 && sourceblockcount == 0
    {
      hide Blocks, Total, Best, AllQuads, SearchFits, First, Tried, LeastHolding;
      if blocksize > 0 {
        var count := CountSizes(sizes, blocksize);
        if count > 32768 {
          return false;
        }
        sourceblockcount := count;
      } else if sourceblockcount > 0 {
        if sourceblockcount < |sizes| {
          return false;
        } else if sourceblockcount == |sizes| {
          var largest := Largest(sizes);
          blocksize := (largest + 3) / 4 * 4;
          RoundedUp(largest);
          RoundedIsLeast(sizes, largest);
          LargestIsBest(sizes, blocksize);
        } else {
          var totalsize := SumQuads(sizes);
          if sourceblockcount > totalsize {
            SmallestIsBest(sizes, sourceblockcount);
            sourceblockcount := totalsize;
            blocksize := 4;
          } else {
            var size, count := SearchSize(sizes, sourceblockcount);
            SearchedIsBest(sizes, size, sourceblockcount);
            FitsMeans(AllQuads(sizes), sourceblockcount, size);
            if count > 32768 {
              return false;
            }
            sourceblockcount := count;
            blocksize := 4 * size;
          }
        }
      }
      return true;
    }

    /** The number of blocks of the largest source file */
    function LargestBlocks(): (n: nat)
      requires blocksize > 0 && largestfilesize > 0
      reads this`blocksize, this`largestfilesize
      ensures n > 0
    {
      CeilBounds(largestfilesize, blocksize, 0);
      Ceil(largestfilesize, blocksize)
    }

    /** ComputeRecoveryFileCount. In the limited scheme a file holds at most as many recovery blocks as the largest
        source file has blocks, and the last blocks fill files of 1, 2, 4, ... blocks. */
    method ComputeRecoveryFileCount(scheme: Scheme) returns (ok: bool)
      requires scheme == Limited ==> blocksize > 0 && largestfilesize > 0
      modifies this`recoveryfilecount
      ensures recoveryblockcount == 0 ==> ok && recoveryfilecount == 0
      ensures recoveryblockcount > 0 && scheme != Limited ==>
                && recoveryfilecount == (if old(recoveryfilecount) == 0 then BitLength(recoveryblockcount)
                    else old(recoveryfilecount))
                && (ok <==> recoveryfilecount <= recoveryblockcount)
      ensures recoveryblockcount > 0 && scheme == Limited ==>
                ok && recoveryfilecount == Whole(recoveryblockcount, LargestBlocks())
                    + BitLength(Extra(recoveryblockcount, LargestBlocks()))
    {
      hide Whole, Extra, BitLength, Ceil;
      if recoveryblockcount == 0 {
        recoveryfilecount := 0;
        return true;
      }
      match scheme
      case Variable | Uniform =>
        if recoveryfilecount == 0 {
          recoveryfilecount := CountBits(recoveryblockcount);
        }
        ok := recoveryfilecount <= recoveryblockcount;
      case Limited =>
        var largest := LargestBlocks();
        var whole := recoveryblockcount / largest;
        whole := if whole >= 1 then whole - 1 else 0;
        WholeIs(recoveryblockcount, largest, whole);
        var extra := recoveryblockcount - whole * largest;
        var bits := CountBits(extra);
        recoveryfilecount := whole + bits;
        ok := true;
    }

    /** The number of recovery files is one that ComputeRecoveryFileCount gives, or one that was asked for. */
    ghost predicate Counted(scheme: Scheme)
      reads this
    {
      if recoveryblockcount == 0 then recoveryfilecount == 0
      else match scheme
        case Uniform => recoveryfilecount > 0
        case Variable => recoveryfilecount % 32 != 0
        case Limited =>
          && blocksize > 0 && largestfilesize > 0
          && recoveryfilecount == Whole(recoveryblockcount, LargestBlocks())
              + BitLength(Extra(recoveryblockcount, LargestBlocks()))
    }

    /** The files hold as many recovery blocks as the scheme says. */
    ghost predicate InScheme(scheme: Scheme, a: seq<Allocation>)
      reads this
    {
      recoveryblockcount > 0 ==>
        match scheme
        case Uniform => Even(a)
        case Variable => Variably(a, firstrecoveryblock, recoveryblockcount)
        case Limited => blocksize > 0 && Capped(a, firstrecoveryblock, Ceil(largestfilesize, blocksize))
    }

    /** InitialiseOutputFiles, first part: the exponents are divided among the recovery files, and there is one more
        file without recovery blocks. */
    method AllocateRecoveryBlocks(scheme: Scheme) returns (fileallocations: array<Allocation>)
      requires Counted(scheme)
      ensures fresh(fileallocations) && fileallocations.Length == recoveryfilecount + 1
      ensures Partition(fileallocations[..recoveryfilecount],
                        firstrecoveryblock, firstrecoveryblock + recoveryblockcount)
      ensures fileallocations[recoveryfilecount].count == 0
      ensures scheme == Limited ==>
                forall i :: 0 <= i < recoveryfilecount ==>
                  0 < fileallocations[i].count <= Ceil(largestfilesize, blocksize)
      ensures InScheme(scheme, fileallocations[..recoveryfilecount])
    {
      hide Partition, Share, Whole, Extra, BitLength, Even, Variably, Capped;
      fileallocations := new Allocation[recoveryfilecount + 1](_ => Allocation(0, 0));
      NoneConsecutive(firstrecoveryblock);
      assert fileallocations[..0] == [];
      if recoveryblockcount > 0 && scheme == Limited {
        SomeFile(recoveryblockcount, LargestBlocks());
      }
      if recoveryfilecount > 0 {
        match scheme
        case Uniform =>
          AllocateUniform(firstrecoveryblock, recoveryblockcount, fileallocations);
          UniformIsEven(fileallocations[..recoveryfilecount], recoveryblockcount);
        case Variable => AllocateVariable(firstrecoveryblock, recoveryblockcount, fileallocations);
        case Limited => AllocateLimited(firstrecoveryblock, recoveryblockcount, LargestBlocks(), fileallocations);
      }
      ghost var files := fileallocations[..recoveryfilecount];
      fileallocations[recoveryfilecount] := Allocation(firstrecoveryblock + recoveryblockcount, 0);
      assert fileallocations[..recoveryfilecount] == files;
    }
  }
}
