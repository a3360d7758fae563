/** Par2Creator::ComputeRSMatrix and Par2Repairer::ComputeRSmatrix, and the round trip they make:
    the recovery blocks that the creator writes let the repairer put back the blocks that were lost. */
module RoundTrip {
  import opened Bytes
  import opened Fields
  import opened Matrices
  import opened Elimination
  import opened Vandermonde
  import opened Generators
  import opened Orders
  import opened GaloisTables
  import opened Galois16
  import opened LongMultiply
  import opened BaseSelection
  import opened ReedSolomon
  import opened Blocks
  import opened Repair
  import opened Ranges
  import opened Cuts

  // ----- the words of recovery blocks

  ghost predicate AllValid(s: seq<Source>) {
    forall i :: 0 <= i < |s| ==> s[i].Valid()
  }

  /** The block holds the recovery words with exponent e of the data blocks. */
  ghost predicate IsRecovery(r: Source, data: seq<Source>, bases: seq<u16>, e: nat, blocksize: nat)
    requires AllValid(data) && |bases| == |data|
  {
    r.Valid() && forall g :: 0 <= g < blocksize / 2 ==>
      Pair(r.At(2 * g), r.At(2 * g + 1)) == RecoveryWord(GF16(), bases, Column(data, g), e)
  }

  /** The block holds the same bytes as a data block, padded. */
  ghost predicate Holds(b: Source, d: Source, blocksize: nat)
    requires d.Valid()
  {
    b.Valid() && forall p :: 0 <= p < blocksize ==> b.At(p) == d.At(p)
  }

  /** With every block present the indexes are all of them, in order. */
  lemma {:induction false} PickAll(present: seq<bool>, n: nat)
    requires n <= |present| && forall i :: 0 <= i < n ==> present[i]
    ensures Indexes(present, true, n) == seq(n, i => i)
  {
    if n > 0 { PickAll(present, n - 1); }
  }

  /** With all the data blocks there, the inputs are the data and the outputs the recovery words. */
  lemma AllThere(bases: seq<u16>, x: seq<u16>, exponents: seq<nat>)
    requires |bases| == |x| && Indexes(AllTrue(|x|), false, |x|) == []
    ensures Inputs(GF16(), AllTrue(|x|), bases, x, []) == x
    ensures |Outputs(GF16(), AllTrue(|x|), bases, x, exponents)| == |exponents|
    ensures forall o :: 0 <= o < |exponents| ==>
              Outputs(GF16(), AllTrue(|x|), bases, x, exponents)[o] == RecoveryWord(GF16(), bases, x, exponents[o])
  {
    hide GF16, RecoveryWord;
    PickAll(AllTrue(|x|), |x|);
  }

  lemma ReconstructsAt(l: Matrix<u16>, present: seq<bool>, bases: seq<u16>, used: seq<nat>, absent: seq<nat>,
                       data: seq<u16>, i: nat)
    requires |bases| == |present| == |data| && |used| == |Indexes(present, false, |present|)| && i < |used| + |absent|
    requires Reconstructs(GF16(), l, present, bases, used, absent)
    ensures var cols := |Indexes(present, true, |present|)| + |used|;
            && Shape(l, |used| + |absent|, cols)
            && Dot(GF16(), l[i], Inputs(GF16(), present, bases, data, used), cols)
                == Outputs(GF16(), present, bases, data, absent)[i]
  {
    hide Dot, GF16, Inputs, Outputs, Indexes;
  }

  lemma CreatedWord(l: Matrix<u16>, data: seq<Source>, bases: seq<u16>, exponents: seq<nat>, o: nat, g: nat)
    requires AllValid(data) && |bases| == |data| && o < |exponents|
    requires var present := AllTrue(|data|);
             Indexes(present, false, |data|) == [] && Reconstructs(GF16(), l, present, bases, [], exponents)
    ensures Shape(l, |exponents|, |data|)
    ensures Combined(l[o], data, g) == RecoveryWord(GF16(), bases, Column(data, g), exponents[o])
  {
    hide Dot, GF16, Column, RecoveryWord, Inputs, Outputs, Reconstructs, Indexes, AllTrue;
    var present, x := AllTrue(|data|), Column(data, g);
    AllThere(bases, x, exponents);
    PickAll(present, |data|);
    ReconstructsAt(l, present, bases, [], exponents, x, o);
  }

  lemma BytesOfCombined(row: seq<u16>, inputs: seq<Source>, g: nat)
    requires |row| == |inputs| && AllValid(inputs)
    ensures Pair(CombinedByte(row, inputs, 2 * g), CombinedByte(row, inputs, 2 * g + 1)) == Combined(row, inputs, g)
  {
    hide Combined;
    BytesOf(Combined(row, inputs, g));
    assert (2 * g) / 2 == g && (2 * g) % 2 == 0 && (2 * g + 1) / 2 == g && (2 * g + 1) % 2 == 1;
  }

  /** A recovery block of full length, as the creator leaves it on the disk, read back */
  lemma CreatedBlock(l: Matrix<u16>, data: seq<Source>, bases: seq<u16>, exponents: seq<nat>, o: nat, blocksize: nat)
    requires AllValid(data) && |bases| == |data| && o < |exponents| && blocksize % 2 == 0
    requires var present := AllTrue(|data|);
             Indexes(present, false, |data|) == [] && Reconstructs(GF16(), l, present, bases, [], exponents)
    ensures Shape(l, |exponents|, |data|)
    ensures IsRecovery(Source(OutputBlock(l[o], data, blocksize), 0, blocksize), data, bases, exponents[o], blocksize)
  {
    hide Reconstructs, Combined, CombinedByte, Column, RecoveryWord, GF16;
    CreatedWord(l, data, bases, exponents, o, 0);
    var r := Source(OutputBlock(l[o], data, blocksize), 0, blocksize);
    forall g | 0 <= g < blocksize / 2
      ensures Pair(r.At(2 * g), r.At(2 * g + 1)) == RecoveryWord(GF16(), bases, Column(data, g), exponents[o])
    {
      CreatedWord(l, data, bases, exponents, o, g);
      BytesOfCombined(l[o], data, g);
    }
  }

  // ----- the repairer's side

  /** The inputs of the repair, column by column */
  lemma RepairInputs(inputs: seq<Source>, data: seq<Source>, present: seq<bool>, bases: seq<u16>, used: seq<nat>,
                     g: nat, blocksize: nat)
    requires AllValid(inputs) && AllValid(data) && |bases| == |data| == |present| && g < blocksize / 2
    requires var p := Indexes(present, true, |present|);
             && |inputs| == |p| + |used|
             && (forall i :: 0 <= i < |p| ==> Holds(inputs[i], data[p[i]], blocksize))
             && (forall i :: 0 <= i < |used| ==> IsRecovery(inputs[|p| + i], data, bases, used[i], blocksize))
    ensures Column(inputs, g) == Inputs(GF16(), present, bases, Column(data, g), used)
  {
    hide RecoveryWord, GF16, Pair;
    var p := Indexes(present, true, |present|);
    var x, y := Column(inputs, g), Inputs(GF16(), present, bases, Column(data, g), used);
    forall i | 0 <= i < |inputs|
      ensures x[i] == y[i]
    {
      if i < |p| {
        assert Holds(inputs[i], data[p[i]], blocksize);
      } else {
        assert IsRecovery(inputs[|p| + (i - |p|)], data, bases, used[i - |p|], blocksize);
      }
    }
  }

  /** A reconstructed block is the missing data block. */
  lemma RepairedBlock(l: Matrix<u16>, inputs: seq<Source>, data: seq<Source>, present: seq<bool>, bases: seq<u16>,
                      used: seq<nat>, o: nat, blocksize: nat)
    requires AllValid(inputs) && AllValid(data) && |bases| == |data| == |present| && blocksize % 2 == 0
    requires var p, m := Indexes(present, true, |present|), Indexes(present, false, |present|);
             && |inputs| == |p| + |used| && |used| == |m| && o < |m|
             && (forall i :: 0 <= i < |p| ==> Holds(inputs[i], data[p[i]], blocksize))
             && (forall i :: 0 <= i < |used| ==> IsRecovery(inputs[|p| + i], data, bases, used[i], blocksize))
             && Reconstructs(GF16(), l, present, bases, used, [])
    ensures Shape(l, |used|, |inputs|)
    ensures OutputBlock(l[o], inputs, blocksize) == Padded(data[Indexes(present, false, |present|)[o]], blocksize)
  {
    hide Dot, GF16, Column, Inputs, IsRecovery, Holds, Pair;
    var m := Indexes(present, false, |present|);
    var d := data[m[o]];
    assert d.Valid();
    forall q | 0 <= q < blocksize
      ensures CombinedByte(l[o], inputs, q) == d.At(q)
    {
      var g := q / 2;
      RepairInputs(inputs, data, present, bases, used, g, blocksize);
      assert Combined(l[o], inputs, g) == Outputs(GF16(), present, bases, Column(data, g), [])[o];
      ColumnAt(data, g, m[o]);
      PairBytes(d.At(2 * g), d.At(2 * g + 1), Combined(l[o], inputs, g));
    }
  }

  lemma ColumnAt(data: seq<Source>, g: nat, i: nat)
    requires AllValid(data) && i < |data|
    ensures Column(data, g)[i] == Pair(data[i].At(2 * g), data[i].At(2 * g + 1))
  {
  }

  /** Block i has the same base in every call of SetInput. */
  lemma SameBases(a: seq<u16>, b: seq<u16>)
    requires Bases(a) && Bases(b) && |a| == |b|
    ensures a == b
  {
    hide IsBase;
    forall i | 0 <= i < |a|
      ensures a[i] == b[i]
    {
      assert IsBase(a[i], i) && IsBase(b[i], i);
      BasesDistinct(a[i], i, b[i], i);
    }
  }

  lemma {:induction false} RangeExponents(want: bool, low: nat, end: nat)
    requires low <= end
    ensures Exponents(OutputRange(want, low, end), want) == From(low, end - low)
    ensures Exponents(OutputRange(want, low, end), !want) == []
    decreases end
  {
    if low < end {
      RangeExponents(want, low, end - 1);
      var r := OutputRange(want, low, end);
      assert r[..|r| - 1] == OutputRange(want, low, end - 1);
    }
  }

  ghost predicate TablesFor(table: GaloisTable, t: LongMultiplyTable)
    reads table, table.log, table.antilog, t, t.tables
  {
    table.Valid() && table.bits == 16 && table.generator == G16 && t.Valid()
  }

  /** Par2Creator::ComputeRSMatrix, for a range of exponents that the creator has admitted */
  method CreatorMatrix(table: GaloisTable, n: nat, first: nat, count: nat) returns (ok: bool, rs: ReedSolomon<u16>)
    requires table.Valid() && table.bits == 16 && table.generator == G16 && count > 0 && first + count <= 65536
    ensures fresh(rs)
    ensures ok <==> n <= 32768
    ensures ok ==> rs.leftmatrix != null && fresh(rs.leftmatrix) && |rs.database| == n && Bases(rs.database)
    ensures ok ==> var present := AllTrue(n);
              Indexes(present, false, n) == [] &&
              Reconstructs(GF16(), Rows(rs.leftmatrix), present, rs.database, [], From(first, count))
  {
    hide IsField, GF16, Reconstructs, Faithful, IsBase, Regular, RightStart, Exponents, OutputRange, Indexes, Filled,
         Primitive;
    GF16IsField();
    rs := new ReedSolomon<u16>(GF16());
    ok := SetInputCount(rs, table, n);
    if !ok {
      return;
    }
    ComputeFrom(rs, first, count);
  }

  /** The matrix for blocks that are all present */
  method ComputeFrom(rs: ReedSolomon<u16>, first: nat, count: nat)
    requires rs.field == GF16() && rs.InputsValid() && rs.OutputsValid() && rs.outputrows == []
    requires rs.datamissing == 0 && rs.present == AllTrue(|rs.present|) && count > 0 && first + count <= 65536
    modifies rs`outputrows, rs`outputcount, rs`parpresent, rs`parmissing, rs`leftmatrix
    ensures rs.leftmatrix != null && fresh(rs.leftmatrix) && |rs.database| == |rs.present|
    ensures var present := rs.present;
              Indexes(present, false, |present|) == [] &&
              Reconstructs(GF16(), Rows(rs.leftmatrix), present, rs.database, [], From(first, count))
  {
    hide IsField, GF16, Reconstructs, Faithful, Regular, RightStart, Exponents, OutputRange, Indexes, AllTrue;
    GF16IsField();
    CutOfSmall(first);
    CutOfSmall(count - 1);
    CutOfSmall(first + count - 1);
    rs.SetOutputs(false, Cut(first), Cut(Cut(first) + Cut(count - 1)));
    assert rs.outputrows == OutputRange(false, first, first + count);
    RangeExponents(false, first, first + count);
    assert rs.Used() == [] && rs.Absent() == From(first, count);
    var ok := rs.Compute();
    assert ok;
  }

  /** The creator's run: afterwards every recovery packet of full length holds its recovery block. */
  method Create(table: GaloisTable, t: LongMultiplyTable, data: seq<Source>, first: nat, targets: seq<Target>,
                blocksize: nat, chunksize: nat, disk: array<u8>) returns (ok: bool, ghost bases: seq<u16>)
    requires TablesFor(table, t) && AllValid(data) && |targets| > 0 && first + |targets| <= 65536
    requires 0 < chunksize && chunksize % 4 == 0 && blocksize % 4 == 0
    requires Layout(targets, disk.Length) && disk as object != t.tables
    modifies disk
    ensures ok <==> |data| <= 32768
    ensures !ok ==> disk[..] == old(disk[..])
    ensures ok ==> |bases| == |data| && Bases(bases)
    ensures ok ==> forall o :: 0 <= o < |targets| && targets[o].Target? && targets[o].length == blocksize ==>
              IsRecovery(Source(disk[..], targets[o].address, blocksize), data, bases, first + o, blocksize)
  {
    hide Layout, Reconstructs, Contents, Progress, IsRecovery, IsBase, GF16, OutputBlock, Marks, Bases;
    bases := [];
    var rs: ReedSolomon<u16>;
    ok, rs := CreatorMatrix(table, |data|, first, |targets|);
    if !ok {
      return;
    }
    bases := rs.database;
    ghost var l, before := Rows(rs.leftmatrix), disk[..];
    CreatedShape(l, data, bases, From(first, |targets|));
    MatrixSize(rs.leftmatrix, |targets|, |data|);
    EvenSize(blocksize);
    var none: seq<Target> := [];
    assert none + targets == targets;
    ProcessAll(rs, t, data, none, targets, blocksize, chunksize, disk, l);
    CreatedOnDisk(before, disk[..], targets, l, data, bases, first, blocksize);
  }

  lemma CreatedOnDisk(before: seq<u8>, disk: seq<u8>, targets: seq<Target>, l: Matrix<u16>, data: seq<Source>,
                      bases: seq<u16>, first: nat, blocksize: nat)
    requires AllValid(data) && |bases| == |data| && blocksize % 2 == 0 && Layout(targets, |disk|)
    requires var present := AllTrue(|data|);
             Indexes(present, false, |data|) == [] &&
             Reconstructs(GF16(), l, present, bases, [], From(first, |targets|))
    requires Shape(l, |targets|, |data|)
    requires Progress(before, disk, targets, Contents(l, data, 0, blocksize), Marks(|targets|, |targets|, 0, blocksize))
    ensures forall o :: 0 <= o < |targets| && targets[o].Target? && targets[o].length == blocksize ==>
              IsRecovery(Source(disk, targets[o].address, blocksize), data, bases, first + o, blocksize)
  {
    hide Layout, Reconstructs, Contents, Progress, IsRecovery, GF16, OutputBlock, Marks;
    ContentsAt(l, data, 0, blocksize);
    forall o | 0 <= o < |targets| && targets[o].Target? && targets[o].length == blocksize
      ensures IsRecovery(Source(disk, targets[o].address, blocksize), data, bases, first + o, blocksize)
    {
      CreatedBlock(l, data, bases, From(first, |targets|), o, blocksize);
      WrittenIsContent(before, disk, targets, Contents(l, data, 0, blocksize), o, blocksize);
      SameBytes(Source(OutputBlock(l[o], data, blocksize), 0, blocksize), Source(disk, targets[o].address, blocksize),
                data, bases, first + o, blocksize);
    }
  }

  lemma MatrixSize(m: array2<u16>, rows: nat, cols: nat)
    requires Shape(Rows(m), rows, cols) && rows > 0
    ensures m.Length0 == rows && m.Length1 == cols
  {
    assert |Rows(m)[0]| == cols;
  }

  lemma CreatedShape(l: Matrix<u16>, data: seq<Source>, bases: seq<u16>, exponents: seq<nat>)
    requires |bases| == |data|
    requires var present := AllTrue(|data|);
             Indexes(present, false, |data|) == [] && Reconstructs(GF16(), l, present, bases, [], exponents)
    ensures Shape(l, |exponents|, |data|)
  {
    PickAll(AllTrue(|data|), |data|);
  }

  lemma WrittenIsContent(before: seq<u8>, disk: seq<u8>, targets: seq<Target>, c: seq<seq<u8>>, j: nat, blocksize: nat)
    requires Layout(targets, |disk|) && j < |targets| && targets[j].Target?
    requires Progress(before, disk, targets, c, Marks(|targets|, |targets|, 0, blocksize))
    ensures |c| == |targets| && blocksize <= |c[j]| && targets[j].address + targets[j].length <= |disk|
    ensures forall p :: 0 <= p < targets[j].length && p < blocksize ==> disk[targets[j].address + p] == c[j][p]
  {
    assert Written(disk, targets[j], c[j], Marks(|targets|, |targets|, 0, blocksize)[j]);
  }

  lemma SameBytes(a: Source, b: Source, data: seq<Source>, bases: seq<u16>, e: nat, blocksize: nat)
    requires AllValid(data) && |bases| == |data| && IsRecovery(a, data, bases, e, blocksize) && b.Valid()
    requires blocksize % 2 == 0 && forall p :: 0 <= p < blocksize ==> a.At(p) == b.At(p)
    ensures IsRecovery(b, data, bases, e, blocksize)
  {
    hide Pair, RecoveryWord, GF16, Column;
  }

  // ----- the repairer's run

  /** A source block: lost, or found somewhere */
  datatype SourceBlock = Lost | Found(block: Source)

  datatype RecoveryPacket = RecoveryPacket(exponent: nat, block: Source)

  function Flags(found: seq<SourceBlock>): (s: seq<bool>)
    ensures |s| == |found|
  {
    seq(|found|, i requires 0 <= i < |found| => found[i].Found?)
  }

  function PresentIndexes(found: seq<SourceBlock>): (s: seq<nat>)
    ensures forall i :: 0 <= i < |s| ==> s[i] < |found| && found[s[i]].Found?
  {
    Indexes(Flags(found), true, |found|)
  }

  function MissingIndexes(found: seq<SourceBlock>): (s: seq<nat>)
    ensures forall i :: 0 <= i < |s| ==> s[i] < |found| && found[s[i]].Lost?
  {
    Indexes(Flags(found), false, |found|)
  }

  function FullExponents(recovery: seq<RecoveryPacket>): (e: seq<nat>)
    ensures |e| == |recovery|
  {
    seq(|recovery|, i requires 0 <= i < |recovery| => recovery[i].exponent)
  }

  /** The exponents of the packets as SetOutput takes them, cut to 16 bits */
  function PacketExponents(recovery: seq<RecoveryPacket>): (e: seq<nat>)
    ensures |e| == |recovery|
  {
    seq(|recovery|, i requires 0 <= i < |recovery| => Cut(recovery[i].exponent))
  }

  function PacketRows(recovery: seq<RecoveryPacket>): (r: seq<RSOutputRow>)
    ensures |r| == |recovery|
  {
    seq(|recovery|, i requires 0 <= i < |recovery| => RSOutputRow(true, Cut(recovery[i].exponent)))
  }

  lemma {:induction false} PacketRowExponents(recovery: seq<RecoveryPacket>)
    ensures Exponents(PacketRows(recovery), true) == PacketExponents(recovery)
    ensures Exponents(PacketRows(recovery), false) == []
  {
    if recovery != [] {
      var n := |recovery| - 1;
      PacketRowExponents(recovery[..n]);
      assert PacketRows(recovery)[..n] == PacketRows(recovery[..n]);
      assert PacketExponents(recovery) == PacketExponents(recovery[..n]) + [Cut(recovery[n].exponent)];
    }
  }

  lemma {:induction false} IndexesCount(present: seq<bool>, n: nat)
    requires n <= |present|
    ensures |Indexes(present, true, n)| + |Indexes(present, false, n)| == n
  {
    if n > 0 { IndexesCount(present, n - 1); }
  }

  /** The lists that the repair works with: blocks to read, targets to copy to and targets to reconstruct */
  ghost predicate Sorted(found: seq<SourceBlock>, targets: seq<Target>, recovery: seq<RecoveryPacket>,
                         inputs: seq<Source>, copies: seq<Target>, outputs: seq<Target>)
    requires |found| == |targets|
  {
    var p, m := PresentIndexes(found), MissingIndexes(found);
    && |m| <= |recovery| && |inputs| == |p| + |m|
    && (forall k :: 0 <= k < |p| ==> inputs[k] == found[p[k]].block)
    && (forall k :: 0 <= k < |m| ==> inputs[|p| + k] == recovery[k].block)
    && copies == Pick(targets, p) && outputs == Pick(targets, m)
  }

  /** The first loop of ComputeRSmatrix */
  method SortBlocks(found: seq<SourceBlock>, targets: seq<Target>)
    returns (inputs: seq<Source>, copies: seq<Target>, outputs: seq<Target>, present: seq<bool>)
    requires |found| == |targets|
    ensures var p := PresentIndexes(found);
            |inputs| == |p| && forall k :: 0 <= k < |p| ==> inputs[k] == found[p[k]].block
    ensures copies == Pick(targets, PresentIndexes(found)) && outputs == Pick(targets, MissingIndexes(found))
    ensures present == Flags(found)
  {
    inputs, copies, outputs, present := [], [], [], [];
    ghost var flags := Flags(found);
    for i := 0 to |found|
      invariant present == flags[..i]
      invariant |inputs| == |Indexes(flags, true, i)|
      invariant forall k :: 0 <= k < |inputs| ==> inputs[k] == found[Indexes(flags, true, i)[k]].block
      invariant copies == Pick(targets, Indexes(flags, true, i)) && outputs == Pick(targets, Indexes(flags, false, i))
    {
      if found[i].Found? {
        present := present + [true];
        inputs := inputs + [found[i].block];
        copies := copies + [targets[i]];
      } else {
        present := present + [false];
        outputs := outputs + [targets[i]];
      }
    }
  }

  /** The system for the lost blocks, with as many of the exponents as there are lost blocks, has regular leading
      blocks: elimination meets no zero pivot. */
  ghost predicate Solvable(bases: seq<u16>, found: seq<SourceBlock>, exponents: seq<nat>)
    requires |bases| == |found| && |MissingIndexes(found)| <= |exponents|
  {
    var m := MissingIndexes(found);
    forall k :: 1 <= k <= |m| ==> Regular(GF16(), RightStart(GF16(), Pick(bases, m), exponents[..|m|]), k)
  }

  /** Par2Repairer::ComputeRSmatrix */
  method RepairerMatrix(table: GaloisTable, found: seq<SourceBlock>, targets: seq<Target>,
                        recovery: seq<RecoveryPacket>)
    returns (ok: bool, rs: ReedSolomon<u16>, inputs: seq<Source>, copies: seq<Target>, outputs: seq<Target>)
    requires table.Valid() && table.bits == 16 && table.generator == G16
    requires |found| == |targets| && |MissingIndexes(found)| <= |recovery|
    ensures fresh(rs)
    ensures |found| > 32768 ==> !ok
    ensures |found| <= 32768 ==> |rs.database| == |found| && Bases(rs.database)
    ensures |found| <= 32768 ==> (ok <==> Solvable(rs.database, found, PacketExponents(recovery)))
    ensures ok ==> |found| <= 32768 && Sorted(found, targets, recovery, inputs, copies, outputs)
    ensures ok && |outputs| > 0 ==> rs.leftmatrix != null && fresh(rs.leftmatrix)
    ensures ok && |outputs| > 0 ==>
              && |Flags(found)| == |rs.database|
              && |PacketExponents(recovery)[..|outputs|]| == |Indexes(Flags(found), false, |found|)|
              && Reconstructs(GF16(), Rows(rs.leftmatrix), Flags(found), rs.database,
                              PacketExponents(recovery)[..|outputs|], [])
    ensures ok && |outputs| > 0 ==>
              Faithful(GF16(), Rows(rs.leftmatrix), Flags(found), rs.database,
                       PacketExponents(recovery)[..|outputs|], [])
  {
    hide IsField, GF16, Reconstructs, Faithful, IsBase, Regular, RightStart, Exponents, Indexes, Filled, Primitive;
    GF16IsField();
    var present: seq<bool>;
    inputs, copies, outputs, present := SortBlocks(found, targets);
    rs := new ReedSolomon<u16>(GF16());
    ok := SetInput(rs, table, present);
    if !ok {
      return;
    }
    IndexesCount(Flags(found), |found|);
    inputs := ChooseRecovery(rs, inputs, recovery, |found|);
    if |outputs| == 0 {
      return;
    }
    ok := SolveMissing(rs, found, recovery);
  }

  /** The matrix turns the recovery words with the exponents in full into the lost words of all data exactly when no
      cut does harm. */
  lemma HarmlessMeansRestored(l: Matrix<u16>, found: seq<SourceBlock>, bases: seq<u16>, recovery: seq<RecoveryPacket>)
    requires |bases| == |found| && Bases(bases) && |recovery| == |Indexes(Flags(found), false, |found|)|
    requires Reconstructs(GF16(), l, Flags(found), bases, PacketExponents(recovery), [])
    requires Faithful(GF16(), l, Flags(found), bases, PacketExponents(recovery), [])
    ensures (forall data: seq<u16> :: |data| == |bases| ==>
               Gives(GF16(), l, Flags(found), bases, data,
                     RecoveryWords(GF16(), bases, data, FullExponents(recovery)), []))
            <==> AllHarmless(recovery, |recovery|)
  {
    hide GF16, Reconstructs, Faithful, Gives, RecoveryWords, Harmless, Bases, Indexes, Flags;
    assert PacketExponents(recovery) == CutAll(FullExponents(recovery));
    CutReconstruction(l, Flags(found), bases, FullExponents(recovery));
    assert forall k :: 0 <= k < |recovery| ==> FullExponents(recovery)[k] == recovery[k].exponent;
  }

  /** The last part of ComputeRSmatrix: the matrix for the blocks that are lost */
  method SolveMissing(rs: ReedSolomon<u16>, found: seq<SourceBlock>, recovery: seq<RecoveryPacket>) returns (ok: bool)
    requires rs.field == GF16() && rs.InputsValid() && rs.OutputsValid() && rs.present == Flags(found)
    requires 0 < |MissingIndexes(found)| <= |recovery|
    requires Exponents(rs.outputrows, true) == PacketExponents(recovery)[..|MissingIndexes(found)|]
    requires Exponents(rs.outputrows, false) == []
    modifies rs`leftmatrix
    ensures |rs.database| == |found| && (ok <==> Solvable(rs.database, found, PacketExponents(recovery)))
    ensures ok ==> rs.leftmatrix != null && fresh(rs.leftmatrix)
    ensures ok ==>
              && |Flags(found)| == |rs.database|
              && |PacketExponents(recovery)[..|MissingIndexes(found)|]| == |Indexes(Flags(found), false, |found|)|
              && Reconstructs(GF16(), Rows(rs.leftmatrix), Flags(found), rs.database,
                              PacketExponents(recovery)[..|MissingIndexes(found)|], [])
    ensures ok ==>
              Faithful(GF16(), Rows(rs.leftmatrix), Flags(found), rs.database,
                       PacketExponents(recovery)[..|MissingIndexes(found)|], [])
  {
    hide IsField, GF16, Reconstructs, Faithful, Regular, RightStart, Exponents, Indexes;
    GF16IsField();
    ghost var e := PacketExponents(recovery)[..|MissingIndexes(found)|];
    assert rs.MissingBases() == Pick(rs.database, MissingIndexes(found));
    assert rs.Used() == e && rs.Absent() == [] && e + [] == e;
    ok := rs.Compute();
    assert rs.MissingBases() == Pick(rs.database, MissingIndexes(found)) && rs.Used() + rs.Absent() == e;
  }

  /** The second loop of ComputeRSmatrix: take the next recovery packets until there are enough blocks to read. */
  method ChooseRecovery(rs: ReedSolomon<u16>, known: seq<Source>, recovery: seq<RecoveryPacket>, count: nat)
    returns (inputs: seq<Source>)
    requires rs.OutputsValid() && rs.outputrows == [] && |known| <= count <= |known| + |recovery|
    modifies rs`outputrows, rs`outputcount, rs`parpresent, rs`parmissing
    ensures rs.OutputsValid() && |inputs| == count && known <= inputs
    ensures forall k :: 0 <= k < count - |known| ==> inputs[|known| + k] == recovery[k].block
    ensures Exponents(rs.outputrows, true) == PacketExponents(recovery)[..count - |known|]
    ensures Exponents(rs.outputrows, false) == []
  {
    hide Exponents;
    inputs := known;
    var rp := 0;
    assert PacketRows(recovery[..0]) == [];
    while |inputs| < count
      invariant rs.OutputsValid() && |inputs| == |known| + rp <= count && known <= inputs
      invariant rs.outputrows == PacketRows(recovery[..rp])
      invariant forall k :: 0 <= k < rp ==> inputs[|known| + k] == recovery[k].block
    {
      inputs := inputs + [recovery[rp].block];
      rs.SetOutput(true, Cut(recovery[rp].exponent));
      rp := rp + 1;
      assert PacketRows(recovery[..rp])
          == PacketRows(recovery[..rp - 1]) + [RSOutputRow(true, Cut(recovery[rp - 1].exponent))];
    }
    PacketRowExponents(recovery[..rp]);
    assert PacketExponents(recovery[..rp]) == PacketExponents(recovery)[..rp];
  }

  lemma {:induction false} IndexPlace(present: seq<bool>, want: bool, n: nat, i: nat) returns (k: nat)
    requires i < n <= |present| && present[i] == want
    ensures k < |Indexes(present, want, n)| && Indexes(present, want, n)[k] == i
  {
    if i == n - 1 {
      k := |Indexes(present, want, n - 1)|;
    } else {
      k := IndexPlace(present, want, n - 1, i);
    }
  }

  lemma {:induction false} IndexesIncrease(present: seq<bool>, want: bool, n: nat)
    requires n <= |present|
    ensures forall i, j :: 0 <= i < j < |Indexes(present, want, n)| ==>
              Indexes(present, want, n)[i] < Indexes(present, want, n)[j]
  {
    if n > 0 { IndexesIncrease(present, want, n - 1); }
  }

  /** Sorting the targets into copies and outputs keeps them apart. */
  lemma SortedLayout(found: seq<SourceBlock>, targets: seq<Target>, size: nat)
    requires |found| == |targets| && Layout(targets, size)
    ensures Layout(Pick(targets, PresentIndexes(found)) + Pick(targets, MissingIndexes(found)), size)
  {
    var p, m := PresentIndexes(found), MissingIndexes(found);
    IndexesIncrease(Flags(found), true, |found|);
    IndexesIncrease(Flags(found), false, |found|);
    var idx := p + m;
    var all := Pick(targets, p) + Pick(targets, m);
    forall j, k | 0 <= j < k < |all|
      ensures Apart(all[j], all[k])
    {
      assert all[j] == targets[idx[j]] && all[k] == targets[idx[k]];
      assert idx[j] != idx[k];
      assert idx[j] < idx[k] ==> Apart(targets[idx[j]], targets[idx[k]]);
      assert idx[k] < idx[j] ==> Apart(targets[idx[k]], targets[idx[j]]);
    }
  }

  /** Every target of a block that is wanted holds the bytes of that data block, cut to its length; the rest
      of the disk is as before. */
  ghost predicate Restored(before: seq<u8>, disk: seq<u8>, targets: seq<Target>, data: seq<Source>, blocksize: nat)
    requires |targets| == |data| && AllValid(data) && Layout(targets, |disk|)
  {
    && |before| == |disk|
    && (forall i :: 0 <= i < |targets| ==> Written(disk, targets[i], Padded(data[i], blocksize), blocksize))
    && (forall x :: 0 <= x < |disk| && Outside(targets, x) ==> disk[x] == before[x])
  }

  /** What the repairer is given: blocks that hold what the data blocks hold, and recovery blocks made from them */
  ghost predicate Genuine(found: seq<SourceBlock>, recovery: seq<RecoveryPacket>, data: seq<Source>, bases: seq<u16>,
                          blocksize: nat)
  {
    && |found| == |data| == |bases| && AllValid(data)
    && (forall i :: 0 <= i < |found| && found[i].Found? ==> Holds(found[i].block, data[i], blocksize))
    && (forall k :: 0 <= k < |recovery| ==>
          IsRecovery(recovery[k].block, data, bases, recovery[k].exponent, blocksize))
  }

  /** None of the first n packets is harmed by the cut of its exponent. */
  predicate AllHarmless(recovery: seq<RecoveryPacket>, n: nat) {
    forall k :: 0 <= k < n && k < |recovery| ==> Harmless(recovery[k].exponent)
  }

  lemma GenuineInputs(found: seq<SourceBlock>, targets: seq<Target>, recovery: seq<RecoveryPacket>, inputs: seq<Source>,
                      copies: seq<Target>, outputs: seq<Target>, data: seq<Source>, bases: seq<u16>, blocksize: nat)
    requires |found| == |targets| && Genuine(found, recovery, data, bases, blocksize)
    requires Sorted(found, targets, recovery, inputs, copies, outputs)
    ensures AllValid(inputs) && |copies| == |PresentIndexes(found)|
            && |outputs| == |MissingIndexes(found)| <= |recovery|
    ensures |inputs| == |copies| + |outputs|
    ensures forall k :: 0 <= k < |copies| ==> Holds(inputs[k], data[PresentIndexes(found)[k]], blocksize)
    ensures Bases(bases) && AllHarmless(recovery, |outputs|) ==> forall k :: 0 <= k < |outputs| ==>
              IsRecovery(inputs[|copies| + k], data, bases, PacketExponents(recovery)[..|outputs|][k], blocksize)
  {
    hide RecoveryWord, GF16, Column, Pair, Indexes, IsRecovery, IsBase, Harmless, Cut, Holds;
    forall i | 0 <= i < |inputs|
      ensures inputs[i].Valid()
    {
      if i >= |copies| {
        assert inputs[|copies| + (i - |copies|)] == recovery[i - |copies|].block;
        RecoveryValid(recovery[i - |copies|].block, data, bases, recovery[i - |copies|].exponent, blocksize);
      } else {
        HeldValid(inputs[i], data[PresentIndexes(found)[i]], blocksize);
      }
    }
    if Bases(bases) && AllHarmless(recovery, |outputs|) {
      forall k | 0 <= k < |outputs|
        ensures IsRecovery(inputs[|copies| + k], data, bases, PacketExponents(recovery)[..|outputs|][k], blocksize)
      {
        CutRecovery(recovery[k].block, data, bases, recovery[k].exponent, blocksize);
      }
    }
  }

  lemma RecoveryValid(r: Source, data: seq<Source>, bases: seq<u16>, e: nat, blocksize: nat)
    requires AllValid(data) && |bases| == |data| && IsRecovery(r, data, bases, e, blocksize)
    ensures r.Valid()
  {
  }

  lemma HeldValid(b: Source, d: Source, blocksize: nat)
    requires d.Valid() && Holds(b, d, blocksize)
    ensures b.Valid()
  {
  }

  /** A recovery block whose exponent is cut without harm is a recovery block for the exponent that is left. */
  lemma CutRecovery(r: Source, data: seq<Source>, bases: seq<u16>, e: nat, blocksize: nat)
    requires AllValid(data) && |bases| == |data| && Bases(bases) && Harmless(e)
    requires IsRecovery(r, data, bases, e, blocksize)
    ensures IsRecovery(r, data, bases, Cut(e), blocksize)
  {
    hide RecoveryWord, GF16, Column, Pair, Bases, Harmless, Cut;
    forall g | 0 <= g < blocksize / 2
      ensures Pair(r.At(2 * g), r.At(2 * g + 1)) == RecoveryWord(GF16(), bases, Column(data, g), Cut(e))
    {
      CutWord(bases, Column(data, g), e);
    }
  }

  /** The content of each place in the lists is the data block that belongs there. */
  lemma ContentsAreData(found: seq<SourceBlock>, targets: seq<Target>, recovery: seq<RecoveryPacket>,
                        inputs: seq<Source>,
                        copies: seq<Target>, outputs: seq<Target>, data: seq<Source>, bases: seq<u16>, blocksize: nat,
                        l: Matrix<u16>)
    requires |found| == |targets| && Genuine(found, recovery, data, bases, blocksize) && blocksize % 2 == 0
    requires Sorted(found, targets, recovery, inputs, copies, outputs) && AllValid(inputs)
    requires |inputs| == |copies| + |outputs| && Shape(l, |outputs|, |inputs|)
    requires Bases(bases) && AllHarmless(recovery, |outputs|)
    requires |outputs| > 0 ==>
               |PacketExponents(recovery)[..|outputs|]| == |Indexes(Flags(found), false, |found|)| &&
               Reconstructs(GF16(), l, Flags(found), bases, PacketExponents(recovery)[..|outputs|], [])
    ensures var c := Contents(l, inputs, |copies|, blocksize);
            && (forall k :: 0 <= k < |copies| ==> c[k] == Padded(data[PresentIndexes(found)[k]], blocksize))
            && (forall o :: 0 <= o < |outputs| ==> c[|copies| + o] == Padded(data[MissingIndexes(found)[o]], blocksize))
  {
    hide Reconstructs, IsRecovery, Holds, GF16, OutputBlock, Indexes, Bases, AllHarmless;
    GenuineInputs(found, targets, recovery, inputs, copies, outputs, data, bases, blocksize);
    ContentsAt(l, inputs, |copies|, blocksize);
    forall k | 0 <= k < |copies|
      ensures Contents(l, inputs, |copies|, blocksize)[k] == Padded(data[PresentIndexes(found)[k]], blocksize)
    {
      HeldPadded(inputs[k], data[PresentIndexes(found)[k]], blocksize);
    }
    forall o | 0 <= o < |outputs|
      ensures OutputBlock(l[o], inputs, blocksize) == Padded(data[MissingIndexes(found)[o]], blocksize)
    {
      RepairedBlock(l, inputs, data, Flags(found), bases, PacketExponents(recovery)[..|outputs|], o, blocksize);
    }
  }

  lemma HeldPadded(b: Source, d: Source, blocksize: nat)
    requires d.Valid() && Holds(b, d, blocksize)
    ensures Padded(b, blocksize) == Padded(d, blocksize)
  {
  }

  lemma AllRestored(before: seq<u8>, disk: seq<u8>, found: seq<SourceBlock>, targets: seq<Target>, data: seq<Source>,
                    c: seq<seq<u8>>, blocksize: nat)
    requires |found| == |targets| == |data| && AllValid(data) && Layout(targets, |disk|)
    requires var copies, outputs := Pick(targets, PresentIndexes(found)), Pick(targets, MissingIndexes(found));
             var n := |copies + outputs|;
             && Layout(copies + outputs, |disk|)
             && Progress(before, disk, copies + outputs, c, Marks(n, n, 0, blocksize))
             && (forall k :: 0 <= k < |copies| ==> c[k] == Padded(data[PresentIndexes(found)[k]], blocksize))
             && (forall o :: 0 <= o < |outputs| ==>
                   c[|copies| + o] == Padded(data[MissingIndexes(found)[o]], blocksize))
    ensures Restored(before, disk, targets, data, blocksize)
  {
    hide Indexes, Apart;
    var p, m := PresentIndexes(found), MissingIndexes(found);
    var all := Pick(targets, p) + Pick(targets, m);
    forall i | 0 <= i < |targets|
      ensures Written(disk, targets[i], Padded(data[i], blocksize), blocksize)
    {
      if found[i].Found? {
        var k := IndexPlace(Flags(found), true, |found|, i);
        assert all[k] == targets[i];
        assert Written(disk, all[k], c[k], blocksize);
      } else {
        var k := IndexPlace(Flags(found), false, |found|, i);
        assert all[|p| + k] == targets[i];
        assert Written(disk, all[|p| + k], c[|p| + k], blocksize);
      }
    }
    forall x | 0 <= x < |disk| && Outside(targets, x)
      ensures disk[x] == before[x]
    {
      assert Outside(all, x);
    }
  }

  /** The repair. It goes ahead for at most 32768 blocks whose system, with the exponents cut to 16 bits, has regular
      leading blocks. Then, if no cut does harm, it restores every block: found blocks are copied to their targets,
      lost ones are reconstructed. */
  method RepairBlocks(table: GaloisTable, t: LongMultiplyTable, found: seq<SourceBlock>, targets: seq<Target>,
                      recovery: seq<RecoveryPacket>, blocksize: nat, chunksize: nat, disk: array<u8>,
                      ghost data: seq<Source>, ghost bases: seq<u16>) returns (ok: bool)
    requires TablesFor(table, t) && disk as object != t.tables
    requires 0 < chunksize && chunksize % 4 == 0 && blocksize % 4 == 0
    requires |found| == |targets| && |MissingIndexes(found)| <= |recovery|
    requires Genuine(found, recovery, data, bases, blocksize) && Bases(bases)
    requires Layout(targets, disk.Length)
    modifies disk
    ensures ok <==> |found| <= 32768 && Solvable(bases, found, PacketExponents(recovery))
    ensures ok && AllHarmless(recovery, |MissingIndexes(found)|) ==>
              Restored(old(disk[..]), disk[..], targets, data, blocksize)
    ensures !ok ==> disk[..] == old(disk[..])
  {
    hide Layout, Reconstructs, Contents, Progress, Genuine, Sorted, GF16, Marks, Bases, Restored, Solvable,
         PresentIndexes, MissingIndexes, Indexes, IsBase, Filled, Primitive, AllHarmless, Faithful;
    var rs: ReedSolomon<u16>;
    var inputs: seq<Source>, copies: seq<Target>, outputs: seq<Target>;
    ok, rs, inputs, copies, outputs := RepairerMatrix(table, found, targets, recovery);
    if |found| <= 32768 {
      FoundSize(found, recovery, data, bases, blocksize);
      SameBases(rs.database, bases);
    }
    if !ok {
      return;
    }
    GenuineInputs(found, targets, recovery, inputs, copies, outputs, data, bases, blocksize);
    SortedTargets(found, targets, recovery, inputs, copies, outputs);
    SortedLayout(found, targets, disk.Length);
    EvenSize(blocksize);
    ghost var l, before := if |outputs| > 0 then Rows(rs.leftmatrix) else [], disk[..];
    if |outputs| > 0 {
      IndexesDefined(found);
      ReconstructsShape(l, Flags(found), bases, PacketExponents(recovery)[..|outputs|], |outputs|, |inputs|);
      MatrixSize(rs.leftmatrix, |outputs|, |inputs|);
    }
    ProcessAll(rs, t, inputs, copies, outputs, blocksize, chunksize, disk, l);
    if AllHarmless(recovery, |MissingIndexes(found)|) {
      ContentsAreData(found, targets, recovery, inputs, copies, outputs, data, bases, blocksize, l);
      AllRestored(before, disk[..], found, targets, data, Contents(l, inputs, |copies|, blocksize), blocksize);
    }
  }

  lemma FoundSize(found: seq<SourceBlock>, recovery: seq<RecoveryPacket>, data: seq<Source>, bases: seq<u16>,
                  blocksize: nat)
    requires Genuine(found, recovery, data, bases, blocksize)
    ensures |found| == |data| == |bases| && AllValid(data)
  {
  }

  lemma SortedTargets(found: seq<SourceBlock>, targets: seq<Target>, recovery: seq<RecoveryPacket>,
                      inputs: seq<Source>, copies: seq<Target>, outputs: seq<Target>)
    requires |found| == |targets| && Sorted(found, targets, recovery, inputs, copies, outputs)
    ensures copies == Pick(targets, PresentIndexes(found)) && outputs == Pick(targets, MissingIndexes(found))
  {
  }

  lemma ReconstructsShape(l: Matrix<u16>, present: seq<bool>, bases: seq<u16>, used: seq<nat>, rows: nat, cols: nat)
    requires |bases| == |present| && |used| == |Indexes(present, false, |present|)| == rows
    requires Reconstructs(GF16(), l, present, bases, used, [])
    requires cols == |Indexes(present, true, |present|)| + rows
    ensures Shape(l, rows, cols)
  {
  }

  lemma IndexesDefined(found: seq<SourceBlock>)
    ensures PresentIndexes(found) == Indexes(Flags(found), true, |Flags(found)|)
    ensures MissingIndexes(found) == Indexes(Flags(found), false, |Flags(found)|)
  {
  }

  // ----- when the repair goes ahead

  function LostBases(bases: seq<u16>, found: seq<SourceBlock>): (b: seq<u16>)
    requires |bases| == |found|
    ensures |b| == |MissingIndexes(found)|
  {
    Pick(bases, MissingIndexes(found))
  }

  lemma LostBasesFit(bases: seq<u16>, found: seq<SourceBlock>)
    requires |bases| == |found| && Bases(bases)
    ensures Distinct(LostBases(bases, found)) && forall b :: b in LostBases(bases, found) ==> b != 0
  {
    hide IsBase;
    var m := MissingIndexes(found);
    IndexesIncrease(Flags(found), false, |found|);
    forall i, j | 0 <= i <= j < |m|
      ensures (bases[m[i]] == bases[m[j]] <==> m[i] == m[j]) && bases[m[i]] != 0
    {
      BasesDistinct(bases[m[i]], m[i], bases[m[j]], m[j]);
    }
  }

  /** Recovery packets with consecutive exponents always suffice, whichever blocks are lost. */
  lemma ConsecutiveSolvable(bases: seq<u16>, found: seq<SourceBlock>, exponents: seq<nat>, e: nat)
    requires |bases| == |found| && Bases(bases) && |MissingIndexes(found)| <= |exponents|
    requires forall i :: 0 <= i < |MissingIndexes(found)| ==> exponents[i] == e + i
    ensures Solvable(bases, found, exponents)
  {
    hide Regular, RightStart, GF16, Bases, MissingIndexes, IsField;
    var m := MissingIndexes(found);
    GF16IsField();
    LostBasesFit(bases, found);
    OneOf16();
    forall k | 1 <= k <= |m|
      ensures Regular(GF16(), RightStart(GF16(), Pick(bases, m), exponents[..|m|]), k)
    {
      ConsecutiveRegular(GF16(), LostBases(bases, found), exponents[..|m|], e, k);
    }
  }

  /** Exponents e, e + s, e + 2s, ... suffice exactly when the s-th powers of the lost bases differ. */
  lemma ProgressionSolvable(bases: seq<u16>, found: seq<SourceBlock>, exponents: seq<nat>, e: nat, s: nat)
    requires |bases| == |found| && Bases(bases) && |MissingIndexes(found)| <= |exponents|
    requires forall i :: 0 <= i < |MissingIndexes(found)| ==> exponents[i] == e + i * s
    ensures Solvable(bases, found, exponents) <==> Distinct(Powers(GF16(), LostBases(bases, found), s))
  {
    hide Regular, RightStart, GF16, Bases, MissingIndexes, IsField, Powers;
    GF16IsField();
    LostBasesFit(bases, found);
    OneOf16();
    var m := MissingIndexes(found);
    assert Progression(exponents[..|m|], |m|, e, s);
    ProgressionRegular(GF16(), LostBases(bases, found), exponents[..|m|], e, s);
  }

  /** The s-th powers of two bases agree exactly when 65535 divides s times the difference of their logs. */
  lemma PowersAgree(a: u16, i: nat, l: nat, b: u16, j: nat, m: nat, s: nat)
    requires BaseLog(a, i, l) && BaseLog(b, j, m) && l <= m
    ensures Power(GF16(), a, s) == Power(GF16(), b, s) <==> ((m - l) * s) % LIMIT == 0
  {
    hide XPow, Usable, UsableBelow, Power, GF16, Primitive;
    Setting();
    BaseIsPower(a, i, l);
    BaseIsPower(b, j, m);
    PowerIsGPow(a, s);
    PowerIsGPow(b, s);
    GPowIsXPow(16, G16, l, s);
    GPowIsXPow(16, G16, m, s);
    Distribute(l, m, s);
    ShiftedPower(l * s, (m - l) * s);
  }

  lemma Distribute(l: nat, m: nat, s: nat)
    requires l <= m
    ensures m * s == l * s + (m - l) * s && (m - l) * s >= 0
  {
  }

  lemma ReducedPower(e: nat)
    ensures XPow(16, G16, e) == XPow(16, G16, e % LIMIT)
  {
    Setting();
    PrimitiveOne(16, G16);
    XPowPeriod(16, G16, LIMIT, e / LIMIT, e % LIMIT);
    assert e == LIMIT * (e / LIMIT) + e % LIMIT;
  }

  lemma SameRemainder(e: nat, d: nat)
    ensures (e + d) % LIMIT == e % LIMIT <==> d % LIMIT == 0
  {
    var i, k := e % LIMIT, d % LIMIT;
    var q := e / LIMIT + d / LIMIT;
    if i + k < LIMIT {
      DivModUnique(LIMIT, e + d, q, i + k);
    } else {
      DivModUnique(LIMIT, e + d, q + 1, i + k - LIMIT);
    }
  }

  lemma ShiftedPower(e: nat, d: nat)
    ensures XPow(16, G16, e + d) == XPow(16, G16, e) <==> d % LIMIT == 0
  {
    SameRemainder(e, d);
    hide XPow, Primitive;
    Setting();
    var i, j := e % LIMIT, (e + d) % LIMIT;
    ReducedPower(e);
    ReducedPower(e + d);
    if i < j { XPowInjective(16, G16, i, j); }
    if j < i { XPowInjective(16, G16, j, i); }
  }

  /** The system is not always regular: blocks 0 and 2, with logs 1 and 4, cannot be repaired from the recovery
      blocks with exponents 0 and 21845, though any two consecutive ones would do. */
  lemma SingularExample(bases: seq<u16>, found: seq<SourceBlock>)
    requires |bases| == |found| == 3 && Bases(bases) && found[0].Lost? && found[1].Found? && found[2].Lost?
    ensures |MissingIndexes(found)| == 2 && !Solvable(bases, found, [0, 21845])
  {
    hide *;
    ExampleIndexes(found);
    ExampleLost(bases, found);
    ExampleBases(bases);
    ProgressionSolvable(bases, found, [0, 21845], 0, 21845);
    PowersAgree(bases[0], 0, 1, bases[2], 2, 4, 21845);
    ThreeTimes();
    EqualPowers([bases[0], bases[2]], 21845);
  }

  lemma ThreeTimes()
    ensures ((4 - 1) * 21845) % LIMIT == 0
  {
  }

  lemma EqualPowers(b: seq<u16>, s: nat)
    requires |b| == 2 && Power(GF16(), b[0], s) == Power(GF16(), b[1], s)
    ensures !Distinct(Powers(GF16(), b, s))
  {
    hide Power, GF16;
    var p := Powers(GF16(), b, s);
    assert p[0] == p[1];
  }

  lemma ExampleIndexes(found: seq<SourceBlock>)
    requires |found| == 3 && found[0].Lost? && found[1].Found? && found[2].Lost?
    ensures MissingIndexes(found) == [0, 2]
  {
    var f := Flags(found);
    assert Indexes(f, false, 1) == [0];
    assert Indexes(f, false, 2) == [0];
    assert Indexes(f, false, 3) == [0, 2];
  }

  lemma ExampleLost(bases: seq<u16>, found: seq<SourceBlock>)
    requires |bases| == |found| == 3 && MissingIndexes(found) == [0, 2]
    ensures LostBases(bases, found) == [bases[0], bases[2]]
  {
    hide MissingIndexes;
  }

  lemma ExampleBases(bases: seq<u16>)
    requires |bases| == 3 && Bases(bases)
    ensures BaseLog(bases[0], 0, 1) && BaseLog(bases[2], 2, 4)
  {
    hide IsBase;
    assert IsBase(bases[0], 0) && IsBase(bases[2], 2);
    FirstUsable();
    LogOf(bases[0], 0, 1);
    LogOf(bases[2], 2, 4);
  }

  /** Swapping rows would sometimes help: with blocks 0, 2 and 4 of five lost, logs 1, 4 and 8, and the exponents 0,
      21845 and 21846, the whole system is regular, but its leading two by two block is not, and the repair fails. */
  lemma SwapExample(bases: seq<u16>, found: seq<SourceBlock>)
    requires |bases| == |found| == 5 && Bases(bases)
    requires found[0].Lost? && found[1].Found? && found[2].Lost? && found[3].Found? && found[4].Lost?
    ensures |MissingIndexes(found)| == 3 && !Solvable(bases, found, [0, 21845, 21846])
    ensures Regular(GF16(), RightStart(GF16(), LostBases(bases, found), [0, 21845, 21846]), 3)
  {
    hide *;
    hide MissingIndexes;
    SwapIndexes(found);
    SwapLost(bases, found);
    SwapBases(bases);
    PowersAgree(bases[0], 0, 1, bases[2], 2, 4, 21845);
    PowersAgree(bases[0], 0, 1, bases[4], 4, 8, 21845);
    ThreeTimes();
    SevenTimes();
    BaseLogMeansBase(bases[0], 0, 1);
    BaseLogMeansBase(bases[2], 2, 4);
    BasesDistinct(bases[0], 0, bases[2], 2);
    GF16IsField();
    OneOf16();
    SingularInside(GF16(), bases[0], bases[2], bases[4], 21845);
    NotSolvable(bases, found, [0, 21845, 21846], 2);
  }

  lemma NotSolvable(bases: seq<u16>, found: seq<SourceBlock>, exponents: seq<nat>, k: nat)
    requires |bases| == |found| && |MissingIndexes(found)| == |exponents| && 1 <= k <= |exponents|
    requires !Regular(GF16(), RightStart(GF16(), LostBases(bases, found), exponents), k)
    ensures !Solvable(bases, found, exponents)
  {
    hide Regular, RightStart, GF16, MissingIndexes;
    assert exponents[..|exponents|] == exponents;
  }

  lemma BaseLogMeansBase(b: u16, i: nat, l: nat)
    requires BaseLog(b, i, l)
    ensures IsBase(b, i)
  {
    hide BaseLog;
  }

  lemma SevenTimes()
    ensures ((8 - 1) * 21845) % LIMIT != 0
  {
  }

  lemma SwapIndexes(found: seq<SourceBlock>)
    requires |found| == 5 && found[0].Lost? && found[1].Found? && found[2].Lost? && found[3].Found? && found[4].Lost?
    ensures MissingIndexes(found) == [0, 2, 4]
  {
    var f := Flags(found);
    assert Indexes(f, false, 1) == [0];
    assert Indexes(f, false, 2) == [0];
    assert Indexes(f, false, 3) == [0, 2];
    assert Indexes(f, false, 4) == [0, 2];
    assert Indexes(f, false, 5) == [0, 2, 4];
  }

  lemma SwapLost(bases: seq<u16>, found: seq<SourceBlock>)
    requires |bases| == |found| == 5 && MissingIndexes(found) == [0, 2, 4]
    ensures LostBases(bases, found) == [bases[0], bases[2], bases[4]]
  {
    hide MissingIndexes;
  }

  lemma SwapBases(bases: seq<u16>)
    requires |bases| == 5 && Bases(bases)
    ensures BaseLog(bases[0], 0, 1) && BaseLog(bases[2], 2, 4) && BaseLog(bases[4], 4, 8)
  {
    hide IsBase;
    assert IsBase(bases[0], 0) && IsBase(bases[2], 2) && IsBase(bases[4], 4);
    FirstUsable();
    LogOf(bases[0], 0, 1);
    LogOf(bases[2], 2, 4);
    LogOf(bases[4], 4, 8);
  }

  lemma FirstUsable()
    ensures Usable(1) && UsableBelow(1) == 0
    ensures Usable(4) && UsableBelow(4) == 2
    ensures Usable(8) && UsableBelow(8) == 4
  {
    assert UsableBelow(4) == 2;
    assert UsableBelow(6) == 3;
  }

  /** The log of a base is the usable number with so many usable numbers below it. */
  lemma LogOf(b: u16, i: nat, l: nat)
    requires IsBase(b, i) && l < LIMIT && Usable(l) && UsableBelow(l) == i
    ensures BaseLog(b, i, l)
  {
    hide XPow, Usable;
    var k: nat :| BaseLog(b, i, k);
    if k < l { UsableBelowMonotone(k + 1, l); }
    if l < k { UsableBelowMonotone(l + 1, k); }
  }

  // ----- the round trip

  /** The exponents of the packets that are left */
  function LeftExponents(first: nat, left: seq<nat>): (e: seq<nat>)
    ensures |e| == |left|
  {
    seq(|left|, k requires 0 <= k < |left| => first + left[k])
  }

  /** Create recovery blocks for the data on one disk; later, with some data blocks lost and only some of the
      packets left, repair onto another. At most 32768 blocks go in. The repair goes ahead exactly when the exponents
      of the packets that are left make a system with regular leading blocks, which consecutive ones always do, and
      then it restores everything. */
  method CreateAndRepair(table: GaloisTable, t: LongMultiplyTable, data: seq<Source>, first: nat, packets: seq<Target>,
                         blocksize: nat, createchunk: nat, repairchunk: nat, archive: array<u8>,
                         found: seq<SourceBlock>, left: seq<nat>, targets: seq<Target>, disk: array<u8>)
    returns (ok: bool, ghost bases: seq<u16>)
    requires TablesFor(table, t) && AllValid(data) && |data| <= 32768
    requires 0 < |packets| && first + |packets| <= 65536
    requires 0 < createchunk && createchunk % 4 == 0 && 0 < repairchunk && repairchunk % 4 == 0 && blocksize % 4 == 0
    requires Layout(packets, archive.Length) && archive as object != t.tables
    requires forall o :: 0 <= o < |packets| ==> packets[o].Target? && packets[o].length == blocksize
    requires |found| == |targets| == |data|
    requires forall i :: 0 <= i < |data| && found[i].Found? ==> Holds(found[i].block, data[i], blocksize)
    requires forall k :: 0 <= k < |left| ==> left[k] < |packets|
    requires |MissingIndexes(found)| <= |left|
    requires Layout(targets, disk.Length) && disk as object != t.tables && disk != archive
    modifies archive, disk
    ensures |bases| == |found| && Bases(bases) && (ok <==> Solvable(bases, found, LeftExponents(first, left)))
    ensures ok ==> Restored(old(disk[..]), disk[..], targets, data, blocksize)
    ensures !ok ==> disk[..] == old(disk[..])
    ensures (forall k :: 0 <= k < |MissingIndexes(found)| ==> left[k] == left[0] + k) ==> ok
  {
    hide Layout, IsRecovery, Bases, Restored, Solvable, MissingIndexes, Holds, TablesFor, Harmless, Cut;
    ok, bases := Create(table, t, data, first, packets, blocksize, createchunk, archive);
    var recovery: seq<RecoveryPacket> := seq(|left|, k requires 0 <= k < |left| reads archive =>
      RecoveryPacket(first + left[k], Source(archive[..], packets[left[k]].address, blocksize)));
    assert Genuine(found, recovery, data, bases, blocksize);
    LeftAreSmall(first, left, |packets|, recovery);
    if forall k :: 0 <= k < |MissingIndexes(found)| ==> left[k] == left[0] + k {
      ConsecutiveSolvable(bases, found, LeftExponents(first, left), if |left| > 0 then first + left[0] else 0);
    }
    ok := RepairBlocks(table, t, found, targets, recovery, blocksize, repairchunk, disk, data, bases);
  }

  /** The exponents that the creator admits are not changed by the cut. */
  lemma LeftAreSmall(first: nat, left: seq<nat>, count: nat, recovery: seq<RecoveryPacket>)
    requires first + count <= 65536 && forall k :: 0 <= k < |left| ==> left[k] < count
    requires |recovery| == |left| && forall k :: 0 <= k < |left| ==> recovery[k].exponent == first + left[k]
    ensures PacketExponents(recovery) == LeftExponents(first, left)
    ensures forall n: nat :: AllHarmless(recovery, n)
  {
    hide Cut, Harmless;
    forall k | 0 <= k < |recovery|
      ensures Cut(recovery[k].exponent) == first + left[k] && Harmless(recovery[k].exponent)
    {
      CutOfSmall(recovery[k].exponent);
    }
  }
}
