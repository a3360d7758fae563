/** Par2Creator::ProcessData and Par2Repairer::ProcessData, and the loop over the chunks of a block: whatever the chunk
    size, every target ends up with the content of its block. */
module Repair {
  import opened Bytes
  import opened Orders
  import opened Matrices
  import opened Elimination
  import opened Galois16
  import opened LongMultiply
  import opened ReedSolomon
  import opened Blocks

  // ----- what a row of the matrix makes of the input blocks

  /** The 16-bit numbers at place g of every input block */
  function Column(inputs: seq<Source>, g: nat): (x: seq<u16>)
    requires forall i :: 0 <= i < |inputs| ==> inputs[i].Valid()
    ensures |x| == |inputs|
  {
    seq(|inputs|, i requires 0 <= i < |inputs| => Pair(inputs[i].At(2 * g), inputs[i].At(2 * g + 1)))
  }

  function Combined(row: seq<u16>, inputs: seq<Source>, g: nat): u16
    requires |row| == |inputs| && forall i :: 0 <= i < |inputs| ==> inputs[i].Valid()
  {
    Dot(GF16(), row, Column(inputs, g), |inputs|)
  }

  function CombinedByte(row: seq<u16>, inputs: seq<Source>, p: nat): u8
    requires |row| == |inputs| && forall i :: 0 <= i < |inputs| ==> inputs[i].Valid()
  {
    if p % 2 == 0 then Combined(row, inputs, p / 2) % 256 else Combined(row, inputs, p / 2) / 256
  }

  /** The whole output block that one row makes */
  function OutputBlock(row: seq<u16>, inputs: seq<Source>, blocksize: nat): (s: seq<u8>)
    requires |row| == |inputs| && forall i :: 0 <= i < |inputs| ==> inputs[i].Valid()
    ensures |s| == blocksize
  {
    seq(blocksize, p requires 0 <= p < blocksize => CombinedByte(row, inputs, p))
  }

  ghost predicate MatrixFor(rs: ReedSolomon<u16>, inputs: seq<Source>, outputs: nat)
    reads rs
  {
    && rs.leftmatrix != null && rs.leftmatrix.Length0 == outputs && rs.leftmatrix.Length1 == |inputs|
    && forall i :: 0 <= i < |inputs| ==> inputs[i].Valid()
  }

  /** The bytes of an output buffer hold the sum over the first k input blocks. */
  ghost predicate PartialRow(row: seq<u16>, inputs: seq<Source>, bytes: seq<u8>, k: nat, offset: nat, size: nat)
    requires size <= |bytes| && |row| == |inputs| && k <= |inputs|
    requires forall i :: 0 <= i < |inputs| ==> inputs[i].Valid()
  {
    forall h :: 0 <= h < size / 2 ==>
      Pair(bytes[2 * h], bytes[2 * h + 1]) == Dot(GF16(), row, Column(inputs, offset / 2 + h), k)
  }

  ghost predicate PartialRows(l: Matrix<u16>, inputs: seq<Source>, out: Matrix<u8>, from: nat, to: nat, k: nat,
                              offset: nat, size: nat)
    requires to <= |l| && to <= |out| && k <= |inputs|
    requires forall o :: from <= o < to ==> |l[o]| == |inputs| && size <= |out[o]|
    requires forall i :: 0 <= i < |inputs| ==> inputs[i].Valid()
  {
    forall o :: from <= o < to ==> PartialRow(l[o], inputs, out[o], k, offset, size)
  }

  lemma RowAdvances(row: seq<u16>, inputs: seq<Source>, k: nat, g: nat)
    requires |row| == |inputs| && k < |inputs|
    requires forall i :: 0 <= i < |inputs| ==> inputs[i].Valid()
    ensures Add16(Dot(GF16(), row, Column(inputs, g), k),
                  Mul16(row[k], Pair(inputs[k].At(2 * g), inputs[k].At(2 * g + 1))))
         == Dot(GF16(), row, Column(inputs, g), k + 1)
  {
  }

  /** Run one input block, already in the buffer, through every row. */
  method ProcessRows(rs: ReedSolomon<u16>, t: LongMultiplyTable, inputs: seq<Source>, k: nat, buffer: array<u8>,
                     out: array2<u8>, offset: nat, size: nat)
    requires t.Valid() && MatrixFor(rs, inputs, out.Length0) && k < |inputs|
    requires size % 4 == 0 && offset % 2 == 0 && size <= buffer.Length && size <= out.Length1
    requires rs.leftmatrix as object != out && out as object != buffer && out as object != t.tables
    requires forall p :: 0 <= p < size ==> buffer[p] == inputs[k].At(offset + p)
    requires PartialRows(Rows(rs.leftmatrix), inputs, Rows(out), 0, out.Length0, k, offset, size)
    modifies out
    ensures PartialRows(Rows(rs.leftmatrix), inputs, Rows(out), 0, out.Length0, k + 1, offset, size)
  {
    hide Mul16, Add16, Pair, Dot, Column, GF16, PartialRow;
    ghost var l, k1 := Rows(rs.leftmatrix), k + 1;
    for o := 0 to out.Length0
      invariant PartialRows(l, inputs, Rows(out), 0, o, k1, offset, size)
      invariant PartialRows(l, inputs, Rows(out), o, out.Length0, k, offset, size)
    {
      ghost var before := Rows(out);
      label start:
      Process(rs, t, size, k, buffer, o, out);
      ghost var after := Rows(out);
      forall i | 0 <= i < out.Length0 && i != o
        ensures after[i] == before[i]
      {
      }
      assert PartialRow(l[o], inputs, before[o], k, offset, size);
      forall h | 0 <= h < size / 2
        ensures Pair(after[o][2 * h], after[o][2 * h + 1]) == Add16(Pair(before[o][2 * h], before[o][2 * h + 1]),
                  Mul16(l[o][k], Pair(inputs[k].At(offset + 2 * h), inputs[k].At(offset + 2 * h + 1))))
      {
        assert TargetHalf(out, o, h) == Pair(after[o][2 * h], after[o][2 * h + 1]);
        assert old@start(TargetHalf(out, o, h)) == Pair(before[o][2 * h], before[o][2 * h + 1]);
        assert SourceHalf(buffer, h) == Pair(inputs[k].At(offset + 2 * h), inputs[k].At(offset + 2 * h + 1));
      }
      RowProcessed(l[o], inputs, before[o], after[o], k, offset, size);
    }
  }

  lemma RowProcessed(row: seq<u16>, inputs: seq<Source>, before: seq<u8>, after: seq<u8>, k: nat, offset: nat,
                     size: nat)
    requires |row| == |inputs| && k < |inputs| && size <= |before| == |after| && offset % 2 == 0
    requires forall i :: 0 <= i < |inputs| ==> inputs[i].Valid()
    requires PartialRow(row, inputs, before, k, offset, size)
    requires forall h :: 0 <= h < size / 2 ==>
               Pair(after[2 * h], after[2 * h + 1]) == Add16(Pair(before[2 * h], before[2 * h + 1]),
                 Mul16(row[k], Pair(inputs[k].At(offset + 2 * h), inputs[k].At(offset + 2 * h + 1))))
    ensures PartialRow(row, inputs, after, k + 1, offset, size)
  {
    hide Mul16, Add16, Pair, Dot, Column, GF16;
    forall h | 0 <= h < size / 2
      ensures Pair(after[2 * h], after[2 * h + 1]) == Dot(GF16(), row, Column(inputs, offset / 2 + h), k + 1)
    {
      var g := offset / 2 + h;
      assert 2 * g == offset + 2 * h;
      RowAdvances(row, inputs, k, g);
    }
  }

  lemma EvenSize(n: nat)
    requires n % 4 == 0
    ensures n % 2 == 0
  {
    hide *;
    TwiceEven(n / 4);
    assert n == 4 * (n / 4);
  }

  lemma TwiceEven(k: nat)
    ensures (4 * k) % 2 == 0
  {
    hide *;
    DivModUnique(2, 4 * k, 2 * k, 0);
  }

  // ----- one chunk of every block

  /** Of n targets, the first k have been written up to b and the others up to a. */
  function Marks(n: nat, k: nat, a: nat, b: nat): (u: seq<nat>)
    ensures |u| == n
  {
    seq(n, j => if j < k then b else a)
  }

  lemma MarkNext(n: nat, k: nat, a: nat, b: nat)
    requires k < n
    ensures Marks(n, k, a, b)[k := b] == Marks(n, k + 1, a, b)
  {
  }

  /** What belongs in the targets: the blocks that are copied, then the blocks that are computed */
  function Contents(l: Matrix<u16>, inputs: seq<Source>, copies: nat, blocksize: nat): (c: seq<seq<u8>>)
    requires copies <= |inputs| && Shape(l, |l|, |inputs|)
    requires forall i :: 0 <= i < |inputs| ==> inputs[i].Valid()
    ensures |c| == copies + |l| && forall j :: 0 <= j < |c| ==> |c[j]| == blocksize
  {
    seq(copies, k requires 0 <= k < copies => Padded(inputs[k], blocksize)) +
    seq(|l|, o requires 0 <= o < |l| => OutputBlock(l[o], inputs, blocksize))
  }

  method ClearBuffers(out: array2<u8>)
    modifies out
    ensures forall i, j :: 0 <= i < out.Length0 && 0 <= j < out.Length1 ==> out[i, j] == 0
  {
    forall i, j | 0 <= i < out.Length0 && 0 <= j < out.Length1 {
      out[i, j] := 0;
    }
  }

  lemma ClearedRows(l: Matrix<u16>, inputs: seq<Source>, out: Matrix<u8>, offset: nat, size: nat, cols: nat)
    requires Shape(l, |l|, |inputs|) && Shape(out, |l|, cols) && size <= cols
    requires forall i :: 0 <= i < |inputs| ==> inputs[i].Valid()
    requires forall i, j :: 0 <= i < |l| && 0 <= j < cols ==> out[i][j] == 0
    ensures PartialRows(l, inputs, out, 0, |l|, 0, offset, size)
  {
  }

  lemma PairBytes(b0: u8, b1: u8, w: u16)
    requires Pair(b0, b1) == w
    ensures b0 == w % 256 && b1 == w / 256
  {
  }

  /** A finished row is a piece of its output block. */
  lemma FinishedRow(row: seq<u16>, inputs: seq<Source>, bytes: seq<u8>, offset: nat, size: nat, blocksize: nat)
    requires size <= |bytes| && |row| == |inputs| && forall i :: 0 <= i < |inputs| ==> inputs[i].Valid()
    requires PartialRow(row, inputs, bytes, |inputs|, offset, size)
    requires offset % 2 == 0 && size % 2 == 0 && offset + size <= blocksize
    ensures forall p :: 0 <= p < size ==> bytes[p] == OutputBlock(row, inputs, blocksize)[offset + p]
  {
    hide Dot, Column, GF16, Pair;
    forall p | 0 <= p < size
      ensures bytes[p] == CombinedByte(row, inputs, offset + p)
    {
      var h := p / 2;
      assert Pair(bytes[2 * h], bytes[2 * h + 1]) == Combined(row, inputs, offset / 2 + h);
      PairBytes(bytes[2 * h], bytes[2 * h + 1], Combined(row, inputs, offset / 2 + h));
      assert (offset + p) / 2 == offset / 2 + h && (offset + p) % 2 == p % 2;
    }
  }

  /** Copy one block to its target, if it has one. */
  method CopyBlock(target: Target, buffer: array<u8>, offset: nat, size: nat, disk: array<u8>,
                   ghost before: seq<u8>, ghost targets: seq<Target>, ghost contents: seq<seq<u8>>,
                       ghost upto: seq<nat>,
                   ghost j: nat)
    requires Layout(targets, disk.Length) && Progress(before, disk[..], targets, contents, upto)
    requires j < |targets| && targets[j] == target && upto[j] == offset && offset + size <= |contents[j]|
    requires size <= buffer.Length && buffer != disk
    requires forall p :: 0 <= p < size ==> buffer[p] == contents[j][offset + p]
    modifies disk
    ensures Progress(before, disk[..], targets, contents, upto[j := offset + size])
  {
    hide Progress, Apart;
    ghost var d := disk[..];
    if target.Target? {
      var wrote := WriteData(target, offset, size, buffer[..], disk);
    }
    WriteMakesProgress(before, d, disk[..], targets, contents, upto, j, size, buffer[..]);
  }

  /** The buffers are separate from each other, from the tables and from the matrix. */
  ghost predicate Buffers(rs: ReedSolomon<u16>, t: LongMultiplyTable, buffer: array<u8>, out: array2<u8>,
                          disk: array<u8>)
    reads rs
  {
    && rs.leftmatrix != null && rs.leftmatrix as object != out && out as object != buffer && out as object != t.tables
    && buffer != disk && disk as object != out && disk as object != rs.leftmatrix
    && buffer as object != rs.leftmatrix && buffer as object != t.tables && disk as object != t.tables
  }

  /** The copying branch of ProcessData: nothing is missing. */
  method CopyOnly(inputs: seq<Source>, copies: seq<Target>, offset: nat, size: nat, buffer: array<u8>, disk: array<u8>,
                  ghost before: seq<u8>, ghost contents: seq<seq<u8>>)
    requires |copies| <= |inputs| && forall i :: 0 <= i < |inputs| ==> inputs[i].Valid()
    requires size <= buffer.Length && buffer != disk && |contents| == |copies|
    requires forall j :: 0 <= j < |copies| ==>
               offset + size <= |contents[j]| && forall p :: 0 <= p < |contents[j]| ==>
                   contents[j][p] == inputs[j].At(p)
    requires Layout(copies, disk.Length)
    requires Progress(before, disk[..], copies, contents, Marks(|copies|, 0, offset, offset + size))
    modifies buffer, disk
    ensures Progress(before, disk[..], copies, contents, Marks(|copies|, |copies|, offset, offset + size))
  {
    hide Progress, Apart;
    for k := 0 to |copies|
      invariant Progress(before, disk[..], copies, contents, Marks(|copies|, k, offset, offset + size))
    {
      MarkNext(|copies|, k, offset, offset + size);
      if copies[k].Target? {
        ReadData(inputs[k], offset, size, buffer);
        CopyBlock(copies[k], buffer, offset, size, disk, before, copies, contents,
                  Marks(|copies|, k, offset, offset + size), k);
      } else {
        WriteMakesProgress(before, disk[..], disk[..], copies, contents, Marks(|copies|, k, offset, offset + size), k,
            size,
                           contents[k][offset..]);
      }
    }
  }

  lemma ContentsAt(l: Matrix<u16>, inputs: seq<Source>, copies: nat, blocksize: nat)
    requires copies <= |inputs| && Shape(l, |l|, |inputs|)
    requires forall i :: 0 <= i < |inputs| ==> inputs[i].Valid()
    ensures var c := Contents(l, inputs, copies, blocksize);
            && (forall j :: 0 <= j < copies ==> forall p :: 0 <= p < blocksize ==> c[j][p] == inputs[j].At(p))
            && (forall o :: 0 <= o < |l| ==> c[copies + o] == OutputBlock(l[o], inputs, blocksize))
  {
  }

  /** The main branch of ProcessData: read every input block, copy it if wanted, run it through the matrix. */
  method ProcessInputs(rs: ReedSolomon<u16>, t: LongMultiplyTable, inputs: seq<Source>, copies: seq<Target>,
                       offset: nat, size: nat, buffer: array<u8>, out: array2<u8>, disk: array<u8>,
                       ghost before: seq<u8>, ghost targets: seq<Target>, ghost c: seq<seq<u8>>)
    requires t.Valid() && |copies| <= |inputs| && MatrixFor(rs, inputs, out.Length0)
             && Buffers(rs, t, buffer, out, disk)
    requires size % 4 == 0 && offset % 4 == 0 && size <= buffer.Length && size <= out.Length1
    requires copies <= targets && |c| == |targets| && Layout(targets, disk.Length)
    requires forall j :: 0 <= j < |copies| ==>
               offset + size <= |c[j]| && forall p :: 0 <= p < |c[j]| ==> c[j][p] == inputs[j].At(p)
    requires PartialRows(Rows(rs.leftmatrix), inputs, Rows(out), 0, out.Length0, 0, offset, size)
    requires Progress(before, disk[..], targets, c, Marks(|targets|, 0, offset, offset + size))
    modifies buffer, out, disk
    ensures PartialRows(Rows(rs.leftmatrix), inputs, Rows(out), 0, out.Length0, |inputs|, offset, size)
    ensures Progress(before, disk[..], targets, c, Marks(|targets|, |copies|, offset, offset + size))
  {
    hide Progress, Apart, PartialRow, PartialRows, Marks, Layout;
    ghost var n, end, m := |targets|, offset + size, |copies|;
    ghost var l := Rows(rs.leftmatrix);
    for k := 0 to |inputs|
      invariant PartialRows(l, inputs, Rows(out), 0, out.Length0, k, offset, size)
      invariant Progress(before, disk[..], targets, c, Marks(n, if k < m then k else m, offset, end))
    {
      if k < |copies| {
        ProcessInput(rs, t, inputs, k, copies[k], offset, size, buffer, out, disk, before, targets, c, l);
      } else {
        ProcessRecovery(rs, t, inputs, k, offset, size, buffer, out, disk, l);
      }
    }
  }

  /** One input block that comes from a recovery file */
  method ProcessRecovery(rs: ReedSolomon<u16>, t: LongMultiplyTable, inputs: seq<Source>, k: nat,
                         offset: nat, size: nat, buffer: array<u8>, out: array2<u8>, ghost disk: array<u8>,
                             ghost l: Matrix<u16>)
    requires t.Valid() && k < |inputs| && MatrixFor(rs, inputs, out.Length0) && Buffers(rs, t, buffer, out, disk)
    requires size % 4 == 0 && offset % 4 == 0 && size <= buffer.Length && size <= out.Length1
    requires l == Rows(rs.leftmatrix) && PartialRows(l, inputs, Rows(out), 0, out.Length0, k, offset, size)
    modifies buffer, out
    ensures PartialRows(l, inputs, Rows(out), 0, out.Length0, k + 1, offset, size)
  {
    hide PartialRow, PartialRows;
    EvenSize(offset);
    ReadData(inputs[k], offset, size, buffer);
    ProcessRows(rs, t, inputs, k, buffer, out, offset, size);
  }

  /** An input block is read, and copied if it has a target. */
  method ReadAndCopy(input: Source, k: nat, target: Target, offset: nat, size: nat, buffer: array<u8>, disk: array<u8>,
                     ghost before: seq<u8>, ghost targets: seq<Target>, ghost c: seq<seq<u8>>)
    requires input.Valid() && size <= buffer.Length && buffer != disk
    requires k < |targets| == |c| && targets[k] == target && Layout(targets, disk.Length)
    requires offset + size <= |c[k]| && forall p :: 0 <= p < |c[k]| ==> c[k][p] == input.At(p)
    requires Progress(before, disk[..], targets, c, Marks(|targets|, k, offset, offset + size))
    modifies buffer, disk
    ensures forall p :: 0 <= p < size ==> buffer[p] == input.At(offset + p)
    ensures Progress(before, disk[..], targets, c, Marks(|targets|, k + 1, offset, offset + size))
  {
    hide Progress, Apart, Layout;
    MarkNext(|targets|, k, offset, offset + size);
    ReadData(input, offset, size, buffer);
    CopyBlock(target, buffer, offset, size, disk, before, targets, c, Marks(|targets|, k, offset, offset + size), k);
  }

  /** One input block that may have to be copied as well */
  method ProcessInput(rs: ReedSolomon<u16>, t: LongMultiplyTable, inputs: seq<Source>, k: nat, target: Target,
                      offset: nat, size: nat, buffer: array<u8>, out: array2<u8>, disk: array<u8>,
                      ghost before: seq<u8>, ghost targets: seq<Target>, ghost c: seq<seq<u8>>, ghost l: Matrix<u16>)
    requires t.Valid() && k < |inputs| && MatrixFor(rs, inputs, out.Length0) && Buffers(rs, t, buffer, out, disk)
    requires size % 4 == 0 && offset % 4 == 0 && size <= buffer.Length && size <= out.Length1
    requires k < |targets| == |c| && targets[k] == target && Layout(targets, disk.Length)
    requires offset + size <= |c[k]| && forall p :: 0 <= p < |c[k]| ==> c[k][p] == inputs[k].At(p)
    requires l == Rows(rs.leftmatrix) && PartialRows(l, inputs, Rows(out), 0, out.Length0, k, offset, size)
    requires Progress(before, disk[..], targets, c, Marks(|targets|, k, offset, offset + size))
    modifies buffer, out, disk
    ensures PartialRows(l, inputs, Rows(out), 0, out.Length0, k + 1, offset, size)
    ensures Progress(before, disk[..], targets, c, Marks(|targets|, k + 1, offset, offset + size))
  {
    hide Progress, Apart, PartialRow, PartialRows, Layout, Marks;
    EvenSize(offset);
    ReadAndCopy(inputs[k], k, target, offset, size, buffer, disk, before, targets, c);
    ProcessRows(rs, t, inputs, k, buffer, out, offset, size);
  }

  /** The data are the bytes of the content from `offset`. */
  ghost predicate Piece(data: seq<u8>, content: seq<u8>, offset: nat, size: nat) {
    size <= |data| && offset + size <= |content| && forall p :: 0 <= p < size ==> data[p] == content[offset + p]
  }

  /** The last part of ProcessData: write what was computed. */
  method WriteOutputs(outputs: seq<Target>, offset: nat, size: nat, out: array2<u8>, disk: array<u8>,
                      ghost before: seq<u8>, ghost targets: seq<Target>, ghost c: seq<seq<u8>>, ghost cs: seq<seq<u8>>,
                      ghost first: nat)
    requires |outputs| == out.Length0 && size <= out.Length1 && disk as object != out
    requires first + |outputs| == |targets| == |c| && targets[first..] == outputs && Layout(targets, disk.Length)
    requires c[first..] == cs
    requires forall o :: 0 <= o < |cs| ==> Piece(Rows(out)[o], cs[o], offset, size)
    requires Progress(before, disk[..], targets, c, Marks(|targets|, first, offset, offset + size))
    modifies disk
    ensures Progress(before, disk[..], targets, c, Marks(|targets|, |targets|, offset, offset + size))
  {
    hide Progress, Apart;
    ghost var n, end := |targets|, offset + size;
    for o := 0 to |outputs|
      invariant Progress(before, disk[..], targets, c, Marks(n, first + o, offset, end))
    {
      MarkNext(n, first + o, offset, end);
      var bytes := seq(size, p requires 0 <= p < size reads out => out[o, p]);
      ghost var d := disk[..];
      assert targets[first + o] == outputs[o] && c[first + o] == cs[o];
      assert Piece(Rows(out)[o], cs[o], offset, size);
      if outputs[o].Target? {
        var wrote := WriteData(outputs[o], offset, size, bytes, disk);
      }
      WriteMakesProgress(before, d, disk[..], targets, c, Marks(n, first + o, offset, end), first + o, size, bytes);
    }
  }

  /** What ProcessData needs: with nothing missing there is no matrix. */
  ghost predicate Ready(rs: ReedSolomon<u16>, t: LongMultiplyTable, inputs: seq<Source>, outputs: nat,
                        buffer: array<u8>, out: array2<u8>, disk: array<u8>, l: Matrix<u16>)
    reads rs, rs.leftmatrix, t, t.tables
  {
    && t.Valid() && out.Length0 == outputs && buffer != disk && disk as object != out && out as object != buffer
    && (forall i :: 0 <= i < |inputs| ==> inputs[i].Valid())
    && Shape(l, outputs, |inputs|)
    && (outputs > 0 ==> MatrixFor(rs, inputs, outputs) && Buffers(rs, t, buffer, out, disk) && Rows(rs.leftmatrix) == l)
  }

  /** The first part of ProcessData: both of its branches */
  method ReadInputs(rs: ReedSolomon<u16>, t: LongMultiplyTable, inputs: seq<Source>, copies: seq<Target>,
                    outputs: seq<Target>, offset: nat, size: nat, buffer: array<u8>, out: array2<u8>, disk: array<u8>,
                    ghost before: seq<u8>, ghost blocksize: nat, ghost l: Matrix<u16>)
    requires Ready(rs, t, inputs, |outputs|, buffer, out, disk, l) && |copies| <= |inputs|
    requires size % 4 == 0 && offset % 4 == 0 && offset + size <= blocksize && size <= buffer.Length
             && size <= out.Length1
    requires Layout(copies + outputs, disk.Length)
    requires var n, c := |copies + outputs|, Contents(l, inputs, |copies|, blocksize);
             Progress(before, disk[..], copies + outputs, c, Marks(n, 0, offset, offset + size))
    modifies buffer, out, disk
    ensures PartialRows(l, inputs, Rows(out), 0, |outputs|, |inputs|, offset, size)
    ensures var n, c := |copies + outputs|, Contents(l, inputs, |copies|, blocksize);
            Progress(before, disk[..], copies + outputs, c, Marks(n, |copies|, offset, offset + size))
  {
    hide Progress, Apart, Contents, PartialRow, OutputBlock, Layout, Marks;
    ghost var targets, c := copies + outputs, Contents(l, inputs, |copies|, blocksize);
    ContentsAt(l, inputs, |copies|, blocksize);
    if |outputs| > 0 {
      ClearBuffers(out);
      ClearedRows(l, inputs, Rows(out), offset, size, out.Length1);
      ProcessInputs(rs, t, inputs, copies, offset, size, buffer, out, disk, before, targets, c);
    } else {
      ClearBuffers(out);
      assert targets == copies;
      CopyOnly(inputs, copies, offset, size, buffer, disk, before, c);
    }
  }

  lemma RowsFinished(l: Matrix<u16>, inputs: seq<Source>, copies: nat, out: Matrix<u8>, offset: nat, size: nat,
                     blocksize: nat)
    requires Shape(l, |l|, |inputs|) && |out| == |l| && copies <= |inputs|
    requires forall i :: 0 <= i < |out| ==> size <= |out[i]|
    requires forall i :: 0 <= i < |inputs| ==> inputs[i].Valid()
    requires PartialRows(l, inputs, out, 0, |l|, |inputs|, offset, size)
    requires offset % 2 == 0 && size % 2 == 0 && offset + size <= blocksize
    ensures var c := Contents(l, inputs, copies, blocksize);
            forall o :: 0 <= o < |l| ==> Piece(out[o], c[copies..][o], offset, size)
  {
    hide PartialRow, PartialRows, OutputBlock, Piece, Contents;
    ContentsAt(l, inputs, copies, blocksize);
    forall o | 0 <= o < |l|
      ensures Piece(out[o], Contents(l, inputs, copies, blocksize)[copies..][o], offset, size)
    {
      RowFinished(l, inputs, out, o, offset, size, blocksize);
      assert Contents(l, inputs, copies, blocksize)[copies..][o] == Contents(l, inputs, copies, blocksize)[copies + o];
    }
  }

  /** ProcessData: one chunk of every block, from `offset`. */
  method ProcessData(rs: ReedSolomon<u16>, t: LongMultiplyTable, inputs: seq<Source>, copies: seq<Target>,
                     outputs: seq<Target>, offset: nat, size: nat, buffer: array<u8>, out: array2<u8>, disk: array<u8>,
                     ghost before: seq<u8>, ghost blocksize: nat, ghost l: Matrix<u16>)
    requires Ready(rs, t, inputs, |outputs|, buffer, out, disk, l) && |copies| <= |inputs|
    requires size % 4 == 0 && offset % 4 == 0 && offset + size <= blocksize && size <= buffer.Length
             && size <= out.Length1
    requires Layout(copies + outputs, disk.Length)
    requires var n, c := |copies + outputs|, Contents(l, inputs, |copies|, blocksize);
             Progress(before, disk[..], copies + outputs, c, Marks(n, 0, offset, offset + size))
    modifies buffer, out, disk
    ensures var n, c := |copies + outputs|, Contents(l, inputs, |copies|, blocksize);
            Progress(before, disk[..], copies + outputs, c, Marks(n, n, offset, offset + size))
  {
    hide Progress, Apart, Contents, PartialRow, PartialRows, OutputBlock, Layout, Marks, Piece;
    ghost var targets, c := copies + outputs, Contents(l, inputs, |copies|, blocksize);
    ReadInputs(rs, t, inputs, copies, outputs, offset, size, buffer, out, disk, before, blocksize, l);
    EvenSize(offset);
    EvenSize(size);
    RowsFinished(l, inputs, |copies|, Rows(out), offset, size, blocksize);
    WriteOutputs(outputs, offset, size, out, disk, before, targets, c, c[|copies|..], |copies|);
  }

  lemma RowFinished(l: Matrix<u16>, inputs: seq<Source>, out: Matrix<u8>, o: nat, offset: nat, size: nat,
                    blocksize: nat)
    requires o < |l| && Shape(l, |l|, |inputs|) && |out| == |l| && forall i :: 0 <= i < |out| ==> size <= |out[i]|
    requires forall i :: 0 <= i < |inputs| ==> inputs[i].Valid()
    requires PartialRows(l, inputs, out, 0, |l|, |inputs|, offset, size)
    requires offset % 2 == 0 && size % 2 == 0 && offset + size <= blocksize
    ensures Piece(out[o], OutputBlock(l[o], inputs, blocksize), offset, size)
  {
    hide PartialRow, OutputBlock;
    FinishedRow(l[o], inputs, out[o], offset, size, blocksize);
  }

  // ----- all the chunks

  /** AllocateBuffers: how much of each block one pass handles */
  function ChunkSize(blocksize: nat, missing: nat, memorylimit: nat): nat {
    if blocksize * missing > memorylimit && missing > 0 then memorylimit / missing - memorylimit / missing % 4
        else blocksize
  }

  /** The passes advance exactly when the limit leaves four bytes for each missing block; then they fit it. */
  lemma ChunkSizeWorks(blocksize: nat, missing: nat, memorylimit: nat)
    requires blocksize > 0 && blocksize % 4 == 0
    ensures ChunkSize(blocksize, missing, memorylimit) % 4 == 0
    ensures ChunkSize(blocksize, missing, memorylimit) > 0 <==>
            blocksize * missing <= memorylimit || 4 * missing <= memorylimit
    ensures ChunkSize(blocksize, missing, memorylimit) * missing <= memorylimit
    ensures blocksize * missing <= memorylimit ==> ChunkSize(blocksize, missing, memorylimit) == blocksize
    ensures blocksize * missing > memorylimit ==>
              (ChunkSize(blocksize, missing, memorylimit) + 4) * missing > memorylimit
  {
    if blocksize * missing > memorylimit && missing > 0 {
      ChunkOf(blocksize, missing, memorylimit);
    } else {
      NotChunked(blocksize, missing, memorylimit);
    }
  }

  lemma NotChunked(blocksize: nat, missing: nat, memorylimit: nat)
    requires blocksize * missing <= memorylimit || missing == 0
    ensures ChunkSize(blocksize, missing, memorylimit) == blocksize && blocksize * missing <= memorylimit
  {
    assert blocksize * 0 == 0;
  }

  lemma ChunkOf(blocksize: nat, missing: nat, memorylimit: nat)
    requires blocksize * missing > memorylimit && missing > 0
    ensures ChunkSize(blocksize, missing, memorylimit) % 4 == 0
    ensures ChunkSize(blocksize, missing, memorylimit) > 0 <==> 4 * missing <= memorylimit
    ensures ChunkSize(blocksize, missing, memorylimit) * missing <= memorylimit
    ensures (ChunkSize(blocksize, missing, memorylimit) + 4) * missing > memorylimit
  {
    var q := memorylimit / missing;
    assert ChunkSize(blocksize, missing, memorylimit) == q - q % 4;
    assert missing * q + memorylimit % missing == memorylimit;
    hide *;
    ChunkProduct(q, missing, memorylimit);
    MultipleOfFour(q);
  }

  lemma MultipleOfFour(q: nat)
    ensures (q - q % 4) % 4 == 0 && (q - q % 4 > 0 <==> q >= 4)
  {
  }

  lemma ChunkProduct(q: nat, missing: nat, memorylimit: nat)
    requires missing > 0 && missing * q <= memorylimit < missing * q + missing
    ensures (q - q % 4) * missing <= memorylimit < (q - q % 4 + 4) * missing
    ensures q >= 4 <==> 4 * missing <= memorylimit
  {
    assert (q - q % 4) * missing == missing * q - q % 4 * missing;
    assert (q - q % 4 + 4) * missing == missing * q + missing + (3 - q % 4) * missing;
    if q >= 4 {
      assert missing * q == 4 * missing + (q - 4) * missing;
    } else {
      assert missing * q + missing == 4 * missing - (3 - q) * missing;
    }
  }

  /** The loop over the chunks of the blocks: whatever the chunk size, every target ends up with the whole
      content of its block, cut to its length, and nothing else on the disk changes. */
  method ProcessAll(rs: ReedSolomon<u16>, t: LongMultiplyTable, inputs: seq<Source>, copies: seq<Target>,
                    outputs: seq<Target>, blocksize: nat, chunksize: nat, disk: array<u8>, ghost l: Matrix<u16>)
    requires t.Valid() && |copies| <= |inputs| && forall i :: 0 <= i < |inputs| ==> inputs[i].Valid()
    requires Shape(l, |outputs|, |inputs|)
    requires |outputs| > 0 ==> MatrixFor(rs, inputs, |outputs|) && Rows(rs.leftmatrix) == l
    requires |outputs| > 0 ==> disk as object != rs.leftmatrix && disk as object != t.tables
    requires 0 < chunksize && chunksize % 4 == 0 && blocksize % 4 == 0
    requires Layout(copies + outputs, disk.Length)
    modifies disk
    ensures var n, c := |copies + outputs|, Contents(l, inputs, |copies|, blocksize);
            Progress(old(disk[..]), disk[..], copies + outputs, c, Marks(n, n, 0, blocksize))
  {
    hide Progress, Apart, Contents, Layout, Marks;
    var buffer := new u8[chunksize];
    var out := new u8[|outputs|, chunksize];
    ghost var before, n, c := disk[..], |copies + outputs|, Contents(l, inputs, |copies|, blocksize);
    NothingWritten(before, copies + outputs, c, blocksize);
    var blockoffset := 0;
    while blockoffset < blocksize
      invariant blockoffset <= blocksize && blockoffset % 4 == 0
      invariant Progress(before, disk[..], copies + outputs, c, Marks(n, n, 0, blockoffset))
      invariant |outputs| > 0 ==> Rows(rs.leftmatrix) == l
      invariant Ready(rs, t, inputs, |outputs|, buffer, out, disk, l)
    {
      var blocklength := if chunksize <= blocksize - blockoffset then chunksize else blocksize - blockoffset;
      MarksAgain(n, blockoffset, blockoffset + blocklength);
      ProcessData(rs, t, inputs, copies, outputs, blockoffset, blocklength, buffer, out, disk, before, blocksize, l);
      blockoffset := blockoffset + blocklength;
    }
  }

  lemma MarksAgain(n: nat, a: nat, b: nat)
    ensures Marks(n, n, 0, a) == Marks(n, 0, a, b)
    ensures Marks(n, n, a, b) == Marks(n, n, 0, b)
  {
  }

  lemma NothingWritten(disk: seq<u8>, targets: seq<Target>, c: seq<seq<u8>>, blocksize: nat)
    requires Layout(targets, |disk|) && |c| == |targets|
    ensures Progress(disk, disk, targets, c, Marks(|targets|, |targets|, 0, 0))
  {
  }
}
