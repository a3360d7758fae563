/** DataBlock: reading a block with zero fill, and writing one with truncation. A file that is read is a
    sequence of bytes; all the files that are written are one array, in which each target block has a place. */
module Blocks {
  import opened Bytes

  /** A block of a file that is read */
  datatype Source = Source(file: seq<u8>, offset: nat, length: nat) {
    ghost predicate Valid() {
      offset + length <= |file|
    }

    /** The byte at a position; past the end of the block there are zeros. */
    function At(p: nat): u8
      requires Valid()
    {
      if p < length then file[offset + p] else 0
    }
  }

  /** Where a block is written, if it is written at all */
  datatype Target = Unset | Target(address: nat, length: nat) {
    ghost predicate Fits(size: nat) {
      Target? ==> address + length <= size
    }
  }

  /** The first `size` bytes of a block, padded with zeros */
  function Padded(b: Source, size: nat): (s: seq<u8>)
    requires b.Valid()
    ensures |s| == size
  {
    seq(size, p requires 0 <= p < size => b.At(p))
  }

  /** DataBlock::ReadData */
  method ReadData(b: Source, position: nat, size: nat, buffer: array<u8>)
    requires b.Valid() && size <= buffer.Length
    modifies buffer
    ensures forall p :: 0 <= p < size ==> buffer[p] == b.At(position + p)
  {
    if b.length > position {
      var fileoffset := b.offset + position;
      var want := if size <= b.length - position then size else b.length - position;
      for i := 0 to want
        invariant forall p :: 0 <= p < i ==> buffer[p] == b.file[fileoffset + p]
      {
        buffer[i] := b.file[fileoffset + i];
      }
      for i := want to size
        invariant forall p :: 0 <= p < want ==> buffer[p] == b.file[fileoffset + p]
        invariant forall p :: want <= p < i ==> buffer[p] == 0
      {
        buffer[i] := 0;
      }
    } else {
      for i := 0 to size
        invariant forall p :: 0 <= p < i ==> buffer[p] == 0
      {
        buffer[i] := 0;
      }
    }
  }

  /** How many of the bytes of a write fall inside the block */
  function Have(t: Target, position: nat, size: nat): nat
    requires t.Target?
  {
    if t.length > position then (if size <= t.length - position then size else t.length - position) else 0
  }

  /** DataBlock::WriteData */
  method WriteData(t: Target, position: nat, size: nat, data: seq<u8>, disk: array<u8>) returns (wrote: nat)
    requires t.Target? && t.Fits(disk.Length) && size <= |data|
    modifies disk
    ensures wrote == Have(t, position, size)
    ensures forall i :: 0 <= i < disk.Length ==>
              disk[i] == if t.address + position <= i < t.address + position + wrote
                         then data[i - t.address - position] else old(disk[i])
  {
    wrote := 0;
    if t.length > position {
      var fileoffset := t.address + position;
      var have := if size <= t.length - position then size else t.length - position;
      for i := 0 to have
        invariant forall k :: 0 <= k < disk.Length ==>
          disk[k] == if fileoffset <= k < fileoffset + i then data[k - fileoffset] else old(disk[k])
      {
        disk[fileoffset + i] := data[i];
      }
      wrote := have;
    }
  }

  // ----- what has been written

  /** The bytes of the block before `upto` are those of the content. */
  ghost predicate Written(disk: seq<u8>, t: Target, content: seq<u8>, upto: nat)
    requires t.Fits(|disk|) && upto <= |content|
  {
    t.Target? ==> forall p :: 0 <= p < t.length && p < upto ==> disk[t.address + p] == content[p]
  }

  ghost predicate Apart(a: Target, b: Target) {
    a.Target? && b.Target? ==> a.address + a.length <= b.address || b.address + b.length <= a.address
  }

  ghost predicate Layout(targets: seq<Target>, size: nat) {
    && (forall j :: 0 <= j < |targets| ==> targets[j].Fits(size))
    && (forall j, k :: 0 <= j < k < |targets| ==> Apart(targets[j], targets[k]))
  }

  /** Positions that belong to no target */
  ghost predicate Outside(targets: seq<Target>, i: int) {
    forall j :: 0 <= j < |targets| && targets[j].Target? ==>
      !(targets[j].address <= i < targets[j].address + targets[j].length)
  }

  /** Every target j is written up to upto[j], and nothing outside the targets has changed. */
  ghost predicate Progress(before: seq<u8>, disk: seq<u8>, targets: seq<Target>, contents: seq<seq<u8>>, upto: seq<nat>)
    requires Layout(targets, |disk|)
  {
    && |before| == |disk| && |contents| == |upto| == |targets|
    && (forall j :: 0 <= j < |targets| ==> upto[j] <= |contents[j]| && Written(disk, targets[j], contents[j], upto[j]))
    && (forall i :: 0 <= i < |disk| && Outside(targets, i) ==> disk[i] == before[i])
  }

  /** One write moves one target on and leaves the others alone. */
  lemma WriteMakesProgress(before: seq<u8>, disk: seq<u8>, disk2: seq<u8>, targets: seq<Target>,
                           contents: seq<seq<u8>>, upto: seq<nat>, j: nat, size: nat, data: seq<u8>)
    requires Layout(targets, |disk|) && |disk2| == |disk| && Progress(before, disk, targets, contents, upto)
    requires j < |targets| && upto[j] + size <= |contents[j]| && size <= |data|
    requires targets[j].Target? ==>
               forall i :: 0 <= i < |disk| ==>
                 disk2[i] == if targets[j].address + upto[j] <= i < targets[j].address + upto[j]
                     + Have(targets[j], upto[j], size)
                             then data[i - targets[j].address - upto[j]] else disk[i]
    requires targets[j].Unset? ==> disk2 == disk
    requires forall p :: 0 <= p < size ==> data[p] == contents[j][upto[j] + p]
    ensures Progress(before, disk2, targets, contents, upto[j := upto[j] + size])
  {
    var t, u := targets[j], upto[j := upto[j] + size];
    if t.Target? {
      forall k | 0 <= k < |targets|
        ensures Written(disk2, targets[k], contents[k], u[k])
      {
        if k != j {
          assert Apart(targets[k], t);
        }
      }
      forall i | 0 <= i < |disk| && Outside(targets, i)
        ensures disk2[i] == before[i]
      {
      }
    }
  }
}
