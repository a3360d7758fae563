/** What VerificationHashTable::FindMatch finds, as a relation between the window, what is known of the blocks, and the
    result. Source files, data files and entries are numbers; -1 stands for a null pointer. */
module Matches {
  import opened Bytes
  import opened Crc
  import opened Md5
  import opened HashOrder
  import opened HashTrees
  import opened VerificationHashTable
  import opened FileCheckSummer

  /** The description packet of a source file */
  datatype SourceFile = SourceFile(size: nat, hashfull: Hash, hash16k: Hash)

  /** The verification packet of a source file, if there is one */
  datatype Verification = Missing | Packet(entries: seq<Key>)

  /** Where a data block was found */
  datatype Location = Unset | At(diskfile: nat, offset: nat)

  /** Par2RepairerSourceFile::SetBlockCount */
  function BlockCount(size: nat, blocksize: nat): nat
    requires blocksize > 0
  {
    (size + blocksize - 1) / blocksize
  }

  /** The length of a block, as Par2RepairerSourceFile::SetBlocks sets it */
  function DataLength(size: nat, blocksize: nat, block: nat): (n: nat)
    requires blocksize > 0 && block < BlockCount(size, blocksize)
    ensures 0 < n <= blocksize
  {
    LastBlock(size, blocksize, block);
    Min(blocksize, size - block * blocksize)
  }

  /** All blocks but the last are full, and the last one ends with the file. */
  lemma LastBlock(size: nat, blocksize: nat, block: nat)
    requires blocksize > 0
    ensures block < BlockCount(size, blocksize) <==> block * blocksize < size
  {
    var n := BlockCount(size, blocksize);
    assert size + blocksize - 1 == n * blocksize + (size + blocksize - 1) % blocksize;
    hide *;
    Begins(size, blocksize, block, n, (size + blocksize - 1) % blocksize);
  }

  lemma Begins(size: nat, blocksize: nat, block: nat, n: nat, rest: nat)
    requires size + blocksize - 1 == n * blocksize + rest && rest < blocksize
    ensures block < n <==> block * blocksize < size
  {
    if block < n {
      assert block * blocksize <= (n - 1) * blocksize;
    } else {
      assert block * blocksize >= n * blocksize;
    }
  }

  lemma FullLength(size: nat, blocksize: nat, block: nat)
    requires blocksize > 0 && block + 1 < BlockCount(size, blocksize)
    ensures DataLength(size, blocksize, block) == blocksize
  {
    LastBlock(size, blocksize, block + 1);
    hide BlockCount;
    assert (block + 1) * blocksize == block * blocksize + blocksize;
  }

  lemma LastLength(size: nat, blocksize: nat, block: nat)
    requires blocksize > 0 && block + 1 == BlockCount(size, blocksize)
    ensures block * blocksize + DataLength(size, blocksize, block) == size
  {
    LastBlock(size, blocksize, block);
    LastBlock(size, blocksize, block + 1);
    hide BlockCount;
    assert (block + 1) * blocksize == block * blocksize + blocksize;
  }

  /** A block of a file, padded with zeros */
  ghost function Block(file: seq<u8>, blocksize: nat, b: nat): (s: seq<u8>)
    requires b * blocksize <= |file|
    ensures |s| == blocksize
  {
    var n := Min(blocksize, |file| - b * blocksize);
    file[b * blocksize..b * blocksize + n] + Zeros(blocksize - n)
  }

  lemma FirstBlockOf(file: seq<u8>, blocksize: nat)
    ensures Block(file, blocksize, 0) == file[..Min(|file|, blocksize)] + Zeros(blocksize - Min(|file|, blocksize))
  {
  }

  /** Entry i stands for a block of a source file, and its next pointer leads to the next block. */
  ghost predicate Placed(files: seq<SourceFile>, blocksize: nat, es: seq<Entry>, next: seq<int>, i: nat)
    requires i < |es| && |next| == |es| && blocksize > 0
  {
    && es[i].file < |files| && es[i].block < BlockCount(files[es[i].file].size, blocksize)
    && next[i] == (if es[i].block + 1 < BlockCount(files[es[i].file].size, blocksize) then i + 1 else -1)
    && (next[i] >= 0 ==> i + 1 < |es| && es[i + 1].file == es[i].file && es[i + 1].block == es[i].block + 1)
  }

  ghost predicate AllPlaced(files: seq<SourceFile>, blocksize: nat, es: seq<Entry>, next: seq<int>)
    requires blocksize > 0
  {
    |next| == |es| && forall i :: 0 <= i < |es| ==> Placed(files, blocksize, es, next, i)
  }

  lemma LoadPlaced(files: seq<SourceFile>, blocksize: nat, es: seq<Entry>, next: seq<int>, g: nat, keys: seq<Key>)
    requires blocksize > 0 && AllPlaced(files, blocksize, es, next)
    requires g < |files| && |keys| == BlockCount(files[g].size, blocksize)
    ensures AllPlaced(files, blocksize, es + Loaded(g, keys), next + Sequence(|es|, |keys|))
  {
    hide BlockCount;
    var es1, next1 := es + Loaded(g, keys), next + Sequence(|es|, |keys|);
    forall i | 0 <= i < |es1| ensures Placed(files, blocksize, es1, next1, i) {
      if i < |es| {
        assert Placed(files, blocksize, es, next, i);
      } else {
        assert es1[i] == Entry(keys[i - |es|], g, i - |es|);
      }
    }
  }

  /** The locations with one of them changed */
  function Located(location: seq<seq<Location>>, g: nat, b: nat, x: Location): (r: seq<seq<Location>>)
    ensures |r| == |location| && forall h :: 0 <= h < |r| ==> |r[h]| == |location[h]|
  {
    if g < |location| && b < |location[g]| then location[g := location[g][b := x]] else location
  }

  // ----- what is known, and where the window is

  /** The source files, the entries of their blocks, the source files that are complete, and where blocks were found */
  datatype Known = Known(blocksize: nat, files: seq<SourceFile>, entries: seq<Entry>, next: seq<int>,
                         complete: set<nat>, location: seq<seq<Location>>)

  ghost predicate Consistent(k: Known) {
    && k.blocksize > 0 && AllPlaced(k.files, k.blocksize, k.entries, k.next) && |k.location| == |k.files|
    && forall g :: 0 <= g < |k.files| ==> |k.location[g]| == BlockCount(k.files[g].size, k.blocksize)
  }

  lemma KnownPlaced(k: Known, i: nat)
    requires Consistent(k) && i < |k.entries|
    ensures |k.next| == |k.entries| && k.blocksize > 0 && Placed(k.files, k.blocksize, k.entries, k.next, i)
    ensures |k.location| == |k.files|
    ensures |k.location[k.entries[i].file]| == BlockCount(k.files[k.entries[i].file].size, k.blocksize)
  {
    hide BlockCount;
  }

  /** The offset of the window, how many bytes of the file are under it, and the number of the file */
  datatype Spot = Spot(offset: nat, length: nat, diskfile: nat)

  /** The source file of an entry */
  function FileOf(k: Known, i: nat): int {
    if i < |k.entries| then k.entries[i].file else -1
  }

  /** The length of the block of an entry */
  function LengthOf(k: Known, i: nat): nat {
    if i < |k.entries| && k.entries[i].file < |k.files| && k.blocksize > 0
       && k.entries[i].block < BlockCount(k.files[k.entries[i].file].size, k.blocksize)
    then DataLength(k.files[k.entries[i].file].size, k.blocksize, k.entries[i].block)
    else 0
  }

  /** Where the block of an entry has been found */
  function PlaceOf(k: Known, i: nat): Location {
    if i < |k.entries| && k.entries[i].file < |k.location| && k.entries[i].block < |k.location[k.entries[i].file]|
    then k.location[k.entries[i].file][k.entries[i].block]
    else Unset
  }

  predicate IsFirst(k: Known, i: nat) {
    i < |k.entries| && k.entries[i].block == 0
  }

  predicate IsDone(k: Known, i: nat) {
    i < |k.entries| && k.entries[i].file in k.complete
  }

  /** The window is full, or is as long as the block of the entry. */
  predicate HasLength(k: Known, length: nat, i: nat) {
    length == k.blocksize || length == LengthOf(k, i)
  }

  /** The block of the entry has not been found yet, and could lie under the window. */
  predicate IsFree(k: Known, length: nat, i: nat) {
    PlaceOf(k, i) == Unset && HasLength(k, length, i)
  }

  /** The checksum and the hash of some content */
  ghost function KeyOf(f: Compression, content: seq<u8>): Key {
    Key(BlockCrc(content), Digest(f, content))
  }

  /** The first n bytes of a window, padded with zeros */
  ghost function CutTo(window: seq<u8>, n: nat): (s: seq<u8>)
    ensures n <= |window| ==> |s| == |window|
  {
    if n <= |window| then window[..n] + Zeros(|window| - n) else window
  }

  // ----- the choice

  /** What is under the window is the block of the entry that is expected next. Of the last block of a source file
      only the bytes that it should have are compared. */
  ghost predicate IsExpected(k: Known, f: Compression, window: seq<u8>, i: nat) {
    && i < |k.entries| && i < |k.next|
    && if k.next[i] < 0 then KeyOf(f, CutTo(window, LengthOf(k, i))) == k.entries[i].key
       else PlaceOf(k, i) == Unset && KeyOf(f, window) == k.entries[i].key
  }

  /** The only candidate is taken if its file is not complete, its length is right, and it has not been used: unless
      it is a first block at the start of the data file, or was expected and has been found in another data file. */
  predicate Takes(k: Known, at: Spot, i: nat, suggested: int) {
    && !IsDone(k, i) && HasLength(k, at.length, i)
    && ((IsFirst(k, i) && at.offset == 0) || PlaceOf(k, i) == Unset
        || (i == suggested && PlaceOf(k, i).diskfile != at.diskfile))
  }

  /** The first free one of some entries, of a source file if one is given */
  function FirstFree(k: Known, length: nat, m: seq<nat>, sourcefile: int): int {
    if m == [] then -1
    else if (sourcefile < 0 || FileOf(k, m[0]) == sourcefile) && IsFree(k, length, m[0]) then m[0]
    else FirstFree(k, length, m[1..], sourcefile)
  }

  /** The choice among several candidates: a free one of the preferred source file, or else any free one */
  function Preferred(k: Known, length: nat, m: seq<nat>, sourcefile: int): int {
    var own := FirstFree(k, length, m, sourcefile);
    if sourcefile >= 0 && own >= 0 then own else FirstFree(k, length, m, -1)
  }

  /** The choice among the candidates, and whether the window is taken for a duplicate */
  ghost predicate Chosen(k: Known, at: Spot, m: seq<nat>, suggested: int, sourcefile: int, entry: int,
                         duplicate: bool) {
    if |m| == 0 then entry == -1 && !duplicate
    else if |m| == 1 then
      && entry == (if Takes(k, at, m[0], suggested) then m[0] else -1)
      && (duplicate <==> entry < 0 && (IsDone(k, m[0]) || HasLength(k, at.length, m[0])))
    else
      && entry == Preferred(k, at.length, m, sourcefile)
      && (duplicate <==> entry < 0)
  }

  /** The entry that is expected is found if it is under the window; otherwise one of the entries with the checksum and
      the hash of the window, which are considered in the order in which they were loaded. */
  ghost predicate Outcome(k: Known, f: Compression, window: seq<u8>, at: Spot, suggested: int, sourcefile: int,
                          entry: int, duplicate: bool) {
    if suggested >= 0 && IsExpected(k, f, window, suggested) then entry == suggested && !duplicate
    else Chosen(k, at, Matching(k.entries, KeyOf(f, window)), suggested, sourcefile, entry, duplicate)
  }

  // ----- what the choice means

  lemma {:induction false} FirstFreeIs(k: Known, length: nat, m: seq<nat>, sourcefile: int)
    ensures var r := FirstFree(k, length, m, sourcefile);
            && r >= -1 && (r >= 0 ==> r in m && IsFree(k, length, r) && (sourcefile < 0 || FileOf(k, r) == sourcefile))
            && (r < 0 ==> forall i :: i in m && (sourcefile < 0 || FileOf(k, i) == sourcefile) ==>
                  !IsFree(k, length, i))
  {
    hide IsFree, FileOf;
    if m != [] {
      FirstFreeIs(k, length, m[1..], sourcefile);
      assert m == [m[0]] + m[1..];
    }
  }

  /** No earlier one qualifies. */
  lemma {:induction false} FirstFreeEarliest(k: Known, length: nat, m: seq<nat>, sourcefile: int, j: nat)
    requires j < |m| && (sourcefile < 0 || FileOf(k, m[j]) == sourcefile) && IsFree(k, length, m[j])
    ensures exists p: nat :: p <= j && FirstFree(k, length, m, sourcefile) == m[p]
  {
    hide IsFree, FileOf;
    if (sourcefile < 0 || FileOf(k, m[0]) == sourcefile) && IsFree(k, length, m[0]) {
      assert FirstFree(k, length, m, sourcefile) == m[0];
    } else {
      FirstFreeEarliest(k, length, m[1..], sourcefile, j - 1);
      var p: nat :| p <= j - 1 && FirstFree(k, length, m[1..], sourcefile) == m[1..][p];
      assert m[1..][p] == m[p + 1];
    }
  }

  lemma PreferredIs(k: Known, length: nat, m: seq<nat>, sourcefile: int)
    ensures var r := Preferred(k, length, m, sourcefile);
            && r >= -1 && (r >= 0 ==> r in m && IsFree(k, length, r))
            && (r < 0 ==> forall i :: i in m ==> !IsFree(k, length, i))
  {
    hide FirstFree, IsFree;
    FirstFreeIs(k, length, m, sourcefile);
    FirstFreeIs(k, length, m, -1);
  }

  /** If nothing is found, no entry with the checksum and the hash of the window can be used. It is for a duplicate
      that there are such entries, and otherwise none has the length of what is under the window. */
  lemma NoneFound(k: Known, f: Compression, window: seq<u8>, at: Spot, suggested: int, sourcefile: int, entry: int,
                  duplicate: bool)
    requires Outcome(k, f, window, at, suggested, sourcefile, entry, duplicate) && entry < 0
    ensures forall i: nat :: i < |k.entries| && k.entries[i].key == KeyOf(f, window) ==>
              && (IsDone(k, i) || !IsFree(k, at.length, i))
              && (!duplicate ==> !HasLength(k, at.length, i))
    ensures duplicate ==> exists i: nat :: i < |k.entries| && k.entries[i].key == KeyOf(f, window)
  {
    hide IsFree, IsDone, HasLength, KeyOf, Matching, Preferred, IsExpected, PlaceOf, IsFirst;
    var m := Matching(k.entries, KeyOf(f, window));
    PreferredIs(k, at.length, m, sourcefile);
    forall i: nat ensures i in m <==> i < |k.entries| && k.entries[i].key == KeyOf(f, window) {
      MatchingComplete(k.entries, KeyOf(f, window), i);
    }
    if |m| > 0 {
      assert m[0] in m;
      NotFree(k, at.length, m[0]);
    }
  }

  lemma NotFree(k: Known, length: nat, i: nat)
    ensures IsFree(k, length, i) ==> PlaceOf(k, i) == Unset && HasLength(k, length, i)
  {
  }

  /** What is found has the checksum and the hash of the window, or of the window cut to the length of a last block. */
  lemma WhatIsFound(k: Known, f: Compression, window: seq<u8>, at: Spot, suggested: int, sourcefile: int, entry: int,
                    duplicate: bool)
    requires Consistent(k) && Outcome(k, f, window, at, suggested, sourcefile, entry, duplicate) && entry >= 0
    ensures entry < |k.entries|
    ensures k.entries[entry].key == KeyOf(f, window)
            || k.entries[entry].key == KeyOf(f, CutTo(window, LengthOf(k, entry)))
    ensures entry == suggested || HasLength(k, at.length, entry)
    ensures entry == suggested || PlaceOf(k, entry) == Unset || (IsFirst(k, entry) && at.offset == 0)
  {
    hide IsDone, HasLength, KeyOf, Matching, Preferred, PlaceOf, IsFirst, LengthOf, CutTo;
    var m := Matching(k.entries, KeyOf(f, window));
    PreferredIs(k, at.length, m, sourcefile);
    MatchingComplete(k.entries, KeyOf(f, window), entry);
  }

  lemma ResultIs(k: Known, f: Compression, window: seq<u8>, at: Spot, suggested: int, sourcefile: int, entry: int,
                 duplicate: bool)
    requires Outcome(k, f, window, at, suggested, sourcefile, entry, duplicate)
    ensures entry >= -1 && (duplicate ==> entry == -1)
  {
    hide Matching, Takes, IsExpected, KeyOf, Preferred;
    PreferredIs(k, at.length, Matching(k.entries, KeyOf(f, window)), sourcefile);
  }
}
