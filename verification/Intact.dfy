/** When the scan of an intact copy of a source file ends with a full match */
module Intact {
  import opened Bytes
  import opened Md5
  import opened HashOrder
  import opened HashTrees
  import opened FileCheckSummer
  import opened Matches
  import opened Traces

  /** The data file is an intact copy of a source file g that is not complete yet: it has the size and the hashes of the
      description packet, and its blocks those of the verification packet, of which entry i is the first. */
  ghost predicate IsIntact(j: Job, g: int, i: nat) {
    && 0 <= g < |j.known.files| && g !in j.known.complete && i < |j.known.entries|
    && j.file != [] && |j.file| == j.known.files[g].size
    && Digest(j.compress, j.file) == j.known.files[g].hashfull
    && Digest(j.compress, j.file[..Min(|j.file|, 16384)]) == j.known.files[g].hash16k
    && j.known.entries[i].file == g && j.known.entries[i].block == 0
    && (forall e :: 0 <= e < i ==> j.known.entries[e].file != g)
    && (forall e :: 0 <= e < |j.known.entries| && j.known.entries[e].file == g ==> Carries(j, e))
  }

  /** The entry has the checksum and the hash of the block of the file. */
  ghost predicate Carries(j: Job, e: nat)
    requires e < |j.known.entries|
  {
    var b := j.known.entries[e].block;
    && b * j.known.blocksize <= |j.file|
    && KeyOf(j.compress, Block(j.file, j.known.blocksize, b)) == j.known.entries[e].key
  }

  /** The first block of a source file passes if no other entry has its content; or if it has not been found, and either
      the source file is the one that is wanted, or no free entry with the content is of that one or was loaded
      earlier. */
  ghost predicate Starts(j: Job, i: nat) {
    i < |j.known.entries| &&
    var m := Matching(j.known.entries, j.known.entries[i].key);
    || |m| == 1
    || (PlaceOf(j.known, i) == Unset
        && (FileOf(j.known, i) == j.wanted
            || forall e: nat :: e in m && IsFree(j.known, SpotAt(j, 0).length, e) ==>
                i <= e && FileOf(j.known, e) != j.wanted))
  }

  /** Block b of the source file, of which i is the first entry, passes if it has not been found, or if no other entry
      has its content and it was found in another data file. */
  ghost predicate Passes(j: Job, i: nat, b: nat) {
    i + b < |j.known.entries| &&
    if b == 0 then Starts(j, i)
    else
      || PlaceOf(j.known, i + b) == Unset
      || (|Matching(j.known.entries, j.known.entries[i + b].key)| == 1
          && PlaceOf(j.known, i + b).diskfile != j.diskfile)
  }

  /** Of the first m blocks all pass but the last of the file, which need not, unless it is the first as well. */
  ghost predicate AllPass(j: Job, g: int, i: nat, m: nat)
    requires j.known.blocksize > 0 && 0 <= g < |j.known.files|
  {
    forall b: nat :: b < m && (b == 0 || b + 1 < BlockCount(j.known.files[g].size, j.known.blocksize)) ==>
      Passes(j, i, b)
  }

  ghost predicate WholePasses(j: Job, g: int, i: nat) {
    && j.known.blocksize > 0 && 0 <= g < |j.known.files|
    && AllPass(j, g, i, BlockCount(j.known.files[g].size, j.known.blocksize))
  }

  /** The entries of a source file follow its first one. */
  lemma {:induction false} EntryOf(k: Known, i: nat, b: nat)
    requires Consistent(k) && i < |k.entries| && k.entries[i].block == 0 && k.entries[i].file < |k.files|
    requires b < BlockCount(k.files[k.entries[i].file].size, k.blocksize)
    ensures i + b < |k.entries| && k.entries[i + b].file == k.entries[i].file && k.entries[i + b].block == b
  {
    hide BlockCount, Consistent;
    if b > 0 {
      SizeOf(k);
      EntryOf(k, i, b - 1);
      KnownPlaced(k, i + b - 1);
    }
  }

  // ----- what is under the window

  lemma RoomForBlock(size: nat, blocksize: nat, b: nat)
    requires blocksize > 0 && b + 1 < BlockCount(size, blocksize)
    ensures b * blocksize + blocksize <= size
  {
    LastBlock(size, blocksize, b + 1);
    hide *;
    assert (b + 1) * blocksize == b * blocksize + blocksize;
  }

  lemma FullBlockIs(file: seq<u8>, blocksize: nat, b: nat, o: nat)
    requires o == b * blocksize && o + blocksize <= |file|
    ensures Block(file, blocksize, b) == file[o..o + blocksize]
  {
  }

  lemma WindowIsBlock(j: Job, b: nat, window: seq<u8>)
    requires j.known.blocksize > 0 && IsWindow(j, b * j.known.blocksize, window)
    requires b == 0 || b + 1 < BlockCount(|j.file|, j.known.blocksize)
    ensures b * j.known.blocksize <= |j.file| && window == Block(j.file, j.known.blocksize, b)
  {
    if b == 0 {
      FirstWindowIs(j, window);
    } else {
      RoomForBlock(|j.file|, j.known.blocksize, b);
      hide *;
      FullWindow(j, b * j.known.blocksize, window);
      FullBlockIs(j.file, j.known.blocksize, b, b * j.known.blocksize);
    }
  }

  lemma FirstWindowIs(j: Job, window: seq<u8>)
    requires IsWindow(j, 0, window)
    ensures window == Block(j.file, j.known.blocksize, 0)
  {
    FirstBlockOf(j.file, j.known.blocksize);
  }

  lemma LastIsBlock(j: Job, b: nat, window: seq<u8>)
    requires j.known.blocksize > 0 && IsWindow(j, b * j.known.blocksize, window)
    requires b + 1 == BlockCount(|j.file|, j.known.blocksize)
    ensures b * j.known.blocksize <= |j.file|
    ensures CutTo(window, DataLength(|j.file|, j.known.blocksize, b)) == Block(j.file, j.known.blocksize, b)
  {
    hide BlockCount, DataLength;
    LastLength(|j.file|, j.known.blocksize, b);
  }

  // ----- the start

  lemma {:induction false} Increasing(es: seq<Entry>, k: Key, p: nat, q: nat)
    requires p <= q < |Matching(es, k)|
    ensures Matching(es, k)[p] <= Matching(es, k)[q]
  {
    if p < q { MatchingIncreases(es, k, p, q); }
  }

  /** The choice is not after a free entry of the same source file. */
  lemma ChoiceIsEarly(j: Job, key: Key, e: nat, i: nat)
    requires i in Matching(j.known.entries, key) && IsFree(j.known, SpotAt(j, 0).length, i)
    requires Preferred(j.known, SpotAt(j, 0).length, Matching(j.known.entries, key), j.wanted) == e
    requires FileOf(j.known, e) == FileOf(j.known, i) || FileOf(j.known, e) != j.wanted
    ensures e <= i
  {
    hide IsFree, FirstFree, FileOf, Matching, SpotAt;
    var k, length, m := j.known, SpotAt(j, 0).length, Matching(j.known.entries, key);
    var q: nat :| q < |m| && m[q] == i;
    FirstFreeIs(k, length, m, j.wanted);
    if j.wanted >= 0 && FirstFree(k, length, m, j.wanted) >= 0 {
      FirstFreeEarliest(k, length, m, j.wanted, q);
      var p: nat :| p <= q && FirstFree(k, length, m, j.wanted) == m[p];
      Increasing(k.entries, key, p, q);
    } else {
      FirstFreeEarliest(k, length, m, -1, q);
      var p: nat :| p <= q && FirstFree(k, length, m, -1) == m[p];
      Increasing(k.entries, key, p, q);
    }
  }

  /** An entry is the choice exactly if it is free, and wanted or before all free ones, none of which is wanted. */
  lemma ChoiceIs(j: Job, i: nat)
    requires i < |j.known.entries| && forall e :: 0 <= e < i ==> j.known.entries[e].file != j.known.entries[i].file
    ensures var k, length, m := j.known, SpotAt(j, 0).length, Matching(j.known.entries, j.known.entries[i].key);
            Preferred(k, length, m, j.wanted) == i <==>
            IsFree(k, length, i)
            && (FileOf(k, i) == j.wanted
                || forall e: nat :: e in m && IsFree(k, length, e) ==> i <= e && FileOf(k, e) != j.wanted)
  {
    hide IsFree, FirstFree, Matching, SpotAt;
    var k, length, key := j.known, SpotAt(j, 0).length, j.known.entries[i].key;
    var m := Matching(k.entries, key);
    var r := Preferred(k, length, m, j.wanted);
    PreferredIs(k, length, m, j.wanted);
    forall e: nat
      ensures e in m <==> e < |k.entries| && k.entries[e].key == key
    {
      MatchingComplete(k.entries, key, e);
    }
    if r == i && FileOf(k, i) != j.wanted {
      FirstFreeIs(k, length, m, j.wanted);
      forall e: nat | e in m && IsFree(k, length, e) ensures i <= e && FileOf(k, e) != j.wanted {
        ChoiceIsEarly(j, key, i, e);
      }
    }
    var before := forall e: nat :: e in m && IsFree(k, length, e) ==> i <= e && FileOf(k, e) != j.wanted;
    if IsFree(k, length, i) && FileOf(k, i) == j.wanted {
      FirstFreeIs(k, length, m, j.wanted);
      ChoiceIsEarly(j, key, r, i);
    } else if IsFree(k, length, i) && before {
      ChoiceIsEarly(j, key, r, i);
    }
  }

  lemma SameBlock(k: Known, length: nat, e: nat, i: nat)
    requires e < |k.entries| && i < |k.entries|
    requires k.entries[e].file == k.entries[i].file && k.entries[e].block == k.entries[i].block
    ensures IsFree(k, length, e) <==> IsFree(k, length, i)
  {
    hide BlockCount, DataLength;
  }

  /** At the start of an intact file its first entry is found exactly if it passes. What else may be found is no first
      block, or one of another source file. */
  lemma IntactStart(j: Job, g: int, i: nat, t: Turn)
    requires Consistent(j.known) && IsIntact(j, g, i) && Turned(j, [], t)
    ensures t.Hit? && t.entry == i <==> Starts(j, i)
    ensures t.Hit? && t.entry != i ==> FileOf(j.known, t.entry) != g || !IsFirst(j.known, t.entry)
  {
    hide Consistent, Outcome, IsWindow, KeyOf, Carries, Block, Matching, Digest, BlockCount;
    var k, key, length := j.known, j.known.entries[i].key, SpotAt(j, 0).length;
    var m, e := Matching(k.entries, key), if t.Hit? then t.entry else -1;
    var window: seq<u8> :| IsWindow(j, 0, window) &&
      Outcome(k, j.compress, window, SpotAt(j, 0), -1, j.wanted, e, t.Duplicate?);
    SizeOf(k);
    WindowIsBlock(j, 0, window);
    CarriesKey(j, i);
    StartLength(j, g, i);
    MatchingComplete(k.entries, key, i);
    OutcomeIs(k, j.compress, window, SpotAt(j, 0), j.wanted, e, t.Duplicate?);
    hide IsFree, PlaceOf, HasLength, SpotAt, Preferred;
    ChoiceIs(j, i);
    if |m| > 1 && e >= 0 {
      PreferredIs(k, length, m, j.wanted);
      MatchingComplete(k.entries, key, e);
      if FileOf(k, e) == g && IsFirst(k, e) {
        SameBlock(k, length, e, i);
        ChoiceIsEarly(j, key, e, i);
      }
    }
    if IsFree(k, length, i) || PlaceOf(k, i) == Unset { FreeIs(k, length, i); }
  }

  lemma FreeIs(k: Known, length: nat, i: nat)
    ensures IsFree(k, length, i) <==> PlaceOf(k, i) == Unset && HasLength(k, length, i)
  {
  }

  lemma OutcomeIs(k: Known, f: Compression, window: seq<u8>, at: Spot, sourcefile: int, entry: int, duplicate: bool)
    requires Outcome(k, f, window, at, -1, sourcefile, entry, duplicate)
    ensures Chosen(k, at, Matching(k.entries, KeyOf(f, window)), -1, sourcefile, entry, duplicate)
  {
  }

  lemma CarriesKey(j: Job, e: nat)
    requires e < |j.known.entries| && Carries(j, e)
    ensures var b := j.known.entries[e].block;
            b * j.known.blocksize <= |j.file| &&
            KeyOf(j.compress, Block(j.file, j.known.blocksize, b)) == j.known.entries[e].key
  {
  }

  lemma StartLength(j: Job, g: int, i: nat)
    requires Consistent(j.known) && IsIntact(j, g, i)
    ensures HasLength(j.known, SpotAt(j, 0).length, i)
  {
    hide BlockCount, Carries;
    KnownPlaced(j.known, i);
  }

  // ----- further on

  /** All the blocks have been matched so far. */
  ghost predicate OnTrack(j: Job, g: int, turns: seq<Turn>) {
    Chained(j, turns) && (turns == [] || Source(j, turns) == g)
  }

  /** What an intact file looks like after its first blocks have been matched */
  lemma AfterBlocks(j: Job, g: int, i: nat, turns: seq<Turn>)
    requires Consistent(j.known) && IsIntact(j, g, i) && Scanned(j, turns) && OnTrack(j, g, turns) && turns != []
    requires End(j, turns) < |j.file|
    ensures var b := |turns|;
            && j.known.blocksize > 0 && b < BlockCount(|j.file|, j.known.blocksize)
            && End(j, turns) == b * j.known.blocksize
            && i + b < |j.known.entries| && j.known.entries[i + b].file == g && j.known.entries[i + b].block == b
            && PlaceOf(After(j, turns), i + b) == PlaceOf(j.known, i + b)
  {
    hide BlockCount, IsIntact, Scanned, After, End, Source, Next, Hits, Consistent, PlaceOf;
    IntactIs(j, g, i);
    ChainedInOrder(j, turns);
    OrderMeans(j, After(j, turns).location, End(j, turns), g, Next(j, turns), |turns|);
    SizeOf(j.known);
    NotAtEnd(|j.file|, j.known.blocksize, |turns|, End(j, turns));
    EntryOf(j.known, i, |turns|);
    SamePlace(j, turns, i + |turns|);
  }

  lemma IntactIs(j: Job, g: int, i: nat)
    requires IsIntact(j, g, i)
    ensures 0 <= g < |j.known.files| && g !in j.known.complete && |j.file| == j.known.files[g].size
    ensures i < |j.known.entries| && j.known.entries[i].file == g && j.known.entries[i].block == 0
  {
    hide Carries, Digest;
  }

  /** The blocks that have been matched do not change what is known of the next one. */
  lemma SamePlace(j: Job, turns: seq<Turn>, e: nat)
    requires e < |j.known.entries| && j.known.entries[e].file < |j.known.location|
    requires After(j, turns).location
          == Marked(j.known.location, j.known.entries[e].file, j.known.entries[e].block, j.diskfile, j.known.blocksize)
    ensures PlaceOf(After(j, turns), e) == PlaceOf(j.known, e)
  {
    hide After;
  }

  lemma NotAtEnd(size: nat, blocksize: nat, b: nat, end: nat)
    requires blocksize > 0 && b <= BlockCount(size, blocksize) && end < size
    requires end == if b < BlockCount(size, blocksize) then Min(size, b * blocksize) else size
    ensures b < BlockCount(size, blocksize) && end == b * blocksize
  {
    hide BlockCount;
    LastBlock(size, blocksize, b);
  }

  /** Further on, the next block of an intact file is found exactly if it is the last or passes. */
  lemma IntactLater(j: Job, g: int, i: nat, turns: seq<Turn>, t: Turn)
    requires Consistent(j.known) && IsIntact(j, g, i) && Scanned(j, turns) && OnTrack(j, g, turns) && turns != []
    requires Turned(j, turns, t) && Next(j, turns) == i + |turns|
    ensures j.known.blocksize > 0
    ensures t.Hit? && t.entry == i + |turns| <==>
            (|turns| + 1 < BlockCount(|j.file|, j.known.blocksize) ==> Passes(j, i, |turns|))
  {
    hide Consistent, Scanned, OnTrack, Outcome, IsWindow, KeyOf, Carries, Block, Matching, Digest, BlockCount, After,
         PlaceOf, Starts;
    AfterBlocks(j, g, i, turns);
    var b, e := |turns|, i + |turns|;
    var k, entry := After(j, turns), if t.Hit? then t.entry else -1;
    var window: seq<u8> :| IsWindow(j, t.offset, window) &&
      Outcome(k, j.compress, window, SpotAt(j, t.offset), e, Source(j, turns), entry, t.Duplicate?);
    KnownPlaced(j.known, e);
    CarriesKey(j, e);
    LengthIsData(j, e);
    if b + 1 < BlockCount(|j.file|, j.known.blocksize) {
      WindowIsBlock(j, b, window);
      IsFullSpot(j, b);
      ExpectedFull(k, j.compress, window, SpotAt(j, t.offset), e, Source(j, turns), entry, t.Duplicate?);
    } else {
      LastIsBlock(j, b, window);
      SameLength(j, turns, e);
      ExpectedLast(k, j.compress, window, SpotAt(j, t.offset), e, Source(j, turns), entry, t.Duplicate?);
    }
  }

  lemma LengthIsData(j: Job, e: nat)
    requires Consistent(j.known) && e < |j.known.entries|
    ensures var x := j.known.entries[e];
            && x.file < |j.known.files| && j.known.blocksize > 0
            && x.block < BlockCount(j.known.files[x.file].size, j.known.blocksize)
            && LengthOf(j.known, e) == DataLength(j.known.files[x.file].size, j.known.blocksize, x.block)
  {
    hide BlockCount, DataLength;
    KnownPlaced(j.known, e);
  }

  lemma IsFullSpot(j: Job, b: nat)
    requires j.known.blocksize > 0 && b + 1 < BlockCount(|j.file|, j.known.blocksize)
    ensures SpotAt(j, b * j.known.blocksize) == Spot(b * j.known.blocksize, j.known.blocksize, j.diskfile)
  {
    hide BlockCount;
    LastBlock(|j.file|, j.known.blocksize, b + 1);
    assert (b + 1) * j.known.blocksize == b * j.known.blocksize + j.known.blocksize;
  }

  /** The suggested entry, if it is not the last of its file and its content is under a full window */
  lemma ExpectedFull(k: Known, f: Compression, window: seq<u8>, at: Spot, e: nat, sourcefile: int, entry: int,
                     duplicate: bool)
    requires Outcome(k, f, window, at, e, sourcefile, entry, duplicate)
    requires e < |k.entries| == |k.next| && k.next[e] >= 0 && k.entries[e].key == KeyOf(f, window)
    requires at.length == k.blocksize && !IsFirst(k, e) && !IsDone(k, e)
    ensures entry == e <==>
            PlaceOf(k, e) == Unset
            || (|Matching(k.entries, k.entries[e].key)| == 1 && PlaceOf(k, e).diskfile != at.diskfile)
  {
    hide KeyOf, Matching, PlaceOf, Preferred;
    var m := Matching(k.entries, k.entries[e].key);
    MatchingComplete(k.entries, k.entries[e].key, e);
    PreferredIs(k, at.length, m, sourcefile);
    FreeIs(k, at.length, e);
  }

  lemma ExpectedLast(k: Known, f: Compression, window: seq<u8>, at: Spot, e: nat, sourcefile: int, entry: int,
                     duplicate: bool)
    requires Outcome(k, f, window, at, e, sourcefile, entry, duplicate)
    requires e < |k.entries| == |k.next| && k.next[e] < 0
    requires k.entries[e].key == KeyOf(f, CutTo(window, LengthOf(k, e)))
    ensures entry == e
  {
    hide KeyOf, CutTo, LengthOf, Chosen;
  }

  // ----- full matches

  /** What a full match says: size and hashes are those of the source file, and its blocks, and no others, were
      recorded, in order and one after the other. */
  ghost predicate IsFullMatch(j: Job, g: int, now: Known)
    requires j.known.blocksize > 0
  {
    && 0 <= g < |j.known.files| == |j.known.location|
    && |j.file| == j.known.files[g].size && Digest(j.compress, j.file) == j.known.files[g].hashfull
    && Digest(j.compress, j.file[..Min(|j.file|, 16384)]) == j.known.files[g].hash16k
    && now == j.known.(location := Marked(j.known.location, g, BlockCount(j.known.files[g].size, j.known.blocksize),
                                          j.diskfile, j.known.blocksize))
  }

  /** The run that ends with a full match: as many matches in a row as the source file has blocks, and the size and both
      hashes agree. */
  ghost predicate Confirmed(j: Job, turns: seq<Turn>) {
    var g := Source(j, turns);
    && turns != [] && Chained(j, turns) && 0 <= g < |j.known.files| && j.known.blocksize > 0
    && |turns| == BlockCount(j.known.files[g].size, j.known.blocksize) && |j.file| == j.known.files[g].size
    && Digest(j.compress, j.file) == j.known.files[g].hashfull
    && Digest(j.compress, j.file[..Min(|j.file|, 16384)]) == j.known.files[g].hash16k
  }

  lemma {:induction false} SourceIs(j: Job, turns: seq<Turn>)
    requires Consistent(j.known) && Scanned(j, turns) && Hits(turns) > 0
    ensures 0 <= Source(j, turns) < |j.known.files|
  {
    hide BlockCount, Consistent, Turned;
    var earlier, last := turns[..|turns| - 1], turns[|turns| - 1];
    if Hits(earlier) > 0 {
      SourceIs(j, earlier);
    } else {
      TurnMoves(j, earlier, last);
      KnownPlaced(j.known, last.entry);
    }
  }

  /** The test at the end of the scan, which counts the matches */
  lemma ConfirmedIs(j: Job, turns: seq<Turn>)
    requires Consistent(j.known) && Scanned(j, turns)
    ensures j.known.blocksize > 0 && (Hits(turns) > 0 ==> 0 <= Source(j, turns) < |j.known.files|)
    ensures Confirmed(j, turns) <==>
            && Hits(turns) > 0 && Chained(j, turns)
            && var file := j.known.files[Source(j, turns)];
               && Hits(turns) == BlockCount(file.size, j.known.blocksize) && |j.file| == file.size
               && Digest(j.compress, j.file) == file.hashfull
               && Digest(j.compress, j.file[..Min(|j.file|, 16384)]) == file.hash16k
  {
    hide BlockCount, Digest, Consistent, Chained, Scanned, Source, Hits;
    SizeOf(j.known);
    NoTurns(j);
    if Hits(turns) > 0 { SourceIs(j, turns); }
    if Chained(j, turns) { ChainedHits(j, turns); }
  }

  lemma ConfirmedIsFull(j: Job, turns: seq<Turn>)
    requires Consistent(j.known) && Scanned(j, turns) && Confirmed(j, turns)
    ensures j.known.blocksize > 0 && IsFullMatch(j, Source(j, turns), After(j, turns))
  {
    hide BlockCount, Digest, Consistent, Chained, Scanned, Source, Next, End;
    ChainedInOrder(j, turns);
    OrderMeans(j, After(j, turns).location, End(j, turns), Source(j, turns), Next(j, turns), |turns|);
  }

  // ----- the whole run

  /** Either all blocks have been matched so far, and all of them pass, or there is one that does not pass. */
  ghost predicate Tracked(j: Job, g: int, i: nat, turns: seq<Turn>)
    requires j.known.blocksize > 0 && 0 <= g < |j.known.files|
  {
    var n := BlockCount(j.known.files[g].size, j.known.blocksize);
    if OnTrack(j, g, turns)
    then |turns| <= n && AllPass(j, g, i, |turns|) && (turns != [] && |turns| < n ==> Next(j, turns) == i + |turns|)
    else !AllPass(j, g, i, n)
  }

  /** One more block, which passes, need not pass, or does not pass */
  lemma AllPassMore(j: Job, g: int, i: nat, b: nat)
    requires j.known.blocksize > 0 && 0 <= g < |j.known.files| && AllPass(j, g, i, b)
    requires b < BlockCount(j.known.files[g].size, j.known.blocksize)
    ensures var n := BlockCount(j.known.files[g].size, j.known.blocksize);
            if b == 0 || b + 1 < n ==> Passes(j, i, b) then AllPass(j, g, i, b + 1) else !AllPass(j, g, i, n)
  {
    hide BlockCount, Passes;
  }

  /** What one turn does to an intact file in which all blocks have been matched so far */
  lemma IntactTurn(j: Job, g: int, i: nat, turns: seq<Turn>, t: Turn)
    requires Consistent(j.known) && IsIntact(j, g, i) && Scanned(j, turns) && OnTrack(j, g, turns)
             && Turned(j, turns, t)
    requires turns != [] && |turns| < BlockCount(|j.file|, SizeIs(j)) ==> Next(j, turns) == i + |turns|
    ensures |turns| < BlockCount(|j.file|, SizeIs(j))
    ensures t.Hit? && t.entry == i + |turns| <==>
            (|turns| == 0 || |turns| + 1 < BlockCount(|j.file|, SizeIs(j)) ==> Passes(j, i, |turns|))
    ensures turns == [] && t.Hit? && t.entry != i ==> FileOf(j.known, t.entry) != g || !IsFirst(j.known, t.entry)
  {
    hide Consistent, Scanned, Turned, Carries, Digest, BlockCount, OnTrack, Starts;
    SizeOf(j.known);
    if turns == [] {
      IntactStart(j, g, i, t);
      LastBlock(|j.file|, j.known.blocksize, 0);
    } else {
      TurnMoves(j, turns, t);
      AfterBlocks(j, g, i, turns);
      IntactLater(j, g, i, turns, t);
    }
  }

  function SizeIs(j: Job): (n: nat)
    ensures n > 0
  {
    if j.known.blocksize > 0 then j.known.blocksize else 1
  }

  /** A turn leads on exactly if it is a match of the next block. */
  lemma TrackOn(j: Job, g: int, i: nat, turns: seq<Turn>)
    requires turns != [] && i < |j.known.entries| && j.known.entries[i].file == g && j.known.entries[i].block == 0
    requires Consistent(j.known) && Scanned(j, turns) && 0 <= g < |j.known.files|
    requires OnTrack(j, g, turns[..|turns| - 1])
    requires |turns| > 1 ==> Next(j, turns[..|turns| - 1]) == i + |turns| - 1
    requires var t := turns[|turns| - 1];
             |turns| == 1 && t.Hit? && t.entry != i ==> FileOf(j.known, t.entry) != g || !IsFirst(j.known, t.entry)
    ensures OnTrack(j, g, turns) <==> turns[|turns| - 1].Hit? && turns[|turns| - 1].entry == i + |turns| - 1
  {
    hide Consistent, Turned, Next;
    var earlier, t := turns[..|turns| - 1], turns[|turns| - 1];
    TurnMoves(j, earlier, t);
    if earlier != [] { ChainedInOrder(j, earlier); }
  }

  lemma NextOf(j: Job, i: nat, turns: seq<Turn>)
    requires Consistent(j.known) && turns != [] && i + |turns| - 1 < |j.known.entries|
    requires turns[|turns| - 1].Hit? && turns[|turns| - 1].entry == i + |turns| - 1
    ensures var e := j.known.entries[i + |turns| - 1];
            && e.file < |j.known.files| && j.known.blocksize > 0
            && (e.block + 1 < BlockCount(j.known.files[e.file].size, j.known.blocksize) ==>
                Next(j, turns) == i + |turns|)
  {
    hide BlockCount;
    KnownPlaced(j.known, i + |turns| - 1);
  }

  lemma {:induction false} Track(j: Job, g: int, i: nat, turns: seq<Turn>)
    requires Consistent(j.known) && IsIntact(j, g, i) && Scanned(j, turns)
    ensures j.known.blocksize > 0 && 0 <= g < |j.known.files| && Tracked(j, g, i, turns)
  {
    hide Consistent, Turned, Carries, Digest, BlockCount, Passes, OnTrack, Next, AllPass;
    SizeOf(j.known);
    if turns == [] {
      NothingTracked(j, g, i);
    } else {
      var earlier, t := turns[..|turns| - 1], turns[|turns| - 1];
      Track(j, g, i, earlier);
      if OnTrack(j, g, earlier) {
        IntactTurn(j, g, i, earlier, t);
        TrackOn(j, g, i, turns);
        AllPassMore(j, g, i, |earlier|);
        EntryOf(j.known, i, |earlier|);
        if OnTrack(j, g, turns) { NextOf(j, i, turns); }
      } else {
        StaysOff(j, g, turns);
      }
    }
  }

  lemma NothingTracked(j: Job, g: int, i: nat)
    requires j.known.blocksize > 0 && 0 <= g < |j.known.files|
    ensures Tracked(j, g, i, [])
  {
    hide BlockCount, Passes;
  }

  lemma StaysOff(j: Job, g: int, turns: seq<Turn>)
    requires turns != [] && !OnTrack(j, g, turns[..|turns| - 1])
    ensures !OnTrack(j, g, turns)
  {
    var earlier := turns[..|turns| - 1];
    if Chained(j, earlier) { ChainedHits(j, earlier); }
  }

  /** Once its end has been reached, all the blocks of an intact file have been matched in order exactly if they
      pass. */
  lemma IntactExact(j: Job, g: int, i: nat, turns: seq<Turn>)
    requires Consistent(j.known) && IsIntact(j, g, i) && Scanned(j, turns) && End(j, turns) == |j.file|
    ensures j.known.blocksize > 0 && 0 <= g < |j.known.files|
    ensures turns != []
    ensures Chained(j, turns) && Source(j, turns) == g <==>
            AllPass(j, g, i, BlockCount(j.known.files[g].size, j.known.blocksize))
    ensures Chained(j, turns) && Source(j, turns) == g ==>
            |turns| == BlockCount(j.known.files[g].size, j.known.blocksize)
  {
    hide Carries, Digest, BlockCount, Passes, Chained, Source, Next, AllPass, After, Consistent, Scanned;
    Track(j, g, i, turns);
    if Chained(j, turns) && Source(j, turns) == g {
      ChainedInOrder(j, turns);
      OrderMeans(j, After(j, turns).location, End(j, turns), g, Next(j, turns), |turns|);
      LastBlock(|j.file|, j.known.blocksize, |turns|);
    }
  }

  /** The scan of an intact copy ends with a full match of it exactly if all its blocks pass. */
  lemma IntactConfirmed(j: Job, g: int, i: nat, turns: seq<Turn>)
    requires Consistent(j.known) && IsIntact(j, g, i) && Scanned(j, turns) && End(j, turns) == |j.file|
    ensures Confirmed(j, turns) && Source(j, turns) == g <==> WholePasses(j, g, i)
  {
    hide BlockCount, Digest, Consistent, Chained, Scanned, Source, AllPass, Carries, End;
    IntactExact(j, g, i, turns);
  }

  // ----- intact files that are no full match

  /** A block that has been found, and whose content another entry shares, keeps an intact copy from being a full
      match. */
  lemma SharedBlock(j: Job, g: int, i: nat, b: nat, e: nat)
    requires j.known.blocksize > 0 && 0 <= g < |j.known.files|
    requires var n := BlockCount(j.known.files[g].size, j.known.blocksize); b < n && (b == 0 || b + 1 < n)
    requires i + b < |j.known.entries| && e < |j.known.entries| && e != i + b
    requires j.known.entries[e].key == j.known.entries[i + b].key && PlaceOf(j.known, i + b) != Unset
    ensures !AllPass(j, g, i, BlockCount(j.known.files[g].size, j.known.blocksize))
  {
    hide BlockCount, Matching, PlaceOf;
    var k := j.known.entries[e].key;
    MatchingComplete(j.known.entries, k, i + b);
    MatchingComplete(j.known.entries, k, e);
    assert !Passes(j, i, b);
  }

  /** So it is with three blocks of which the first two are equal, once the first has been found anywhere. */
  lemma RepeatedStart(j: Job, g: int, i: nat, other: nat, offset: nat)
    requires j.known.blocksize > 0 && 0 <= g < |j.known.files|
    requires BlockCount(j.known.files[g].size, j.known.blocksize) == 3
    requires i + 1 < |j.known.entries| && j.known.entries[i + 1].key == j.known.entries[i].key
    requires PlaceOf(j.known, i) == At(other, offset)
    ensures !AllPass(j, g, i, 3)
  {
    hide BlockCount, AllPass, PlaceOf;
    SharedBlock(j, g, i, 0, i + 1);
  }

  /** A copy under another name is no full match if a free first block with the same content was loaded earlier. */
  lemma EarlierStart(j: Job, g: int, i: nat, e: nat)
    requires j.known.blocksize > 0 && 0 <= g < |j.known.files| && i < |j.known.entries|
    requires BlockCount(j.known.files[g].size, j.known.blocksize) > 0 && j.known.entries[i].file != j.wanted
    requires e < i && j.known.entries[e].key == j.known.entries[i].key && IsFree(j.known, SpotAt(j, 0).length, e)
    ensures !AllPass(j, g, i, BlockCount(j.known.files[g].size, j.known.blocksize))
  {
    hide BlockCount, Matching, PlaceOf, IsFree, SpotAt;
    var k := j.known.entries[e].key;
    MatchingComplete(j.known.entries, k, i);
    MatchingComplete(j.known.entries, k, e);
    assert !Passes(j, i, 0);
  }
}
