/** Whole runs of Par2Repairer::ScanDataFile, as the list of what happened at each turn of its loop, and what follows
    for the blocks that are in the data file. */
module Traces {
  import opened Bytes
  import opened Md5
  import opened FileCheckSummer
  import opened Matches

  /** What a scan begins with: what is known, the data file and its number, and the source file that is wanted */
  datatype Job = Job(known: Known, compress: Compression, file: seq<u8>, diskfile: nat, wanted: int)

  /** One turn of the loop: a match, a window whose blocks have been found before, or neither */
  datatype Turn = Hit(offset: nat, entry: nat) | Duplicate(offset: nat) | Miss(offset: nat)

  /** Where a turn leaves the window: after the block that was found, after a whole block, or at the next byte */
  function EndOfTurn(j: Job, t: Turn): nat {
    match t
    case Hit(offset, entry) => Min(|j.file|, offset + LengthOf(j.known, entry))
    case Duplicate(offset) => Min(|j.file|, offset + j.known.blocksize)
    case Miss(offset) => offset + 1
  }

  function End(j: Job, turns: seq<Turn>): nat {
    if turns == [] then 0 else EndOfTurn(j, turns[|turns| - 1])
  }

  /** The entry that is expected next */
  function Next(j: Job, turns: seq<Turn>): int {
    if turns == [] || !turns[|turns| - 1].Hit? || turns[|turns| - 1].entry >= |j.known.next| then -1
    else j.known.next[turns[|turns| - 1].entry]
  }

  /** How many matches there are */
  function Hits(turns: seq<Turn>): nat {
    if turns == [] then 0 else Hits(turns[..|turns| - 1]) + if turns[|turns| - 1].Hit? then 1 else 0
  }

  /** The source file of the first match, or the one that is wanted */
  function Source(j: Job, turns: seq<Turn>): int {
    if turns == [] then j.wanted
    else
      var earlier, last := turns[..|turns| - 1], turns[|turns| - 1];
      if last.Hit? && Hits(earlier) == 0 then FileOf(j.known, last.entry) else Source(j, earlier)
  }

  /** All the turns are matches, from the first block of a source file at the start of the data file on, and each the
      one that was expected. */
  predicate Chained(j: Job, turns: seq<Turn>) {
    turns == [] ||
      var earlier, last := turns[..|turns| - 1], turns[|turns| - 1];
      && Chained(j, earlier) && last.Hit?
      && if earlier == [] then IsFirst(j.known, last.entry) && last.offset == 0 else last.entry == Next(j, earlier)
  }

  /** What is known after some turns: each match has been recorded. */
  function After(j: Job, turns: seq<Turn>): (k: Known)
    ensures k == j.known.(location := k.location) && |k.location| == |j.known.location|
    ensures forall g :: 0 <= g < |k.location| ==> |k.location[g]| == |j.known.location[g]|
  {
    if turns == [] then j.known
    else
      var k, last := After(j, turns[..|turns| - 1]), turns[|turns| - 1];
      if last.Hit? && last.entry < |k.entries|
      then
        var e := k.entries[last.entry];
        k.(location := Located(k.location, e.file, e.block, At(j.diskfile, last.offset)))
      else k
  }

  /** What can be under the window: the bytes of the file, as far as the file goes. After its end there can be
      anything, but in the first window there are zeros. */
  ghost predicate IsWindow(j: Job, offset: nat, window: seq<u8>) {
    && offset <= |j.file| && |window| == j.known.blocksize
    && var n := Min(j.known.blocksize, |j.file| - offset);
       && window[..n] == j.file[offset..offset + n]
       && (offset == 0 ==> window == j.file[..n] + Zeros(j.known.blocksize - n))
  }

  function SpotAt(j: Job, offset: nat): Spot {
    Spot(offset, Min(j.known.blocksize, if offset <= |j.file| then |j.file| - offset else 0), j.diskfile)
  }

  /** After some turns comes the turn t. */
  ghost predicate Turned(j: Job, turns: seq<Turn>, t: Turn) {
    && t.offset == End(j, turns) < |j.file|
    && exists window: seq<u8> :: IsWindow(j, t.offset, window) &&
         Outcome(After(j, turns), j.compress, window, SpotAt(j, t.offset), Next(j, turns), Source(j, turns),
                 if t.Hit? then t.entry else -1, t.Duplicate?)
  }

  ghost predicate Scanned(j: Job, turns: seq<Turn>) {
    turns == [] || (Scanned(j, turns[..|turns| - 1]) && Turned(j, turns[..|turns| - 1], turns[|turns| - 1]))
  }

  // ----- taking a run apart

  lemma NoTurns(j: Job)
    ensures Scanned(j, []) && End(j, []) == 0 && After(j, []) == j.known && Next(j, []) == -1
    ensures Source(j, []) == j.wanted && Hits([]) == 0 && Chained(j, [])
  {
  }

  lemma {:induction false} ChainedHits(j: Job, turns: seq<Turn>)
    requires Chained(j, turns)
    ensures Hits(turns) == |turns|
  {
    if turns != [] { ChainedHits(j, turns[..|turns| - 1]); }
  }

  /** One more turn */
  lemma Extended(j: Job, turns: seq<Turn>, t: Turn)
    requires Scanned(j, turns) && Turned(j, turns, t)
    ensures var more := turns + [t];
            && Scanned(j, more) && End(j, more) == EndOfTurn(j, t)
            && Next(j, more) == (if t.Hit? && t.entry < |j.known.next| then j.known.next[t.entry] else -1)
            && Hits(more) == Hits(turns) + (if t.Hit? then 1 else 0)
            && Source(j, more) == (if t.Hit? && Hits(turns) == 0 then FileOf(j.known, t.entry) else Source(j, turns))
            && Chained(j, more) == (Chained(j, turns) && t.Hit? &&
                 if Hits(turns) == 0 then IsFirst(j.known, t.entry) && t.offset == 0 else t.entry == Next(j, turns))
            && After(j, more) ==
                 (if t.Hit? && t.entry < |j.known.entries|
                  then After(j, turns).(location := Located(After(j, turns).location, j.known.entries[t.entry].file,
                                                            j.known.entries[t.entry].block, At(j.diskfile, t.offset)))
                  else After(j, turns))
  {
    hide Turned, EndOfTurn, Located, FileOf, IsFirst;
    assert (turns + [t])[..|turns|] == turns;
    if Chained(j, turns) { ChainedHits(j, turns); }
  }

  lemma {:induction false} TurnAt(j: Job, turns: seq<Turn>, n: nat)
    requires Scanned(j, turns) && n < |turns|
    ensures Scanned(j, turns[..n]) && Turned(j, turns[..n], turns[n])
    decreases |turns|
  {
    hide Turned;
    var earlier := turns[..|turns| - 1];
    if n < |earlier| {
      TurnAt(j, earlier, n);
      assert earlier[..n] == turns[..n];
    }
  }

  lemma AfterConsistent(j: Job, turns: seq<Turn>)
    requires Consistent(j.known)
    ensures Consistent(After(j, turns))
  {
    hide After, BlockCount, AllPlaced;
  }

  /** A match stands for an entry, and every turn moves the window on, up to the end of the file. */
  lemma TurnMoves(j: Job, turns: seq<Turn>, t: Turn)
    requires Consistent(j.known) && Turned(j, turns, t)
    ensures t.Hit? ==> t.entry < |j.known.entries| && 0 < LengthOf(j.known, t.entry) <= j.known.blocksize
    ensures t.offset == End(j, turns) && t.offset < EndOfTurn(j, t) <= |j.file|
  {
    hide Consistent, IsWindow, Outcome, BlockCount, End, After, KeyOf, CutTo;
    SizeOf(j.known);
    if t.Hit? {
      var window: seq<u8> :| IsWindow(j, t.offset, window) &&
        Outcome(After(j, turns), j.compress, window, SpotAt(j, t.offset), Next(j, turns), Source(j, turns),
                t.entry, false);
      AfterConsistent(j, turns);
      WhatIsFound(After(j, turns), j.compress, window, SpotAt(j, t.offset), Next(j, turns), Source(j, turns),
                  t.entry, false);
      LengthIs(j.known, t.entry);
    }
  }

  lemma SizeOf(k: Known)
    requires Consistent(k)
    ensures k.blocksize > 0
  {
  }

  lemma LengthIs(k: Known, i: nat)
    requires Consistent(k) && i < |k.entries|
    ensures 0 < LengthOf(k, i) <= k.blocksize
  {
    hide BlockCount, DataLength;
    KnownPlaced(k, i);
  }

  // ----- the turns tile the file

  ghost predicate Covers(j: Job, t: Turn, o: nat) {
    t.offset <= o < EndOfTurn(j, t)
  }

  /** Each turn begins where the one before it ends, so that every byte that has been passed belongs to exactly one. */
  lemma {:induction false} TurnsTile(j: Job, turns: seq<Turn>, o: nat)
    requires Consistent(j.known) && Scanned(j, turns)
    ensures End(j, turns) <= |j.file|
    ensures o < End(j, turns) <==> exists n :: 0 <= n < |turns| && Covers(j, turns[n], o)
    ensures forall m, n :: 0 <= m < n < |turns| ==> EndOfTurn(j, turns[m]) <= turns[n].offset
  {
    hide Consistent, Turned, EndOfTurn;
    if turns != [] {
      var earlier, last := turns[..|turns| - 1], turns[|turns| - 1];
      TurnsTile(j, earlier, o);
      TurnMoves(j, earlier, last);
      if o < End(j, turns) {
        if o < last.offset {
          var n :| 0 <= n < |earlier| && Covers(j, earlier[n], o);
          assert Covers(j, turns[n], o);
        } else {
          assert Covers(j, turns[|turns| - 1], o);
        }
      }
      forall m, n | 0 <= m < n < |turns|
        ensures EndOfTurn(j, turns[m]) <= turns[n].offset
      {
        EndsBy(j, turns, m);
      }
      forall n | 0 <= n < |turns| && Covers(j, turns[n], o)
        ensures o < End(j, turns)
      {
        EndsBy(j, turns, n);
      }
    }
  }

  lemma {:induction false} EndsBy(j: Job, turns: seq<Turn>, m: nat)
    requires Consistent(j.known) && Scanned(j, turns) && m < |turns|
    ensures EndOfTurn(j, turns[m]) <= End(j, turns)
    ensures m < |turns| - 1 ==> EndOfTurn(j, turns[m]) <= turns[|turns| - 1].offset
    decreases |turns|
  {
    hide Consistent, Turned, EndOfTurn;
    var earlier, last := turns[..|turns| - 1], turns[|turns| - 1];
    TurnMoves(j, earlier, last);
    if m < |earlier| {
      EndsBy(j, earlier, m);
    }
  }

  // ----- no block is missed

  /** The bytes from o on are a full block of the entry, going by checksum and hash. */
  ghost predicate BlockAt(j: Job, o: nat, i: nat) {
    && o + j.known.blocksize <= |j.file| && i < |j.known.entries|
    && KeyOf(j.compress, j.file[o..o + j.known.blocksize]) == j.known.entries[i].key
  }

  /** Wherever the bytes of a block lie in the file, there is a match, or it lies within the block of an earlier
      match, or within a block that was skipped as a duplicate. */
  lemma NothingMissed(j: Job, turns: seq<Turn>, o: nat, i: nat)
    requires Consistent(j.known) && Scanned(j, turns) && BlockAt(j, o, i) && o < End(j, turns)
    ensures exists n :: 0 <= n < |turns| && Covers(j, turns[n], o) && !turns[n].Miss?
  {
    hide Consistent, Scanned, Turned, KeyOf, End;
    TurnsTile(j, turns, o);
    var n :| 0 <= n < |turns| && Covers(j, turns[n], o);
    if turns[n].Miss? {
      TurnAt(j, turns, n);
      MissIsRight(j, turns[..n], o, i);
    }
  }

  lemma FullWindow(j: Job, o: nat, window: seq<u8>)
    requires IsWindow(j, o, window) && o + j.known.blocksize <= |j.file|
    ensures window == j.file[o..o + j.known.blocksize] && SpotAt(j, o).length == j.known.blocksize
  {
    assert window == window[..j.known.blocksize];
  }

  lemma MissIsRight(j: Job, turns: seq<Turn>, o: nat, i: nat)
    requires Turned(j, turns, Miss(o))
    ensures !BlockAt(j, o, i)
  {
    hide Outcome, IsWindow, KeyOf, Next, Source, After, SpotAt, End;
    if BlockAt(j, o, i) {
      var k := After(j, turns);
      var window: seq<u8> :| IsWindow(j, o, window) &&
        Outcome(k, j.compress, window, SpotAt(j, o), Next(j, turns), Source(j, turns), -1, false);
      FullWindow(j, o, window);
      assert HasLength(k, j.known.blocksize, i);
      NoneFound(k, j.compress, window, SpotAt(j, o), Next(j, turns), Source(j, turns), -1, false);
    }
  }

  /** A block has been found before the scan, or at one of the turns. */
  ghost predicate FoundBefore(j: Job, turns: seq<Turn>, i: nat) {
    PlaceOf(j.known, i) != Unset || exists n :: 0 <= n < |turns| && IsHitOf(j, turns[n], i)
  }

  /** The turn is a match of the block of the entry. */
  ghost predicate IsHitOf(j: Job, t: Turn, i: nat) {
    && t.Hit? && t.entry < |j.known.entries| && i < |j.known.entries|
    && j.known.entries[t.entry].file == j.known.entries[i].file
    && j.known.entries[t.entry].block == j.known.entries[i].block
  }

  lemma {:induction false} PlaceMeansFound(j: Job, turns: seq<Turn>, i: nat)
    requires PlaceOf(After(j, turns), i) != Unset
    ensures FoundBefore(j, turns, i)
  {
    if turns != [] {
      var earlier, last := turns[..|turns| - 1], turns[|turns| - 1];
      if IsHitOf(j, last, i) {
        assert IsHitOf(j, turns[|turns| - 1], i);
      } else {
        hide After, Located;
        OtherPlace(j, turns, i);
        PlaceMeansFound(j, earlier, i);
        if PlaceOf(j.known, i) == Unset {
          var n :| 0 <= n < |earlier| && IsHitOf(j, earlier[n], i);
          assert IsHitOf(j, turns[n], i);
        }
      }
    }
  }

  lemma OtherPlace(j: Job, turns: seq<Turn>, i: nat)
    requires turns != [] && !IsHitOf(j, turns[|turns| - 1], i)
    ensures PlaceOf(After(j, turns), i) == PlaceOf(After(j, turns[..|turns| - 1]), i)
  {
  }

  /** What is skipped as a duplicate has the checksum and the hash of blocks, and each of them belongs to a source file
      that is complete, or has been found before, or is not as long as what is left of the file. */
  ghost predicate IsDuplicate(j: Job, turns: seq<Turn>, o: nat) {
    exists window: seq<u8> :: IsWindow(j, o, window)
      && (exists i: nat :: i < |j.known.entries| && j.known.entries[i].key == KeyOf(j.compress, window))
      && forall i: nat :: i < |j.known.entries| && j.known.entries[i].key == KeyOf(j.compress, window) ==>
           IsDone(j.known, i) || FoundBefore(j, turns, i) || !HasLength(j.known, SpotAt(j, o).length, i)
  }

  lemma DuplicateMeans(j: Job, turns: seq<Turn>, o: nat)
    requires Turned(j, turns, Duplicate(o))
    ensures IsDuplicate(j, turns, o)
  {
    hide Outcome, IsWindow, KeyOf, Next, Source, After, SpotAt, FoundBefore, End, PlaceOf;
    var k := After(j, turns);
    var window: seq<u8> :| IsWindow(j, o, window) &&
      Outcome(k, j.compress, window, SpotAt(j, o), Next(j, turns), Source(j, turns), -1, true);
    NoneFound(k, j.compress, window, SpotAt(j, o), Next(j, turns), Source(j, turns), -1, true);
    forall i: nat | i < |j.known.entries| && j.known.entries[i].key == KeyOf(j.compress, window)
      ensures IsDone(j.known, i) || FoundBefore(j, turns, i) || !HasLength(j.known, SpotAt(j, o).length, i)
    {
      if PlaceOf(k, i) != Unset { PlaceMeansFound(j, turns, i); }
    }
  }

  /** The short block at the end of a source file is found whenever it follows the block before it. */
  lemma LastFollows(j: Job, turns: seq<Turn>, n: nat, e: nat)
    requires Consistent(j.known) && Scanned(j, turns) && n + 1 < |turns| && Next(j, turns[..n + 1]) == e
    requires e < |j.known.entries| && e < |j.known.next| && j.known.next[e] < 0
    requires var o, length := EndOfTurn(j, turns[n]), LengthOf(j.known, e);
             && o + length <= |j.file| && length <= j.known.blocksize
             && KeyOf(j.compress, j.file[o..o + length] + Zeros(j.known.blocksize - length)) == j.known.entries[e].key
    ensures turns[n + 1] == Hit(EndOfTurn(j, turns[n]), e)
  {
    hide Consistent, Scanned, KeyOf, Source, After, SpotAt, Next, IsWindow, LengthOf, CutTo, Chosen;
    var earlier, t := turns[..n + 1], turns[n + 1];
    TurnAt(j, turns, n + 1);
    var entry := if t.Hit? then t.entry else -1;
    var window: seq<u8> :| IsWindow(j, t.offset, window) &&
      Outcome(After(j, earlier), j.compress, window, SpotAt(j, t.offset), e, Source(j, earlier), entry, t.Duplicate?);
    SameLength(j, earlier, e);
    CutIs(j, t.offset, window, LengthOf(j.known, e));
  }

  lemma CutIs(j: Job, o: nat, window: seq<u8>, n: nat)
    requires IsWindow(j, o, window) && n <= j.known.blocksize && o + n <= |j.file|
    ensures CutTo(window, n) == j.file[o..o + n] + Zeros(j.known.blocksize - n)
  {
    WindowHolds(j, o, window, n);
  }

  // ----- what is found is there

  /** Some content has the checksum and the hash of a block, and from the offset on the file holds that content, up to
      the length of the block or the end of the file. */
  ghost predicate FoundAt(j: Job, offset: nat, i: nat) {
    exists p: seq<u8> :: i < |j.known.entries| && KeyOf(j.compress, p) == j.known.entries[i].key && offset <= |j.file|
      && var n := Min(LengthOf(j.known, i), |j.file| - offset);
         n <= |p| && p[..n] == j.file[offset..offset + n]
  }

  lemma HitIsThere(j: Job, turns: seq<Turn>, o: nat, i: nat)
    requires Consistent(j.known) && Turned(j, turns, Hit(o, i))
    ensures FoundAt(j, o, i)
  {
    hide Outcome, KeyOf, Next, Source, After, SpotAt, End, Consistent, BlockCount, LengthOf, CutTo, IsWindow;
    var k := After(j, turns);
    AfterConsistent(j, turns);
    TurnMoves(j, turns, Hit(o, i));
    var window: seq<u8> :| IsWindow(j, o, window) &&
      Outcome(k, j.compress, window, SpotAt(j, o), Next(j, turns), Source(j, turns), i, false);
    WhatIsFound(k, j.compress, window, SpotAt(j, o), Next(j, turns), Source(j, turns), i, false);
    SameLength(j, turns, i);
    WindowHolds(j, o, window, LengthOf(j.known, i));
  }

  lemma SameLength(j: Job, turns: seq<Turn>, i: nat)
    ensures LengthOf(After(j, turns), i) == LengthOf(j.known, i)
  {
    hide After;
  }

  lemma WindowHolds(j: Job, o: nat, window: seq<u8>, n: nat)
    requires IsWindow(j, o, window) && n <= j.known.blocksize
    ensures o <= |j.file| && |CutTo(window, n)| == |window| == j.known.blocksize
    ensures var m := Min(n, |j.file| - o);
            window[..m] == j.file[o..o + m] && CutTo(window, n)[..m] == j.file[o..o + m]
  {
    var m, all := Min(n, |j.file| - o), Min(j.known.blocksize, |j.file| - o);
    Shorter(window, j.file, o, all, m);
    CutBegins(window, n, m);
  }

  lemma Shorter(a: seq<u8>, b: seq<u8>, o: nat, all: nat, m: nat)
    requires m <= all <= |a| && o + all <= |b| && a[..all] == b[o..o + all]
    ensures a[..m] == b[o..o + m]
  {
    assert a[..all][..m] == a[..m] && b[o..o + all][..m] == b[o..o + m];
  }

  lemma CutBegins(window: seq<u8>, n: nat, m: nat)
    requires m <= n <= |window|
    ensures |CutTo(window, n)| == |window| && CutTo(window, n)[..m] == window[..m]
  {
  }

  /** Every location that is not as before is that of a match of the block. */
  lemma {:induction false} ChangedMeansHit(j: Job, turns: seq<Turn>, g: nat, b: nat)
    requires g < |j.known.location| && b < |j.known.location[g]|
    requires After(j, turns).location[g][b] != j.known.location[g][b]
    ensures exists n :: 0 <= n < |turns| && IsRecord(j, turns[n], g, b, After(j, turns).location[g][b])
  {
    var earlier, last := turns[..|turns| - 1], turns[|turns| - 1];
    var x := After(j, turns).location[g][b];
    if IsRecord(j, last, g, b, x) {
      assert IsRecord(j, turns[|turns| - 1], g, b, x);
    } else {
      assert x == After(j, earlier).location[g][b];
      hide After;
      ChangedMeansHit(j, earlier, g, b);
      var n :| 0 <= n < |earlier| && IsRecord(j, earlier[n], g, b, x);
      assert IsRecord(j, turns[n], g, b, x);
    }
  }

  /** The turn is a match of block b of source file g, with this location. */
  ghost predicate IsRecord(j: Job, t: Turn, g: nat, b: nat, x: Location) {
    && t.Hit? && t.entry < |j.known.entries| && x == At(j.diskfile, t.offset)
    && j.known.entries[t.entry].file == g && j.known.entries[t.entry].block == b
  }

  // ----- matches in a row

  /** The first n blocks of a source file lie one after the other at the start of a data file. */
  ghost function Marked(location: seq<seq<Location>>, g: nat, n: nat, diskfile: nat,
                        blocksize: nat): (r: seq<seq<Location>>)
    requires g < |location|
    ensures |r| == |location| && |r[g]| == |location[g]| && forall h :: 0 <= h < |r| && h != g ==> r[h] == location[h]
    ensures forall b :: 0 <= b < |location[g]| ==>
              r[g][b] == if b < n then At(diskfile, b * blocksize) else location[g][b]
  {
    location[g := seq(|location[g]|, b requires 0 <= b < |location[g]| =>
      if b < n then At(diskfile, b * blocksize) else location[g][b])]
  }

  lemma MarkedNext(location: seq<seq<Location>>, g: nat, n: nat, diskfile: nat, blocksize: nat)
    requires g < |location| && n < |location[g]|
    ensures var m := Marked(location, g, n, diskfile, blocksize);
            Located(m, g, n, At(diskfile, n * blocksize)) == Marked(location, g, n + 1, diskfile, blocksize)
  {
    var m, r := Marked(location, g, n, diskfile, blocksize), Marked(location, g, n + 1, diskfile, blocksize);
    assert m[g][n := At(diskfile, n * blocksize)] == r[g];
  }

  lemma MarkedNone(location: seq<seq<Location>>, g: nat, diskfile: nat, blocksize: nat)
    requires g < |location|
    ensures Marked(location, g, 0, diskfile, blocksize) == location
  {
    assert Marked(location, g, 0, diskfile, blocksize)[g] == location[g];
  }

  /** The locations are as before but for the first n blocks of source file g, which lie in order from the start of the
      data file; the window is after them, and what is expected next is the next of them. */
  ghost predicate InOrder(j: Job, now: seq<seq<Location>>, offset: nat, g: int, next: int, n: nat)
    requires j.known.blocksize > 0
  {
    && 0 <= g < |j.known.files| == |j.known.location| && n <= BlockCount(j.known.files[g].size, j.known.blocksize)
    && now == Marked(j.known.location, g, n, j.diskfile, j.known.blocksize)
    && (n < BlockCount(j.known.files[g].size, j.known.blocksize) ==>
          && offset == Min(|j.file|, n * j.known.blocksize)
          && 0 <= next < |j.known.entries| && j.known.entries[next].file == g && j.known.entries[next].block == n)
    && (n == BlockCount(j.known.files[g].size, j.known.blocksize) ==>
          next == -1 && offset == Min(|j.file|, j.known.files[g].size))
  }

  /** A match that was expected continues the row. */
  lemma NextInOrder(j: Job, now: seq<seq<Location>>, offset: nat, i: nat, n: nat)
    requires Consistent(j.known) && i < |j.known.entries| && j.known.entries[i].block == n && offset < |j.file|
    requires |j.known.next| == |j.known.entries| && j.known.entries[i].file < |j.known.location|
    requires offset == Min(|j.file|, n * j.known.blocksize)
    requires now == Marked(j.known.location, j.known.entries[i].file, n, j.diskfile, j.known.blocksize)
    ensures InOrder(j, Located(now, j.known.entries[i].file, n, At(j.diskfile, offset)),
                    Min(|j.file|, offset + LengthOf(j.known, i)), j.known.entries[i].file, j.known.next[i], n + 1)
  {
    hide BlockCount;
    var k := j.known;
    var g := k.entries[i].file;
    KnownPlaced(k, i);
    MarkedNext(k.location, g, n, j.diskfile, k.blocksize);
    if k.next[i] >= 0 {
      FullLength(k.files[g].size, k.blocksize, n);
      assert (n + 1) * k.blocksize == n * k.blocksize + k.blocksize;
    } else {
      LastLength(k.files[g].size, k.blocksize, n);
    }
  }

  ghost predicate RunInOrder(j: Job, turns: seq<Turn>)
    requires j.known.blocksize > 0
  {
    InOrder(j, After(j, turns).location, End(j, turns), Source(j, turns), Next(j, turns), |turns|)
  }

  /** The first match of a row */
  lemma RowBegins(j: Job, t: Turn)
    requires Consistent(j.known) && Turned(j, [], t) && t.Hit? && IsFirst(j.known, t.entry)
    ensures j.known.blocksize > 0 && RunInOrder(j, [t])
  {
    hide Turned, BlockCount, InOrder, Consistent, After, Source, Next, Hits, End, Located, Scanned, LengthOf;
    var k := j.known;
    NoTurns(j);
    TurnMoves(j, [], t);
    KnownPlaced(k, t.entry);
    Extended(j, [], t);
    assert [] + [t] == [t];
    MarkedNone(k.location, k.entries[t.entry].file, j.diskfile, k.blocksize);
    NextInOrder(j, k.location, t.offset, t.entry, 0);
  }

  /** One more match that was expected */
  lemma RowGoesOn(j: Job, turns: seq<Turn>, t: Turn)
    requires Consistent(j.known) && j.known.blocksize > 0 && Scanned(j, turns) && RunInOrder(j, turns)
    requires Turned(j, turns, t) && t.Hit? && t.entry == Next(j, turns) && Hits(turns) == |turns| > 0
    ensures RunInOrder(j, turns + [t])
  {
    hide Turned, BlockCount, InOrder, Consistent, After, Source, Next, Hits, End, Located, Scanned, LengthOf;
    TurnMoves(j, turns, t);
    KnownPlaced(j.known, t.entry);
    Extended(j, turns, t);
    OrderMeans(j, After(j, turns).location, End(j, turns), Source(j, turns), Next(j, turns), |turns|);
    NextInOrder(j, After(j, turns).location, t.offset, t.entry, |turns|);
  }

  lemma {:induction false} ChainedInOrder(j: Job, turns: seq<Turn>)
    requires Consistent(j.known) && Scanned(j, turns) && Chained(j, turns) && turns != []
    ensures j.known.blocksize > 0 && Hits(turns) == |turns|
    ensures InOrder(j, After(j, turns).location, End(j, turns), Source(j, turns), Next(j, turns), |turns|)
  {
    hide Turned, Consistent, After, Source, Next, Hits, End, InOrder;
    var earlier, last := turns[..|turns| - 1], turns[|turns| - 1];
    ChainedHits(j, turns);
    ChainedHits(j, earlier);
    assert turns == earlier + [last];
    if earlier == [] {
      RowBegins(j, last);
    } else {
      ChainedInOrder(j, earlier);
      RowGoesOn(j, earlier, last);
    }
  }

  lemma OrderMeans(j: Job, now: seq<seq<Location>>, offset: nat, g: int, next: int, n: nat)
    requires j.known.blocksize > 0 && InOrder(j, now, offset, g, next, n)
    ensures 0 <= g < |j.known.files| == |j.known.location| && n <= BlockCount(j.known.files[g].size, j.known.blocksize)
    ensures now == Marked(j.known.location, g, n, j.diskfile, j.known.blocksize)
    ensures if n < BlockCount(j.known.files[g].size, j.known.blocksize)
            then offset == Min(|j.file|, n * j.known.blocksize)
                 && 0 <= next < |j.known.entries| && j.known.entries[next].file == g && j.known.entries[next].block == n
            else next == -1 && offset == Min(|j.file|, j.known.files[g].size)
  {
    hide BlockCount;
  }

  // ----- what a whole run means

  ghost predicate Met(j: Job, turns: seq<Turn>, o: nat) {
    exists n :: 0 <= n < |turns| && Covers(j, turns[n], o) && !turns[n].Miss?
  }

  /** Wherever the bytes of a block lie, they have been met by a match or a duplicate. */
  ghost predicate Complete(j: Job, turns: seq<Turn>) {
    forall o: nat, i: nat :: BlockAt(j, o, i) ==> Met(j, turns, o)
  }

  /** Each turn is what it is for a reason that the bytes of the file give. */
  ghost predicate IsJust(j: Job, turns: seq<Turn>, n: nat)
    requires n < |turns|
  {
    match turns[n]
    case Hit(o, i) => FoundAt(j, o, i)
    case Duplicate(o) => IsDuplicate(j, turns[..n], o)
    case Miss(o) => forall i: nat :: !BlockAt(j, o, i)
  }

  ghost predicate AllJust(j: Job, turns: seq<Turn>) {
    forall n :: 0 <= n < |turns| ==> IsJust(j, turns, n)
  }

  ghost predicate Covered(j: Job, turns: seq<Turn>, o: nat) {
    exists n :: 0 <= n < |turns| && Covers(j, turns[n], o)
  }

  /** Every byte belongs to exactly one turn, and the turns are in order. */
  ghost predicate Tiles(j: Job, turns: seq<Turn>) {
    && (forall o: nat :: Covered(j, turns, o) <==> o < |j.file|)
    && (forall m, n :: 0 <= m < n < |turns| ==> EndOfTurn(j, turns[m]) <= turns[n].offset)
  }

  /** What is known has changed only where a match has been recorded. */
  ghost predicate AllRecorded(j: Job, turns: seq<Turn>, now: Known) {
    && now == j.known.(location := now.location) && |now.location| == |j.known.location|
    && (forall g :: 0 <= g < |now.location| ==> |now.location[g]| == |j.known.location[g]|)
    && forall g, b :: 0 <= g < |now.location| && 0 <= b < |now.location[g]| ==>
         now.location[g][b] == j.known.location[g][b]
         || exists n :: 0 <= n < |turns| && IsRecord(j, turns[n], g, b, now.location[g][b])
  }

  lemma WholeRun(j: Job, turns: seq<Turn>)
    requires Consistent(j.known) && Scanned(j, turns) && End(j, turns) == |j.file|
    ensures Complete(j, turns) && AllJust(j, turns) && Tiles(j, turns) && AllRecorded(j, turns, After(j, turns))
  {
    hide Consistent, Scanned, Turned, BlockAt, FoundAt, IsDuplicate, Covers, EndOfTurn, After, IsRecord;
    forall o: nat, i: nat | BlockAt(j, o, i) ensures Met(j, turns, o) {
      SizeOf(j.known);
      BlockFits(j, o, i);
      NothingMissed(j, turns, o, i);
    }
    forall n | 0 <= n < |turns| ensures IsJust(j, turns, n) {
      TurnAt(j, turns, n);
      match turns[n]
      case Hit(o, i) => HitIsThere(j, turns[..n], o, i);
      case Duplicate(o) => DuplicateMeans(j, turns[..n], o);
      case Miss(o) => forall i: nat ensures !BlockAt(j, o, i) { MissIsRight(j, turns[..n], o, i); }
    }
    forall o: nat ensures Covered(j, turns, o) <==> o < |j.file| {
      TurnsTile(j, turns, o);
    }
    TurnsTile(j, turns, 0);
    var now := After(j, turns);
    forall g, b | 0 <= g < |now.location| && 0 <= b < |now.location[g]| && now.location[g][b] != j.known.location[g][b]
      ensures exists n :: 0 <= n < |turns| && IsRecord(j, turns[n], g, b, now.location[g][b])
    {
      ChangedMeansHit(j, turns, g, b);
    }
  }

  lemma BlockFits(j: Job, o: nat, i: nat)
    requires BlockAt(j, o, i) && j.known.blocksize > 0
    ensures o < |j.file|
  {
  }
}
