/** VerificationHashTable::FindMatch and Par2Repairer::ScanDataFile: a data file is searched for the blocks of the
    source files. */
module Scan {
  import opened Bytes
  import opened Crc
  import opened Md5
  import opened HashOrder
  import opened HashTrees
  import opened VerificationHashTable
  import opened FileCheckSummer
  import opened Matches
  import opened Traces
  import opened Intact

  /** The verification packet of a source file, if there is one */
  datatype Verification = Missing | Packet(entries: seq<Key>)

  datatype MatchType = NoMatch | PartialMatch | FullMatch

  // ----- what is loaded

  /** The entries of all the verification packets */
  function AllLoaded(verification: seq<Verification>): seq<Entry> {
    if verification == [] then []
    else
      var g := |verification| - 1;
      AllLoaded(verification[..g]) + if verification[g].Packet? then Loaded(g, verification[g].entries) else []
  }

  ghost predicate Comes(a: Entry, b: Entry) {
    a.file < b.file || (a.file == b.file && a.block < b.block)
  }

  /** There is one entry for each entry of a packet, and no other, source file by source file and block by block. */
  lemma {:induction false} AllLoadedIs(verification: seq<Verification>, x: Entry)
    ensures x in AllLoaded(verification) <==>
            && x.file < |verification| && verification[x.file].Packet?
            && x.block < |verification[x.file].entries| && x.key == verification[x.file].entries[x.block]
    ensures forall p, q :: 0 <= p < q < |AllLoaded(verification)| ==>
              Comes(AllLoaded(verification)[p], AllLoaded(verification)[q])
    ensures forall p :: 0 <= p < |AllLoaded(verification)| ==> AllLoaded(verification)[p].file < |verification|
  {
    if verification != [] {
      var g := |verification| - 1;
      var earlier := AllLoaded(verification[..g]);
      AllLoadedIs(verification[..g], x);
      if verification[g].Packet? {
        var more := Loaded(g, verification[g].entries);
        assert x.file == g && x.block < |more| && x.key == verification[g].entries[x.block] ==> more[x.block] == x;
      }
    }
  }

  class Par2Repairer {
    const blocksize: nat
    const files: seq<SourceFile>
    const hashtable: VerificationHashTable
    /** The source files for which a complete data file is known */
    var complete: set<nat>
    /** The location of each block of each source file */
    var location: seq<seq<Location>>

    ghost function Knowledge(): (k: Known)
      reads this, hashtable
    {
      Known(blocksize, files, hashtable.entries, hashtable.next, complete, location)
    }

    ghost predicate Valid()
      reads this, hashtable
    {
      hashtable.Valid() && Consistent(Knowledge())
    }

    /** The blocks are allocated (AllocateSourceBlocks), and the hash table is loaded (PrepareVerificationHashTable). A
        verification packet has one entry for each block; others have been discarded. */
    constructor (blocksize: nat, files: seq<SourceFile>, verification: seq<Verification>, sourceblockcount: nat)
      requires blocksize > 0 && |verification| == |files|
      requires forall g :: 0 <= g < |files| && verification[g].Packet? ==>
                 |verification[g].entries| == BlockCount(files[g].size, blocksize)
      ensures Valid() && fresh(hashtable) && this.blocksize == blocksize && this.files == files
      ensures hashtable.entries == AllLoaded(verification) && complete == {}
      ensures forall g, b :: 0 <= g < |files| && 0 <= b < BlockCount(files[g].size, blocksize) ==>
                location[g][b] == Unset
    {
      hide BlockCount;
      this.blocksize := blocksize;
      this.files := files;
      complete := {};
      location := seq(|files|, g requires 0 <= g < |files| => Unfound(BlockCount(files[g].size, blocksize)));
      var table := new VerificationHashTable(sourceblockcount);
      hashtable := table;
      new;
      assert AllPlaced(files, blocksize, hashtable.entries, hashtable.next);
      hide VerificationHashTable.Valid, AllPlaced;
      for g := 0 to |files|
        invariant hashtable.Valid() && AllPlaced(files, blocksize, hashtable.entries, hashtable.next)
        invariant hashtable.entries == AllLoaded(verification[..g])
        modifies hashtable
      {
        assert verification[..g + 1][..g] == verification[..g];
        if verification[g].Packet? {
          LoadPlaced(files, blocksize, hashtable.entries, hashtable.next, g, verification[g].entries);
          hashtable.Load(g, verification[g].entries);
        }
      }
      assert verification[..|files|] == verification;
    }

    static function Unfound(n: nat): (s: seq<Location>)
      ensures |s| == n && forall b :: 0 <= b < n ==> s[b] == Unset
    {
      seq(n, _ => Unset)
    }

    lemma EntryPlaced(i: nat)
      requires Valid() && i < |hashtable.entries|
      ensures |hashtable.next| == |hashtable.entries| && blocksize > 0
      ensures Placed(files, blocksize, hashtable.entries, hashtable.next, i)
      ensures |location| == |files|
      ensures |location[hashtable.entries[i].file]| == BlockCount(files[hashtable.entries[i].file].size, blocksize)
    {
      hide BlockCount, VerificationHashTable.Valid, Consistent;
      KnownPlaced(Knowledge(), i);
    }

    /** DataBlock::GetLength */
    function Length(i: nat): (n: nat)
      requires Valid() && i < |hashtable.entries|
      reads this, hashtable
      ensures n == LengthOf(Knowledge(), i) && 0 < n <= blocksize
    {
      hide VerificationHashTable.Valid, Consistent, BlockCount;
      EntryPlaced(i);
      var e := hashtable.entries[i];
      DataLength(files[e.file].size, blocksize, e.block)
    }

    /** The location of the block of an entry */
    function Where(i: nat): (x: Location)
      requires Valid() && i < |hashtable.entries|
      reads this, hashtable
      ensures x == PlaceOf(Knowledge(), i)
    {
      hide VerificationHashTable.Valid, Consistent, BlockCount;
      EntryPlaced(i);
      location[hashtable.entries[i].file][hashtable.entries[i].block]
    }

    ghost predicate Ready(c: FileCheckSummer)
      reads this, hashtable, c, c.Footprint(), c.table, c.windowtable
    {
      Valid() && c.Valid() && c.currentoffset < |c.file| && c.blocksize == blocksize
    }

    /** The window is full, or is as long as the block of the entry. */
    predicate RightLength(c: FileCheckSummer, i: nat)
      requires Valid() && i < |hashtable.entries| && c.currentoffset <= |c.file| && c.blocksize == blocksize
      reads this, hashtable, c
      ensures RightLength(c, i) <==> HasLength(Knowledge(), c.BlockLength(), i)
    {
      hide VerificationHashTable.Valid, Consistent, LengthOf;
      c.BlockLength() == c.blocksize || c.BlockLength() == Length(i)
    }

    /** The block has not been found yet, and could lie under the window. */
    predicate Free(c: FileCheckSummer, i: nat)
      requires Valid() && i < |hashtable.entries| && c.currentoffset <= |c.file| && c.blocksize == blocksize
      reads this, hashtable, c
      ensures Free(c, i) <==> IsFree(Knowledge(), c.BlockLength(), i)
    {
      hide VerificationHashTable.Valid, Consistent, LengthOf, PlaceOf;
      Where(i) == Unset && RightLength(c, i)
    }

    function SpotOf(c: FileCheckSummer, diskfile: nat): Spot
      requires c.currentoffset <= |c.file|
      reads c
    {
      Spot(c.currentoffset, c.BlockLength(), diskfile)
    }

    // ----- FindMatch

    /** The entry that is expected next is accepted without looking it up. */
    method TrySuggested(suggested: nat, c: FileCheckSummer) returns (accepted: bool, havehash: bool, hash: Hash)
      requires Ready(c) && suggested < |hashtable.entries|
      ensures c.outpointer < blocksize && c.buffer.Length == 2 * c.blocksize
      ensures accepted <==> IsExpected(Knowledge(), c.contextfull.compress, c.Window(), suggested)
      ensures havehash ==> hash == KeyOf(c.contextfull.compress, c.Window()).hash
    {
      hide BlockCount, BlockCrc, Digest, FileCheckSummer.Valid, VerificationHashTable.Valid, Placed, Consistent,
           LengthOf, PlaceOf;
      var key := hashtable.entries[suggested].key;
      accepted, havehash, hash := false, false, Zeros(16);
      EntryPlaced(suggested);
      c.WindowInFile(0);
      c.WindowIsSlice();
      if hashtable.next[suggested] < 0 {
        var length := Length(suggested);
        assert c.Cut(length) == CutTo(c.Window(), LengthOf(Knowledge(), suggested));
        var checksum := c.ShortChecksum(length);
        if checksum == key.crc {
          var shorthash := c.ShortHash(length);
          if shorthash == key.hash {
            accepted := true;
          }
        }
      } else if Where(suggested) == Unset && key.crc == c.checksum {
        havehash := true;
        hash := c.Hash();
        if hash == key.hash {
          accepted := true;
        }
      }
    }

    /** The chain of an entry is the rest of the list of matching entries. */
    ghost predicate Rest(entry: int, rest: seq<nat>)
      requires hashtable.Valid()
      reads hashtable
    {
      && -1 <= entry < |hashtable.entries| && Chain(hashtable.links, |hashtable.entries|, entry) == rest
    }

    lemma NextInChain(entry: int, rest: seq<nat>)
      requires hashtable.Valid() && Rest(entry, rest)
      ensures entry >= 0 <==> rest != []
      ensures entry >= 0 ==> rest[0] == entry && Rest(hashtable.links.same[entry], rest[1..])
    {
      hide Holds;
    }

    /** The last loop of FindMatch: the first entry of a chain that is free */
    method NextFree(start: int, c: FileCheckSummer, ghost matching: seq<nat>) returns (entry: int)
      requires Valid() && c.currentoffset <= |c.file| && c.blocksize == blocksize && Rest(start, matching)
      ensures entry == FirstFree(Knowledge(), c.BlockLength(), matching, -1)
    {
      hide Consistent, VerificationHashTable.Valid, IsFree, Rest, FileOf;
      entry := start;
      ghost var rest := matching;
      RestIs(entry, rest);
      while entry >= 0 && !Free(c, entry)
        invariant Rest(entry, rest) && -1 <= entry < |hashtable.entries|
        invariant FirstFree(Knowledge(), c.BlockLength(), matching, -1)
               == FirstFree(Knowledge(), c.BlockLength(), rest, -1)
        decreases |rest|
      {
        NextInChain(entry, rest);
        entry := hashtable.links.same[entry];
        rest := rest[1..];
        RestIs(entry, rest);
      }
      NextInChain(entry, rest);
    }

    lemma RestIs(entry: int, rest: seq<nat>)
      requires hashtable.Valid() && Rest(entry, rest)
      ensures -1 <= entry < |hashtable.entries| && |hashtable.links.same| == |hashtable.entries|
    {
      hide Holds, Chain;
    }

    /** Only one entry has the checksum and the hash. */
    method Single(entry: nat, suggested: int, c: FileCheckSummer, diskfile: nat) returns (found: int, duplicate: bool)
      requires Valid() && c.currentoffset <= |c.file| && c.blocksize == blocksize && entry < |hashtable.entries|
      ensures found == if Takes(Knowledge(), SpotOf(c, diskfile), entry, suggested) then entry else -1
      ensures duplicate <==>
                found < 0 && (IsDone(Knowledge(), entry) || HasLength(Knowledge(), c.BlockLength(), entry))
    {
      hide VerificationHashTable.Valid, Consistent, LengthOf, PlaceOf, HasLength;
      duplicate := false;
      if hashtable.entries[entry].file in complete {
        return -1, true;
      }
      if !RightLength(c, entry) {
        return -1, false;
      }
      if FirstBlock(entry) && c.currentoffset == 0 {
        return entry, false;
      }
      if entry == suggested {
        if Where(entry) != Unset && Where(entry).diskfile == diskfile {
          return -1, true;
        } else {
          return entry, false;
        }
      } else {
        if Where(entry) != Unset {
          return -1, true;
        }
        return entry, false;
      }
    }

    predicate FirstBlock(i: nat)
      requires i < |hashtable.entries|
      reads this, hashtable
      ensures FirstBlock(i) <==> IsFirst(Knowledge(), i)
    {
      hashtable.entries[i].block == 0
    }

    predicate FreeOf(i: nat, c: FileCheckSummer, sourcefile: int)
      requires Valid() && i < |hashtable.entries| && c.currentoffset <= |c.file| && c.blocksize == blocksize
      reads this, hashtable, c
    {
      hashtable.entries[i].file == sourcefile && Free(c, i)
    }

    /** Several entries have the checksum and the hash: the first free one of the preferred source file is taken, or
        else the first free one. */
    method Several(first: nat, sourcefile: int, c: FileCheckSummer, ghost matching: seq<nat>)
      returns (found: int, duplicate: bool)
      requires Valid() && c.currentoffset <= |c.file| && c.blocksize == blocksize && Rest(first, matching)
      ensures found == Preferred(Knowledge(), c.BlockLength(), matching, sourcefile) && (duplicate <==> found < 0)
    {
      hide Consistent, VerificationHashTable.Valid, IsFree, Rest;
      ghost var k, length := Knowledge(), c.BlockLength();
      var nextentry: int := first;
      ghost var chain := matching;
      if sourcefile >= 0 {
        var currententry: int := first;
        ghost var rest := matching;
        nextentry, chain := -1, [];
        RestIs(currententry, rest);
        while currententry >= 0 && !FreeOf(currententry, c, sourcefile)
          invariant Rest(currententry, rest) && -1 <= currententry < |hashtable.entries|
          invariant FirstFree(k, length, matching, sourcefile) == FirstFree(k, length, rest, sourcefile)
          invariant nextentry < 0 ==>
                      nextentry == -1 && FirstFree(k, length, matching, -1) == FirstFree(k, length, rest, -1)
          invariant nextentry >= 0 ==>
                      Rest(nextentry, chain) && FirstFree(k, length, matching, -1) == FirstFree(k, length, chain, -1)
          decreases |rest|
        {
          NextInChain(currententry, rest);
          if nextentry < 0 && Free(c, currententry) {
            nextentry, chain := currententry, rest;
          }
          currententry := hashtable.links.same[currententry];
          rest := rest[1..];
          RestIs(currententry, rest);
        }
        NextInChain(currententry, rest);
        if currententry >= 0 {
          return currententry, false;
        }
        if nextentry < 0 {
          EmptyChain();
          chain := [];
        }
      }
      found := NextFree(nextentry, c, chain);
      FirstFreeIs(k, length, matching, -1);
      duplicate := found < 0;
    }

    lemma EmptyChain()
      requires hashtable.Valid()
      ensures Rest(-1, [])
    {
    }

    /** FindMatch */
    method FindMatch(suggested: int, sourcefile: int, c: FileCheckSummer, diskfile: nat)
      returns (entry: int, duplicate: bool)
      requires Ready(c) && -1 <= suggested < |hashtable.entries|
      ensures c.outpointer < blocksize && c.buffer.Length == 2 * c.blocksize
      ensures Outcome(Knowledge(), c.contextfull.compress, c.Window(), SpotOf(c, diskfile), suggested, sourcefile,
                      entry, duplicate)
    {
      hide Consistent, VerificationHashTable.Valid, IsExpected, Chosen, KeyOf, Matching, FileCheckSummer.Separate,
           FileCheckSummer.Hashed, FileCheckSummer.Windowed, BlockCrc;
      c.WindowInFile(0);
      var havehash, hash := false, Zeros(16);
      if suggested >= 0 {
        var accepted;
        accepted, havehash, hash := TrySuggested(suggested, c);
        if accepted {
          return suggested, false;
        }
      }
      entry, duplicate := Search(havehash, hash, suggested, sourcefile, c, diskfile);
    }

    /** The part of FindMatch that looks the window up */
    method Search(havehash: bool, hash: Hash, suggested: int, sourcefile: int, c: FileCheckSummer, diskfile: nat)
      returns (entry: int, duplicate: bool)
      requires Ready(c) && c.outpointer < blocksize && c.buffer.Length == 2 * c.blocksize
      requires havehash ==> hash == KeyOf(c.contextfull.compress, c.Window()).hash
      ensures Chosen(Knowledge(), SpotOf(c, diskfile),
                     Matching(hashtable.entries, KeyOf(c.contextfull.compress, c.Window())),
                     suggested, sourcefile, entry, duplicate)
    {
      hide Consistent, VerificationHashTable.Valid, Matching, BlockCrc, Digest, Takes, Preferred,
           FileCheckSummer.Separate, FileCheckSummer.Hashed, FileCheckSummer.Windowed;
      c.WindowIsSlice();
      entry := hashtable.Lookup(c.checksum);
      if entry < 0 {
        NoCandidate(KeyOf(c.contextfull.compress, c.Window()));
        return -1, false;
      }
      var h := hash;
      if !havehash {
        h := c.Hash();
      }
      entry := hashtable.LookupHash(entry, h);
      entry, duplicate := Choose(entry, suggested, sourcefile, c, diskfile,
                                 Matching(hashtable.entries, KeyOf(c.contextfull.compress, c.Window())));
    }

    lemma NoCandidate(key: Key)
      requires forall i :: 0 <= i < |hashtable.entries| ==> hashtable.entries[i].key.crc != key.crc
      ensures Matching(hashtable.entries, key) == []
    {
      hide Matching;
      if Matching(hashtable.entries, key) != [] {
        MatchingComplete(hashtable.entries, key, Matching(hashtable.entries, key)[0]);
      }
    }

    /** The choice among the entries with the checksum and the hash of the window */
    method Choose(first: int, suggested: int, sourcefile: int, c: FileCheckSummer, diskfile: nat,
                  ghost matching: seq<nat>) returns (entry: int, duplicate: bool)
      requires Valid() && c.currentoffset <= |c.file| && c.blocksize == blocksize
      requires -1 <= first < |hashtable.entries|
      requires Chain(hashtable.links, |hashtable.entries|, first) == matching
      ensures Chosen(Knowledge(), SpotOf(c, diskfile), matching, suggested, sourcefile, entry, duplicate)
    {
      hide Consistent, VerificationHashTable.Valid, Takes, Preferred, Chain, IsDone, HasLength;
      NextInChain(first, matching);
      if first < 0 {
        return -1, false;
      }
      RestIs(first, matching);
      NextInChain(hashtable.links.same[first], matching[1..]);
      if hashtable.links.same[first] < 0 {
        entry, duplicate := Single(first, suggested, c, diskfile);
      } else {
        entry, duplicate := Several(first, sourcefile, c, matching);
      }
    }

    // ----- ScanDataFile

    /** VerificationHashEntry::SetBlock */
    method SetBlock(i: nat, diskfile: nat, offset: nat)
      requires Valid() && i < |hashtable.entries|
      modifies this`location
      ensures Valid()
      ensures location == Located(old(location), hashtable.entries[i].file, hashtable.entries[i].block,
                                  At(diskfile, offset))
    {
      hide BlockCount, AllPlaced, VerificationHashTable.Valid;
      EntryPlaced(i);
      var e := hashtable.entries[i];
      location := location[e.file := location[e.file][e.block := At(diskfile, offset)]];
    }

    /** One match of the scan: the match type, the record, and the entry that is expected next */
    method Match(i: nat, offset: nat, diskfile: nat, nextentry: int, sourcefile: int, matchtype: MatchType, count: nat)
      returns (g: int, m: MatchType, n: int)
      requires Valid() && i < |hashtable.entries|
      modifies this`location
      ensures Valid()
      ensures m == if matchtype == FullMatch && (if count == 0 then FirstBlock(i) && offset == 0 else i == nextentry)
                   then FullMatch else PartialMatch
      ensures g == if count == 0 then hashtable.entries[i].file else sourcefile
      ensures |hashtable.next| == |hashtable.entries| && n == hashtable.next[i] && -1 <= n < |hashtable.entries|
      ensures location == Located(old(location), hashtable.entries[i].file, hashtable.entries[i].block,
                                  At(diskfile, offset))
    {
      hide BlockCount, VerificationHashTable.Valid, Consistent, Located;
      EntryPlaced(i);
      g, m := sourcefile, if matchtype == FullMatch then FullMatch else PartialMatch;
      if count == 0 {
        g := hashtable.entries[i].file;
        if !FirstBlock(i) || offset != 0 {
          m := PartialMatch;
        }
      } else if i != nextentry {
        m := PartialMatch;
      }
      SetBlock(i, diskfile, offset);
      n := hashtable.next[i];
    }

    /** Without a match the scan goes on after a whole block, if it was a duplicate, or at the next byte. */
    static method Skip(c: FileCheckSummer, duplicate: bool)
      requires c.Valid() && c.currentoffset < |c.file|
      modifies c.Footprint()
      ensures c.Valid() && c.currentoffset == Min(|c.file|, old(c.currentoffset) + if duplicate then c.blocksize else 1)
    {
      hide FileCheckSummer.Hashed, FileCheckSummer.Windowed;
      var ok;
      if duplicate {
        ok := c.Jump(c.blocksize);
      } else {
        ok := c.Step();
      }
    }

    /** Another object */
    ghost predicate Aside(c: FileCheckSummer) {
      this !in c.Footprint() && hashtable !in c.Footprint()
    }

    lemma ReadyMeans(c: FileCheckSummer)
      requires Ready(c)
      ensures Valid() && c.Valid() && c.currentoffset < |c.file| && c.blocksize == blocksize
    {
    }

    lemma ReadyAgain(c: FileCheckSummer)
      requires Valid() && c.Valid() && c.currentoffset < |c.file| && c.blocksize == blocksize
      ensures Ready(c)
    {
    }

    /** Before anything has been read the window holds the start of the file, followed by zeros. */
    ghost predicate StartsWithZeros(c: FileCheckSummer)
      reads c, c.buffer
    {
      && c.buffer.Length == 2 * c.blocksize && c.outpointer < c.blocksize
      && c.Window() == c.file[..Min(c.blocksize, |c.file|)] + Zeros(c.blocksize - Min(c.blocksize, |c.file|))
    }

    /** What FindMatch finds is the next turn of the run. */
    lemma IsTurn(c: FileCheckSummer, j: Job, turns: seq<Turn>, entry: int, duplicate: bool)
      requires Ready(c) && j.file == c.file && j.compress == c.contextfull.compress && j.known.blocksize == blocksize
      requires c.outpointer < blocksize && c.buffer.Length == 2 * c.blocksize
      requires Knowledge() == After(j, turns) && Consistent(j.known) && c.currentoffset == End(j, turns)
      requires c.currentoffset == 0 ==> StartsWithZeros(c)
      requires Outcome(Knowledge(), j.compress, c.Window(), SpotOf(c, j.diskfile), Next(j, turns), Source(j, turns),
                       entry, duplicate)
      ensures -1 <= entry < |hashtable.entries|
      ensures Turned(j, turns, TurnOf(c, entry, duplicate))
    {
      hide VerificationHashTable.Valid, Consistent, Outcome, FileCheckSummer.Valid, Next, Source, After, End;
      c.WindowInFile(blocksize);
      assert IsWindow(j, c.currentoffset, c.Window());
      ResultIs(Knowledge(), j.compress, c.Window(), SpotOf(c, j.diskfile), Next(j, turns), Source(j, turns),
               entry, duplicate);
      assert SpotAt(j, c.currentoffset) == SpotOf(c, j.diskfile);
      assert Turned(j, turns, TurnOf(c, entry, duplicate));
      TurnMoves(j, turns, TurnOf(c, entry, duplicate));
    }

    function TurnOf(c: FileCheckSummer, entry: int, duplicate: bool): Turn
      reads c
    {
      if entry >= 0 then Hit(c.currentoffset, entry)
      else if duplicate then Duplicate(c.currentoffset)
      else Miss(c.currentoffset)
    }

    /** The call of FindMatch */
    method FindNext(c: FileCheckSummer, diskfile: nat, nextentry: int, sourcefile: int,
                    ghost j: Job, ghost turns: seq<Turn>) returns (entry: int, duplicate: bool)
      requires Ready(c) && j.file == c.file && j.compress == c.contextfull.compress && j.diskfile == diskfile
      requires Consistent(j.known) && Knowledge() == After(j, turns) && c.currentoffset == End(j, turns)
      requires nextentry == Next(j, turns) && -1 <= nextentry < |hashtable.entries| && sourcefile == Source(j, turns)
      requires c.currentoffset == 0 ==> StartsWithZeros(c)
      ensures -1 <= entry < |hashtable.entries| && Turned(j, turns, TurnOf(c, entry, duplicate))
      ensures c.currentoffset < EndOfTurn(j, TurnOf(c, entry, duplicate)) <= |c.file|
    {
      hide Valid, Ready, Turned, End, Next, Source, After, Outcome, EndOfTurn, FileCheckSummer.Valid,
           FileCheckSummer.Window, VerificationHashTable.Valid, Consistent, StartsWithZeros;
      ReadyMeans(c);
      entry, duplicate := FindMatch(nextentry, sourcefile, c, diskfile);
      ReadyAgain(c);
      IsTurn(c, j, turns, entry, duplicate);
      TurnMoves(j, turns, TurnOf(c, entry, duplicate));
    }

    /** The loop of ScanDataFile */
    method ScanBlocks(c: FileCheckSummer, diskfile: nat, wanted: int, ghost j: Job)
      returns (sourcefile: int, matchtype: MatchType, count: nat, ghost turns: seq<Turn>)
      requires Ready(c) && Aside(c) && c.currentoffset == 0 && StartsWithZeros(c)
      requires j == Job(Knowledge(), c.contextfull.compress, c.file, diskfile, wanted)
      modifies this`location, c.Footprint()
      ensures Valid() && c.Valid() && c.currentoffset == |c.file|
      ensures Scanned(j, turns) && End(j, turns) == |c.file| && Knowledge() == After(j, turns)
      ensures sourcefile == Source(j, turns) && count == Hits(turns)
      ensures matchtype == if Chained(j, turns) then FullMatch else PartialMatch
    {
      hide Valid, Ready, Scanned, Turned, End, Next, Source, Hits, Chained, After, Outcome, Located, LengthOf,
           FileCheckSummer.Valid, FileCheckSummer.Window, VerificationHashTable.Valid, Consistent, StartsWithZeros;
      ReadyMeans(c);
      ValidMeans();
      NoTurns(j);
      var nextentry: int := -1;
      sourcefile, matchtype, count, turns := wanted, FullMatch, 0, [];
      while c.currentoffset < |c.file|
        invariant Valid() && c.Valid() && c.currentoffset <= |c.file|
        invariant Scanned(j, turns) && c.currentoffset == End(j, turns) && Knowledge() == After(j, turns)
        invariant nextentry == Next(j, turns) && -1 <= nextentry < |hashtable.entries|
        invariant sourcefile == Source(j, turns) && count == Hits(turns)
        invariant matchtype == if Chained(j, turns) then FullMatch else PartialMatch
        invariant c.currentoffset == 0 ==> StartsWithZeros(c)
        decreases |c.file| - c.currentoffset
      {
        ReadyAgain(c);
        var currententry, duplicate := FindNext(c, diskfile, nextentry, sourcefile, j, turns);
        ghost var t := TurnOf(c, currententry, duplicate);
        Extended(j, turns, t);
        if currententry >= 0 {
          sourcefile, matchtype, nextentry :=
            Match(currententry, c.currentoffset, diskfile, nextentry, sourcefile, matchtype, count);
          count := count + 1;
          SameLength(j, turns + [t], currententry);
          var ok := c.Jump(Length(currententry));
        } else {
          matchtype := PartialMatch;
          nextentry := -1;
          Skip(c, duplicate);
        }
        turns := turns + [t];
      }
    }

    lemma ValidMeans()
      requires Valid()
      ensures Consistent(Knowledge()) && blocksize > 0 && |hashtable.next| == |hashtable.entries|
    {
    }

    /** The end of the scan: a match of all the blocks is confirmed by the size, the hashes and the number of blocks. */
    method Conclude(c: FileCheckSummer, sourcefile: int, matchtype: MatchType, count: nat)
      returns (m: MatchType, hashfull: Hash, hash16k: Hash)
      requires Valid() && c.Valid() && c.currentoffset == |c.file| && matchtype != NoMatch
      requires blocksize > 0 && (count > 0 ==> 0 <= sourcefile < |files|)
      ensures hashfull == Digest(c.contextfull.compress, c.file)
      ensures hash16k == Digest(c.contextfull.compress, c.file[..Min(|c.file|, 16384)])
      ensures m == NoMatch <==> count == 0
      ensures m == FullMatch <==>
              && count > 0 && matchtype == FullMatch && count == BlockCount(files[sourcefile].size, blocksize)
              && |c.file| == files[sourcefile].size
              && hashfull == files[sourcefile].hashfull && hash16k == files[sourcefile].hash16k
    {
      hide BlockCount, Digest, Valid, FileCheckSummer.Separate, FileCheckSummer.Hashed, FileCheckSummer.Windowed;
      hashfull, hash16k := c.GetFileHashes();
      m := matchtype;
      if count > 0 {
        if matchtype != FullMatch || count != BlockCount(files[sourcefile].size, blocksize)
           || |c.file| != files[sourcefile].size
           || hashfull != files[sourcefile].hashfull || hash16k != files[sourcefile].hash16k {
          m := PartialMatch;
        }
      } else {
        m := NoMatch;
      }
    }

    /** The checksummer for a data file, at its start */
    method Open(file: seq<u8>, table: array<nat>, windowtable: array<nat>, windowmask: nat, f: Compression)
      returns (c: FileCheckSummer)
      requires Valid() && IsTable(table) && IsWindowTable(windowtable, blocksize) && windowmask == WindowMask(blocksize)
      requires file != []
      ensures fresh(c.Footprint()) && Aside(c) && Ready(c) && c.currentoffset == 0
      ensures c.file == file && c.contextfull.compress == f && StartsWithZeros(c)
    {
      hide Valid, FileCheckSummer.Valid, FileCheckSummer.Window, Min;
      ValidMeans();
      c := new FileCheckSummer(file, blocksize, table, windowtable, windowmask, f);
      var ok := c.Start();
    }

    ghost function JobFor(file: seq<u8>, diskfile: nat, wanted: int, f: Compression): Job
      reads this, hashtable
    {
      Job(Knowledge(), f, file, diskfile, wanted)
    }

    /** ScanDataFile. No block that lies in the file is missed; and an intact copy of a source file is a full match
        exactly if its blocks pass. */
    method ScanDataFile(file: seq<u8>, diskfile: nat, wanted: int, table: array<nat>, windowtable: array<nat>,
                        windowmask: nat, f: Compression)
      returns (sourcefile: int, matchtype: MatchType, hashfull: Hash, hash16k: Hash, count: nat, ghost turns: seq<Turn>)
      requires Valid() && IsTable(table) && IsWindowTable(windowtable, blocksize) && windowmask == WindowMask(blocksize)
      requires -1 <= wanted < |files|
      modifies this`location
      ensures Valid()
      ensures var j := old(JobFor(file, diskfile, wanted, f));
              && Scanned(j, turns) && End(j, turns) == |file| && Knowledge() == After(j, turns)
              && Complete(j, turns) && AllJust(j, turns) && Tiles(j, turns) && AllRecorded(j, turns, Knowledge())
      ensures sourcefile == Source(old(JobFor(file, diskfile, wanted, f)), turns) && count == Hits(turns)
      ensures matchtype == NoMatch <==> count == 0
      ensures matchtype == FullMatch <==> Confirmed(old(JobFor(file, diskfile, wanted, f)), turns)
      ensures blocksize > 0
      ensures matchtype == FullMatch ==> IsFullMatch(old(JobFor(file, diskfile, wanted, f)), sourcefile, Knowledge())
      ensures forall g, i: nat :: IsIntact(old(JobFor(file, diskfile, wanted, f)), g, i) ==>
                (matchtype == FullMatch && sourcefile == g <==>
                 WholePasses(old(JobFor(file, diskfile, wanted, f)), g, i))
      ensures file != [] ==> hashfull == Digest(f, file) && hash16k == Digest(f, file[..Min(|file|, 16384)])
    {
      hide Valid, Ready, Scanned, Turned, End, Source, Hits, Chained, After, StartsWithZeros, Confirmed, IsFullMatch,
           IsIntact, WholePasses, Complete, AllJust, Tiles, AllRecorded, Consistent, BlockCount, Digest, Min, IsTable,
           IsWindowTable, WindowMask, FileCheckSummer.Valid, FileCheckSummer.Window, VerificationHashTable.Valid;
      ghost var j := JobFor(file, diskfile, wanted, f);
      ValidMeans();
      NoTurns(j);
      sourcefile, matchtype, count, hashfull, hash16k, turns := wanted, NoMatch, 0, Zeros(16), Zeros(16), [];
      if |file| > 0 {
        var c := Open(file, table, windowtable, windowmask, f);
        sourcefile, matchtype, count, turns := ScanBlocks(c, diskfile, wanted, j);
        ConfirmedIs(j, turns);
        matchtype, hashfull, hash16k := Conclude(c, sourcefile, matchtype, count);
      } else {
        ConfirmedIs(j, turns);
      }
      WholeRun(j, turns);
      if matchtype == FullMatch { ConfirmedIsFull(j, turns); }
      forall g, i: nat | IsIntact(j, g, i)
        ensures matchtype == FullMatch && sourcefile == g <==> WholePasses(j, g, i)
      {
        IntactConfirmed(j, g, i, turns);
      }
    }
  }
}
