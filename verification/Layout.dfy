/** Par2Creator::InitialiseOutputFiles: the packets of a recovery file. Between the recovery packets the critical
    packets are repeated in turn, so that they are spread evenly. */
module Layout {
  import opened Planner
  import opened Orders
  import opened Ranges

  datatype Packet = Recovery(exponent: nat) | Critical(index: nat) | Creator

  datatype Placed = Placed(packet: Packet, offset: nat)

  /** The lengths of the recovery packets, of each critical packet, and of the creator packet */
  datatype Lengths = Lengths(recovery: nat, critical: seq<nat>, creator: nat)

  function Length(l: Lengths, p: Packet): nat {
    match p
    case Recovery(_) => l.recovery
    case Critical(i) => if i < |l.critical| then l.critical[i] else 0
    case Creator => l.creator
  }

  function End(l: Lengths, file: seq<Placed>): nat {
    if file == [] then 0 else file[|file| - 1].offset + Length(l, file[|file| - 1].packet)
  }

  /** Each packet begins where the one before it ends. */
  ghost predicate Tiled(l: Lengths, file: seq<Placed>) {
    forall i :: 0 <= i < |file| ==> file[i].offset == End(l, file[..i])
  }

  /** The exponents of the recovery packets, in the order of the file */
  function Exponents(file: seq<Placed>): seq<nat> {
    if file == [] then []
    else
      var p := file[|file| - 1].packet;
      Exponents(file[..|file| - 1]) + if p.Recovery? then [p.exponent] else []
  }

  /** The exponents of the recovery packets, file by file and in the order of each file */
  function AllExponents(files: seq<seq<Placed>>): seq<nat> {
    if files == [] then [] else AllExponents(files[..|files| - 1]) + Exponents(files[|files| - 1])
  }

  /** The critical packets, in the order of the file */
  function Criticals(file: seq<Placed>): seq<nat> {
    if file == [] then []
    else
      var p := file[|file| - 1].packet;
      Criticals(file[..|file| - 1]) + if p.Critical? then [p.index] else []
  }

  function Turn(t: nat, c: nat): nat
    requires c > 0
  {
    t % c
  }

  /** The first n of 0, 1, ..., c - 1, 0, 1, ... */
  function InTurn(n: nat, c: nat): (s: seq<nat>)
    requires c > 0 || n == 0
    ensures |s| == n
  {
    seq(n, t requires 0 <= t < n => Turn(t, c))
  }

  /** Ahead of each recovery packet there is the share of the critical packets that falls to the ones before it. */
  ghost predicate Spread(file: seq<Placed>, total: nat, count: nat)
    requires count > 0
  {
    forall i :: 0 <= i < |file| && file[i].packet.Recovery?
      ==> |Criticals(file[..i])| == |Exponents(file[..i])| * total / count
  }

  lemma Added(l: Lengths, file: seq<Placed>, p: Packet)
    requires Tiled(l, file)
    ensures var more := file + [Placed(p, End(l, file))];
            && Tiled(l, more) && End(l, more) == End(l, file) + Length(l, p)
            && Exponents(more) == Exponents(file) + (if p.Recovery? then [p.exponent] else [])
            && Criticals(more) == Criticals(file) + (if p.Critical? then [p.index] else [])
  {
    var more := file + [Placed(p, End(l, file))];
    assert more[..|file|] == file;
    forall i | 0 <= i < |more| ensures more[i].offset == End(l, more[..i]) {
      assert more[..i] == file[..i];
      assert file[..|file|] == file;
    }
  }

  lemma SpreadAdded(file: seq<Placed>, x: Placed, total: nat, count: nat)
    requires count > 0 && Spread(file, total, count)
    requires x.packet.Recovery? ==> |Criticals(file)| == |Exponents(file)| * total / count
    ensures Spread(file + [x], total, count)
  {
    hide Criticals, Exponents;
    var more := file + [x];
    forall i | 0 <= i < |more| && more[i].packet.Recovery?
      ensures |Criticals(more[..i])| == |Exponents(more[..i])| * total / count
    {
      assert more[..i] == file[..i];
      assert file[..|file|] == file;
    }
  }

  /** Every critical packet is taken equally often. */
  lemma {:induction false} EachInTurn(copies: nat, c: nat, j: nat)
    requires j < c
    ensures multiset(InTurn(copies * c, c))[j] == copies
  {
    if copies > 0 {
      EachInTurn(copies - 1, c, j);
      AnotherRound(copies - 1, c);
      OneRound(c, j);
      hide InTurn, From;
      assert multiset(InTurn((copies - 1) * c, c) + From(0, c))
          == multiset(InTurn((copies - 1) * c, c)) + multiset(From(0, c));
    }
  }

  lemma AnotherRound(k: nat, c: nat)
    requires c > 0
    ensures InTurn((k + 1) * c, c) == InTurn(k * c, c) + From(0, c)
  {
    hide InTurn, From;
    OneMore(k, c);
    forall t: nat | k * c <= t < k * c + c ensures Turn(t, c) == t - k * c {
      DivModUnique(c, t, k, t - k * c);
    }
    RoundFrom(k * c, c);
  }

  lemma OnceInTurn(c: nat)
    ensures InTurn(1 * c, c) == From(0, c)
  {
    if c > 0 {
      AnotherRound(0, c);
      assert InTurn(0 * c, c) == [];
    }
  }

  lemma RoundFrom(n: nat, c: nat)
    requires c > 0 && forall t: nat :: n <= t < n + c ==> Turn(t, c) == t - n
    ensures InTurn(n + c, c) == InTurn(n, c) + From(0, c)
  {
  }

  lemma {:induction false} OneRound(c: nat, j: nat)
    ensures multiset(From(0, c))[j] == if j < c then 1 else 0
  {
    if c > 0 {
      OneRound(c - 1, j);
      assert From(0, c) == From(0, c - 1) + [c - 1];
    }
  }

  // ----- the loops

  lemma NextTurn(n: nat, c: nat)
    requires c > 0
    ensures Turn(n + 1, c) == if Turn(n, c) + 1 == c then 0 else Turn(n, c) + 1
  {
    if Turn(n, c) + 1 == c {
      DivModUnique(c, n + 1, n / c + 1, 0);
    } else {
      DivModUnique(c, n + 1, n / c, n % c + 1);
    }
  }

  /** The position of the iterator over the critical packets after n of them, where c is its end */
  function Cursor(n: nat, c: nat): nat
    requires c > 0 || n == 0
  {
    if n == 0 then c else Turn(n - 1, c) + 1
  }

  lemma CursorTurns(n: nat, c: nat)
    requires c > 0
    ensures Turn(n, c) == if Cursor(n, c) == c then 0 else Cursor(n, c)
    ensures Cursor(n + 1, c) == Turn(n, c) + 1 && Turn(n, c) < c
    ensures InTurn(n + 1, c) == InTurn(n, c) + [Turn(n, c)]
  {
    if n > 0 {
      NextTurn(n - 1, c);
    } else {
      DivModUnique(c, 0, 0, 0);
    }
  }

  /** Placed packets, and the state of the accumulator that decides when a critical packet is due */
  ghost predicate Progress(l: Lengths, file: seq<Placed>, first: nat, done: nat, count: nat, total: nat,
                           packetCount: nat)
    requires count > 0
  {
    && Tiled(l, file) && Spread(file, total, count)
    && Exponents(file) == From(first, done)
    && (|l.critical| > 0 || |Criticals(file)| == 0) && Criticals(file) == InTurn(|Criticals(file)|, |l.critical|)
    && packetCount + |Criticals(file)| * count == done * total
    && forall i :: 0 <= i < |file| ==> !file[i].packet.Creator?
  }

  /** A recovery packet */
  lemma AddRecovery(l: Lengths, file: seq<Placed>, first: nat, done: nat, count: nat, total: nat, packetCount: nat)
    requires count > 0 && Progress(l, file, first, done, count, total, packetCount) && packetCount < count
    ensures var more := file + [Placed(Recovery(first + done), End(l, file))];
            && Progress(l, more, first, done + 1, count, total, packetCount + total)
            && End(l, more) == End(l, file) + l.recovery && |Criticals(more)| == |Criticals(file)|
  {
    hide Tiled, Spread, End, Exponents, Criticals;
    var p := Recovery(first + done);
    Added(l, file, p);
    OneMore(done, total);
    var placed := |Criticals(file)|;
    assert count * placed == placed * count;
    DivModUnique(count, done * total, placed, packetCount);
    SpreadAdded(file, Placed(p, End(l, file)), total, count);
  }

  /** A critical packet */
  lemma AddCritical(l: Lengths, file: seq<Placed>, first: nat, done: nat, count: nat, total: nat, packetCount: nat)
    requires count > 0 && Progress(l, file, first, done, count, total, packetCount) && packetCount >= count
             && |l.critical| > 0
    ensures Turn(|Criticals(file)|, |l.critical|) < |l.critical|
    ensures var more := file + [Placed(Critical(Turn(|Criticals(file)|, |l.critical|)), End(l, file))];
            && Progress(l, more, first, done, count, total, packetCount - count)
            && End(l, more) == End(l, file) + l.critical[Turn(|Criticals(file)|, |l.critical|)]
            && |Criticals(more)| == |Criticals(file)| + 1
  {
    hide Tiled, Spread, End, Exponents, Criticals, InTurn, Turn;
    CursorTurns(|Criticals(file)|, |l.critical|);
    var p := Critical(Turn(|Criticals(file)|, |l.critical|));
    Added(l, file, p);
    OneMore(|Criticals(file)|, count);
    SpreadAdded(file, Placed(p, End(l, file)), total, count);
  }

  /** A recovery file with recovery packets, all but the creator packet */
  method LayOutRecovery(l: Lengths, first: nat, count: nat) returns (file: seq<Placed>, offset: nat)
    requires count > 0
    ensures Progress(l, file, first, count, count, BitLength(count) * |l.critical|, 0) && offset == End(l, file)
    ensures |Criticals(file)| == BitLength(count) * |l.critical|
  {
    hide Progress, End, Exponents, Criticals, BitLength;
    var copies := CountBits(count);
    ghost var total := copies * |l.critical|;
    file, offset := [], 0;
    var packetCount: nat := 0;
    var nextCriticalPacket: nat := |l.critical|;
    var exponent: nat, limit: nat := first, first + count;
    Nothing(l, first, count, total);
    while exponent < limit
      invariant first <= exponent <= limit && packetCount < count && offset == End(l, file)
      invariant Progress(l, file, first, exponent - first, count, total, packetCount)
      invariant (|l.critical| > 0 || |Criticals(file)| == 0)
                && nextCriticalPacket == Cursor(|Criticals(file)|, |l.critical|)
    {
      AddRecovery(l, file, first, exponent - first, count, total, packetCount);
      file := file + [Placed(Recovery(exponent), offset)];
      offset := offset + l.recovery;
      exponent := exponent + 1;
      packetCount := packetCount + copies * |l.critical|;
      while packetCount >= count
        invariant offset == End(l, file)
        invariant Progress(l, file, first, exponent - first, count, total, packetCount)
        invariant |l.critical| == 0 ==> packetCount < count
        invariant (|l.critical| > 0 || |Criticals(file)| == 0)
                  && nextCriticalPacket == Cursor(|Criticals(file)|, |l.critical|)
      {
        CursorTurns(|Criticals(file)|, |l.critical|);
        AddCritical(l, file, first, exponent - first, count, total, packetCount);
        if nextCriticalPacket == |l.critical| {
          nextCriticalPacket := 0;
        }
        file := file + [Placed(Critical(nextCriticalPacket), offset)];
        offset := offset + l.critical[nextCriticalPacket];
        nextCriticalPacket := nextCriticalPacket + 1;
        packetCount := packetCount - count;
      }
    }
    Finished(l, file, first, count, total, packetCount);
  }

  lemma Nothing(l: Lengths, first: nat, count: nat, total: nat)
    requires count > 0
    ensures Progress(l, [], first, 0, count, total, 0) && End(l, []) == 0 && Criticals([]) == []
  {
  }

  /** The accumulator ends at zero, and then all the copies have been placed. */
  lemma Finished(l: Lengths, file: seq<Placed>, first: nat, count: nat, total: nat, packetCount: nat)
    requires count > 0 && Progress(l, file, first, count, count, total, packetCount) && packetCount < count
    ensures packetCount == 0 && |Criticals(file)| == total
  {
    assert packetCount + |Criticals(file)| * count == count * total;
    hide *;
    AllPlaced(|Criticals(file)|, count, total, packetCount);
  }

  lemma AllPlaced(placed: nat, count: nat, total: nat, rest: nat)
    requires rest < count && rest + placed * count == count * total
    ensures rest == 0 && placed == total
  {
    assert count * placed == placed * count;
    DivModUnique(count, count * total, placed, rest);
    DivModUnique(count, count * total, total, 0);
  }

  /** What a recovery file holds: its packets fill it without gaps; its recovery packets have the exponents allocated
      to it, in order; each critical packet is there as often as the number of recovery packets has binary digits, or
      once if there are none; and the creator packet is at the end. */
  ghost predicate Complete(l: Lengths, file: seq<Placed>, size: nat, a: Allocation) {
    && Tiled(l, file) && size == End(l, file)
    && Exponents(file) == From(a.exponent, a.count)
    && Criticals(file) == InTurn((if a.count == 0 then 1 else BitLength(a.count)) * |l.critical|, |l.critical|)
    && (forall j :: 0 <= j < |l.critical| ==>
          multiset(Criticals(file))[j] == if a.count == 0 then 1 else BitLength(a.count))
    && (a.count > 0 ==> Spread(file, BitLength(a.count) * |l.critical|, a.count))
    && |file| > 0 && (forall i :: 0 <= i < |file| ==> (file[i].packet.Creator? <==> i == |file| - 1))
  }

  /** A recovery file without recovery packets, all but the creator packet */
  method LayOutCritical(l: Lengths) returns (file: seq<Placed>, offset: nat)
    ensures Tiled(l, file) && offset == End(l, file)
    ensures Exponents(file) == [] && Criticals(file) == From(0, |l.critical|)
    ensures forall i :: 0 <= i < |file| ==> !file[i].packet.Creator?
  {
    hide End, Exponents, Criticals, Tiled;
    file, offset := [], 0;
    Nothing(l, 0, 1, 0);
    for next := 0 to |l.critical|
      invariant Tiled(l, file) && offset == End(l, file)
      invariant Exponents(file) == [] && Criticals(file) == From(0, next)
      invariant forall i :: 0 <= i < |file| ==> !file[i].packet.Creator?
    {
      Added(l, file, Critical(next));
      file := file + [Placed(Critical(next), offset)];
      offset := offset + l.critical[next];
    }
  }

  method LayOutFile(l: Lengths, a: Allocation) returns (file: seq<Placed>, size: nat)
    ensures Complete(l, file, size, a)
  {
    hide End, Exponents, Criticals, Tiled, Spread, InTurn, BitLength;
    if a.count == 0 {
      file, size := LayOutCritical(l);
      forall j | 0 <= j < |l.critical| ensures multiset(Criticals(file))[j] == 1 {
        OneRound(|l.critical|, j);
      }
      OnceInTurn(|l.critical|);
    } else {
      file, size := LayOutRecovery(l, a.exponent, a.count);
      forall j | 0 <= j < |l.critical| ensures multiset(Criticals(file))[j] == BitLength(a.count) {
        EachInTurn(BitLength(a.count), |l.critical|, j);
      }
      SpreadAdded(file, Placed(Creator, size), BitLength(a.count) * |l.critical|, a.count);
    }
    Added(l, file, Creator);
    file := file + [Placed(Creator, size)];
    size := size + l.creator;
  }

  /** All the files that have been laid out */
  ghost predicate AllComplete(l: Lengths, files: seq<seq<Placed>>, sizes: seq<nat>, a: seq<Allocation>) {
    |files| == |sizes| == |a| && forall i :: 0 <= i < |a| ==> Complete(l, files[i], sizes[i], a[i])
  }

  /** InitialiseOutputFiles: the recovery packets are created file by file, in the order of their exponents. */
  method InitialiseOutputFiles(creator: Par2Creator, scheme: Scheme, l: Lengths)
    returns (files: seq<seq<Placed>>, sizes: seq<nat>, recoverypackets: seq<nat>, allocations: array<Allocation>)
    requires creator.Counted(scheme)
    ensures AllComplete(l, files, sizes, allocations[..]) && |files| == creator.recoveryfilecount + 1
    ensures allocations.Length == |files| && creator.InScheme(scheme, allocations[..creator.recoveryfilecount])
    ensures Partition(allocations[..creator.recoveryfilecount], creator.firstrecoveryblock,
                      creator.firstrecoveryblock + creator.recoveryblockcount)
    ensures allocations[creator.recoveryfilecount].count == 0
    ensures recoverypackets == AllExponents(files) == From(creator.firstrecoveryblock, creator.recoveryblockcount)
  {
    hide Complete, Exponents, Partition, Planner.End, From, Even, Variably, Capped;
    allocations := creator.AllocateRecoveryBlocks(scheme);
    files, sizes, recoverypackets := [], [], [];
    ghost var first, n := creator.firstrecoveryblock, creator.recoveryfilecount;
    ghost var all := allocations[..];
    assert allocations[..n] == all[..n];
    Ends(all[..n], first, creator.firstrecoveryblock + creator.recoveryblockcount);
    for i := 0 to allocations.Length
      invariant allocations[..] == all && AllComplete(l, files, sizes, all[..i])
      invariant recoverypackets == From(first, |recoverypackets|) && recoverypackets == AllExponents(files)
      invariant first + |recoverypackets| == Planner.End(all[..n][..if i < n then i else n], first)
      modifies {}
    {
      var file, size := LayOutFile(l, allocations[i]);
      ExponentsOf(l, file, size, all[i]);
      if i < n { NextRange(all[..n], i, first, creator.firstrecoveryblock + creator.recoveryblockcount); }
      FromMore(first, |recoverypackets|, all[i].count);
      FromMore(all[i].exponent, 0, 0);
      assert all[..i + 1] == all[..i] + [all[i]];
      assert (files + [file])[..|files|] == files;
      files, sizes := files + [file], sizes + [size];
      recoverypackets := recoverypackets + Exponents(file);
    }
    assert all[..allocations.Length] == all && all[..n][..n] == all[..n];
  }

  lemma Ends(a: seq<Allocation>, from: nat, to: nat)
    requires Partition(a, from, to)
    ensures Planner.End(a[..0], from) == from && Planner.End(a, from) == to
  {
  }

  lemma NextRange(a: seq<Allocation>, i: nat, from: nat, to: nat)
    requires Partition(a, from, to) && i < |a|
    ensures a[i].exponent == Planner.End(a[..i], from)
    ensures Planner.End(a[..i + 1], from) == a[i].exponent + a[i].count
  {
    assert a[..i + 1][i] == a[i];
  }

  lemma ExponentsOf(l: Lengths, file: seq<Placed>, size: nat, a: Allocation)
    requires Complete(l, file, size, a)
    ensures Exponents(file) == From(a.exponent, a.count)
  {
  }

  lemma FromMore(e: nat, m: nat, n: nat)
    ensures From(e, m) + From(e + m, n) == From(e, m + n)
    ensures From(e, 0) == []
  {
  }
}
