/** Par2Repairer::LoadPacketsFromFile: a file is searched for packets through a buffer. Any data may lie between
    them. */
module PacketScan {
  import opened Bytes
  import opened Md5

  /** sizeof(PACKET_HEADER): magic 8, length 8, hash 16, set id 16, type 16 */
  const HEADERSIZE: nat := 64

  /** 'PAR2\0PKT' */
  const MAGIC: seq<u8> := [0x50, 0x41, 0x52, 0x32, 0x00, 0x50, 0x4B, 0x54]

  datatype SetId = Unknown | Known(id: seq<u8>)

  // ----- one byte at a time

  predicate MagicAt(file: seq<u8>, offset: nat) {
    offset + HEADERSIZE <= |file| && file[offset..offset + 8] == MAGIC
  }

  function PacketLength(file: seq<u8>, offset: nat): nat
    requires offset + HEADERSIZE <= |file|
  {
    Number(file[offset + 8..offset + 16])
  }

  function SetIdAt(file: seq<u8>, offset: nat): seq<u8>
    requires offset + HEADERSIZE <= |file|
  {
    file[offset + 32..offset + 48]
  }

  predicate GoodLength(length: nat, offset: nat, size: nat) {
    HEADERSIZE <= length && length % 4 == 0 && offset + length <= size
  }

  /** A packet: the length fits, and the hash is that of what follows the hash. */
  predicate PacketAt(f: Compression, file: seq<u8>, offset: nat) {
    && MagicAt(file, offset)
    && GoodLength(PacketLength(file, offset), offset, |file|)
    && file[offset + 16..offset + 32] == Digest(f, file[offset + 32..offset + PacketLength(file, offset)])
  }

  /** The offsets of the packets for a scanner that goes on after a packet, or else at the next byte */
  function Packets(f: Compression, file: seq<u8>, offset: nat): seq<nat>
    decreases |file| - offset
  {
    if offset + HEADERSIZE > |file| then []
    else if PacketAt(f, file, offset) then [offset] + Packets(f, file, offset + PacketLength(file, offset))
    else Packets(f, file, offset + 1)
  }

  /** Only packets of one set are handed on; it is that of the first packet if none is known. */
  function OfSet(file: seq<u8>, packets: seq<nat>, setid: SetId): seq<nat>
    requires forall i :: 0 <= i < |packets| ==> packets[i] + HEADERSIZE <= |file|
  {
    if packets == [] then []
    else
      var id := if setid.Known? then setid.id else SetIdAt(file, packets[0]);
      (if id == SetIdAt(file, packets[0]) then [packets[0]] else []) + OfSet(file, packets[1..], Known(id))
  }

  lemma {:induction false} PacketsFit(f: Compression, file: seq<u8>, offset: nat)
    ensures forall i :: 0 <= i < |Packets(f, file, offset)| ==>
              && offset <= Packets(f, file, offset)[i] && Packets(f, file, offset)[i] + HEADERSIZE <= |file|
              && PacketAt(f, file, Packets(f, file, offset)[i])
    decreases |file| - offset
  {
    hide PacketAt;
    if offset + HEADERSIZE <= |file| {
      if PacketAt(f, file, offset) {
        LengthFits(f, file, offset);
        PacketsFit(f, file, offset + PacketLength(file, offset));
      } else {
        PacketsFit(f, file, offset + 1);
      }
    }
  }

  lemma LengthFits(f: Compression, file: seq<u8>, offset: nat)
    requires PacketAt(f, file, offset)
    ensures offset + HEADERSIZE <= |file| && GoodLength(PacketLength(file, offset), offset, |file|)
  {
  }

  /** The layout of a packet header */
  lemma IsPacket(f: Compression, file: seq<u8>, p: nat)
    ensures PacketAt(f, file, p) <==>
            && p + 64 <= |file| && file[p..p + 8] == [80, 65, 82, 50, 0, 80, 75, 84]
            && var n := Number(file[p + 8..p + 16]);
               && 64 <= n && n % 4 == 0 && p + n <= |file|
               && file[p + 16..p + 32] == Digest(f, file[p + 32..p + n])
  {
    hide Digest, Number;
  }

  /** The packets do not overlap. */
  lemma {:induction false} PacketsAscend(f: Compression, file: seq<u8>, offset: nat, i: nat, j: nat)
    requires i < j < |Packets(f, file, offset)|
    ensures var s := Packets(f, file, offset); s[i] + 64 <= |file| && s[i] + Number(file[s[i] + 8..s[i] + 16]) <= s[j]
    decreases |file| - offset
  {
    hide PacketAt;
    PacketsFit(f, file, offset);
    if PacketAt(f, file, offset) {
      LengthFits(f, file, offset);
      var next := offset + PacketLength(file, offset);
      PacketsFit(f, file, next);
      if i > 0 { PacketsAscend(f, file, next, i - 1, j - 1); }
    } else {
      PacketsAscend(f, file, offset + 1, i, j);
    }
  }

  /** The set of the packets that are handed on */
  function SetOf(file: seq<u8>, packets: seq<nat>, setid: SetId): seq<u8>
    requires forall i :: 0 <= i < |packets| ==> packets[i] + 64 <= |file|
  {
    if setid.Known? then setid.id else if packets == [] then [] else file[packets[0] + 32..packets[0] + 48]
  }

  lemma {:induction false} OfSetMember(file: seq<u8>, packets: seq<nat>, setid: SetId, p: nat)
    requires forall i :: 0 <= i < |packets| ==> packets[i] + HEADERSIZE <= |file|
    ensures p in OfSet(file, packets, setid) <==>
            p in packets && p + HEADERSIZE <= |file| && SetIdAt(file, p) == SetOf(file, packets, setid)
  {
    if packets != [] {
      var id := SetOf(file, packets, setid);
      assert id == if setid.Known? then setid.id else SetIdAt(file, packets[0]);
      hide SetIdAt;
      OfSetMember(file, packets[1..], Known(id), p);
      Behead(packets, p);
      var first := if id == SetIdAt(file, packets[0]) then [packets[0]] else [];
      assert OfSet(file, packets, setid) == first + OfSet(file, packets[1..], Known(id));
    }
  }

  lemma Behead(s: seq<nat>, p: nat)
    requires s != []
    ensures p in s <==> p == s[0] || p in s[1..]
  {
    assert s == [s[0]] + s[1..];
  }

  lemma {:induction false} OfSetOrder(file: seq<u8>, packets: seq<nat>, setid: SetId)
    requires forall i :: 0 <= i < |packets| ==> packets[i] + HEADERSIZE <= |file|
    requires Ascends(packets)
    ensures Ascends(OfSet(file, packets, setid))
    ensures forall i :: 0 <= i < |OfSet(file, packets, setid)| ==> OfSet(file, packets, setid)[i] in packets
  {
    hide SetIdAt;
    if packets != [] {
      var id := if setid.Known? then setid.id else SetIdAt(file, packets[0]);
      var rest := OfSet(file, packets[1..], Known(id));
      OfSetOrder(file, packets[1..], Known(id));
      var first := if id == SetIdAt(file, packets[0]) then [packets[0]] else [];
      assert OfSet(file, packets, setid) == first + rest;
      forall i | 0 <= i < |rest| ensures packets[0] < rest[i] && rest[i] in packets {
        var q :| 0 <= q < |packets[1..]| && packets[1..][q] == rest[i];
        assert rest[i] == packets[q + 1];
      }
    }
  }

  ghost predicate Ascends(s: seq<nat>) {
    forall i, j :: 0 <= i < j < |s| ==> s[i] < s[j]
  }

  /** Every packet of the file is found, unless it lies within one that is found. */
  lemma {:induction false} PacketsComplete(f: Compression, file: seq<u8>, offset: nat, p: nat)
    requires offset <= p && PacketAt(f, file, p)
    ensures p in Packets(f, file, offset)
            || exists q :: q in Packets(f, file, offset) && q < p && q + HEADERSIZE <= |file|
                && p < q + PacketLength(file, q)
    decreases |file| - offset
  {
    hide PacketAt, PacketLength;
    LengthFits(f, file, p);
    if offset != p {
      if PacketAt(f, file, offset) {
        LengthFits(f, file, offset);
        var next := offset + PacketLength(file, offset);
        assert offset in Packets(f, file, offset);
        if next <= p {
          PacketsComplete(f, file, next, p);
        }
      } else {
        PacketsComplete(f, file, offset + 1, p);
      }
    }
  }

  /** Offsets without a packet can be skipped. */
  lemma {:induction false} Skip(f: Compression, file: seq<u8>, offset: nat, n: nat)
    requires forall o: nat :: offset <= o < offset + n ==> !PacketAt(f, file, o)
    ensures Packets(f, file, offset) == Packets(f, file, offset + n)
    decreases n
  {
    hide PacketAt;
    if n > 0 && offset + HEADERSIZE <= |file| {
      Skip(f, file, offset + 1, n - 1);
    }
  }

  // ----- through a buffer

  /** DiskFile::Read */
  method Read(file: seq<u8>, offset: nat, buffer: array<u8>, length: nat)
    requires offset + length <= |file| && length <= buffer.Length
    modifies buffer
    ensures buffer[..length] == file[offset..offset + length]
  {
    for i := 0 to length
      invariant buffer[..i] == file[offset..offset + i]
    {
      buffer[i] := file[offset + i];
    }
  }

  predicate MagicIn(s: seq<u8>, k: nat) {
    k + 8 <= |s| && s[k..k + 8] == MAGIC
  }

  /** The scan of the buffer for the magic value */
  method ScanBuffer(buffer: array<u8>, want: nat) returns (current: nat)
    requires HEADERSIZE <= want <= buffer.Length
    ensures current <= want - HEADERSIZE + 1
    ensures forall k: nat :: k < current ==> !MagicIn(buffer[..want], k)
    ensures current <= want - HEADERSIZE ==> MagicIn(buffer[..want], current)
  {
    current := 0;
    var limit := want - HEADERSIZE;
    while current <= limit && !MagicIn(buffer[..want], current)
      invariant current <= limit + 1
      invariant forall k: nat :: k < current ==> !MagicIn(buffer[..want], k)
    {
      current := current + 1;
    }
  }

  lemma MagicInFile(file: seq<u8>, offset: nat, want: nat, k: nat)
    requires offset + want <= |file| && k + HEADERSIZE <= want
    ensures MagicIn(file[offset..offset + want], k) <==> MagicAt(file, offset + k)
    ensures file[offset..offset + want][k..k + HEADERSIZE] == file[offset + k..offset + k + HEADERSIZE]
  {
    SliceOfSlice(file, offset, want, k, 8);
    SliceOfSlice(file, offset, want, k, HEADERSIZE);
  }

  lemma SliceOfSlice(s: seq<u8>, a: nat, want: nat, k: nat, n: nat)
    requires a + want <= |s| && k + n <= want
    ensures s[a..a + want][k..k + n] == s[a + k..a + k + n]
  {
    var t, u := s[a..a + want][k..k + n], s[a + k..a + k + n];
    assert forall i :: 0 <= i < n ==> t[i] == s[a..a + want][k + i];
    assert forall i :: 0 <= i < n ==> t[i] == u[i];
  }

  lemma NoneMissed(file: seq<u8>, offset: nat, s: seq<u8>, current: nat)
    requires offset + |s| <= |file| && s == file[offset..offset + |s|] && current + HEADERSIZE <= |s| + 1
    requires forall k: nat :: k < current ==> !MagicIn(s, k)
    ensures forall o: nat :: offset <= o < offset + current ==> !MagicAt(file, o)
  {
    hide MagicAt, MagicIn;
    forall o: nat | offset <= o < offset + current ensures !MagicAt(file, o) {
      var k: nat := o - offset;
      assert !MagicIn(s, k);
      MagicInFile(file, offset, |s|, k);
    }
  }

  /** The inner loop: the next magic value in the file */
  method FindMagic(file: seq<u8>, start: nat, buffer: array<u8>) returns (offset: nat, header: seq<u8>)
    requires HEADERSIZE <= buffer.Length
    modifies buffer
    ensures start <= offset && forall o: nat :: start <= o < offset ==> !MagicAt(file, o)
    ensures offset + HEADERSIZE <= |file| ==> MagicAt(file, offset) && header == file[offset..offset + HEADERSIZE]
  {
    hide MagicAt, MagicIn;
    offset, header := start, [];
    while offset + HEADERSIZE <= |file|
      invariant start <= offset && forall o: nat :: start <= o < offset ==> !MagicAt(file, o)
      decreases |file| - offset
    {
      var want := if buffer.Length <= |file| - offset then buffer.Length else |file| - offset;
      Read(file, offset, buffer, want);
      var current := ScanBuffer(buffer, want);
      NoneMissed(file, offset, buffer[..want], current);
      if current <= want - HEADERSIZE {
        MagicInFile(file, offset, want, current);
        header := buffer[..want][current..current + HEADERSIZE];
        offset := offset + current;
        return;
      }
      offset := offset + current;
    }
  }

  /** The hash of a packet, read in pieces */
  method HashPacket(f: Compression, file: seq<u8>, offset: nat, header: seq<u8>, length: nat, buffer: array<u8>)
    returns (hash: seq<u8>)
    requires HEADERSIZE <= buffer.Length && GoodLength(length, offset, |file|)
             && header == file[offset..offset + HEADERSIZE]
    modifies buffer
    ensures hash == Digest(f, file[offset + 32..offset + length])
  {
    hide Digest, MD5Context.Valid;
    var context := new MD5Context(f);
    var rest := new u8[HEADERSIZE - 32](i requires 0 <= i < HEADERSIZE - 32 => header[32 + i]);
    assert rest[..] == header[32..];
    context.Update(rest, 0, HEADERSIZE - 32);
    var current, limit := offset + HEADERSIZE, offset + length;
    assert context.message == file[offset + 32..current];
    while current < limit
      invariant offset + HEADERSIZE <= current <= limit && context.Valid() && context.compress == f
      invariant fresh(context) && fresh(context.block) && context.message == file[offset + 32..current]
    {
      var want := if buffer.Length <= limit - current then buffer.Length else limit - current;
      Read(file, current, buffer, want);
      context.Update(buffer, 0, want);
      assert buffer[0..want] == buffer[..want];
      assert file[offset + 32..current] + file[current..current + want] == file[offset + 32..current + want];
      current := current + want;
    }
    hash := context.Final();
  }

  // ----- LoadPacketsFromFile

  lemma HeaderFields(file: seq<u8>, offset: nat, header: seq<u8>)
    requires offset + HEADERSIZE <= |file| && header == file[offset..offset + HEADERSIZE]
    ensures header[..8] == file[offset..offset + 8] && header[8..16] == file[offset + 8..offset + 16]
    ensures header[16..32] == file[offset + 16..offset + 32] && header[32..48] == file[offset + 32..offset + 48]
  {
    SliceOfSlice(file, offset, HEADERSIZE, 0, 8);
    SliceOfSlice(file, offset, HEADERSIZE, 8, 8);
    SliceOfSlice(file, offset, HEADERSIZE, 16, 16);
    SliceOfSlice(file, offset, HEADERSIZE, 32, 16);
  }

  /** The checks of the length and the hash of what begins with the magic value */
  method CheckPacket(f: Compression, file: seq<u8>, offset: nat, header: seq<u8>, buffer: array<u8>)
    returns (ok: bool, length: nat)
    requires HEADERSIZE <= buffer.Length && MagicAt(file, offset) && header == file[offset..offset + HEADERSIZE]
    modifies buffer
    ensures ok <==> PacketAt(f, file, offset)
    ensures length == PacketLength(file, offset)
  {
    hide Digest, Number;
    HeaderFields(file, offset, header);
    length := Number(header[8..16]);
    if HEADERSIZE > length || length % 4 != 0 || |file| < offset + length {
      return false, length;
    }
    var hash := HashPacket(f, file, offset, header, length, buffer);
    ok := hash == header[16..32];
  }

  /** The packets that are handed on by the scanner that goes byte by byte, from an offset on */
  function Selected(f: Compression, file: seq<u8>, offset: nat, setid: SetId): seq<nat> {
    PacketsFit(f, file, offset);
    OfSet(file, Packets(f, file, offset), setid)
  }

  /** The set that is known after that: that of the first packet, if none was known */
  function SetIdAfter(f: Compression, file: seq<u8>, offset: nat, setid: SetId): SetId {
    PacketsFit(f, file, offset);
    if setid.Known? || Packets(f, file, offset) == [] then setid else Known(SetIdAt(file, Packets(f, file, offset)[0]))
  }

  lemma PacketsInOrder(f: Compression, file: seq<u8>)
    ensures Ascends(Packets(f, file, 0))
  {
    hide Packets;
    var packets := Packets(f, file, 0);
    PacketsFit(f, file, 0);
    forall i, j | 0 <= i < j < |packets| ensures packets[i] < packets[j] {
      PacketsAscend(f, file, 0, i, j);
      IsPacket(f, file, packets[i]);
    }
  }

  /** There is a packet, found by the scanner that goes byte by byte, with the set id of the set. */
  ghost predicate IsWanted(f: Compression, file: seq<u8>, known: SetId, p: nat) {
    PacketsFit(f, file, 0);
    p in Packets(f, file, 0) && p + 64 <= |file| && file[p + 32..p + 48] == SetOf(file, Packets(f, file, 0), known)
  }

  /** What is handed on, by the bytes of the file */
  lemma SelectedIs(f: Compression, file: seq<u8>, known: SetId, p: nat)
    ensures p in Selected(f, file, 0, known) <==> IsWanted(f, file, known, p)
    ensures Ascends(Selected(f, file, 0, known))
    ensures forall i :: 0 <= i < |Packets(f, file, 0)| ==> Packets(f, file, 0)[i] + 64 <= |file|
    ensures SetIdAfter(f, file, 0, known) ==
            if known == Unknown && Packets(f, file, 0) == [] then Unknown
            else Known(SetOf(file, Packets(f, file, 0), known))
  {
    hide Packets, OfSet, Ascends;
    var packets := Packets(f, file, 0);
    PacketsFit(f, file, 0);
    PacketsInOrder(f, file);
    OfSetMember(file, packets, known, p);
    OfSetOrder(file, packets, known);
  }

  /** LoadPacketsFromFile hands on the same packets, whatever the size of the buffer. */
  method LoadPacketsFromFile(f: Compression, file: seq<u8>, buffersize: nat, known: SetId)
    returns (packets: seq<nat>, setid: SetId)
    requires HEADERSIZE <= buffersize
    ensures packets == Selected(f, file, 0, known) && setid == SetIdAfter(f, file, 0, known)
    ensures Ascends(packets) && forall p: nat :: p in packets <==> IsWanted(f, file, known, p)
  {
    hide PacketAt, MagicAt, PacketLength, Selected, SetIdAfter, IsWanted, Ascends;
    packets, setid := [], known;
    var buffer := new u8[buffersize];
    var offset: nat := 0;
    while offset + HEADERSIZE <= |file|
      invariant Rest(f, file, offset, packets, setid, known)
      decreases |file| - offset
    {
      var header := file[offset..offset + HEADERSIZE];
      if header[..8] != MAGIC {
        NoMagic(f, file, offset);
        ghost var start := offset;
        offset, header := FindMagic(file, offset + 1, buffer);
        forall o: nat | start <= o < offset ensures !PacketAt(f, file, o) {
          NoPacket(f, file, o);
        }
        SkipRest(f, file, start, offset - start, packets, setid, known);
        if offset + HEADERSIZE > |file| {
          break;
        }
      } else {
        Magic(file, offset);
      }
      var ok, length := CheckPacket(f, file, offset, header, buffer);
      if !ok {
        NextByte(f, file, offset, packets, setid, known);
        offset := offset + 1;
      } else {
        HeaderFields(file, offset, header);
        NextPacket(f, file, offset, packets, setid, known);
        if setid == Unknown {
          setid := Known(header[32..48]);
        }
        if setid == Known(header[32..48]) {
          packets := packets + [offset];
        }
        offset := offset + length;
      }
    }
    AtEnd(f, file, offset, packets, setid, known);
    forall p: nat ensures p in Selected(f, file, 0, known) <==> IsWanted(f, file, known, p) {
      SelectedIs(f, file, known, p);
    }
    SelectedIs(f, file, known, 0);
  }

  /** What has been handed on, and what is still to come, is what the scanner that goes byte by byte hands on. */
  ghost predicate Rest(f: Compression, file: seq<u8>, offset: nat, packets: seq<nat>, setid: SetId, known: SetId) {
    && packets + Selected(f, file, offset, setid) == Selected(f, file, 0, known)
    && SetIdAfter(f, file, offset, setid) == SetIdAfter(f, file, 0, known)
  }

  lemma NoMagic(f: Compression, file: seq<u8>, offset: nat)
    requires offset + HEADERSIZE <= |file| && file[offset..offset + HEADERSIZE][..8] != MAGIC
    ensures !MagicAt(file, offset)
  {
    SliceOfSlice(file, offset, HEADERSIZE, 0, 8);
  }

  lemma Magic(file: seq<u8>, offset: nat)
    requires offset + HEADERSIZE <= |file| && file[offset..offset + HEADERSIZE][..8] == MAGIC
    ensures MagicAt(file, offset)
  {
    SliceOfSlice(file, offset, HEADERSIZE, 0, 8);
  }

  lemma NoPacket(f: Compression, file: seq<u8>, offset: nat)
    requires !MagicAt(file, offset)
    ensures !PacketAt(f, file, offset)
  {
  }

  lemma SkipRest(f: Compression, file: seq<u8>, offset: nat, n: nat, packets: seq<nat>, setid: SetId, known: SetId)
    requires Rest(f, file, offset, packets, setid, known)
    requires forall o: nat :: offset <= o < offset + n ==> !PacketAt(f, file, o)
    ensures Rest(f, file, offset + n, packets, setid, known)
  {
    hide PacketAt, OfSet;
    Skip(f, file, offset, n);
  }

  lemma NextByte(f: Compression, file: seq<u8>, offset: nat, packets: seq<nat>, setid: SetId, known: SetId)
    requires Rest(f, file, offset, packets, setid, known) && !PacketAt(f, file, offset)
    ensures Rest(f, file, offset + 1, packets, setid, known)
  {
    SkipRest(f, file, offset, 1, packets, setid, known);
  }

  lemma NextPacket(f: Compression, file: seq<u8>, offset: nat, packets: seq<nat>, setid: SetId, known: SetId)
    requires Rest(f, file, offset, packets, setid, known) && PacketAt(f, file, offset)
    ensures offset + HEADERSIZE <= |file| && PacketLength(file, offset) >= HEADERSIZE
            && offset + PacketLength(file, offset) <= |file|
    ensures var id := if setid.Known? then setid.id else SetIdAt(file, offset);
            Rest(f, file, offset + PacketLength(file, offset),
                 packets + (if id == SetIdAt(file, offset) then [offset] else []), Known(id), known)
  {
    hide PacketAt, PacketLength, Selected, SetIdAfter;
    LengthFits(f, file, offset);
    SelectedNext(f, file, offset, setid);
    SetIdNext(f, file, offset, setid);
  }

  lemma SetIdNext(f: Compression, file: seq<u8>, offset: nat, setid: SetId)
    requires PacketAt(f, file, offset)
    ensures offset + HEADERSIZE <= |file|
    ensures var id := if setid.Known? then setid.id else SetIdAt(file, offset);
            SetIdAfter(f, file, offset, setid) == SetIdAfter(f, file, offset + PacketLength(file, offset), Known(id))
                == Known(id)
  {
    LengthFits(f, file, offset);
    hide PacketAt, PacketLength;
    assert Packets(f, file, offset)[0] == offset;
  }

  lemma SelectedNext(f: Compression, file: seq<u8>, offset: nat, setid: SetId)
    requires PacketAt(f, file, offset)
    ensures offset + HEADERSIZE <= |file|
    ensures var id := if setid.Known? then setid.id else SetIdAt(file, offset);
            Selected(f, file, offset, setid) ==
              (if id == SetIdAt(file, offset) then [offset] else [])
                  + Selected(f, file, offset + PacketLength(file, offset), Known(id))
  {
    LengthFits(f, file, offset);
    hide PacketAt, PacketLength, OfSet;
    var next := offset + PacketLength(file, offset);
    PacketsFit(f, file, next);
    assert Packets(f, file, offset) == [offset] + Packets(f, file, next);
    OfSetFirst(file, offset, Packets(f, file, next), setid);
  }

  lemma OfSetFirst(file: seq<u8>, first: nat, later: seq<nat>, setid: SetId)
    requires first + HEADERSIZE <= |file| && forall i :: 0 <= i < |later| ==> later[i] + HEADERSIZE <= |file|
    ensures forall i :: 0 <= i < |[first] + later| ==> ([first] + later)[i] + HEADERSIZE <= |file|
    ensures var id := if setid.Known? then setid.id else SetIdAt(file, first);
            OfSet(file, [first] + later, setid)
                == (if id == SetIdAt(file, first) then [first] else []) + OfSet(file, later, Known(id))
  {
    assert ([first] + later)[1..] == later;
  }

  lemma AtEnd(f: Compression, file: seq<u8>, offset: nat, packets: seq<nat>, setid: SetId, known: SetId)
    requires Rest(f, file, offset, packets, setid, known) && offset + HEADERSIZE > |file|
    ensures packets == Selected(f, file, 0, known) && setid == SetIdAfter(f, file, 0, known)
  {
    hide PacketAt;
    assert Selected(f, file, offset, setid) == [];
  }
}
