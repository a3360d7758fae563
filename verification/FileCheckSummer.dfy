/** FileCheckSummer: a window of one block that slides over a file, its CRC, and the hashes of what has been read. */
module FileCheckSummer {
  import opened Bytes
  import opened Bits
  import opened Crc
  import opened Md5

  const FIRST16K: nat := 16384

  function Min(a: nat, b: nat): (m: nat)
    ensures m <= a && m <= b && (m == a || m == b)
  {
    if a <= b then a else b
  }

  class FileCheckSummer {
    const file: seq<u8>
    const blocksize: nat
    const table: array<nat>
    const windowtable: array<nat>
    const windowmask: nat
    const buffer: array<u8>
    const contextfull: MD5Context
    const context16k: MD5Context

    /** File offset of the window */
    var currentoffset: nat
    /** Positions in the buffer: the window, the byte after the window, and the end of the valid data */
    var outpointer: nat
    var inpointer: nat
    var tailpointer: nat
    /** File offset of the next read */
    var readoffset: nat
    var checksum: nat

    ghost function Footprint(): set<object> {
      {this, buffer, contextfull, contextfull.block, context16k, context16k.block}
    }

    /** The objects are distinct, and the tables are those of the block size. */
    ghost predicate Separate()
      reads table, windowtable
    {
      && blocksize > 0 && buffer.Length == 2 * blocksize
      && table !in Footprint() && windowtable !in Footprint()
      && contextfull != context16k && contextfull.block != context16k.block
      && buffer != contextfull.block && buffer != context16k.block
      && contextfull.compress == context16k.compress
      && IsTable(table) && IsWindowTable(windowtable, blocksize) && windowmask == WindowMask(blocksize)
    }

    /** The first n bytes of the file have been hashed once, in order. */
    ghost predicate Hashed(n: nat)
      requires n <= |file|
      reads contextfull, contextfull.block, context16k, context16k.block
    {
      && contextfull.Valid() && context16k.Valid()
      && context16k.message == file[..Min(n, FIRST16K)]
      && (n >= FIRST16K ==> contextfull.message == file[..n])
    }

    /** The buffer from the window on holds the file from the current offset on, as far as it has been read, and
        that is far enough for the window. */
    ghost predicate Windowed()
      reads this`currentoffset, this`outpointer, this`inpointer, this`tailpointer, this`readoffset, buffer
    {
      && buffer.Length == 2 * blocksize
      && currentoffset <= readoffset <= |file|
      && outpointer < blocksize && inpointer == outpointer + blocksize
      && outpointer <= tailpointer <= 2 * blocksize
      && buffer[outpointer..tailpointer] == file[currentoffset..readoffset]
      && readoffset >= Min(|file|, currentoffset + blocksize)
      && (readoffset < |file| ==> tailpointer == 2 * blocksize)
    }

    /** What is in the window, stale bytes after the end of the data included */
    ghost function Window(): seq<u8>
      requires buffer.Length == 2 * blocksize && outpointer <= blocksize
      reads this`outpointer, buffer
    {
      buffer[outpointer..outpointer + blocksize]
    }

    ghost predicate Valid()
      reads Footprint(), table, windowtable
    {
      && Separate()
      && currentoffset <= |file| && readoffset <= |file| && Hashed(readoffset)
      && (currentoffset < |file| ==> Windowed() && checksum == BlockCrc(Window()))
      && (currentoffset == |file| ==> readoffset == |file|)
    }

    constructor (file: seq<u8>, blocksize: nat, table: array<nat>, windowtable: array<nat>, windowmask: nat,
                 f: Compression)
      requires blocksize > 0 && IsTable(table) && IsWindowTable(windowtable, blocksize)
      requires windowmask == WindowMask(blocksize)
      ensures Separate() && fresh(Footprint()) && Hashed(0) && contextfull.compress == f
      ensures this.file == file && this.blocksize == blocksize && currentoffset == readoffset == 0
    {
      hide IsTable, IsWindowTable, WindowMask, MD5Context.Valid;
      this.file := file;
      this.blocksize := blocksize;
      this.table := table;
      this.windowtable := windowtable;
      this.windowmask := windowmask;
      buffer := new u8[2 * blocksize];
      contextfull := new MD5Context(f);
      context16k := new MD5Context(f);
      currentoffset, readoffset := 0, 0;
    }

    /** UpdateHashes: the first 16384 bytes go into one context, which then becomes the other. */
    method UpdateHashes(offset: nat, from: nat, length: nat)
      requires Separate() && offset + length <= |file| && Hashed(offset)
      requires from + length <= buffer.Length
      requires buffer[from..from + length] == file[offset..offset + length]
      modifies contextfull, contextfull.block, context16k, context16k.block
      ensures Hashed(offset + length)
    {
      hide IsTable, IsWindowTable, WindowMask, MD5Context.Valid;
      Parts(offset, from, length, length);
      if offset >= FIRST16K {
        contextfull.Update(buffer, from, length);
      } else if offset + length >= FIRST16K {
        var first := FIRST16K - offset;
        Parts(offset, from, length, first);
        context16k.Update(buffer, from, first);
        contextfull.Assign(context16k);
        if offset + length > FIRST16K {
          contextfull.Update(buffer, from + first, length - first);
        }
      } else {
        context16k.Update(buffer, from, length);
      }
    }

    /** The bytes of the buffer continue the file up to their end, in two parts. */
    lemma Parts(offset: nat, from: nat, length: nat, first: nat)
      requires offset + length <= |file| && from + length <= buffer.Length && first <= length
      requires buffer[from..from + length] == file[offset..offset + length]
      ensures file[..offset] + buffer[from..from + first] == file[..offset + first]
      ensures file[..offset + first] + buffer[from + first..from + length] == file[..offset + length]
    {
      assert buffer[from..from + first] == buffer[from..from + length][..first];
      assert buffer[from + first..from + length] == buffer[from..from + length][first..];
    }

    /** The window is at the start of the buffer, and what follows it is valid up to the tail. */
    ghost predicate Loaded()
      reads this, buffer
    {
      && buffer.Length == 2 * blocksize
      && currentoffset <= readoffset <= |file| && tailpointer <= 2 * blocksize
      && outpointer == 0 && inpointer == blocksize
      && buffer[..tailpointer] == file[currentoffset..readoffset]
    }

    /** Fill: it returns early when the whole file has been read, and then leaves stale bytes after the tail. */
    method Fill()
      requires Separate() && Loaded() && Hashed(readoffset)
      modifies this`readoffset, this`tailpointer, buffer
      modifies contextfull, contextfull.block, context16k, context16k.block
      ensures Separate() && Windowed() && Hashed(readoffset)
      ensures readoffset == old(readoffset) + Min(|file| - old(readoffset), 2 * blocksize - old(tailpointer))
      ensures buffer[..old(tailpointer)] == old(buffer[..tailpointer])
      ensures old(readoffset) == |file| ==> buffer[..] == old(buffer[..])
      ensures old(readoffset) < |file| ==> buffer[tailpointer..] == Zeros(2 * blocksize - tailpointer)
    {
      hide IsTable, IsWindowTable, WindowMask, MD5Context.Valid, Hashed;
      if readoffset >= |file| {
        return;
      }
      var want := Min(|file| - readoffset, 2 * blocksize - tailpointer);
      if want > 0 {
        ReadMore(want);
      }
      want := 2 * blocksize - tailpointer;
      if want > 0 {
        Blank(tailpointer, want);
      }
      assert buffer[outpointer..tailpointer] == file[currentoffset..readoffset];
    }

    /** More data is read behind the tail, and hashed. */
    method ReadMore(want: nat)
      requires Separate() && Loaded() && Hashed(readoffset)
      requires tailpointer + want <= 2 * blocksize && readoffset + want <= |file|
      modifies this`readoffset, this`tailpointer, buffer
      modifies contextfull, contextfull.block, context16k, context16k.block
      ensures Separate() && Loaded() && Hashed(readoffset)
      ensures readoffset == old(readoffset) + want && tailpointer == old(tailpointer) + want
      ensures buffer[..old(tailpointer)] == old(buffer[..tailpointer])
    {
      hide IsTable, IsWindowTable, WindowMask, MD5Context.Valid, Hashed;
      ghost var before := buffer[..];
      Read(readoffset, tailpointer, want);
      ReadOn(before, buffer[..], file, currentoffset, readoffset, tailpointer, want);
      hide Loaded;
      UpdateHashes(readoffset, tailpointer, want);
      readoffset := readoffset + want;
      tailpointer := tailpointer + want;
      IsLoaded();
    }

    /** The buffer b after `want` more bytes of the file have been read behind the tail of a */
    static lemma ReadOn(a: seq<u8>, b: seq<u8>, file: seq<u8>, current: nat, offset: nat, tail: nat, want: nat)
      requires tail + want <= |a| && current <= offset && offset + want <= |file| && a[..tail] == file[current..offset]
      requires b == a[..tail] + file[offset..offset + want] + a[tail + want..]
      ensures |b| == |a| && b[tail..tail + want] == file[offset..offset + want]
      ensures b[..tail] == a[..tail] && b[..tail + want] == file[current..offset + want]
    {
    }

    lemma IsLoaded()
      requires buffer.Length == 2 * blocksize && currentoffset <= readoffset <= |file| && tailpointer <= 2 * blocksize
      requires outpointer == 0 && inpointer == blocksize && buffer[..][..tailpointer] == file[currentoffset..readoffset]
      ensures Loaded()
    {
    }

    /** DiskFile::Read */
    method Read(offset: nat, at: nat, length: nat)
      requires offset + length <= |file| && at + length <= buffer.Length
      modifies buffer
      ensures buffer[..] == old(buffer[..at]) + file[offset..offset + length] + old(buffer[at + length..])
    {
      for i := 0 to length
        invariant forall j :: at <= j < at + i ==> buffer[j] == file[offset + j - at]
        invariant forall j :: 0 <= j < at || at + i <= j < buffer.Length ==> buffer[j] == old(buffer[j])
      {
        buffer[at + i] := file[offset + i];
      }
    }

    /** memset to zero */
    method Blank(at: nat, length: nat)
      requires at + length <= buffer.Length
      modifies buffer
      ensures buffer[..] == old(buffer[..at]) + Zeros(length) + old(buffer[at + length..])
    {
      for i := 0 to length
        invariant forall j :: at <= j < at + i ==> buffer[j] == 0
        invariant forall j :: 0 <= j < at || at + i <= j < buffer.Length ==> buffer[j] == old(buffer[j])
      {
        buffer[at + i] := 0;
      }
    }

    /** memmove to the start of the buffer */
    method MoveDown(from: nat, keep: nat)
      requires from + keep <= buffer.Length
      modifies buffer
      ensures buffer[..] == old(buffer[from..from + keep]) + old(buffer[keep..])
    {
      for i := 0 to keep
        invariant forall j :: 0 <= j < i ==> buffer[j] == old(buffer[from + j])
        invariant forall j :: i <= j < buffer.Length ==> buffer[j] == old(buffer[j])
      {
        buffer[i] := buffer[from + i];
      }
    }

    /** Start reading the file at the beginning */
    method Start() returns (ok: bool)
      requires Separate() && Hashed(0)
      modifies Footprint()
      ensures ok && Valid() && currentoffset == 0
      ensures |file| > 0 ==> outpointer < blocksize
      ensures |file| > 0 ==> Window() == file[..Min(|file|, blocksize)] + Zeros(blocksize - Min(|file|, blocksize))
    {
      hide IsTable, IsWindowTable, WindowMask, MD5Context.Valid, BlockCrc, Hashed, Windowed;
      currentoffset, readoffset := 0, 0;
      tailpointer, outpointer, inpointer := 0, 0, blocksize;
      Fill();
      FirstWindow();
      Recompute();
      ok := true;
    }

    /** A file that is shorter than a block is followed by zeros. */
    lemma FirstWindow()
      requires Windowed() && currentoffset == 0 && outpointer == 0
      requires |file| > 0 ==> buffer[tailpointer..] == Zeros(2 * blocksize - tailpointer)
      ensures |file| > 0 ==> Window() == file[..Min(|file|, blocksize)] + Zeros(blocksize - Min(|file|, blocksize))
      ensures buffer[..blocksize] == Window() && readoffset <= |file| && (|file| == 0 ==> readoffset == 0)
    {
      if |file| > 0 {
        assert buffer[..tailpointer] == file[..readoffset];
        var n := Min(|file|, blocksize);
        assert Window()[..n] == buffer[..tailpointer][..n] == file[..n];
        assert Window()[n..] == Zeros(blocksize - n);
        assert Window() == Window()[..n] + Window()[n..];
      }
    }

    /** The checksum of the block at the start of the buffer */
    method Recompute()
      requires Separate()
      modifies this`checksum
      ensures checksum == BlockCrc(buffer[..blocksize])
    {
      hide Register, Xor;
      var crc := UpdateBlock(table, ONES, buffer, 0, blocksize);
      checksum := Xor(ONES, crc);
    }

    /** The window has reached the end of the file. */
    method Finish()
      requires Separate() && readoffset == |file| && Hashed(|file|)
      modifies this`currentoffset, this`tailpointer, this`outpointer, this`checksum, buffer
      ensures Valid() && currentoffset == |file| && checksum == 0
      ensures tailpointer == outpointer == 0 && buffer[..blocksize] == Zeros(blocksize)
    {
      hide IsTable, IsWindowTable, WindowMask, MD5Context.Valid, BlockCrc;
      currentoffset := |file|;
      tailpointer, outpointer := 0, 0;
      Blank(0, blocksize);
      checksum := 0;
    }

    /** The checksum after a byte has left a window and another has entered it */
    method Slid(inch: u8, outch: u8, ghost window: seq<u8>) returns (crc: nat)
      requires Separate() && |window| == blocksize && window[0] == outch && checksum == BlockCrc(window)
      ensures crc == BlockCrc(window[1..] + [inch])
    {
      hide IsTable, IsWindowTable, WindowMask, BlockCrc, Slide, Xor;
      SlideIsCrc(window, inch);
      crc := Xor(windowmask, SlideChar(table, windowtable, blocksize, Xor(windowmask, checksum), inch, outch));
    }

    /** The byte after the window comes in, the first one goes out, and the checksum follows. */
    method Roll()
      requires Separate() && outpointer < blocksize && inpointer == outpointer + blocksize
      requires checksum == BlockCrc(Window())
      modifies this`inpointer, this`outpointer, this`checksum
      ensures outpointer == old(outpointer) + 1 && inpointer == outpointer + blocksize
      ensures checksum == BlockCrc(Window())
    {
      hide IsTable, IsWindowTable, WindowMask, MD5Context.Valid, BlockCrc;
      var inch, outch := buffer[inpointer], buffer[outpointer];
      NextWindow(buffer[..], outpointer, blocksize);
      assert buffer[..][outpointer..outpointer + blocksize] == Window();
      checksum := Slid(inch, outch, Window());
      inpointer, outpointer := inpointer + 1, outpointer + 1;
      assert buffer[..][outpointer..outpointer + blocksize] == Window();
    }

    static lemma NextWindow(b: seq<u8>, out: nat, n: nat)
      requires 0 < n && out + n < |b|
      ensures b[out + 1..out + 1 + n] == b[out..out + n][1..] + [b[out + n]] && b[out..out + n][0] == b[out]
    {
    }

    /** Step forward one byte */
    method Step() returns (ok: bool)
      requires Valid()
      modifies Footprint()
      ensures Valid()
      ensures ok <==> old(currentoffset) < |file|
      ensures currentoffset == if ok then old(currentoffset) + 1 else old(currentoffset)
      ensures ok && currentoffset == |file| ==> checksum == 0
    {
      hide IsTable, IsWindowTable, WindowMask, MD5Context.Valid, BlockCrc, Slide, Xor, Hashed;
      if currentoffset >= |file| {
        return false;
      }
      currentoffset := currentoffset + 1;
      if currentoffset >= |file| {
        Finish();
        return true;
      }
      Roll();
      if outpointer < blocksize {
        return true;
      }
      Rewind();
      ok := true;
    }

    /** The window has slid one block along the buffer, and is moved back to its start. */
    method Rewind()
      requires Separate() && readoffset <= |file| && Hashed(readoffset)
      requires currentoffset < readoffset && outpointer == blocksize <= tailpointer <= 2 * blocksize
      requires buffer[outpointer..tailpointer] == file[currentoffset..readoffset]
      requires readoffset < |file| ==> tailpointer == 2 * blocksize
      modifies Footprint()
      ensures Separate() && Windowed() && Hashed(readoffset)
      ensures Window() == old(Window()) && currentoffset == old(currentoffset) && checksum == old(checksum)
    {
      hide IsTable, IsWindowTable, WindowMask, MD5Context.Valid, Hashed, Loaded, Windowed;
      ghost var window := Window();
      BackToStart();
      ghost var kept := tailpointer;
      assert buffer[..blocksize] == window;
      Fill();
      assert kept == blocksize ==> buffer[..blocksize] == window;
      assert Window() == buffer[..blocksize];
    }

    /** The window is copied to the start of the buffer. */
    method BackToStart()
      requires Separate() && currentoffset <= readoffset <= |file|
               && outpointer == blocksize <= tailpointer <= 2 * blocksize
      requires buffer[outpointer..tailpointer] == file[currentoffset..readoffset]
      modifies this`inpointer, this`outpointer, this`tailpointer, buffer
      ensures Loaded() && tailpointer == old(tailpointer) - blocksize && outpointer == 0
      ensures buffer[..blocksize] == old(Window())
    {
      hide IsTable, IsWindowTable, WindowMask, MD5Context.Valid;
      Moved(buffer[..], blocksize, tailpointer);
      ghost var before := buffer[..];
      MoveDown(outpointer, blocksize);
      inpointer, outpointer := outpointer, 0;
      tailpointer := tailpointer - blocksize;
      assert buffer[..] == before[blocksize..blocksize + blocksize] + before[blocksize..];
    }

    static lemma Moved(b: seq<u8>, n: nat, tail: nat)
      requires |b| == 2 * n && n <= tail <= |b|
      ensures (b[n..n + n] + b[n..])[..tail - n] == b[n..tail] && (b[n..n + n] + b[n..])[..n] == b[n..n + n]
    {
    }

    /** The data before the window is dropped. */
    method Discard(distance: nat)
      requires Separate() && currentoffset <= readoffset <= |file|
      requires outpointer + distance <= tailpointer <= 2 * blocksize
      requires buffer[outpointer + distance..tailpointer] == file[currentoffset..readoffset]
      modifies this`outpointer, this`inpointer, this`tailpointer, buffer
      ensures Loaded()
    {
      hide IsTable, IsWindowTable, WindowMask, MD5Context.Valid;
      outpointer := outpointer + distance;
      var keep := tailpointer - outpointer;
      if keep > 0 {
        MoveDown(outpointer, keep);
        tailpointer := keep;
      } else {
        tailpointer := 0;
      }
      outpointer, inpointer := 0, blocksize;
    }

    /** Jump ahead by at most one block */
    method Jump(distance: nat) returns (ok: bool)
      requires Valid()
      modifies Footprint()
      ensures Valid()
      ensures ok <==> old(currentoffset) < |file| && distance > 0
      ensures currentoffset
           == if ok then Min(|file|, old(currentoffset) + Min(distance, blocksize)) else old(currentoffset)
      ensures ok && currentoffset == |file| ==> checksum == 0
    {
      hide IsTable, IsWindowTable, WindowMask, MD5Context.Valid, BlockCrc, Hashed;
      if currentoffset >= |file| {
        return false;
      }
      if distance == 0 {
        return false;
      }
      if distance == 1 {
        ok := Step();
        return;
      }
      var clamped := Min(distance, blocksize);
      if currentoffset + clamped >= |file| {
        Finish();
        return true;
      }
      Advance(clamped);
      ok := true;
    }

    /** The window jumps within the file. */
    method Advance(distance: nat)
      requires Valid() && distance <= blocksize && currentoffset + distance < |file|
      modifies Footprint()
      ensures Valid() && currentoffset == old(currentoffset) + distance
    {
      hide IsTable, IsWindowTable, WindowMask, MD5Context.Valid, BlockCrc, Hashed, Windowed;
      Ahead(distance);
      currentoffset := currentoffset + distance;
      Discard(distance);
      Fill();
      Recompute();
    }

    /** What is ahead in the buffer is what is ahead in the file. */
    lemma Ahead(distance: nat)
      requires Windowed() && distance <= blocksize && currentoffset + distance < |file|
      ensures buffer.Length == 2 * blocksize && outpointer + distance <= tailpointer <= 2 * blocksize
      ensures currentoffset + distance <= readoffset <= |file|
      ensures buffer[outpointer + distance..tailpointer] == file[currentoffset + distance..readoffset]
    {
      assert buffer[outpointer + distance..tailpointer] == buffer[outpointer..tailpointer][distance..];
    }

    // ----- what the scanner reads

    /** BlockLength: the bytes of the file that are under the window */
    function BlockLength(): (n: nat)
      requires currentoffset <= |file|
      reads this
    {
      Min(blocksize, |file| - currentoffset)
    }

    /** The bytes of the file that are under the window */
    ghost function Slice(): (s: seq<u8>)
      requires currentoffset <= |file|
      reads this
    {
      file[currentoffset..currentoffset + BlockLength()]
    }

    /** The window begins with the slice of the file, and is the slice if it is full. */
    lemma WindowIsSlice()
      requires Valid() && currentoffset < |file|
      ensures outpointer < blocksize && Window()[..BlockLength()] == Slice()
      ensures BlockLength() == blocksize ==> Window() == Slice()
      ensures checksum == BlockCrc(Window())
    {
      hide IsTable, IsWindowTable, WindowMask, MD5Context.Valid, BlockCrc, Hashed;
      var n := BlockLength();
      assert buffer[outpointer..outpointer + n] == buffer[outpointer..tailpointer][..n];
      assert Slice() == file[currentoffset..readoffset][..n];
    }

    /** The first n bytes of the window, padded with zeros to a block */
    ghost function Cut(n: nat): (s: seq<u8>)
      requires buffer.Length == 2 * blocksize && outpointer <= blocksize && n <= blocksize
      reads this, buffer
    {
      Window()[..n] + Zeros(blocksize - n)
    }

    /** Up to the end of the file they are the bytes of the file. */
    lemma CutIsSlice(n: nat)
      requires Valid() && currentoffset < |file| && n <= BlockLength()
      ensures outpointer < blocksize && Cut(n) == Slice()[..n] + Zeros(blocksize - n)
    {
      hide IsTable, IsWindowTable, WindowMask, MD5Context.Valid, BlockCrc, Hashed;
      WindowIsSlice();
      assert Window()[..n] == Window()[..BlockLength()][..n];
    }

    /** What is in the window agrees with the file as far as the file goes. */
    lemma WindowInFile(n: nat)
      requires Valid() && currentoffset < |file| && n <= blocksize
      ensures outpointer < blocksize && buffer.Length == 2 * blocksize
      ensures var m := Min(n, |file| - currentoffset);
              && Window()[..m] == file[currentoffset..currentoffset + m]
                  && Cut(n)[..m] == file[currentoffset..currentoffset + m]
    {
      hide IsTable, IsWindowTable, WindowMask, MD5Context.Valid, BlockCrc, Hashed;
      WindowIsSlice();
      var m := Min(n, |file| - currentoffset);
      assert Window()[..m] == Window()[..BlockLength()][..m];
      assert Slice()[..m] == file[currentoffset..currentoffset + m];
      assert Cut(n)[..m] == Window()[..m];
    }

    /** ShortChecksum: the CRC of the first bytes of the window, padded with zeros to a block */
    method ShortChecksum(blocklength: nat) returns (crc: nat)
      requires Valid() && currentoffset < |file| && blocklength <= blocksize
      ensures Valid() && outpointer < blocksize && crc == BlockCrc(Cut(blocklength))
      ensures blocklength <= BlockLength() ==> crc == BlockCrc(Slice()[..blocklength] + Zeros(blocksize - blocklength))
    {
      hide IsTable, IsWindowTable, WindowMask, MD5Context.Valid, Hashed, BlockCrc, Windowed;
      WindowIsSlice();
      if blocklength <= BlockLength() { CutIsSlice(blocklength); }
      crc := CrcCut(blocklength);
    }

    method CrcCut(blocklength: nat) returns (crc: nat)
      requires IsTable(table) && buffer.Length == 2 * blocksize && outpointer < blocksize && blocklength <= blocksize
      ensures crc == BlockCrc(Cut(blocklength))
    {
      hide IsTable, Register, Xor;
      crc := UpdateBlock(table, ONES, buffer, outpointer, blocklength);
      ghost var r := crc;
      if blocksize > blocklength {
        crc := UpdateBlockZeros(table, crc, blocksize - blocklength);
      }
      assert Window()[..blocklength] == buffer[outpointer..outpointer + blocklength];
      RegisterZeros(r, Zeros(blocksize - blocklength));
      RegisterConcat(ONES, Window()[..blocklength], Zeros(blocksize - blocklength));
      XorComm(crc, ONES);
      crc := Xor(crc, ONES);
    }

    /** Hash: the hash of the window */
    method Hash() returns (hash: seq<u8>)
      requires Valid() && currentoffset < |file|
      ensures outpointer < blocksize && hash == Digest(contextfull.compress, Window())
      ensures BlockLength() == blocksize ==> hash == Digest(contextfull.compress, Slice())
    {
      hide IsTable, IsWindowTable, WindowMask, MD5Context.Valid, Hashed, Digest, Windowed, BlockCrc;
      WindowInFile(0);
      WindowIsSlice();
      hash := HashWindow();
    }

    method HashWindow() returns (hash: seq<u8>)
      requires buffer.Length == 2 * blocksize && outpointer < blocksize
      ensures hash == Digest(contextfull.compress, Window())
    {
      hide Digest, MD5Context.Valid;
      var context := new MD5Context(contextfull.compress);
      context.Update(buffer, outpointer, blocksize);
      assert context.message == Window();
      hash := context.Final();
    }

    /** ShortHash: the hash of the first bytes of the window, padded with zeros to a block */
    method ShortHash(blocklength: nat) returns (hash: seq<u8>)
      requires Valid() && currentoffset < |file| && blocklength <= blocksize
      ensures outpointer < blocksize && hash == Digest(contextfull.compress, Cut(blocklength))
      ensures blocklength <= BlockLength() ==>
                hash == Digest(contextfull.compress, Slice()[..blocklength] + Zeros(blocksize - blocklength))
    {
      hide IsTable, IsWindowTable, WindowMask, MD5Context.Valid, Hashed, Digest, Windowed, BlockCrc;
      WindowIsSlice();
      if blocklength <= BlockLength() { CutIsSlice(blocklength); }
      hash := HashCut(blocklength);
    }

    method HashCut(blocklength: nat) returns (hash: seq<u8>)
      requires buffer.Length == 2 * blocksize && outpointer < blocksize && blocklength <= blocksize
      ensures hash == Digest(contextfull.compress, Cut(blocklength))
    {
      hide Digest, MD5Context.Valid;
      var context := new MD5Context(contextfull.compress);
      context.Update(buffer, outpointer, blocklength);
      if blocksize > blocklength {
        context.UpdateZeros(blocksize - blocklength);
      }
      assert context.message == Cut(blocklength);
      hash := context.Final();
    }

    /** GetFileHashes, at the end of the file: the hashes of the whole file and of its first 16384 bytes */
    method GetFileHashes() returns (hashfull: seq<u8>, hash16k: seq<u8>)
      requires Valid() && readoffset == |file|
      ensures hashfull == Digest(contextfull.compress, file)
      ensures hash16k == Digest(contextfull.compress, file[..Min(|file|, 16384)])
    {
      hide IsTable, IsWindowTable, WindowMask, MD5Context.Valid, Digest;
      assert file[..|file|] == file;
      var context := new MD5Context.Copy(context16k);
      hash16k := context.Final();
      if |file| < FIRST16K {
        hashfull := hash16k;
      } else {
        context := new MD5Context.Copy(contextfull);
        hashfull := context.Final();
      }
    }
  }
}
