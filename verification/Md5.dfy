/** MD5Context: a message that arrives in pieces is cut into blocks of 64 octets through a buffer. What one block
    does to the state (MD5State::UpdateState) is a parameter of the model. */
module Md5 {
  import opened Bytes

  type u32 = x: nat | x < 0x1_0000_0000
  type State = s: seq<u32> | |s| == 4 witness [0, 0, 0, 0]
  type Compression = (State, seq<u32>) -> State

  /** MD5State::Reset */
  const INITIAL: State := [0x67452301, 0xefcdab89, 0x98badcfe, 0x10325476]
  const BUFFERSIZE: nat := 64

  // ----- RFC 1321 on a whole message

  function Word(b0: u8, b1: u8, b2: u8, b3: u8): u32 {
    256 * (256 * (256 * (b3 as nat) + b2) + b1) + b0
  }

  /** The little-endian words of a block */
  function Words(block: seq<u8>): (w: seq<u32>)
    requires |block| == 64
    ensures |w| == 16
  {
    seq(16, i requires 0 <= i < 16 => Word(block[4 * i], block[4 * i + 1], block[4 * i + 2], block[4 * i + 3]))
  }

  /** The state after all the blocks of a message */
  function Absorbed(f: Compression, m: seq<u8>): State
    requires |m| % 64 == 0
  {
    if m == [] then INITIAL else f(Absorbed(f, m[..|m| - 64]), Words(m[|m| - 64..]))
  }

  /** Sections 3.1 and 3.2: a one bit, zeros up to 448 modulo 512 bits, and the low 64 bits of the length in bits */
  function Padding(n: nat): (p: seq<u8>)
    ensures (n + |p|) % 64 == 0
  {
    hide Wrapped, Octet;
    WholeBlocks(n);
    [0x80] + Zeros((55 - n) % 64) + Octets(Wrapped(8 * n), 8)
  }

  lemma WholeBlocks(n: nat)
    ensures (n + 1 + (55 - n) % 64 + 8) % 64 == 0
  {
  }

  lemma PaddingParts(m: seq<u8>)
    ensures m + ([0x80] + Zeros((55 - |m|) % 64)) + Octets(Wrapped(8 * |m|), 8) == m + Padding(|m|)
  {
    hide Wrapped, Octet;
  }

  /** A u64 */
  function Wrapped(n: nat): nat {
    n % 0x1_0000_0000_0000_0000
  }

  /** Section 3.5: the state, low-order octet first */
  function Output(s: State): (h: seq<u8>)
    ensures |h| == 16
  {
    Octets(s[0], 4) + Octets(s[1], 4) + Octets(s[2], 4) + Octets(s[3], 4)
  }

  function Digest(f: Compression, m: seq<u8>): (h: seq<u8>)
    ensures |h| == 16
  {
    Output(Absorbed(f, m + Padding(|m|)))
  }

  // ----- the octets that sections 3.1, 3.2 and 3.5 ask for

  /** The words of a block have their low-order octet first. */
  lemma WordsAreNumbers(block: seq<u8>, i: nat)
    requires |block| == 64 && i < 16
    ensures Words(block)[i] == Number(block[4 * i..4 * i + 4])
  {
    var s := block[4 * i..4 * i + 4];
    FourOctets(s);
  }

  lemma FourOctets(s: seq<u8>)
    requires |s| == 4
    ensures Number(s) == Word(s[0], s[1], s[2], s[3])
  {
    var t, u, v := s[1..], s[2..], s[3..];
    assert t[1..] == u && u[1..] == v && v[1..] == [];
    assert Number(v) == v[0] && Number(u) == u[0] + 256 * Number(v) && Number(t) == t[0] + 256 * Number(u);
  }

  /** The padding is an octet 128, zeros, and the length of the message in bits, modulo 2^64 and low-order octet
      first; it fills up the last block, and is no longer than need be. */
  lemma PaddingIs(n: nat)
    ensures var p := Padding(n);
            && 9 <= |p| <= 72 && (n + |p|) % 64 == 0 && p[0] == 128
            && (forall i :: 1 <= i < |p| - 8 ==> p[i] == 0)
            && Number(p[|p| - 8..]) == 8 * n % 0x1_0000_0000_0000_0000
  {
    var p := Padding(n);
    hide Octet;
    assert p[|p| - 8..] == Octets(Wrapped(8 * n), 8);
    OctetsNumber(Wrapped(8 * n), 8);
    EightOctets();
    WrapTwice(8 * n);
  }

  lemma EightOctets()
    ensures Pow256(8) == 0x1_0000_0000_0000_0000
  {
    assert Pow256(4) == 0x1_0000_0000;
  }

  lemma WrapTwice(n: nat)
    ensures Wrapped(n) % 0x1_0000_0000_0000_0000 == n % 0x1_0000_0000_0000_0000
  {
  }

  /** The digest has the words of the state, low-order octet first. */
  lemma OutputIs(s: State, i: nat)
    requires i < 4
    ensures Number(Output(s)[4 * i..4 * i + 4]) == s[i]
  {
    hide Octet;
    assert Output(s)[4 * i..4 * i + 4] == Octets(s[i], 4);
    OctetsNumber(s[i], 4);
    assert Pow256(4) == 0x1_0000_0000;
  }

  /** The state begins with the octets of section 3.3. */
  lemma InitialIs()
    ensures Number([0x01, 0x23, 0x45, 0x67]) == INITIAL[0] && Number([0x89, 0xab, 0xcd, 0xef]) == INITIAL[1]
    ensures Number([0xfe, 0xdc, 0xba, 0x98]) == INITIAL[2] && Number([0x76, 0x54, 0x32, 0x10]) == INITIAL[3]
  {
    FourOctets([0x01, 0x23, 0x45, 0x67]);
    FourOctets([0x89, 0xab, 0xcd, 0xef]);
    FourOctets([0xfe, 0xdc, 0xba, 0x98]);
    FourOctets([0x76, 0x54, 0x32, 0x10]);
  }

  // ----- the buffered form

  /** One more block */
  lemma AbsorbOne(f: Compression, m: seq<u8>, block: seq<u8>)
    requires |m| % 64 == 0 && |block| == 64
    ensures Absorbed(f, m + block) == f(Absorbed(f, m), Words(block))
  {
    assert (m + block)[..|m + block| - 64] == m;
    assert (m + block)[|m + block| - 64..] == block;
  }

  lemma {:induction false} WrapMore(a: nat, q: nat)
    ensures Wrapped(a + 0x1_0000_0000_0000_0000 * q) == Wrapped(a)
    decreases q
  {
    if q > 0 {
      WrapOnce(a + 0x1_0000_0000_0000_0000 * (q - 1));
      WrapMore(a, q - 1);
    }
  }

  lemma WrapOnce(a: nat)
    ensures Wrapped(a + 0x1_0000_0000_0000_0000) == Wrapped(a)
  {
  }

  lemma WrapParts(a: nat)
    ensures a == Wrapped(a) + 0x1_0000_0000_0000_0000 * (a / 0x1_0000_0000_0000_0000)
  {
  }

  lemma WrapAdd(a: nat, b: nat)
    ensures Wrapped(Wrapped(a) + b) == Wrapped(a + b)
  {
    hide Wrapped;
    WrapParts(a);
    WrapMore(Wrapped(a) + b, a / 0x1_0000_0000_0000_0000);
  }

  lemma WrapBits(a: nat)
    ensures Wrapped(8 * Wrapped(a)) == Wrapped(8 * a)
  {
    hide Wrapped;
    WrapParts(a);
    WrapMore(8 * Wrapped(a), 8 * (a / 0x1_0000_0000_0000_0000));
  }

  /** The program's two cases for the padding give the number of zeros of section 3.1. */
  lemma PaddingLength(n: nat, used: nat)
    requires used < 64 && used <= n && (n - used) % 64 == 0
    ensures 1 + (55 - n) % 64 == if used >= 56 then 120 - used else 56 - used
  {
  }

  lemma NoneLeft(n: nat, used: nat)
    requires used < 64 && used <= n && (n - used) % 64 == 0 && n % 64 == 0
    ensures used == 0
  {
  }

  class MD5Context {
    const compress: Compression
    var state: State
    const block: array<u8>
    var used: nat
    var bytes: nat
    /** All that has been hashed so far */
    ghost var message: seq<u8>

    ghost predicate Valid()
      reads this, block
    {
      && Buffered()
      && bytes == Wrapped(|message|)
    }

    /** Whole blocks are in the state, and the rest is in the buffer. */
    ghost predicate Buffered()
      reads this, block
    {
      && block.Length == BUFFERSIZE
      && used < BUFFERSIZE && used <= |message| && (|message| - used) % 64 == 0
      && block[..used] == message[|message| - used..]
      && state == Absorbed(compress, message[..|message| - used])
    }

    constructor (f: Compression)
      ensures Valid() && fresh(block) && message == [] && compress == f
    {
      compress := f;
      state := INITIAL;
      block := new u8[BUFFERSIZE];
      used := 0;
      bytes := 0;
      message := [];
    }

    /** The copy `MD5Context context = other` */
    constructor Copy(other: MD5Context)
      requires other.Valid()
      ensures Valid() && fresh(block) && message == other.message && compress == other.compress
    {
      compress := other.compress;
      state := other.state;
      block := new u8[BUFFERSIZE](i requires 0 <= i < BUFFERSIZE
          && other.Valid() reads other, other.block => other.block[i]);
      used := other.used;
      bytes := other.bytes;
      message := other.message;
      new;
      assert block[..used] == other.block[..used];
    }

    /** The assignment `*this = other` */
    method Assign(other: MD5Context)
      requires Valid() && other.Valid() && other != this && other.block != block && other.compress == compress
      modifies this, block
      ensures Valid() && message == other.message
    {
      state := other.state;
      used := other.used;
      bytes := other.bytes;
      message := other.message;
      CopyIn(other.block, 0, BUFFERSIZE, 0);
      assert block[..used] == other.block[..used];
    }

    /** memcpy into the block */
    method CopyIn(source: array<u8>, from: nat, length: nat, at: nat)
      requires source != block && from + length <= source.Length && at + length <= block.Length
      modifies block
      ensures block[..] == old(block[..at]) + source[from..from + length] + old(block[at + length..])
    {
      for i := 0 to length
        invariant forall j :: at <= j < at + i ==> block[j] == source[from + j - at]
        invariant forall j :: 0 <= j < at || at + i <= j < block.Length ==> block[j] == old(block[j])
      {
        block[at + i] := source[from + i];
      }
    }

    /** The block as words, for MD5State::UpdateState */
    method LoadWords() returns (w: seq<u32>)
      requires block.Length == BUFFERSIZE
      ensures w == Words(block[..])
    {
      w := [];
      for i := 0 to 16
        invariant |w| == i && forall j :: 0 <= j < i ==> w[j] == Words(block[..])[j]
      {
        w := w + [Word(block[4 * i], block[4 * i + 1], block[4 * i + 2], block[4 * i + 3])];
      }
    }

    /** Update with data from a buffer */
    method Update(buffer: array<u8>, from: nat, length: nat)
      requires Valid() && buffer != block && from + length <= buffer.Length
      modifies this, block
      ensures Valid() && message == old(message) + buffer[from..from + length]
    {
      hide Wrapped, Absorbed, Words;
      WrapAdd(|message|, length);
      bytes := Wrapped(bytes + length);
      assert Buffered() && used < BUFFERSIZE;
      hide Buffered;
      var current: nat, left: nat := from, length;
      while used + left >= BUFFERSIZE
        invariant Buffered() && used < BUFFERSIZE && current + left == from + length && from <= current
        invariant message == old(message) + buffer[from..current]
        invariant bytes == Wrapped(|old(message)| + length)
        decreases left
      {
        var have := BUFFERSIZE - used;
        Fill(buffer, current, have);
        current := current + have;
        left := left - have;
      }
      if left > 0 {
        Keep(buffer, current, left);
      }
    }

    /** What is left over stays in the buffer. */
    method Keep(buffer: array<u8>, current: nat, left: nat)
      requires Buffered() && buffer != block && used + left < BUFFERSIZE && current + left <= buffer.Length
      modifies this, block
      ensures Buffered() && used == old(used) + left && bytes == old(bytes)
      ensures message == old(message) + buffer[current..current + left]
    {
      hide Wrapped, Absorbed, Words;
      CopyIn(buffer, current, left, used);
      KeepTail(message, used, old(block[..]), block[..], buffer[current..current + left]);
      message := message + buffer[current..current + left];
      used := used + left;
    }

    /** The tail of the message in a block, before and after a piece has been put behind it */
    static lemma KeepTail(message: seq<u8>, used: nat, a: seq<u8>, b: seq<u8>, piece: seq<u8>)
      requires used <= |message| && used + |piece| <= |a| && a[..used] == message[|message| - used..]
      requires b == a[..used] + piece + a[used + |piece|..]
      ensures var more := message + piece;
              && |b| == |a| && b[..used + |piece|] == more[|more| - (used + |piece|)..]
              && more[..|more| - (used + |piece|)] == message[..|message| - used]
    {
      var more := message + piece;
      assert message[|message| - used..] + piece == more[|message| - used..];
    }

    /** The buffer is filled up and its block goes into the state. */
    method Fill(buffer: array<u8>, current: nat, have: nat)
      requires Buffered() && buffer != block && have == BUFFERSIZE - used && current + have <= buffer.Length
      modifies this, block
      ensures Buffered() && used == 0 && bytes == old(bytes)
      ensures message == old(message) + buffer[current..current + have]
    {
      hide Wrapped, Absorbed, Words;
      CopyIn(buffer, current, have, used);
      KeepTail(message, used, old(block[..]), block[..], buffer[current..current + have]);
      var w := LoadWords();
      ghost var whole := message[..|message| - used];
      AbsorbOne(compress, whole, block[..]);
      state := compress(state, w);
      message := message + buffer[current..current + have];
      assert block[..BUFFERSIZE] == block[..];
      assert message == message[..|message| - BUFFERSIZE] + message[|message| - BUFFERSIZE..];
      used := 0;
      assert message[..|message| - used] == message;
    }

    /** Update with zeros */
    method UpdateZeros(length: nat)
      requires Valid()
      modifies this, block
      ensures Valid() && message == old(message) + Zeros(length)
    {
      hide Wrapped, Absorbed, Words;
      var wordblock := new u8[BUFFERSIZE](_ => 0);
      var left: nat := length;
      if used > 0 {
        var size := if BUFFERSIZE - used <= left then BUFFERSIZE - used else left;
        Update(wordblock, 0, size);
        left := left - size;
      }
      while left >= BUFFERSIZE
        invariant Valid() && left <= length && wordblock[..] == Zeros(BUFFERSIZE)
        invariant message == old(message) + Zeros(length - left)
      {
        Update(wordblock, 0, BUFFERSIZE);
        left := left - BUFFERSIZE;
      }
      if left > 0 {
        Update(wordblock, 0, left);
      }
    }

    /** Final */
    method Final() returns (output: seq<u8>)
      requires Valid()
      modifies this, block
      ensures output == Digest(compress, old(message))
    {
      hide Wrapped, Absorbed, Words, Octet, Output;
      var bits := Wrapped(bytes * 8);
      WrapBits(|message|);
      var buffer := PadUp();
      PutLength(buffer, bits);
      Update(buffer, 0, 8);
      PaddingParts(old(message));
      assert buffer[0..8] == buffer[..8];
      NoneLeft(|message|, used);
      assert message[..|message| - used] == message;
      output := ReadOut();
    }

    /** As many octets of padding as leave room for the bit count */
    method PadUp() returns (buffer: array<u8>)
      requires Valid()
      modifies this, block
      ensures Valid() && message == old(message) + ([0x80] + Zeros((55 - |old(message)|) % 64))
      ensures fresh(buffer) && buffer.Length == 64
    {
      hide Wrapped, Absorbed, Words, Octet, Output;
      var padding := if used >= BUFFERSIZE - 8 then BUFFERSIZE - 8 + BUFFERSIZE - used else BUFFERSIZE - 8 - used;
      PaddingLength(|message|, used);
      buffer := new u8[64](_ => 0);
      buffer[0] := 0x80;
      assert buffer[..padding] == [0x80] + Zeros((55 - |message|) % 64);
      Update(buffer, 0, padding);
    }

    /** The bit count, low octet first */
    static method PutLength(buffer: array<u8>, bits: nat)
      requires buffer.Length == 64
      modifies buffer
      ensures buffer[..8] == Octets(bits, 8)
    {
      hide Octet;
      for i := 0 to 8
        invariant forall j :: 0 <= j < i ==> buffer[j] == Octet(bits, j)
      {
        buffer[i] := Octet(bits, i);
      }
    }

    /** The state as octets */
    method ReadOut() returns (output: seq<u8>)
      ensures output == Output(state)
    {
      hide Octet;
      output := [];
      for i := 0 to 4
        invariant output == Output(state)[..4 * i]
      {
        output := output + [Octet(state[i], 0), Octet(state[i], 1), Octet(state[i], 2), Octet(state[i], 3)];
      }
    }
  }
}
