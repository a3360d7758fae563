/** MD5Hash and its order, and the keys by which blocks are looked up. */
module HashOrder {
  import opened Bytes

  type Hash = h: seq<u8> | |h| == 16 witness Zeros(16)

  /** The highest octet that differs decides. */
  lemma {:induction false} HighestDecides(s: seq<u8>, t: seq<u8>, k: nat)
    requires |s| == |t| && k < |s| && s[k + 1..] == t[k + 1..]
    ensures s[k] < t[k] ==> Number(s) < Number(t)
    ensures s[k] == t[k] && s[..k] == t[..k] ==> Number(s) == Number(t)
  {
    if k > 0 {
      assert s[1..][k..] == s[k + 1..] && t[1..][k..] == t[k + 1..];
      assert s[k] == t[k] && s[..k] == t[..k] ==> s == t;
      HighestDecides(s[1..], t[1..], k - 1);
    }
  }

  lemma {:induction false} SameNumber(s: seq<u8>, t: seq<u8>)
    requires |s| == |t| && Number(s) == Number(t)
    ensures s == t
  {
    if s != [] {
      DigitsAgree(s[0], Number(s[1..]), t[0], Number(t[1..]));
      SameNumber(s[1..], t[1..]);
      assert s == [s[0]] + s[1..] && t == [t[0]] + t[1..];
    }
  }

  lemma DigitsAgree(a: u8, m: nat, b: u8, n: nat)
    requires a + 256 * m == b + 256 * n
    ensures a == b && m == n
  {
  }

  /** MD5Hash::operator<, which looks at the octets from the last one down, compares the numbers. */
  method HashLess(h: Hash, other: Hash) returns (less: bool)
    ensures less <==> Number(h) < Number(other)
  {
    hide Number;
    var index := 15;
    while index > 0 && h[index] == other[index]
      invariant 0 <= index < 16 && h[index + 1..] == other[index + 1..]
    {
      index := index - 1;
    }
    less := h[index] < other[index];
    HighestDecides(h, other, index);
    HighestDecides(other, h, index);
  }

  /** What a block is looked up by */
  datatype Key = Key(crc: nat, hash: Hash)

  ghost predicate Below(a: Key, b: Key) {
    a.crc < b.crc || (a.crc == b.crc && Number(a.hash) < Number(b.hash))
  }

  lemma Trichotomy(a: Key, b: Key)
    ensures a == b || Below(a, b) || Below(b, a)
    ensures !(Below(a, b) && Below(b, a)) && !Below(a, a)
  {
    if a.crc == b.crc && Number(a.hash) == Number(b.hash) {
      SameNumber(a.hash, b.hash);
    }
  }

  /** VerificationHashEntry::operator< */
  method KeyLess(a: Key, b: Key) returns (less: bool)
    ensures less <==> Below(a, b)
  {
    less := a.crc < b.crc;
    if a.crc == b.crc {
      less := HashLess(a.hash, b.hash);
    }
  }
}
