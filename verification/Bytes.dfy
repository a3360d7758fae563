/** The octets of files, buffers and hash values. */
module Bytes {
  type u8 = x: nat | x < 256

  function Zeros(n: nat): (s: seq<u8>)
    ensures |s| == n && forall i :: 0 <= i < n ==> s[i] == 0
  {
    seq(n, _ => 0)
  }

  /** The octets of a number, low end first */
  function Octet(v: nat, i: nat): u8 {
    if i == 0 then v % 256 else Octet(v / 256, i - 1)
  }

  function Octets(v: nat, n: nat): (s: seq<u8>)
    ensures |s| == n && forall i :: 0 <= i < n ==> s[i] == Octet(v, i)
  {
    seq(n, i requires 0 <= i < n => Octet(v, i))
  }

  /** The number whose low-order octet comes first */
  function Number(s: seq<u8>): nat {
    if s == [] then 0 else s[0] + 256 * Number(s[1..])
  }

  function Pow256(n: nat): (p: nat)
    ensures p > 0
  {
    if n == 0 then 1 else 256 * Pow256(n - 1)
  }

  /** n octets are the number modulo 256 to the n. */
  lemma {:induction false} OctetsNumber(v: nat, n: nat)
    ensures Number(Octets(v, n)) == v % Pow256(n)
  {
    if n > 0 {
      OctetsNumber(v / 256, n - 1);
      OctetsRest(v, n);
      LowAndHigh(v, Pow256(n - 1));
    }
  }

  lemma OctetsRest(v: nat, n: nat)
    requires n > 0
    ensures Octets(v, n)[0] == v % 256 && Octets(v, n)[1..] == Octets(v / 256, n - 1)
  {
  }

  lemma LowAndHigh(v: nat, p: nat)
    requires p > 0
    ensures v % 256 + 256 * ((v / 256) % p) == v % (256 * p)
  {
    var h := v / 256;
    var q, r := h / p, h % p;
    assert h == p * q + r;
    assert v == 256 * h + v % 256;
    hide *;
    Regroup(v, h, p, q, r);
    Remainder(v, 256 * p, q, v % 256 + 256 * r);
  }

  lemma Regroup(v: nat, h: nat, p: nat, q: nat, r: nat)
    requires h == p * q + r && r < p && v == 256 * h + v % 256
    ensures v == 256 * p * q + (v % 256 + 256 * r) && v % 256 + 256 * r < 256 * p
  {
    assert 256 * p * q == 256 * (p * q);
  }

  lemma Remainder(v: nat, m: nat, q: nat, r: nat)
    requires v == m * q + r && r < m
    ensures v % m == r
  {
    var d := v / m - q;
    assert m * d == r - v % m by { assert v == m * (v / m) + v % m; assert m * (v / m) - m * q == m * d; }
    if d >= 1 { AtLeast(m, d); }
    if d <= -1 { AtLeast(m, -d); }
  }

  lemma AtLeast(m: nat, d: nat)
    requires d >= 1
    ensures m * d >= m
  {
  }
}
