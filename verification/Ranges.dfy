/** Runs of consecutive exponents. */
module Ranges {

  /** e, e + 1, ..., e + n - 1 */
  function From(e: nat, n: nat): (s: seq<nat>)
    ensures |s| == n
  {
    seq(n, t requires 0 <= t < n => e + t)
  }
}
