/**
  Writing into a buffer: what a buffer holds after a stretch of it has been replaced.
 */
module Buffers {

  /** `b` with the elements from `p` on replaced by `s`. */
  function Splice<T>(b: seq<T>, p: nat, s: seq<T>): (r: seq<T>)
    requires p + |s| <= |b|
    ensures |r| == |b|
  {
    b[..p] + s + b[p + |s|..]
  }

  /** Two stretches written one behind the other are one stretch. */
  lemma SpliceTwice<T>(b: seq<T>, p: nat, s: seq<T>, t: seq<T>)
    requires p + |s| + |t| <= |b|
    ensures Splice(Splice(b, p, s), p + |s|, t) == Splice(b, p, s + t)
  {
  }

  lemma SpliceNone<T>(b: seq<T>, p: nat)
    requires p <= |b|
    ensures Splice(b, p, []) == b
  {
  }
}
