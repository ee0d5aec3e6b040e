/**
  Symbols: a token id is a non-negative integer; ids below 256 are raw byte
  values and larger ids are learned merges. A pair is two ids that stand
  next to each other in a sequence.
 */
module Symbols {

  type Id = nat

  type Pair = (Id, Id)

  /** `zip(ids, ids[1:])`: the adjacent pairs, left to right. */
  function AdjacentPairs(ids: seq<Id>): (ps: seq<Pair>)
    ensures |ps| == if |ids| == 0 then 0 else |ids| - 1
    ensures forall k :: 0 <= k < |ps| ==> ps[k] == (ids[k], ids[k + 1])
  {
    if |ids| < 2 then [] else seq(|ids| - 1, k requires 0 <= k < |ids| - 1 => (ids[k], ids[k + 1]))
  }

  /** Some position `k` has `ids[k], ids[k+1]` equal to `p`. */
  predicate HasPair(ids: seq<Id>, p: Pair)
  {
    exists k :: 0 <= k < |ids| - 1 && ids[k] == p.0 && ids[k + 1] == p.1
  }

  /** The number of positions at which `x` occurs in `s`. */
  function Count<T(==)>(s: seq<T>, x: T): nat
  {
    if s == [] then 0 else (if s[0] == x then 1 else 0) + Count(s[1..], x)
  }

  /** The position of the first occurrence of `x` in `s`. */
  function FirstIndex<T(==)>(s: seq<T>, x: T): (k: nat)
    requires x in s
    ensures k < |s| && s[k] == x
    ensures forall j :: 0 <= j < k ==> s[j] != x
  {
    if s[0] == x then 0 else 1 + FirstIndex(s[1..], x)
  }
}
