/** Small facts about sequences shared by several modules. */
module Sequences {

  /** The position of the first occurrence of `x` in `s`. */
  function FirstIndex<T(==)>(s: seq<T>, x: T): (p: nat)
    requires x in s
    ensures p < |s| && s[p] == x
    ensures forall q :: 0 <= q < p ==> s[q] != x
  {
    if s[0] == x then 0 else 1 + FirstIndex(s[1..], x)
  }
}
