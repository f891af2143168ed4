/** What several modules need about numbers and sequences. */
module Sequences {

  function Min(a: int, b: int): int { if a < b then a else b }

  lemma ConcatAssoc<T>(s: seq<T>, t: seq<T>, u: seq<T>)
    ensures s + (t + u) == (s + t) + u
  {
  }
}
