/** Small facts shared by the components. */
module Basics {

  function Min(a: int, b: int): int {
    if a <= b then a else b
  }

  /** The node at index i of a list, none beyond either end. */
  function NodeAt<T>(nodes: seq<T>, i: int, none: T): T {
    if 0 <= i < |nodes| then nodes[i] else none
  }

  lemma Regroup<T>(a: seq<T>, b: seq<T>, c: seq<T>)
    ensures (a + b) + c == a + (b + c)
  {
  }
}
