/** Lengths and concatenations. */
module Sequences {
  function Min(a: nat, b: nat): nat { if a < b then a else b }

  function Max(a: nat, b: nat): nat { if a < b then b else a }

  /** `a - b`, or 0. */
  function Minus(a: nat, b: nat): nat { if a < b then 0 else a - b }

  lemma AppendAssociates<T>(a: seq<T>, b: seq<T>, c: seq<T>)
    ensures (a + b) + c == a + (b + c)
  {
  }
}
