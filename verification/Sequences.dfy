/** What several modules need on sequences. */
module Sequences {

  function Min(a: nat, b: nat): nat {
    if a <= b then a else b
  }

  /** The pieces one after the other. */
  function Concat<T>(pieces: seq<seq<T>>): seq<T> {
    if pieces == [] then [] else Concat(pieces[..|pieces| - 1]) + pieces[|pieces| - 1]
  }
}
