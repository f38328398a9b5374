/** What every module may need. */
module Wrappers {

  datatype Option<T> = None | Some(value: T)

  lemma Regroup<T>(a: seq<T>, b: seq<T>, c: seq<T>)
    ensures a + b + c == a + (b + c)
  {
  }

  /** The chunks from the `from`-th up to the `to`-th, joined. */
  function Concat<T>(chunks: seq<seq<T>>, from: nat, to: nat): seq<T>
    requires from <= to <= |chunks|
  {
    if from == to then [] else Concat(chunks, from, to - 1) + chunks[to - 1]
  }

  lemma ConcatOfPrefix<T>(chunks: seq<seq<T>>, chunk: seq<T>, from: nat, to: nat)
    requires from <= to <= |chunks|
    ensures Concat(chunks + [chunk], from, to) == Concat(chunks, from, to)
  {
  }
}
