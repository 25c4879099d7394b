/** What many modules share: an optional value, for C's null pointers and "not found" results, and a
    fact about sequences. */
module Wrappers {
  datatype Option<T> = None | Some(value: T)

  lemma Associates<T>(x: seq<T>, y: seq<T>, z: seq<T>)
    ensures (x + y) + z == x + (y + z)
  {
  }
}
