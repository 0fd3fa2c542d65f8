/** An option type for lookups that may find nothing. */
module Optional {
  datatype Option<+T> = None | Some(value: T)
}

/** Small facts about sequences that the proofs elsewhere lean on. */
module Sequences {
  lemma AppendAssoc<T>(x: seq<T>, y: seq<T>, z: seq<T>)
    ensures x + (y + z) == (x + y) + z
  {
  }
}
