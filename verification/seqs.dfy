// Facts about sequences shared by the modules of this project.

module Seqs {
  /** Concatenation is associative. */
  lemma AppendAssociates<T>(a: seq<T>, b: seq<T>, c: seq<T>)
    ensures a + b + c == a + (b + c)
  {
  }
}
