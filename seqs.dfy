/** Small facts about sequence concatenation used by the loop proofs. */
module Seqs {
  /** Concatenation is associative. */
  lemma AppendAssoc<X>(a: seq<X>, b: seq<X>, c: seq<X>)
    ensures a + (b + c) == a + b + c
  {
  }

  /** Concatenation is associative, for four parts. */
  lemma AppendAssoc3<X>(a: seq<X>, b: seq<X>, c: seq<X>, d: seq<X>)
    ensures a + b + c + d == a + (b + c + d)
  {
  }

  /** The last element of a concatenation with a non-empty right side is that side's last. */
  lemma LastOfAppend<X>(a: seq<X>, b: seq<X>)
    ensures |b| >= 1 ==> |a + b| >= 1 && (a + b)[|a + b| - 1] == b[|b| - 1]
  {
  }
}
