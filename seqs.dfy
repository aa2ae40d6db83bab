/** Facts about taking prefixes of sequences, kept apart so that proofs about
    the model can use them without unfolding anything else. */
module Seqs {
  lemma TakeOneMore<T>(q: seq<T>, k: nat)
    requires k < |q|
    ensures q[..k + 1] == q[..k] + [q[k]]
  {
  }

  lemma TakeAll<T>(q: seq<T>)
    ensures q[..|q|] == q
  {
  }

  lemma SplitLast<T>(q: seq<T>)
    requires q != []
    ensures q == q[..|q| - 1] + [q[|q| - 1]]
  {
  }
}
