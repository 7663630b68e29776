/** Small facts about sequence concatenation that the proofs use at fixed points. */
module Seqs {
  lemma AppendAssoc<T>(a: seq<T>, b: seq<T>, c: seq<T>)
    ensures (a + b) + c == a + (b + c)
  {}

  lemma MoveFirst<T>(a: seq<T>, b: seq<T>)
    requires |b| > 0
    ensures a + b == (a + [b[0]]) + b[1..]
  {
    assert b == [b[0]] + b[1..];
  }
}
