/** Small facts about sequence concatenation, stated once so that the proofs
    about records and stores can cite them instead of re-deriving them
    element by element. */
module Seqs {

  lemma EmptyMiddle<T>(a: seq<T>, b: seq<T>, c: seq<T>)
    requires |b| == 0
    ensures a + b + c == a + c && a + b == a && b + c == c
  {
  }

  lemma AppendAssoc<T>(a: seq<T>, b: seq<T>, c: seq<T>)
    ensures a + (b + c) == a + b + c
  {
  }

  lemma ConsAppend<T>(a: seq<T>, b: seq<T>)
    requires |a| > 0
    ensures (a + b)[0] == a[0] && (a + b)[1..] == a[1..] + b
  {
  }

  lemma AppendFirstThenRest<T>(a: seq<T>, q: seq<T>)
    requires |q| > 0
    ensures (a + [q[0]]) + q[1..] == a + q
  {
    assert q == [q[0]] + q[1..];
  }

  lemma FirstThree<T>(xs: seq<T>)
    requires |xs| >= 3
    ensures [xs[0], xs[1], xs[2]] + xs[3..] == xs
  {
  }
}
