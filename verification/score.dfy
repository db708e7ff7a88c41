/**
 * Search scores: integers extended with -infinity and +infinity. The search
 * only compares scores, so the source's floating-point evaluation is
 * modelled by this total order.
 */
module Scores {

  datatype Score = NegInf | Fin(n: int) | PosInf

  predicate Le(a: Score, b: Score)
  {
    a == NegInf || b == PosInf || (a.Fin? && b.Fin? && a.n <= b.n)
  }

  predicate Lt(a: Score, b: Score)
  {
    !Le(b, a)
  }

  /** `Le` is a total order with NegInf at the bottom and PosInf at the top. */
  lemma TotalOrder(a: Score, b: Score, c: Score)
    ensures Le(a, a)
    ensures Le(a, b) || Le(b, a)
    ensures Le(a, b) && Le(b, a) ==> a == b
    ensures Le(a, b) && Le(b, c) ==> Le(a, c)
    ensures Le(NegInf, a) && Le(a, PosInf)
  {
  }

  function Max(a: Score, b: Score): (m: Score)
    ensures Le(a, m) && Le(b, m)
    ensures m == a || m == b
  {
    if Le(a, b) then b else a
  }

  function Min(a: Score, b: Score): (m: Score)
    ensures Le(m, a) && Le(m, b)
    ensures m == a || m == b
  {
    if Le(a, b) then a else b
  }

  /** Running maximum of `xs`, starting from `m`, folded left to right. */
  function MaxSeq(m: Score, xs: seq<Score>): Score
    decreases |xs|
  {
    if xs == [] then m else MaxSeq(Max(m, xs[0]), xs[1..])
  }

  /** Running minimum of `xs`, starting from `m`, folded left to right. */
  function MinSeq(m: Score, xs: seq<Score>): Score
    decreases |xs|
  {
    if xs == [] then m else MinSeq(Min(m, xs[0]), xs[1..])
  }

  /** The running maximum bounds the start and every element, and is one of them. */
  lemma {:induction false} MaxSeqBounds(m: Score, xs: seq<Score>)
    ensures Le(m, MaxSeq(m, xs))
    ensures forall x :: x in xs ==> Le(x, MaxSeq(m, xs))
    ensures MaxSeq(m, xs) == m || MaxSeq(m, xs) in xs
    decreases |xs|
  {
    if xs != [] {
      var r := MaxSeq(m, xs);
      MaxSeqBounds(Max(m, xs[0]), xs[1..]);
      TotalOrder(m, Max(m, xs[0]), r);
      assert forall x :: x in xs ==> x == xs[0] || x in xs[1..];
      TotalOrder(xs[0], Max(m, xs[0]), r);
    }
  }

  /** The running minimum is below the start and every element, and is one of them. */
  lemma {:induction false} MinSeqBounds(m: Score, xs: seq<Score>)
    ensures Le(MinSeq(m, xs), m)
    ensures forall x :: x in xs ==> Le(MinSeq(m, xs), x)
    ensures MinSeq(m, xs) == m || MinSeq(m, xs) in xs
    decreases |xs|
  {
    if xs != [] {
      var r := MinSeq(m, xs);
      MinSeqBounds(Min(m, xs[0]), xs[1..]);
      TotalOrder(r, Min(m, xs[0]), m);
      assert forall x :: x in xs ==> x == xs[0] || x in xs[1..];
      TotalOrder(r, Min(m, xs[0]), xs[0]);
    }
  }
}
