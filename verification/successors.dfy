/**
 * Successor generation for the search: one resulting position per
 * (piece, destination) entry of a move map. Positions are values, so the
 * board handed in is never altered; applying a move to a copy is the
 * `simulate` parameter.
 */
module Successors {

  /**
   * All (piece, move) entries of a move map, piece by piece and, within a
   * piece, in the order of its moves.
   */
  function Entries<P, M>(moveMap: seq<(P, seq<M>)>): seq<(P, M)>
  {
    if moveMap == [] then []
    else Pair(moveMap[0].0, moveMap[0].1) + Entries(moveMap[1..])
  }

  /** The entries of one piece. */
  function Pair<P, M>(p: P, ms: seq<M>): (es: seq<(P, M)>)
    ensures |es| == |ms|
    ensures forall k :: 0 <= k < |ms| ==> es[k] == (p, ms[k])
  {
    seq(|ms|, k requires 0 <= k < |ms| => (p, ms[k]))
  }

  function TotalMoves<P, M>(moveMap: seq<(P, seq<M>)>): nat
  {
    if moveMap == [] then 0 else |moveMap[0].1| + TotalMoves(moveMap[1..])
  }

  /** There is one entry per (piece, move) pair of the map, and no other. */
  lemma {:induction false} EntriesOfMap<P, M>(moveMap: seq<(P, seq<M>)>)
    ensures |Entries(moveMap)| == TotalMoves(moveMap)
    ensures forall p, m :: (p, m) in Entries(moveMap) <==>
      exists i :: 0 <= i < |moveMap| && moveMap[i].0 == p && m in moveMap[i].1
  {
    if moveMap != [] {
      EntriesOfMap(moveMap[1..]);
      var head := Pair(moveMap[0].0, moveMap[0].1);
      forall p, m
        ensures (p, m) in Entries(moveMap) <==>
          exists i :: 0 <= i < |moveMap| && moveMap[i].0 == p && m in moveMap[i].1
      {
        if (p, m) in head {
          assert moveMap[0].0 == p && m in moveMap[0].1;
        }
        if exists i :: 0 <= i < |moveMap| && moveMap[i].0 == p && m in moveMap[i].1 {
          var i :| 0 <= i < |moveMap| && moveMap[i].0 == p && m in moveMap[i].1;
          if i == 0 {
            var k :| 0 <= k < |moveMap[0].1| && moveMap[0].1[k] == m;
            assert head[k] == (p, m);
          } else {
            assert moveMap[1..][i - 1] == moveMap[i];
          }
        }
        if (p, m) in Entries(moveMap[1..]) {
          var i :| 0 <= i < |moveMap[1..]| && moveMap[1..][i].0 == p && m in moveMap[1..][i].1;
          assert moveMap[i + 1] == moveMap[1..][i];
        }
      }
    }
  }

  /**
   * get_all_moves: for every piece of the map and every move of that piece,
   * the position `simulate` produces from `board`, in map order.
   */
  method GetAllMoves<B, P, M>(board: B, moveMap: seq<(P, seq<M>)>, simulate: (B, P, M) -> B)
    returns (states: seq<B>)
    ensures |states| == |Entries(moveMap)|
    ensures forall k :: 0 <= k < |states| ==>
      states[k] == simulate(board, Entries(moveMap)[k].0, Entries(moveMap)[k].1)
  {
    states := [];
    var i := 0;
    while i < |moveMap|
      invariant 0 <= i <= |moveMap|
      invariant Entries(moveMap) == Entries(moveMap[..i]) + Entries(moveMap[i..])
      invariant |states| == |Entries(moveMap[..i])|
      invariant forall k :: 0 <= k < |states| ==>
        states[k] == simulate(board, Entries(moveMap[..i])[k].0, Entries(moveMap[..i])[k].1)
    {
      var (piece, moves) := moveMap[i];
      ghost var done := Entries(moveMap[..i]);
      var j := 0;
      while j < |moves|
        invariant 0 <= j <= |moves|
        invariant |states| == |done| + j
        invariant forall k :: 0 <= k < |done| ==> states[k] == simulate(board, done[k].0, done[k].1)
        invariant forall k :: 0 <= k < j ==> states[|done| + k] == simulate(board, piece, moves[k])
      {
        states := states + [simulate(board, piece, moves[j])];
        j := j + 1;
      }
      EntriesSnoc(moveMap, i);
      assert moveMap[i..][1..] == moveMap[i + 1..];
      i := i + 1;
    }
    assert moveMap[..i] == moveMap;
  }

  /** Entries of a prefix grow by the next piece's entries. */
  lemma {:induction false} EntriesSnoc<P, M>(moveMap: seq<(P, seq<M>)>, i: nat)
    requires i < |moveMap|
    ensures Entries(moveMap[..i + 1]) == Entries(moveMap[..i]) + Pair(moveMap[i].0, moveMap[i].1)
  {
    EntriesAppend(moveMap[..i], [moveMap[i]]);
    assert moveMap[..i + 1] == moveMap[..i] + [moveMap[i]];
    assert [moveMap[i]][1..] == [];
  }

  lemma {:induction false} EntriesAppend<P, M>(xs: seq<(P, seq<M>)>, ys: seq<(P, seq<M>)>)
    ensures Entries(xs + ys) == Entries(xs) + Entries(ys)
  {
    if xs == [] {
      assert xs + ys == ys;
    } else {
      assert (xs + ys)[1..] == xs[1..] + ys;
      EntriesAppend(xs[1..], ys);
    }
  }
}
