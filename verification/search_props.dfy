/**
 * What the alpha-beta search guarantees: how a call combines the scores of
 * the successors it examines, where it stops, which successor it picks, and
 * that with the full window it computes the plain minimax value.
 */
module SearchProps {
  import opened Pieces
  import opened Scores
  import opened Search

  // ---------------------------------------------------------------------------
  // Helpers on score sequences
  // ---------------------------------------------------------------------------

  /** Index of the last occurrence of `x` in `xs`, or -1. */
  function LastIndexOf(xs: seq<Score>, x: Score): (k: int)
    ensures -1 <= k < |xs|
    decreases |xs|
  {
    if xs == [] then -1
    else
      var k := LastIndexOf(xs[1..], x);
      if k >= 0 then k + 1 else if xs[0] == x then 0 else -1
  }

  /** LastIndexOf finds `x` when there is one, and no later copy of it. */
  lemma {:induction false} LastIndexOfFinds(xs: seq<Score>, x: Score)
    ensures var k := LastIndexOf(xs, x);
      (0 <= k ==> xs[k] == x) &&
      (forall j :: k < j < |xs| ==> xs[j] != x) &&
      (k < 0 <==> x !in xs)
    decreases |xs|
  {
    if xs != [] {
      LastIndexOfFinds(xs[1..], x);
      assert forall j :: 0 < j < |xs| ==> xs[j] == xs[1..][j - 1];
      assert x in xs <==> xs[0] == x || x in xs[1..];
    }
  }

  /** Folding a sequence with a first element folds that element into the start value. */
  lemma SeqCons(m: Score, e: Score, rest: seq<Score>)
    ensures MaxSeq(m, [e] + rest) == MaxSeq(Max(m, e), rest)
    ensures MinSeq(m, [e] + rest) == MinSeq(Min(m, e), rest)
  {
    assert ([e] + rest)[1..] == rest;
  }

  /** The last occurrence in `[e] + rest` is in `rest` if there is one there, else at `e`. */
  lemma LastIndexOfCons(e: Score, rest: seq<Score>, x: Score)
    ensures LastIndexOf([e] + rest, x) ==
      (var k := LastIndexOf(rest, x); if k >= 0 then k + 1 else if e == x then 0 else -1)
  {
    assert ([e] + rest)[1..] == rest;
  }

  /** The running maximum only grows along the sequence. */
  lemma {:induction false} MaxSeqPrefixMonotone(m: Score, xs: seq<Score>, i: nat, j: nat)
    requires i <= j <= |xs|
    ensures Le(MaxSeq(m, xs[..i]), MaxSeq(m, xs[..j]))
    decreases |xs|
  {
    if i > 0 {
      assert xs[..i][1..] == xs[1..][..i - 1];
      assert xs[..j][1..] == xs[1..][..j - 1];
      MaxSeqPrefixMonotone(Max(m, xs[0]), xs[1..], i - 1, j - 1);
    } else {
      assert xs[..0] == [];
      MaxSeqBounds(m, xs[..j]);
    }
  }

  /** The running minimum only shrinks along the sequence. */
  lemma {:induction false} MinSeqPrefixMonotone(m: Score, xs: seq<Score>, i: nat, j: nat)
    requires i <= j <= |xs|
    ensures Le(MinSeq(m, xs[..j]), MinSeq(m, xs[..i]))
    decreases |xs|
  {
    if i > 0 {
      assert xs[..i][1..] == xs[1..][..i - 1];
      assert xs[..j][1..] == xs[1..][..j - 1];
      MinSeqPrefixMonotone(Min(m, xs[0]), xs[1..], i - 1, j - 1);
    } else {
      assert xs[..0] == [];
      MinSeqBounds(m, xs[..j]);
    }
  }

  // ---------------------------------------------------------------------------
  // The maximiser's loop
  // ---------------------------------------------------------------------------

  /**
   * The loop examines at least one successor when there is one, returns the
   * running maximum of the examined scores, and keeps the last examined
   * successor whose score equals the result (a later tie replaces an earlier
   * one); with no such successor the incoming choice stays.
   */
  lemma {:induction false} MaxLoopResult<S>(search: (S, Score, Score) -> Score, kids: seq<S>, alpha: Score, beta: Score,
                                            m: Score, b: Option<S>)
    ensures var o := MaxLoop(search, kids, alpha, beta, m, b);
      |o.examined| <= |kids| && (kids != [] ==> |o.examined| >= 1) &&
      o.score == MaxSeq(m, o.examined) &&
      o.best == (var k := LastIndexOf(o.examined, o.score); if k >= 0 then Some(kids[k]) else b)
    decreases |kids|
  {
    if kids != [] {
      var o := MaxLoop(search, kids, alpha, beta, m, b);
      var e := search(kids[0], alpha, beta);
      var m' := Max(m, e);
      var a := Max(alpha, m');
      var b' := if m' == e then Some(kids[0]) else b;
      if !Le(beta, a) {
        var rest := MaxLoop(search, kids[1..], a, beta, m', b');
        MaxLoopResult(search, kids[1..], a, beta, m', b');
        assert o.examined == [e] + rest.examined && o.score == rest.score && o.best == rest.best;
        SeqCons(m, e, rest.examined);
        LastIndexOfCons(e, rest.examined, rest.score);
        var k := LastIndexOf(rest.examined, rest.score);
        if k >= 0 {
          assert kids[1..][k] == kids[k + 1];
        } else {
          LastIndexOfFinds(rest.examined, rest.score);
          assert rest.score !in rest.examined;
          MaxSeqBounds(m', rest.examined);
          assert rest.score == m';
        }
      } else {
        assert o.examined == [e] + [] && o.score == m' && o.best == b';
        SeqCons(m, e, []);
        LastIndexOfCons(e, [], m');
      }
    }
  }

  /** The alpha of the maximiser's loop once the first `i` examined scores are in. */
  function AlphaAfter(alpha: Score, m: Score, examined: seq<Score>, i: nat): (a: Score)
    requires i <= |examined|
    ensures Le(alpha, a)
  {
    Max(alpha, MaxSeq(m, examined[..i]))
  }

  lemma AlphaAfterCons(alpha: Score, m: Score, e: Score, rest: seq<Score>, i: nat)
    requires 1 <= i <= |rest| + 1
    ensures AlphaAfter(alpha, m, [e] + rest, i) == AlphaAfter(Max(alpha, Max(m, e)), Max(m, e), rest, i - 1)
  {
    assert ([e] + rest)[..i] == [e] + rest[..i - 1];
    SeqCons(m, e, rest[..i - 1]);
    MaxSeqBounds(Max(m, e), rest[..i - 1]);
  }

  /**
   * The examined score at index `i` is the search of successor `i` with the
   * alpha current at that point: the incoming alpha raised by the scores
   * examined before it.
   */
  lemma {:induction false} MaxLoopChild<S>(search: (S, Score, Score) -> Score, kids: seq<S>, alpha: Score, beta: Score,
                                           m: Score, b: Option<S>, i: nat)
    requires Le(m, alpha)
    requires i < |MaxLoop(search, kids, alpha, beta, m, b).examined|
    ensures var o := MaxLoop(search, kids, alpha, beta, m, b);
      i < |kids| &&
      o.examined[i] == search(kids[i], AlphaAfter(alpha, m, o.examined, i), beta)
    decreases i
  {
    var o := MaxLoop(search, kids, alpha, beta, m, b);
    assert kids != [];
    var e := search(kids[0], alpha, beta);
    var m' := Max(m, e);
    var a := Max(alpha, m');
    var b' := if m' == e then Some(kids[0]) else b;
    if i == 0 {
      assert AlphaAfter(alpha, m, o.examined, 0) == alpha;
      assert o.examined[0] == e;
    } else {
      assert !Le(beta, a);
      var rest := MaxLoop(search, kids[1..], a, beta, m', b');
      assert o.examined == [e] + rest.examined;
      MaxLoopChild(search, kids[1..], a, beta, m', b', i - 1);
      AlphaAfterCons(alpha, m, e, rest.examined, i);
      assert o.examined[i] == rest.examined[i - 1];
      assert kids[i] == kids[1..][i - 1];
    }
  }

  /** No examined successor before the last one left beta <= alpha. */
  lemma {:induction false} MaxLoopNoEarlyCut<S>(search: (S, Score, Score) -> Score, kids: seq<S>, alpha: Score, beta: Score,
                                                m: Score, b: Option<S>, i: nat)
    requires 1 <= i < |MaxLoop(search, kids, alpha, beta, m, b).examined|
    ensures !Le(beta, AlphaAfter(alpha, m, MaxLoop(search, kids, alpha, beta, m, b).examined, i))
    decreases i
  {
    var o := MaxLoop(search, kids, alpha, beta, m, b);
    assert kids != [];
    var e := search(kids[0], alpha, beta);
    var m' := Max(m, e);
    var a := Max(alpha, m');
    var b' := if m' == e then Some(kids[0]) else b;
    assert !Le(beta, a);
    var rest := MaxLoop(search, kids[1..], a, beta, m', b');
    assert o.examined == [e] + rest.examined;
    AlphaAfterCons(alpha, m, e, rest.examined, i);
    if i == 1 {
      assert AlphaAfter(a, m', rest.examined, 0) == a;
    } else {
      MaxLoopNoEarlyCut(search, kids[1..], a, beta, m', b', i - 1);
    }
  }

  /** When successors remain unexamined, the last examined one left beta <= alpha. */
  lemma {:induction false} MaxLoopStop<S>(search: (S, Score, Score) -> Score, kids: seq<S>, alpha: Score, beta: Score,
                                          m: Score, b: Option<S>)
    ensures var o := MaxLoop(search, kids, alpha, beta, m, b);
      |o.examined| < |kids| ==> Le(beta, AlphaAfter(alpha, m, o.examined, |o.examined|))
    decreases |kids|
  {
    if kids != [] {
      var o := MaxLoop(search, kids, alpha, beta, m, b);
      var e := search(kids[0], alpha, beta);
      var m' := Max(m, e);
      var a := Max(alpha, m');
      var b' := if m' == e then Some(kids[0]) else b;
      if !Le(beta, a) {
        var rest := MaxLoop(search, kids[1..], a, beta, m', b');
        assert o.examined == [e] + rest.examined;
        MaxLoopStop(search, kids[1..], a, beta, m', b');
        AlphaAfterCons(alpha, m, e, rest.examined, |o.examined|);
      } else {
        assert o.examined == [e] + [];
        AlphaAfterCons(alpha, m, e, [], 1);
      }
    }
  }

  // ---------------------------------------------------------------------------
  // The minimiser's loop
  // ---------------------------------------------------------------------------

  /** Mirror of MaxLoopResult: the running minimum, the last tie wins. */
  lemma {:induction false} MinLoopResult<S>(search: (S, Score, Score) -> Score, kids: seq<S>, alpha: Score, beta: Score,
                                            m: Score, b: Option<S>)
    ensures var o := MinLoop(search, kids, alpha, beta, m, b);
      |o.examined| <= |kids| && (kids != [] ==> |o.examined| >= 1) &&
      o.score == MinSeq(m, o.examined) &&
      o.best == (var k := LastIndexOf(o.examined, o.score); if k >= 0 then Some(kids[k]) else b)
    decreases |kids|
  {
    if kids != [] {
      var o := MinLoop(search, kids, alpha, beta, m, b);
      var e := search(kids[0], alpha, beta);
      var m' := Min(m, e);
      var bt := Min(beta, m');
      var b' := if m' == e then Some(kids[0]) else b;
      if !Le(bt, alpha) {
        var rest := MinLoop(search, kids[1..], alpha, bt, m', b');
        MinLoopResult(search, kids[1..], alpha, bt, m', b');
        assert o.examined == [e] + rest.examined && o.score == rest.score && o.best == rest.best;
        SeqCons(m, e, rest.examined);
        LastIndexOfCons(e, rest.examined, rest.score);
        var k := LastIndexOf(rest.examined, rest.score);
        if k >= 0 {
          assert kids[1..][k] == kids[k + 1];
        } else {
          LastIndexOfFinds(rest.examined, rest.score);
          assert rest.score !in rest.examined;
          MinSeqBounds(m', rest.examined);
          assert rest.score == m';
        }
      } else {
        assert o.examined == [e] + [] && o.score == m' && o.best == b';
        SeqCons(m, e, []);
        LastIndexOfCons(e, [], m');
      }
    }
  }

  /** The beta of the minimiser's loop once the first `i` examined scores are in. */
  function BetaAfter(beta: Score, m: Score, examined: seq<Score>, i: nat): (b: Score)
    requires i <= |examined|
    ensures Le(b, beta)
  {
    Min(beta, MinSeq(m, examined[..i]))
  }

  lemma BetaAfterCons(beta: Score, m: Score, e: Score, rest: seq<Score>, i: nat)
    requires 1 <= i <= |rest| + 1
    ensures BetaAfter(beta, m, [e] + rest, i) == BetaAfter(Min(beta, Min(m, e)), Min(m, e), rest, i - 1)
  {
    assert ([e] + rest)[..i] == [e] + rest[..i - 1];
    SeqCons(m, e, rest[..i - 1]);
    MinSeqBounds(Min(m, e), rest[..i - 1]);
  }

  /**
   * The examined score at index `i` is the search of successor `i` with the
   * beta current at that point: the incoming beta lowered by the scores
   * examined before it.
   */
  lemma {:induction false} MinLoopChild<S>(search: (S, Score, Score) -> Score, kids: seq<S>, alpha: Score, beta: Score,
                                           m: Score, b: Option<S>, i: nat)
    requires Le(beta, m)
    requires i < |MinLoop(search, kids, alpha, beta, m, b).examined|
    ensures var o := MinLoop(search, kids, alpha, beta, m, b);
      i < |kids| &&
      o.examined[i] == search(kids[i], alpha, BetaAfter(beta, m, o.examined, i))
    decreases i
  {
    var o := MinLoop(search, kids, alpha, beta, m, b);
    assert kids != [];
    var e := search(kids[0], alpha, beta);
    var m' := Min(m, e);
    var bt := Min(beta, m');
    var b' := if m' == e then Some(kids[0]) else b;
    if i == 0 {
      assert BetaAfter(beta, m, o.examined, 0) == beta;
      assert o.examined[0] == e;
    } else {
      assert !Le(bt, alpha);
      var rest := MinLoop(search, kids[1..], alpha, bt, m', b');
      assert o.examined == [e] + rest.examined;
      MinLoopChild(search, kids[1..], alpha, bt, m', b', i - 1);
      BetaAfterCons(beta, m, e, rest.examined, i);
      assert o.examined[i] == rest.examined[i - 1];
      assert kids[i] == kids[1..][i - 1];
    }
  }

  /** No examined successor before the last one left beta <= alpha. */
  lemma {:induction false} MinLoopNoEarlyCut<S>(search: (S, Score, Score) -> Score, kids: seq<S>, alpha: Score, beta: Score,
                                                m: Score, b: Option<S>, i: nat)
    requires 1 <= i < |MinLoop(search, kids, alpha, beta, m, b).examined|
    ensures !Le(BetaAfter(beta, m, MinLoop(search, kids, alpha, beta, m, b).examined, i), alpha)
    decreases i
  {
    var o := MinLoop(search, kids, alpha, beta, m, b);
    assert kids != [];
    var e := search(kids[0], alpha, beta);
    var m' := Min(m, e);
    var bt := Min(beta, m');
    var b' := if m' == e then Some(kids[0]) else b;
    assert !Le(bt, alpha);
    var rest := MinLoop(search, kids[1..], alpha, bt, m', b');
    assert o.examined == [e] + rest.examined;
    BetaAfterCons(beta, m, e, rest.examined, i);
    if i == 1 {
      assert BetaAfter(bt, m', rest.examined, 0) == bt;
    } else {
      MinLoopNoEarlyCut(search, kids[1..], alpha, bt, m', b', i - 1);
    }
  }

  /** When successors remain unexamined, the last examined one left beta <= alpha. */
  lemma {:induction false} MinLoopStop<S>(search: (S, Score, Score) -> Score, kids: seq<S>, alpha: Score, beta: Score,
                                          m: Score, b: Option<S>)
    ensures var o := MinLoop(search, kids, alpha, beta, m, b);
      |o.examined| < |kids| ==> Le(BetaAfter(beta, m, o.examined, |o.examined|), alpha)
    decreases |kids|
  {
    if kids != [] {
      var o := MinLoop(search, kids, alpha, beta, m, b);
      var e := search(kids[0], alpha, beta);
      var m' := Min(m, e);
      var bt := Min(beta, m');
      var b' := if m' == e then Some(kids[0]) else b;
      if !Le(bt, alpha) {
        var rest := MinLoop(search, kids[1..], alpha, bt, m', b');
        assert o.examined == [e] + rest.examined;
        MinLoopStop(search, kids[1..], alpha, bt, m', b');
        BetaAfterCons(beta, m, e, rest.examined, |o.examined|);
      } else {
        assert o.examined == [e] + [];
        BetaAfterCons(beta, m, e, [], 1);
      }
    }
  }

  /** Alpha never decreases while the maximiser's loop runs. */
  lemma AlphaNeverDecreases(alpha: Score, m: Score, examined: seq<Score>, i: nat, j: nat)
    requires i <= j <= |examined|
    ensures Le(AlphaAfter(alpha, m, examined, i), AlphaAfter(alpha, m, examined, j))
  {
    MaxSeqPrefixMonotone(m, examined, i, j);
  }

  /** Beta never increases while the minimiser's loop runs. */
  lemma BetaNeverIncreases(beta: Score, m: Score, examined: seq<Score>, i: nat, j: nat)
    requires i <= j <= |examined|
    ensures Le(BetaAfter(beta, m, examined, j), BetaAfter(beta, m, examined, i))
  {
    MinSeqPrefixMonotone(m, examined, i, j);
  }

  // ---------------------------------------------------------------------------
  // A whole search call
  // ---------------------------------------------------------------------------

  /**
   * A maximising call with successors returns the largest score among the
   * successors it examined and the last examined successor holding it; with
   * no successors it returns (-infinity, None).
   */
  lemma MaximiserCall<S>(t: Tree<S>, s: S, depth: nat, alpha: Score, beta: Score)
    requires depth > 0
    ensures var o := AlphaBeta(t, s, depth, true, alpha, beta);
      var kids := t.moves(s, White);
      (kids == [] ==> o.score == NegInf && o.best == None) &&
      (kids != [] ==>
        1 <= |o.examined| <= |kids| && o.score in o.examined &&
        (forall e :: e in o.examined ==> Le(e, o.score)) &&
        0 <= LastIndexOf(o.examined, o.score) && o.best == Some(kids[LastIndexOf(o.examined, o.score)]))
  {
    var kids := t.moves(s, White);
    var o := AlphaBeta(t, s, depth, true, alpha, beta);
    assert o == MaxLoop(Searcher(t, depth - 1, false), kids, alpha, beta, NegInf, None);
    MaxLoopResult(Searcher(t, depth - 1, false), kids, alpha, beta, NegInf, None);
    if kids != [] {
      assert o.score == MaxSeq(NegInf, o.examined);
      MaxSeqBounds(NegInf, o.examined);
      TotalOrder(o.examined[0], o.score, NegInf);
      assert o.score in o.examined;
      LastIndexOfFinds(o.examined, o.score);
    }
  }

  /**
   * A minimising call with successors returns the smallest score among the
   * successors it examined and the last examined successor holding it; with
   * no successors it returns (+infinity, None).
   */
  lemma MinimiserCall<S>(t: Tree<S>, s: S, depth: nat, alpha: Score, beta: Score)
    requires depth > 0
    ensures var o := AlphaBeta(t, s, depth, false, alpha, beta);
      var kids := t.moves(s, Black);
      (kids == [] ==> o.score == PosInf && o.best == None) &&
      (kids != [] ==>
        1 <= |o.examined| <= |kids| && o.score in o.examined &&
        (forall e :: e in o.examined ==> Le(o.score, e)) &&
        0 <= LastIndexOf(o.examined, o.score) && o.best == Some(kids[LastIndexOf(o.examined, o.score)]))
  {
    var kids := t.moves(s, Black);
    var o := AlphaBeta(t, s, depth, false, alpha, beta);
    assert o == MinLoop(Searcher(t, depth - 1, true), kids, alpha, beta, PosInf, None);
    MinLoopResult(Searcher(t, depth - 1, true), kids, alpha, beta, PosInf, None);
    if kids != [] {
      assert o.score == MinSeq(PosInf, o.examined);
      MinSeqBounds(PosInf, o.examined);
      TotalOrder(o.examined[0], o.score, PosInf);
      assert o.score in o.examined;
      LastIndexOfFinds(o.examined, o.score);
    }
  }

  // ---------------------------------------------------------------------------
  // Agreement with plain minimax
  // ---------------------------------------------------------------------------

  /**
   * The fail-soft alpha-beta guarantee relating a search result `r` to the
   * true minimax value `v` under the window (alpha, beta): a result at or
   * below alpha is an upper bound, one at or above beta a lower bound, and
   * one strictly inside the window is exact.
   */
  ghost predicate Bracket(r: Score, v: Score, alpha: Score, beta: Score)
  {
    (Le(r, alpha) ==> Le(v, r)) &&
    (Le(beta, r) ==> Le(r, v)) &&
    (Lt(alpha, r) && Lt(r, beta) ==> r == v)
  }

  lemma {:induction false} FailSoft<S>(t: Tree<S>, s: S, depth: nat, maxPlayer: bool, alpha: Score, beta: Score)
    requires Lt(alpha, beta)
    ensures Bracket(AlphaBeta(t, s, depth, maxPlayer, alpha, beta).score, MinimaxValue(t, s, depth, maxPlayer), alpha, beta)
    decreases depth, 1, 0
  {
    if depth > 0 {
      var r := AlphaBeta(t, s, depth, maxPlayer, alpha, beta).score;
      var v := MinimaxValue(t, s, depth, maxPlayer);
      if maxPlayer {
        MaxLoopFailSoft(t, t.moves(s, White), depth - 1, alpha, beta, NegInf, None);
        TotalOrder(r, v, alpha);
        TotalOrder(r, alpha, beta);
      } else {
        MinLoopFailSoft(t, t.moves(s, Black), depth - 1, alpha, beta, PosInf, None);
        TotalOrder(r, v, beta);
        TotalOrder(alpha, beta, r);
      }
    }
  }

  /**
   * What the maximiser's loop promises about its result `r` against the
   * maximum `v` of the true values of the successors it was given, when it
   * starts with `m` <= alpha < beta.
   */
  ghost predicate MaxClaim(m: Score, alpha: Score, beta: Score, r: Score, v: Score)
  {
    Le(m, r) &&
    (Le(beta, r) ==> Le(r, v)) &&
    (Lt(r, beta) ==> Le(v, r)) &&
    (Lt(alpha, r) && Lt(r, beta) ==> Le(r, v))
  }

  /** Mirror of MaxClaim for the minimiser, starting with alpha < beta <= `m`. */
  ghost predicate MinClaim(m: Score, alpha: Score, beta: Score, r: Score, v: Score)
  {
    Le(r, m) &&
    (Le(r, alpha) ==> Le(v, r)) &&
    (Lt(alpha, r) ==> Le(r, v)) &&
    (Lt(alpha, r) && Lt(r, beta) ==> Le(v, r))
  }

  /** One examined successor with score `e` (true value `vc`) that cuts the loop off. */
  lemma MaxStepCut(m: Score, alpha: Score, beta: Score, e: Score, vc: Score, vr: Score)
    requires Le(m, alpha) && Lt(alpha, beta) && Bracket(e, vc, alpha, beta)
    requires Le(beta, Max(alpha, Max(m, e)))
    ensures MaxClaim(m, alpha, beta, Max(m, e), Max(vc, vr))
  {
    TotalOrder(m, alpha, beta);
    TotalOrder(e, beta, vc);
    TotalOrder(e, vc, Max(vc, vr));
  }

  /** One examined successor that does not cut the loop off, followed by the rest of the loop. */
  lemma MaxStepOn(m: Score, alpha: Score, beta: Score, e: Score, vc: Score, r: Score, vr: Score)
    requires Le(m, alpha) && Lt(alpha, beta) && Bracket(e, vc, alpha, beta)
    requires !Le(beta, Max(alpha, Max(m, e)))
    requires MaxClaim(Max(m, e), Max(alpha, Max(m, e)), beta, r, vr)
    ensures MaxClaim(m, alpha, beta, r, Max(vc, vr))
  {
    var m', a := Max(m, e), Max(alpha, Max(m, e));
    TotalOrder(m, m', r);
    if Lt(r, beta) {
      TotalOrder(e, m', r);
      TotalOrder(e, alpha, beta);
      TotalOrder(vc, e, r);
      assert Le(vc, r);
      if Lt(alpha, r) && !Lt(a, r) {
        TotalOrder(alpha, r, a);
        assert r == m' && m' == e;
      }
    } else {
      TotalOrder(r, vr, Max(vc, vr));
    }
  }

  lemma MinStepCut(m: Score, alpha: Score, beta: Score, e: Score, vc: Score, vr: Score)
    requires Le(beta, m) && Lt(alpha, beta) && Bracket(e, vc, alpha, beta)
    requires Le(Min(beta, Min(m, e)), alpha)
    ensures MinClaim(m, alpha, beta, Min(m, e), Min(vc, vr))
  {
    TotalOrder(alpha, beta, m);
    TotalOrder(vc, alpha, e);
    TotalOrder(Min(vc, vr), vc, e);
  }

  lemma MinStepOn(m: Score, alpha: Score, beta: Score, e: Score, vc: Score, r: Score, vr: Score)
    requires Le(beta, m) && Lt(alpha, beta) && Bracket(e, vc, alpha, beta)
    requires !Le(Min(beta, Min(m, e)), alpha)
    requires MinClaim(Min(m, e), alpha, Min(beta, Min(m, e)), r, vr)
    ensures MinClaim(m, alpha, beta, r, Min(vc, vr))
  {
    var m', bt := Min(m, e), Min(beta, Min(m, e));
    TotalOrder(r, m', m);
    if Lt(alpha, r) {
      TotalOrder(r, m', e);
      TotalOrder(alpha, beta, e);
      TotalOrder(r, e, vc);
      assert Le(r, vc);
      if Lt(r, beta) && !Lt(r, bt) {
        TotalOrder(bt, r, beta);
        assert r == m' && m' == e;
      }
    } else {
      TotalOrder(Min(vc, vr), vr, r);
    }
  }

  /** The maximiser's loop against the maximum of the true values of the remaining successors. */
  lemma {:induction false} MaxLoopFailSoft<S>(t: Tree<S>, kids: seq<S>, d: nat, alpha: Score, beta: Score,
                                              m: Score, b: Option<S>)
    requires Le(m, alpha) && Lt(alpha, beta)
    ensures MaxClaim(m, alpha, beta, MaxLoop(Searcher(t, d, false), kids, alpha, beta, m, b).score, MaxAll(t, kids, d))
    decreases d + 1, 0, |kids|
  {
    if kids != [] {
      var e := AlphaBeta(t, kids[0], d, false, alpha, beta).score;
      var vc := MinimaxValue(t, kids[0], d, false);
      var vr := MaxAll(t, kids[1..], d);
      FailSoft(t, kids[0], d, false, alpha, beta);
      var m' := Max(m, e);
      var a := Max(alpha, m');
      var b' := if m' == e then Some(kids[0]) else b;
      if !Le(beta, a) {
        MaxLoopFailSoft(t, kids[1..], d, a, beta, m', b');
        MaxStepOn(m, alpha, beta, e, vc, MaxLoop(Searcher(t, d, false), kids[1..], a, beta, m', b').score, vr);
      } else {
        MaxStepCut(m, alpha, beta, e, vc, vr);
      }
    }
  }

  /** The minimiser's loop against the minimum of the true values of the remaining successors. */
  lemma {:induction false} MinLoopFailSoft<S>(t: Tree<S>, kids: seq<S>, d: nat, alpha: Score, beta: Score,
                                              m: Score, b: Option<S>)
    requires Le(beta, m) && Lt(alpha, beta)
    ensures MinClaim(m, alpha, beta, MinLoop(Searcher(t, d, true), kids, alpha, beta, m, b).score, MinAll(t, kids, d))
    decreases d + 1, 0, |kids|
  {
    if kids != [] {
      var e := AlphaBeta(t, kids[0], d, true, alpha, beta).score;
      var vc := MinimaxValue(t, kids[0], d, true);
      var vr := MinAll(t, kids[1..], d);
      FailSoft(t, kids[0], d, true, alpha, beta);
      var m' := Min(m, e);
      var bt := Min(beta, m');
      var b' := if m' == e then Some(kids[0]) else b;
      if !Le(bt, alpha) {
        MinLoopFailSoft(t, kids[1..], d, alpha, bt, m', b');
        MinStepOn(m, alpha, beta, e, vc, MinLoop(Searcher(t, d, true), kids[1..], alpha, bt, m', b').score, vr);
      } else {
        MinStepCut(m, alpha, beta, e, vc, vr);
      }
    }
  }

  /**
   * Called with the full window (-infinity, +infinity), the search returns
   * the unpruned depth-limited minimax value.
   */
  lemma FullWindow<S>(t: Tree<S>, s: S, depth: nat, maxPlayer: bool)
    ensures AlphaBeta(t, s, depth, maxPlayer, NegInf, PosInf).score == MinimaxValue(t, s, depth, maxPlayer)
  {
    FailSoft(t, s, depth, maxPlayer, NegInf, PosInf);
    var r := AlphaBeta(t, s, depth, maxPlayer, NegInf, PosInf).score;
    TotalOrder(r, MinimaxValue(t, s, depth, maxPlayer), NegInf);
  }
}
