/**
 * Depth-limited minimax with alpha-beta pruning over an abstract game tree.
 * WHITE maximises and BLACK minimises; the tree supplies the successor
 * positions for a colour and the static evaluation of a position.
 */
module Search {
  import opened Pieces
  import opened Scores

  datatype Option<T> = None | Some(value: T)

  /** The game as the search sees it: successors per colour and an evaluation. */
  datatype Tree<!S> = Tree(moves: (S, Color) -> seq<S>, evaluate: S -> Score)

  /**
   * What one search call produces: the score, the chosen successor (or the
   * position itself at a leaf), and the scores of the successors it examined,
   * in order, before it returned.
   */
  datatype Outcome<S> = Outcome(score: Score, best: Option<S>, examined: seq<Score>)

  // ---------------------------------------------------------------------------
  // Specification of the source's search
  // ---------------------------------------------------------------------------

  /** The search call minimax(s, depth, maxPlayer, alpha, beta). */
  function AlphaBeta<S>(t: Tree<S>, s: S, depth: nat, maxPlayer: bool, alpha: Score, beta: Score): Outcome<S>
    decreases depth, 1
  {
    if depth == 0 then Outcome(t.evaluate(s), Some(s), [])
    else if maxPlayer then MaxLoop(Searcher(t, depth - 1, false), t.moves(s, White), alpha, beta, NegInf, None)
    else MinLoop(Searcher(t, depth - 1, true), t.moves(s, Black), alpha, beta, PosInf, None)
  }

  /**
   * The recursive call a loop makes on one successor: its score when searched
   * to depth `d` for `maxPlayer` under the window (alpha, beta).
   */
  function Searcher<S>(t: Tree<S>, d: nat, maxPlayer: bool): (S, Score, Score) -> Score
    decreases d, 2
  {
    (c: S, alpha: Score, beta: Score) => AlphaBeta(t, c, d, maxPlayer, alpha, beta).score
  }

  /**
   * The maximiser's loop over the remaining successors `kids`, with the
   * current alpha, the best score so far `maxEval` and its successor `best`;
   * `search` scores one successor.
   */
  function MaxLoop<S>(search: (S, Score, Score) -> Score, kids: seq<S>, alpha: Score, beta: Score,
                      maxEval: Score, best: Option<S>): Outcome<S>
    decreases |kids|
  {
    if kids == [] then Outcome(maxEval, best, [])
    else
      var evaluation := search(kids[0], alpha, beta);
      var m := Max(maxEval, evaluation);
      var a := Max(alpha, m);
      var b := if m == evaluation then Some(kids[0]) else best;
      if Le(beta, a) then Outcome(m, b, [evaluation])
      else
        var rest := MaxLoop(search, kids[1..], a, beta, m, b);
        Outcome(rest.score, rest.best, [evaluation] + rest.examined)
  }

  /** The minimiser's loop, symmetric to MaxLoop with beta in place of alpha. */
  function MinLoop<S>(search: (S, Score, Score) -> Score, kids: seq<S>, alpha: Score, beta: Score,
                      minEval: Score, best: Option<S>): Outcome<S>
    decreases |kids|
  {
    if kids == [] then Outcome(minEval, best, [])
    else
      var evaluation := search(kids[0], alpha, beta);
      var m := Min(minEval, evaluation);
      var b := Min(beta, m);
      var chosen := if m == evaluation then Some(kids[0]) else best;
      if Le(b, alpha) then Outcome(m, chosen, [evaluation])
      else
        var rest := MinLoop(search, kids[1..], alpha, b, m, chosen);
        Outcome(rest.score, rest.best, [evaluation] + rest.examined)
  }

  // ---------------------------------------------------------------------------
  // Reference: plain depth-limited minimax, no pruning
  // ---------------------------------------------------------------------------

  function MinimaxValue<S>(t: Tree<S>, s: S, depth: nat, maxPlayer: bool): Score
    decreases depth, 1, 0
  {
    if depth == 0 then t.evaluate(s)
    else if maxPlayer then MaxAll(t, t.moves(s, White), depth - 1)
    else MinAll(t, t.moves(s, Black), depth - 1)
  }

  function MaxAll<S>(t: Tree<S>, kids: seq<S>, d: nat): Score
    decreases d + 1, 0, |kids|
  {
    if kids == [] then NegInf
    else Max(MinimaxValue(t, kids[0], d, false), MaxAll(t, kids[1..], d))
  }

  function MinAll<S>(t: Tree<S>, kids: seq<S>, d: nat): Score
    decreases d + 1, 0, |kids|
  {
    if kids == [] then PosInf
    else Min(MinimaxValue(t, kids[0], d, true), MinAll(t, kids[1..], d))
  }

  // ---------------------------------------------------------------------------
  // The search, as the source runs it: recursion plus a loop with a cut-off
  // ---------------------------------------------------------------------------

  /**
   * minimax(position, depth, max_player, alpha, beta): the score and the
   * chosen successor, as the specification AlphaBeta defines them.
   */
  method Minimax<S>(t: Tree<S>, s: S, depth: nat, maxPlayer: bool, alpha: Score, beta: Score)
    returns (score: Score, best: Option<S>)
    ensures score == AlphaBeta(t, s, depth, maxPlayer, alpha, beta).score
    ensures best == AlphaBeta(t, s, depth, maxPlayer, alpha, beta).best
    ensures depth == 0 ==> score == t.evaluate(s) && best == Some(s)
    decreases depth, 1
  {
    if depth == 0 {
      return t.evaluate(s), Some(s);
    }
    if maxPlayer {
      score, best := MaxTurn(t, s, depth, alpha, beta);
    } else {
      score, best := MinTurn(t, s, depth, alpha, beta);
    }
  }

  /** The maximiser's branch: WHITE's successors, raising alpha, stopping once beta <= alpha. */
  method MaxTurn<S>(t: Tree<S>, s: S, depth: nat, alpha: Score, beta: Score)
    returns (score: Score, best: Option<S>)
    requires depth > 0
    ensures score == MaxLoop(Searcher(t, depth - 1, false), t.moves(s, White), alpha, beta, NegInf, None).score
    ensures best == MaxLoop(Searcher(t, depth - 1, false), t.moves(s, White), alpha, beta, NegInf, None).best
    decreases depth, 0
  {
    var kids := t.moves(s, White);
    ghost var spec := MaxLoop(Searcher(t, depth - 1, false), kids, alpha, beta, NegInf, None);
    var a := alpha;
    var maxEval := NegInf;
    best := None;
    var i := 0;
    while i < |kids|
      invariant 0 <= i <= |kids|
      invariant MaxLoop(Searcher(t, depth - 1, false), kids[i..], a, beta, maxEval, best).score == spec.score
      invariant MaxLoop(Searcher(t, depth - 1, false), kids[i..], a, beta, maxEval, best).best == spec.best
    {
      var evaluation, _ := Minimax(t, kids[i], depth - 1, false, a, beta);
      maxEval := Max(maxEval, evaluation);
      a := Max(a, maxEval);
      if maxEval == evaluation {
        best := Some(kids[i]);
      }
      if Le(beta, a) {
        break;
      }
      assert kids[i..][1..] == kids[i + 1..];
      i := i + 1;
    }
    score := maxEval;
  }

  /** The minimiser's branch: BLACK's successors, lowering beta, stopping once beta <= alpha. */
  method MinTurn<S>(t: Tree<S>, s: S, depth: nat, alpha: Score, beta: Score)
    returns (score: Score, best: Option<S>)
    requires depth > 0
    ensures score == MinLoop(Searcher(t, depth - 1, true), t.moves(s, Black), alpha, beta, PosInf, None).score
    ensures best == MinLoop(Searcher(t, depth - 1, true), t.moves(s, Black), alpha, beta, PosInf, None).best
    decreases depth, 0
  {
    var kids := t.moves(s, Black);
    ghost var spec := MinLoop(Searcher(t, depth - 1, true), kids, alpha, beta, PosInf, None);
    var b := beta;
    var minEval := PosInf;
    best := None;
    var i := 0;
    while i < |kids|
      invariant 0 <= i <= |kids|
      invariant MinLoop(Searcher(t, depth - 1, true), kids[i..], alpha, b, minEval, best).score == spec.score
      invariant MinLoop(Searcher(t, depth - 1, true), kids[i..], alpha, b, minEval, best).best == spec.best
    {
      var evaluation, _ := Minimax(t, kids[i], depth - 1, true, alpha, b);
      minEval := Min(minEval, evaluation);
      b := Min(b, minEval);
      if minEval == evaluation {
        best := Some(kids[i]);
      }
      if Le(b, alpha) {
        break;
      }
      assert kids[i..][1..] == kids[i + 1..];
      i := i + 1;
    }
    score := minEval;
  }
}
