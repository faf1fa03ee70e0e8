/**
 * `alphabeta`: minimax with alpha-beta pruning.  The children are searched in
 * column order with the current window; a max node raises `alpha` to the best
 * score so far, a min node lowers `beta`, and the loop stops as soon as
 * `alpha >= beta`.
 */
module AlphaBetaSearch {
  import opened Wrappers
  import opened Board
  import opened Children
  import opened Scores
  import opened MinimaxSearch

  /** The loop state of a node: the choice so far, the window, and whether the loop has stopped. */
  datatype Frame = Frame(placement: Option<nat>, score: Score, alpha: Score, beta: Score, cut: bool)

  /** The result `alphabeta(player, b, depth, alpha, beta, maxing)` returns. */
  function AlphaBeta(terminal: Board -> bool, eval: Heuristic, player: Player, b: Board, depth: nat,
                     alpha: Score, beta: Score, maxing: bool): Outcome
    requires b.Valid()
    decreases depth, 2, 0
  {
    if depth == 0 || terminal(b) then Leaf(eval, player, b, maxing)
    else
      var f := Explore(terminal, eval, player, depth, maxing, alpha, beta, ChildBoards(player, b));
      Outcome(f.placement, f.score)
  }

  /**
   * The loop of an inner node over the children `kids` in order, starting
   * from the window `(alpha, beta)`: once the loop has stopped, further
   * children are not searched.
   */
  function Explore(terminal: Board -> bool, eval: Heuristic, player: Player, depth: nat, maxing: bool,
                   alpha: Score, beta: Score, kids: seq<Child>): Frame
    requires depth > 0
    requires forall i :: 0 <= i < |kids| ==> kids[i].1.Valid()
    decreases depth, 1, |kids|
  {
    if kids == [] then Frame(None, Worst(maxing), alpha, beta, false)
    else
      var f := Explore(terminal, eval, player, depth, maxing, alpha, beta, kids[..|kids| - 1]);
      if f.cut then f
      else
        var (col, child) := kids[|kids| - 1];
        Advance(maxing, f, col, AlphaBeta(terminal, eval, Opponent(player), child, depth - 1, f.alpha, f.beta, !maxing).score)
  }

  /**
   * One turn of the loop after child `col` scored `s`: a strictly better
   * score becomes the choice, the node's bound moves to it (`alpha` at a max
   * node, `beta` at a min node), and the loop stops when `alpha >= beta`.
   */
  function Advance(maxing: bool, f: Frame, col: nat, s: Score): (g: Frame)
    ensures g.placement == (if Improves(maxing, s, f.score) then Some(col) else f.placement)
    ensures g.cut <==> Le(g.beta, g.alpha)
  {
    var better := Improves(maxing, s, f.score);
    var placement := if better then Some(col) else f.placement;
    var score := if better then s else f.score;
    if maxing then
      var a := Max(score, f.alpha);
      Frame(placement, score, a, f.beta, Le(f.beta, a))
    else
      var b := Min(score, f.beta);
      Frame(placement, score, f.alpha, b, Le(b, f.alpha))
  }

  /** Once the loop has stopped after the first `k` children, the remaining ones change nothing. */
  lemma {:induction false} ExplorePruned(terminal: Board -> bool, eval: Heuristic, player: Player, depth: nat,
                                         maxing: bool, alpha: Score, beta: Score, kids: seq<Child>, k: nat)
    requires depth > 0
    requires forall i :: 0 <= i < |kids| ==> kids[i].1.Valid()
    requires k <= |kids|
    requires Explore(terminal, eval, player, depth, maxing, alpha, beta, kids[..k]).cut
    ensures Explore(terminal, eval, player, depth, maxing, alpha, beta, kids)
      == Explore(terminal, eval, player, depth, maxing, alpha, beta, kids[..k])
    decreases |kids|
  {
    if k < |kids| {
      var init := kids[..|kids| - 1];
      assert init[..k] == kids[..k];
      ExplorePruned(terminal, eval, player, depth, maxing, alpha, beta, init, k);
    } else {
      assert kids[..k] == kids;
    }
  }

  /**
   * One turn of the loop: when the loop over `kids[..i]` has not stopped and
   * child `i` scores `s` under its window, the loop over `kids[..i + 1]`
   * advances by that score.
   */
  lemma ExploreStep(terminal: Board -> bool, eval: Heuristic, player: Player, depth: nat, maxing: bool,
                    alpha: Score, beta: Score, kids: seq<Child>, i: nat, f: Frame, s: Score)
    requires depth > 0
    requires forall k :: 0 <= k < |kids| ==> kids[k].1.Valid()
    requires i < |kids|
    requires Explore(terminal, eval, player, depth, maxing, alpha, beta, kids[..i]) == f && !f.cut
    requires s == AlphaBeta(terminal, eval, Opponent(player), kids[i].1, depth - 1, f.alpha, f.beta, !maxing).score
    ensures Explore(terminal, eval, player, depth, maxing, alpha, beta, kids[..i + 1]) == Advance(maxing, f, kids[i].0, s)
  {
    assert kids[..i + 1][..i] == kids[..i];
  }

  /**
   * `alphabeta(player, board, depth_limit, alpha, beta, maxing_player)`: at a
   * cutoff or terminal node returns no column and the evaluation; otherwise
   * explores the children.
   */
  method SearchAlphaBeta(terminal: Board -> bool, ghost eval: Heuristic, player: Player, board: Board,
                         depthLimit: nat, alpha: Score, beta: Score, maxingPlayer: bool)
    returns (placement: Option<nat>, score: Score)
    requires board.Valid() && IsEvaluation(eval)
    ensures Outcome(placement, score) == AlphaBeta(terminal, eval, player, board, depthLimit, alpha, beta, maxingPlayer)
    decreases depthLimit, 1
  {
    if depthLimit == 0 || terminal(board) {
      placement := None;
      score := LeafValue(eval, player, board, maxingPlayer);
    } else {
      var x := GetChildBoards(player, board);
      placement, score := ExploreChildren(terminal, eval, player, depthLimit, maxingPlayer, alpha, beta, x);
    }
  }

  /**
   * The loop of `alphabeta` over the children `x`: each child is searched one
   * level down with the current window; the best score so far (strictly
   * better replaces) narrows the window, and the loop breaks once
   * `alpha >= beta`.
   */
  method ExploreChildren(terminal: Board -> bool, ghost eval: Heuristic, player: Player, depth: nat, maxing: bool,
                         alpha: Score, beta: Score, x: seq<Child>)
    returns (placement: Option<nat>, score: Score)
    requires depth > 0
    requires forall k :: 0 <= k < |x| ==> x[k].1.Valid()
    requires IsEvaluation(eval)
    ensures var f := Explore(terminal, eval, player, depth, maxing, alpha, beta, x);
      placement == f.placement && score == f.score
    decreases depth, 0
  {
    var adversary := Opponent(player);
    var a, b := alpha, beta;
    placement, score := None, Worst(maxing);
    var i := 0;
    while i < |x|
      invariant i <= |x|
      invariant Explore(terminal, eval, player, depth, maxing, alpha, beta, x[..i]) == Frame(placement, score, a, b, false)
    {
      var (col, newBoard) := x[i];
      var currentPlacement, currentScore := SearchAlphaBeta(terminal, eval, adversary, newBoard, depth - 1, a, b, !maxing);
      ExploreStep(terminal, eval, player, depth, maxing, alpha, beta, x, i, Frame(placement, score, a, b, false), currentScore);
      placement, score, a, b := Improve(maxing, placement, score, a, b, col, currentScore);
      if Le(b, a) {
        ExplorePruned(terminal, eval, player, depth, maxing, alpha, beta, x, i + 1);
        break;
      }
      i := i + 1;
    }
    if i == |x| {
      assert x[..i] == x;
    }
  }

  /**
   * The body of the loop after child `col` scored `currentScore`: a strictly
   * better score becomes the choice, then a max node raises `alpha` to the
   * best score so far and a min node lowers `beta` to it.
   */
  method Improve(maxing: bool, placement: Option<nat>, score: Score, alpha: Score, beta: Score, col: nat,
                 currentScore: Score)
    returns (newPlacement: Option<nat>, newScore: Score, a: Score, b: Score)
    ensures Frame(newPlacement, newScore, a, b, Le(b, a))
      == Advance(maxing, Frame(placement, score, alpha, beta, false), col, currentScore)
  {
    newPlacement, newScore, a, b := placement, score, alpha, beta;
    if maxing {
      if Less(newScore, currentScore) {
        newScore := currentScore;
        newPlacement := Some(col);
      }
      a := Max(newScore, a);
    } else {
      if Less(currentScore, newScore) {
        newScore := currentScore;
        newPlacement := Some(col);
      }
      b := Min(newScore, b);
    }
  }

  /**
   * The fail-soft guarantee relating a search result `r` under the window
   * `(alpha, beta)` to the exact minimax value `v`: exact inside the window,
   * and on the correct side of the window (between it and `v`) outside.
   */
  predicate Bounded(alpha: Score, beta: Score, v: Score, r: Score)
  {
    (Le(v, alpha) ==> Le(v, r) && Le(r, alpha)) &&
    (Less(alpha, v) && Less(v, beta) ==> r == v) &&
    (Le(beta, v) ==> Le(beta, r) && Le(r, v))
  }

  /**
   * What holds of the loop state `f` of a node searched with `(alpha, beta)`
   * after some children whose exact best value is `m`: the node's own bound
   * tracks its score, the score is fail-soft bounded by `m`, a stopped loop
   * has seen a value outside the window, and a running one an open window.
   */
  ghost predicate FrameInvariant(maxing: bool, alpha: Score, beta: Score, m: Score, f: Frame)
  {
    (if maxing then f.beta == beta && f.alpha == Max(f.score, alpha)
     else f.alpha == alpha && f.beta == Min(f.score, beta)) &&
    Bounded(alpha, beta, m, f.score) &&
    (f.cut ==> if maxing then Le(beta, m) else Le(m, alpha)) &&
    (!f.cut ==> Less(f.alpha, f.beta))
  }

  /**
   * Alpha-beta is fail-soft with respect to minimax: for every open window
   * `alpha < beta`, the pruned search returns the minimax value when that
   * lies inside the window, and otherwise a value between the window and
   * the minimax value.
   */
  lemma {:induction false} FailSoft(terminal: Board -> bool, eval: Heuristic, player: Player, b: Board, depth: nat,
                                    alpha: Score, beta: Score, maxing: bool)
    requires b.Valid() && Less(alpha, beta)
    ensures Bounded(alpha, beta, Minimax(terminal, eval, player, b, depth, maxing).score,
                    AlphaBeta(terminal, eval, player, b, depth, alpha, beta, maxing).score)
    decreases depth, 1, 0
  {
    if depth > 0 && !terminal(b) {
      ExploreBounded(terminal, eval, player, depth, maxing, alpha, beta, ChildBoards(player, b));
    }
  }

  /** The loop of a node keeps `FrameInvariant` against the minimax selection over the same children. */
  lemma {:induction false} ExploreBounded(terminal: Board -> bool, eval: Heuristic, player: Player, depth: nat,
                                          maxing: bool, alpha: Score, beta: Score, kids: seq<Child>)
    requires depth > 0 && Less(alpha, beta)
    requires forall i :: 0 <= i < |kids| ==> kids[i].1.Valid()
    ensures FrameInvariant(maxing, alpha, beta,
      Select(maxing, Scored(terminal, eval, Opponent(player), depth - 1, !maxing, kids)).score,
      Explore(terminal, eval, player, depth, maxing, alpha, beta, kids))
    decreases depth, 0, |kids|
  {
    if kids != [] {
      var init := kids[..|kids| - 1];
      var (col, child) := kids[|kids| - 1];
      ExploreBounded(terminal, eval, player, depth, maxing, alpha, beta, init);
      var f := Explore(terminal, eval, player, depth, maxing, alpha, beta, init);
      var pairs := Scored(terminal, eval, Opponent(player), depth - 1, !maxing, init);
      var v := Minimax(terminal, eval, Opponent(player), child, depth - 1, !maxing).score;
      var all := Scored(terminal, eval, Opponent(player), depth - 1, !maxing, kids);
      assert all == pairs + [(col, v)];
      assert all[..|all| - 1] == pairs;
      var m := Select(maxing, pairs).score;
      assert Select(maxing, all).score == if Improves(maxing, v, m) then v else m;
      if f.cut {
        CutKeepsInvariant(maxing, alpha, beta, m, f, v);
      } else {
        var r := AlphaBeta(terminal, eval, Opponent(player), child, depth - 1, f.alpha, f.beta, !maxing).score;
        FailSoft(terminal, eval, Opponent(player), child, depth - 1, f.alpha, f.beta, !maxing);
        AdvanceKeepsInvariant(maxing, alpha, beta, m, f, col, v, r);
      }
    }
  }

  /** A stopped loop stays valid whatever further children are worth. */
  lemma CutKeepsInvariant(maxing: bool, alpha: Score, beta: Score, m: Score, f: Frame, v: Score)
    requires Less(alpha, beta) && FrameInvariant(maxing, alpha, beta, m, f) && f.cut
    ensures FrameInvariant(maxing, alpha, beta, if Improves(maxing, v, m) then v else m, f)
  {
  }

  /**
   * A running loop stays valid after a child of exact value `v` whose search
   * in the current window returned the fail-soft `r`.
   */
  lemma AdvanceKeepsInvariant(maxing: bool, alpha: Score, beta: Score, m: Score, f: Frame, col: nat, v: Score, r: Score)
    requires Less(alpha, beta) && FrameInvariant(maxing, alpha, beta, m, f) && !f.cut
    requires Bounded(f.alpha, f.beta, v, r)
    ensures FrameInvariant(maxing, alpha, beta, if Improves(maxing, v, m) then v else m, Advance(maxing, f, col, r))
  {
  }

  /**
   * Searched from the full window `(-inf, +inf)`, as `alphabeta` is by
   * default, the pruned search returns exactly what minimax returns: the
   * same score and the same column.
   */
  lemma AlphaBetaExact(terminal: Board -> bool, eval: Heuristic, player: Player, b: Board, depth: nat, maxing: bool)
    requires b.Valid()
    ensures AlphaBeta(terminal, eval, player, b, depth, NegInf, PosInf, maxing)
      == Minimax(terminal, eval, player, b, depth, maxing)
  {
    if depth > 0 && !terminal(b) {
      var kids := ChildBoards(player, b);
      ExploreBounded(terminal, eval, player, depth, maxing, NegInf, PosInf, kids);
      ExploreExactPlacement(terminal, eval, player, depth, maxing, kids);
    }
  }

  /** From the full window, the loop picks the same column as the minimax selection. */
  lemma {:induction false} ExploreExactPlacement(terminal: Board -> bool, eval: Heuristic, player: Player, depth: nat,
                                                 maxing: bool, kids: seq<Child>)
    requires depth > 0
    requires forall i :: 0 <= i < |kids| ==> kids[i].1.Valid()
    ensures Explore(terminal, eval, player, depth, maxing, NegInf, PosInf, kids).placement
      == Select(maxing, Scored(terminal, eval, Opponent(player), depth - 1, !maxing, kids)).placement
    decreases |kids|
  {
    if kids != [] {
      var init := kids[..|kids| - 1];
      var (col, child) := kids[|kids| - 1];
      ExploreExactPlacement(terminal, eval, player, depth, maxing, init);
      ExploreBounded(terminal, eval, player, depth, maxing, NegInf, PosInf, init);
      var f := Explore(terminal, eval, player, depth, maxing, NegInf, PosInf, init);
      var pairs := Scored(terminal, eval, Opponent(player), depth - 1, !maxing, init);
      var v := Minimax(terminal, eval, Opponent(player), child, depth - 1, !maxing).score;
      var all := Scored(terminal, eval, Opponent(player), depth - 1, !maxing, kids);
      assert all == pairs + [(col, v)];
      assert all[..|all| - 1] == pairs;
      var m := Select(maxing, pairs).score;
      FullWindowScore(m, f.score);
      if !f.cut {
        var r := AlphaBeta(terminal, eval, Opponent(player), child, depth - 1, f.alpha, f.beta, !maxing).score;
        FailSoft(terminal, eval, Opponent(player), child, depth - 1, f.alpha, f.beta, !maxing);
        FullWindowChoice(maxing, m, v, r);
      }
    }
  }

  /** Within the full window the fail-soft bound is equality. */
  lemma FullWindowScore(v: Score, r: Score)
    requires Bounded(NegInf, PosInf, v, r)
    ensures r == v
  {
  }

  /**
   * A child searched with the window a full-window node passes down (its
   * best score so far as the moving bound) improves on that score exactly
   * when its minimax value does, and then by the same amount.
   */
  lemma FullWindowChoice(maxing: bool, m: Score, v: Score, r: Score)
    requires Bounded(if maxing then Max(m, NegInf) else NegInf, if maxing then PosInf else Min(m, PosInf), v, r)
    ensures Improves(maxing, r, m) <==> Improves(maxing, v, m)
    ensures Improves(maxing, v, m) ==> r == v
  {
  }
}
