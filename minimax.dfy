/**
 * `minimax`: depth-limited minimax.  A node is a board, the player to move,
 * the remaining depth and whether it maximizes.  The searches take two
 * functions of the board: `terminal`, the board's own win-or-draw test
 * (not part of this model), and `eval`, the static evaluation; the search
 * methods require `eval` to agree with `Evaluation` on every valid board,
 * which they compute with `Evaluate`.
 */
module MinimaxSearch {
  import opened Wrappers
  import opened Board
  import opened Children
  import opened Evaluation
  import opened Scores

  /**
   * The value of a cutoff or terminal node: the evaluation from `player`'s
   * side at a max node and from the adversary's side at a min node.
   */
  function Leaf(eval: Heuristic, player: Player, b: Board, maxing: bool): Outcome
  {
    Outcome(None, Fin(eval(if maxing then player else Opponent(player), b) as real))
  }

  /** A static evaluation of a board from one player's side. */
  type Heuristic = (Player, Board) -> int

  /** `eval` is the evaluation `evaluate` computes, on every valid board. */
  ghost predicate IsEvaluation(eval: Heuristic)
  {
    forall p: Player, b: Board {:trigger Evaluation.Evaluation(p, b)} :: b.Valid() ==> eval(p, b) == Evaluation.Evaluation(p, b)
  }

  /**
   * The cutoff branch shared by the three searches: the evaluation from
   * `player`'s side at a max node, from the adversary's side otherwise.
   */
  method LeafValue(ghost eval: Heuristic, player: Player, board: Board, maxingPlayer: bool) returns (score: Score)
    requires board.Valid() && IsEvaluation(eval)
    ensures Outcome(None, score) == Leaf(eval, player, board, maxingPlayer)
    ensures score == Fin(Evaluation.Evaluation(if maxingPlayer then player else Opponent(player), board) as real)
  {
    var value;
    if maxingPlayer {
      value := Evaluate(player, board);
    } else {
      value := Evaluate(Opponent(player), board);
    }
    score := Fin(value as real);
  }

  /** The result `minimax(player, b, depth, maxing)` returns. */
  function Minimax(terminal: Board -> bool, eval: Heuristic, player: Player, b: Board, depth: nat, maxing: bool): Outcome
    requires b.Valid()
    decreases depth, 0, 0
  {
    if depth == 0 || terminal(b) then Leaf(eval, player, b, maxing)
    else Select(maxing, Scored(terminal, eval, Opponent(player), depth - 1, !maxing, ChildBoards(player, b)))
  }

  /** Each child's column paired with its minimax score one level down. */
  function Scored(terminal: Board -> bool, eval: Heuristic, player: Player, depth: nat, maxing: bool, kids: seq<Child>)
    : (pairs: seq<(nat, Score)>)
    requires forall i :: 0 <= i < |kids| ==> kids[i].1.Valid()
    ensures |pairs| == |kids|
    decreases depth, 1, |kids|
  {
    if kids == [] then []
    else
      var last := kids[|kids| - 1];
      Scored(terminal, eval, player, depth, maxing, kids[..|kids| - 1])
      + [(last.0, Minimax(terminal, eval, player, last.1, depth, maxing).score)]
  }

  /** Position `i` of the scored list is child `i`'s column with its score one level down. */
  lemma {:induction false} ScoredAt(terminal: Board -> bool, eval: Heuristic, player: Player, depth: nat, maxing: bool, kids: seq<Child>)
    requires forall k :: 0 <= k < |kids| ==> kids[k].1.Valid()
    ensures forall i :: 0 <= i < |kids| ==>
      Scored(terminal, eval, player, depth, maxing, kids)[i]
        == (kids[i].0, Minimax(terminal, eval, player, kids[i].1, depth, maxing).score)
  {
    if kids != [] {
      var init := kids[..|kids| - 1];
      ScoredAt(terminal, eval, player, depth, maxing, init);
      assert forall i :: 0 <= i < |init| ==> init[i] == kids[i];
    }
  }

  /** `ScoredAt` at the one position `i`. */
  lemma ScoredOne(terminal: Board -> bool, eval: Heuristic, player: Player, depth: nat, maxing: bool, kids: seq<Child>, i: nat)
    requires forall k :: 0 <= k < |kids| ==> kids[k].1.Valid()
    requires i < |kids|
    ensures Scored(terminal, eval, player, depth, maxing, kids)[i]
      == (kids[i].0, Minimax(terminal, eval, player, kids[i].1, depth, maxing).score)
  {
    ScoredAt(terminal, eval, player, depth, maxing, kids);
  }

  /** Scoring one more child appends its pair. */
  lemma ScoredSnoc(terminal: Board -> bool, eval: Heuristic, player: Player, depth: nat, maxing: bool, kids: seq<Child>, i: nat)
    requires forall k :: 0 <= k < |kids| ==> kids[k].1.Valid()
    requires i < |kids|
    ensures Scored(terminal, eval, player, depth, maxing, kids[..i + 1])
      == Scored(terminal, eval, player, depth, maxing, kids[..i])
         + [(kids[i].0, Minimax(terminal, eval, player, kids[i].1, depth, maxing).score)]
  {
    assert kids[..i + 1][..i] == kids[..i];
  }

  /**
   * `minimax(player, board, depth_limit, maxing_player)`: at a cutoff or
   * terminal node returns no column and the evaluation; otherwise scores the
   * children in column order, one level down with the roles swapped.
   */
  method SearchMinimax(terminal: Board -> bool, ghost eval: Heuristic, player: Player, board: Board, depthLimit: nat, maxingPlayer: bool)
    returns (placement: Option<nat>, score: Score)
    requires board.Valid() && IsEvaluation(eval)
    ensures Outcome(placement, score) == Minimax(terminal, eval, player, board, depthLimit, maxingPlayer)
    decreases depthLimit, 1
  {
    var adversary := Opponent(player);
    if depthLimit == 0 || terminal(board) {
      placement := None;
      score := LeafValue(eval, player, board, maxingPlayer);
    } else {
      var x := GetChildBoards(player, board);
      placement, score := SearchChildren(terminal, eval, adversary, x, depthLimit - 1, !maxingPlayer);
    }
  }

  /**
   * The loop of `minimax` over the children `x` of a node whose own role is
   * the opposite of `maxing`: each child is searched with `player` to move,
   * and the first child whose score is strictly better than the best so far
   * becomes the choice.
   */
  method SearchChildren(terminal: Board -> bool, ghost eval: Heuristic, player: Player, x: seq<Child>, depth: nat, maxing: bool)
    returns (placement: Option<nat>, score: Score)
    requires forall k :: 0 <= k < |x| ==> x[k].1.Valid()
    requires IsEvaluation(eval)
    ensures Outcome(placement, score) == Select(!maxing, Scored(terminal, eval, player, depth, maxing, x))
    decreases depth + 1, 0
  {
    placement, score := None, Worst(!maxing);
    var i := 0;
    while i < |x|
      invariant i <= |x|
      invariant Outcome(placement, score) == Select(!maxing, Scored(terminal, eval, player, depth, maxing, x[..i]))
    {
      var (col, newBoard) := x[i];
      var currentPlacement, currentScore := SearchMinimax(terminal, eval, player, newBoard, depth, maxing);
      ScoredSnoc(terminal, eval, player, depth, maxing, x, i);
      if Improves(!maxing, currentScore, score) {
        score := currentScore;
        placement := Some(col);
      }
      i := i + 1;
    }
    assert x[..i] == x;
  }

  /**
   * At an inner node no child's score is strictly better than the returned
   * one, and no column is returned exactly when the score is still the
   * starting sentinel: with no child, `(None, -inf)` at a max node and
   * `(None, +inf)` at a min node.
   */
  lemma MinimaxBest(terminal: Board -> bool, eval: Heuristic, player: Player, b: Board, depth: nat, maxing: bool)
    requires b.Valid() && depth > 0 && !terminal(b)
    ensures var kids := ChildBoards(player, b);
      var o := Minimax(terminal, eval, player, b, depth, maxing);
      forall j :: 0 <= j < |kids| ==>
        !Improves(maxing, Minimax(terminal, eval, Opponent(player), kids[j].1, depth - 1, !maxing).score, o.score)
    ensures var o := Minimax(terminal, eval, player, b, depth, maxing);
      o.placement.None? <==> o.score == Worst(maxing)
    ensures ChildBoards(player, b) == [] ==> Minimax(terminal, eval, player, b, depth, maxing) == Outcome(None, Worst(maxing))
  {
    var kids := ChildBoards(player, b);
    assert Minimax(terminal, eval, player, b, depth, maxing)
      == Select(maxing, Scored(terminal, eval, Opponent(player), depth - 1, !maxing, kids));
    ScoredBest(terminal, eval, Opponent(player), depth - 1, !maxing, kids);
  }

  /** No scored child improves on the choice, and no column is chosen exactly when the score is still the sentinel. */
  lemma {:induction false} ScoredBest(terminal: Board -> bool, eval: Heuristic, player: Player, depth: nat, maxing: bool,
                                      kids: seq<Child>)
    requires forall i :: 0 <= i < |kids| ==> kids[i].1.Valid()
    ensures var o := Select(!maxing, Scored(terminal, eval, player, depth, maxing, kids));
      forall j :: 0 <= j < |kids| ==>
        !Improves(!maxing, Minimax(terminal, eval, player, kids[j].1, depth, maxing).score, o.score)
    ensures var o := Select(!maxing, Scored(terminal, eval, player, depth, maxing, kids));
      o.placement.None? <==> o.score == Worst(!maxing)
  {
    var pairs := Scored(terminal, eval, player, depth, maxing, kids);
    var o := Select(!maxing, pairs);
    SelectLeftmostBest(!maxing, pairs);
    forall j | 0 <= j < |kids|
      ensures !Improves(!maxing, Minimax(terminal, eval, player, kids[j].1, depth, maxing).score, o.score)
    {
      ScoredOne(terminal, eval, player, depth, maxing, kids, j);
    }
  }

  /**
   * The returned column is the leftmost best one: it belongs to a child
   * whose score is the returned score, and every child before it is
   * strictly worse.
   */
  lemma MinimaxLeftmost(terminal: Board -> bool, eval: Heuristic, player: Player, b: Board, depth: nat, maxing: bool)
    requires b.Valid() && depth > 0 && !terminal(b)
    ensures var kids := ChildBoards(player, b);
      var o := Minimax(terminal, eval, player, b, depth, maxing);
      o.placement.Some? ==>
        exists k :: 0 <= k < |kids| && kids[k].0 == o.placement.value &&
          Minimax(terminal, eval, Opponent(player), kids[k].1, depth - 1, !maxing).score == o.score &&
          forall j :: 0 <= j < k ==>
            Improves(maxing, o.score, Minimax(terminal, eval, Opponent(player), kids[j].1, depth - 1, !maxing).score)
  {
    var kids := ChildBoards(player, b);
    assert Minimax(terminal, eval, player, b, depth, maxing)
      == Select(maxing, Scored(terminal, eval, Opponent(player), depth - 1, !maxing, kids));
    ScoredLeftmost(terminal, eval, Opponent(player), depth - 1, !maxing, kids);
  }

  /** The choice among scored children `kids` is a child whose score it is, after only strictly worse ones. */
  lemma {:induction false} ScoredLeftmost(terminal: Board -> bool, eval: Heuristic, player: Player, depth: nat, maxing: bool,
                                          kids: seq<Child>)
    requires forall i :: 0 <= i < |kids| ==> kids[i].1.Valid()
    ensures var o := Select(!maxing, Scored(terminal, eval, player, depth, maxing, kids));
      o.placement.Some? ==>
        exists k :: 0 <= k < |kids| && kids[k].0 == o.placement.value &&
          Minimax(terminal, eval, player, kids[k].1, depth, maxing).score == o.score &&
          forall j :: 0 <= j < k ==>
            Improves(!maxing, o.score, Minimax(terminal, eval, player, kids[j].1, depth, maxing).score)
  {
    var pairs := Scored(terminal, eval, player, depth, maxing, kids);
    var o := Select(!maxing, pairs);
    SelectLeftmostBest(!maxing, pairs);
    if o.placement.Some? {
      var k :| 0 <= k < |pairs| && pairs[k] == (o.placement.value, o.score) &&
        forall j :: 0 <= j < k ==> Improves(!maxing, o.score, pairs[j].1);
      ScoredOne(terminal, eval, player, depth, maxing, kids, k);
      forall j | 0 <= j < k
        ensures Improves(!maxing, o.score, Minimax(terminal, eval, player, kids[j].1, depth, maxing).score)
      {
        ScoredOne(terminal, eval, player, depth, maxing, kids, j);
      }
    }
  }
}
