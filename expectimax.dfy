/**
 * `expectimax`: the adversary of the searching player is assumed to pick
 * each of its columns with equal probability, so its nodes (chance nodes)
 * take the mean of their children's values instead of the minimum.
 */
module ExpectimaxSearch {
  import opened Wrappers
  import opened Board
  import opened Children
  import opened Scores
  import opened MinimaxSearch

  /**
   * Python's `a + b` on values. The sum of `+inf` and `-inf` (a NaN in
   * Python) is taken to be `-inf`; no node value is ever `+inf`, so the
   * case never arises.
   */
  function Plus(a: Score, b: Score): (c: Score)
    ensures c == NegInf <==> a == NegInf || b == NegInf
    ensures c == PosInf <==> c != NegInf && (a == PosInf || b == PosInf)
    ensures a.Fin? && b.Fin? ==> c == Fin(a.x + b.x)
  {
    if a == NegInf || b == NegInf then NegInf
    else if a == PosInf || b == PosInf then PosInf
    else Fin(a.x + b.x)
  }

  /** Python's `k * s` for a positive factor `k`. */
  function Times(k: real, s: Score): (c: Score)
    requires k > 0.0
    ensures c.Fin? <==> s.Fin?
    ensures c == NegInf <==> s == NegInf
    ensures s.Fin? ==> c == Fin(k * s.x)
  {
    if s.Fin? then Fin(k * s.x) else s
  }

  /** Some child is worth `-inf`. */
  predicate AnyNegInf(pairs: seq<(nat, Score)>)
  {
    pairs != [] && (AnyNegInf(pairs[..|pairs| - 1]) || pairs[|pairs| - 1].1 == NegInf)
  }

  /** The sum of the finite children's values. */
  function SumOf(pairs: seq<(nat, Score)>): real
  {
    if pairs == [] then 0.0
    else
      var s := pairs[|pairs| - 1].1;
      SumOf(pairs[..|pairs| - 1]) + (if s.Fin? then s.x else 0.0)
  }

  /**
   * The children's values so far, each weighted `1/n`, added up: `-inf` as
   * soon as one of them is `-inf`.
   */
  function PartialMean(n: nat, pairs: seq<(nat, Score)>): Score
  {
    if AnyNegInf(pairs) then NegInf
    else Fin(if n == 0 then 0.0 else SumOf(pairs) / n as real)
  }

  /**
   * The value of a chance node: the mean of its children's values, each
   * child equally likely; `0` with no child, and `-inf` when some child is
   * worth `-inf`.
   */
  function Mean(pairs: seq<(nat, Score)>): Score
  {
    PartialMean(|pairs|, pairs)
  }

  /**
   * What the chance loop over `n` children accumulates: starting from `0`,
   * each child's value times `1/n`, added in order.
   */
  function WeightedSum(n: nat, pairs: seq<(nat, Score)>): Score
    requires pairs == [] || n > 0
  {
    if pairs == [] then Fin(0.0)
    else
      ShareIsPositive(n);
      Plus(WeightedSum(n, pairs[..|pairs| - 1]), Times(1.0 / n as real, pairs[|pairs| - 1].1))
  }

  /** The result `expectimax(player, b, depth, maxing)` returns. */
  function Expectimax(terminal: Board -> bool, eval: Heuristic, player: Player, b: Board, depth: nat, maxing: bool)
    : Outcome
    requires b.Valid()
    decreases depth, 0, 0
  {
    if depth == 0 || terminal(b) then Leaf(eval, player, b, maxing)
    else
      var pairs := ExpectScored(terminal, eval, Opponent(player), depth - 1, !maxing, ChildBoards(player, b));
      if maxing then Select(true, pairs) else Outcome(None, Mean(pairs))
  }

  /** Each child's column paired with its expectimax value one level down. */
  function ExpectScored(terminal: Board -> bool, eval: Heuristic, player: Player, depth: nat, maxing: bool,
                        kids: seq<Child>): (pairs: seq<(nat, Score)>)
    requires forall i :: 0 <= i < |kids| ==> kids[i].1.Valid()
    ensures |pairs| == |kids|
    decreases depth, 1, |kids|
  {
    if kids == [] then []
    else
      var last := kids[|kids| - 1];
      ExpectScored(terminal, eval, player, depth, maxing, kids[..|kids| - 1])
      + [(last.0, Expectimax(terminal, eval, player, last.1, depth, maxing).score)]
  }

  /** `ExpectScoredAt` at the one position `i`. */
  lemma ExpectScoredOne(terminal: Board -> bool, eval: Heuristic, player: Player, depth: nat, maxing: bool,
                        kids: seq<Child>, i: nat)
    requires forall k :: 0 <= k < |kids| ==> kids[k].1.Valid()
    requires i < |kids|
    ensures ExpectScored(terminal, eval, player, depth, maxing, kids)[i]
      == (kids[i].0, Expectimax(terminal, eval, player, kids[i].1, depth, maxing).score)
  {
    ExpectScoredAt(terminal, eval, player, depth, maxing, kids);
  }

  /** Scoring one more child appends its pair. */
  lemma ExpectScoredSnoc(terminal: Board -> bool, eval: Heuristic, player: Player, depth: nat, maxing: bool,
                         kids: seq<Child>, i: nat)
    requires forall k :: 0 <= k < |kids| ==> kids[k].1.Valid()
    requires i < |kids|
    ensures ExpectScored(terminal, eval, player, depth, maxing, kids[..i + 1])
      == ExpectScored(terminal, eval, player, depth, maxing, kids[..i])
         + [(kids[i].0, Expectimax(terminal, eval, player, kids[i].1, depth, maxing).score)]
  {
    assert kids[..i + 1][..i] == kids[..i];
  }

  /** Position `i` of the scored list is child `i`'s column with its value one level down. */
  lemma {:induction false} ExpectScoredAt(terminal: Board -> bool, eval: Heuristic, player: Player, depth: nat,
                                          maxing: bool, kids: seq<Child>)
    requires forall k :: 0 <= k < |kids| ==> kids[k].1.Valid()
    ensures forall i :: 0 <= i < |kids| ==>
      ExpectScored(terminal, eval, player, depth, maxing, kids)[i]
        == (kids[i].0, Expectimax(terminal, eval, player, kids[i].1, depth, maxing).score)
  {
    if kids != [] {
      var init := kids[..|kids| - 1];
      ExpectScoredAt(terminal, eval, player, depth, maxing, init);
      assert forall i :: 0 <= i < |init| ==> init[i] == kids[i];
    }
  }

  /**
   * No node is ever worth `+inf`: a max node starts from `-inf` and only
   * takes its children's values, and a chance node's mean of values that
   * are never `+inf` is finite or `-inf`.
   */
  lemma {:induction false} ExpectimaxBelowPosInf(terminal: Board -> bool, eval: Heuristic, player: Player, b: Board,
                                                 depth: nat, maxing: bool)
    requires b.Valid()
    ensures Expectimax(terminal, eval, player, b, depth, maxing).score != PosInf
    decreases depth, 1
  {
    if depth > 0 && !terminal(b) && maxing {
      var kids := ChildBoards(player, b);
      var pairs := ExpectScored(terminal, eval, Opponent(player), depth - 1, false, kids);
      ExpectScoredAt(terminal, eval, Opponent(player), depth - 1, false, kids);
      SelectAttained(true, pairs);
      forall k | 0 <= k < |pairs|
        ensures pairs[k].1 != PosInf
      {
        ExpectimaxBelowPosInf(terminal, eval, Opponent(player), kids[k].1, depth - 1, false);
      }
    }
  }

  /**
   * Weighting each of `n` children's values `1/n` and adding them up gives
   * their mean, as long as none of them is `+inf`.
   */
  lemma {:induction false} WeightedSumIsMean(n: nat, pairs: seq<(nat, Score)>)
    requires n > 0
    requires forall i :: 0 <= i < |pairs| ==> pairs[i].1 != PosInf
    ensures WeightedSum(n, pairs) == PartialMean(n, pairs)
  {
    if pairs != [] {
      var init := pairs[..|pairs| - 1];
      var s := pairs[|pairs| - 1].1;
      assert forall i :: 0 <= i < |init| ==> init[i] == pairs[i];
      WeightedSumIsMean(n, init);
      if !AnyNegInf(pairs) {
        ShareStep(SumOf(init), s.x, n as real);
      }
    }
  }

  /** Each of `n` children has the positive weight `1/n`. */
  lemma ShareIsPositive(n: nat)
    requires n > 0
    ensures 1.0 / n as real > 0.0
  {
  }

  /** Adding one value weighted `1/n` to a sum already divided by `n`. */
  lemma ShareStep(sum: real, v: real, n: real)
    requires n > 0.0
    ensures sum / n + (1.0 / n) * v == (sum + v) / n
  {
  }

  /**
   * `expectimax(player, board, depth_limit, maxing_player)`: at a cutoff or
   * terminal node returns no column and the evaluation; a max node keeps the
   * first child of strictly best value; a chance node returns no column and
   * adds up its children's values, each weighted `1/len(children)`.
   */
  method SearchExpectimax(terminal: Board -> bool, ghost eval: Heuristic, player: Player, board: Board,
                          depthLimit: nat, maxingPlayer: bool)
    returns (placement: Option<nat>, score: Score)
    requires board.Valid() && IsEvaluation(eval)
    ensures Outcome(placement, score) == Expectimax(terminal, eval, player, board, depthLimit, maxingPlayer)
    decreases depthLimit, 1
  {
    var adversary := Opponent(player);
    if depthLimit == 0 || terminal(board) {
      placement := None;
      score := LeafValue(eval, player, board, maxingPlayer);
    } else {
      var x := GetChildBoards(player, board);
      ghost var pairs := ExpectScored(terminal, eval, adversary, depthLimit - 1, !maxingPlayer, x);
      assert Expectimax(terminal, eval, player, board, depthLimit, maxingPlayer)
        == if maxingPlayer then Select(true, pairs) else Outcome(None, Mean(pairs));
      if maxingPlayer {
        placement, score := MaxChildren(terminal, eval, adversary, x, depthLimit - 1);
      } else {
        score := ChanceChildren(terminal, eval, adversary, x, depthLimit - 1);
        placement := None;
      }
    }
  }

  /** The loop of a max node over its children `x`, each a chance node searched with `player` to move. */
  method MaxChildren(terminal: Board -> bool, ghost eval: Heuristic, player: Player, x: seq<Child>, depth: nat)
    returns (placement: Option<nat>, score: Score)
    requires forall k :: 0 <= k < |x| ==> x[k].1.Valid()
    requires IsEvaluation(eval)
    ensures Outcome(placement, score) == Select(true, ExpectScored(terminal, eval, player, depth, false, x))
    decreases depth + 1, 0
  {
    placement, score := None, NegInf;
    var i := 0;
    while i < |x|
      invariant i <= |x|
      invariant Outcome(placement, score) == Select(true, ExpectScored(terminal, eval, player, depth, false, x[..i]))
    {
      var (col, newBoard) := x[i];
      var currentPlacement, currentScore := SearchExpectimax(terminal, eval, player, newBoard, depth, false);
      ExpectScoredSnoc(terminal, eval, player, depth, false, x, i);
      if Less(score, currentScore) {
        score := currentScore;
        placement := Some(col);
      }
      i := i + 1;
    }
    assert x[..i] == x;
  }

  /** The loop of a chance node over its children `x`, each a max node searched with `player` to move. */
  method ChanceChildren(terminal: Board -> bool, ghost eval: Heuristic, player: Player, x: seq<Child>, depth: nat)
    returns (score: Score)
    requires forall k :: 0 <= k < |x| ==> x[k].1.Valid()
    requires IsEvaluation(eval)
    ensures score == Mean(ExpectScored(terminal, eval, player, depth, true, x))
    decreases depth + 1, 0
  {
    score := Fin(0.0);
    var length := |x|;
    var i := 0;
    while i < |x|
      invariant i <= |x|
      invariant score == WeightedSum(length, ExpectScored(terminal, eval, player, depth, true, x[..i]))
    {
      var (col, newBoard) := x[i];
      var currentPlacement, currentScore := SearchExpectimax(terminal, eval, player, newBoard, depth, true);
      ChanceLoopStep(terminal, eval, player, depth, x, i, score, currentScore);
      var chance := Times(1.0 / length as real, currentScore);
      score := Plus(score, chance);
      i := i + 1;
    }
    assert x[..i] == x;
    if length > 0 {
      ChanceLoopMean(terminal, eval, player, depth, x);
    }
  }

  /** One turn of the chance loop over `x`: child `i`, worth `s`, added to the running sum `acc`. */
  lemma ChanceLoopStep(terminal: Board -> bool, eval: Heuristic, player: Player, depth: nat, x: seq<Child>, i: nat,
                       acc: Score, s: Score)
    requires forall k :: 0 <= k < |x| ==> x[k].1.Valid()
    requires i < |x|
    requires acc == WeightedSum(|x|, ExpectScored(terminal, eval, player, depth, true, x[..i]))
    requires s == Expectimax(terminal, eval, player, x[i].1, depth, true).score
    ensures 1.0 / |x| as real > 0.0
    ensures Plus(acc, Times(1.0 / |x| as real, s))
      == WeightedSum(|x|, ExpectScored(terminal, eval, player, depth, true, x[..i + 1]))
  {
    ShareIsPositive(|x|);
    ExpectScoredSnoc(terminal, eval, player, depth, true, x, i);
  }

  /** No child of the scored list is worth `+inf`. */
  lemma {:induction false} ExpectScoredBelowPosInf(terminal: Board -> bool, eval: Heuristic, player: Player,
                                                   depth: nat, maxing: bool, kids: seq<Child>)
    requires forall k :: 0 <= k < |kids| ==> kids[k].1.Valid()
    ensures forall i :: 0 <= i < |kids| ==> ExpectScored(terminal, eval, player, depth, maxing, kids)[i].1 != PosInf
  {
    ExpectScoredAt(terminal, eval, player, depth, maxing, kids);
    forall i | 0 <= i < |kids|
      ensures ExpectScored(terminal, eval, player, depth, maxing, kids)[i].1 != PosInf
    {
      ExpectimaxBelowPosInf(terminal, eval, player, kids[i].1, depth, maxing);
    }
  }

  /** The chance loop over all of `x` ends with the mean of the children's values. */
  lemma ChanceLoopMean(terminal: Board -> bool, eval: Heuristic, player: Player, depth: nat, x: seq<Child>)
    requires forall k :: 0 <= k < |x| ==> x[k].1.Valid()
    requires x != []
    ensures WeightedSum(|x|, ExpectScored(terminal, eval, player, depth, true, x))
      == Mean(ExpectScored(terminal, eval, player, depth, true, x))
  {
    ExpectScoredBelowPosInf(terminal, eval, player, depth, true, x);
    WeightedSumIsMean(|x|, ExpectScored(terminal, eval, player, depth, true, x));
  }

  /** `AnyNegInf` holds exactly when some child is worth `-inf`. */
  lemma {:induction false} AnyNegInfAt(pairs: seq<(nat, Score)>)
    ensures AnyNegInf(pairs) <==> exists i :: 0 <= i < |pairs| && pairs[i].1 == NegInf
  {
    if pairs != [] {
      var init := pairs[..|pairs| - 1];
      AnyNegInfAt(init);
      assert forall i :: 0 <= i < |init| ==> init[i] == pairs[i];
    }
  }

  /** The finite values are bounded by `lo` and `hi`, so their sum is bounded by `n * lo` and `n * hi`. */
  lemma {:induction false} SumBetween(pairs: seq<(nat, Score)>, lo: real, hi: real)
    requires forall i :: 0 <= i < |pairs| ==> pairs[i].1.Fin? && lo <= pairs[i].1.x <= hi
    ensures |pairs| as real * lo <= SumOf(pairs) <= |pairs| as real * hi
  {
    if pairs != [] {
      var init := pairs[..|pairs| - 1];
      var n := |init| as real;
      assert forall i :: 0 <= i < |init| ==> init[i] == pairs[i];
      SumBetween(init, lo, hi);
      assert SumOf(pairs) == SumOf(init) + pairs[|init|].1.x;
      assert |pairs| as real * lo == n * lo + lo && |pairs| as real * hi == n * hi + hi;
    }
  }

  /**
   * The mean of finite children's values lies between any bounds on them:
   * a chance node is worth no less than its worst child and no more than
   * its best.
   */
  lemma MeanBetween(pairs: seq<(nat, Score)>, lo: real, hi: real)
    requires |pairs| > 0
    requires forall i :: 0 <= i < |pairs| ==> pairs[i].1.Fin? && lo <= pairs[i].1.x <= hi
    ensures Mean(pairs).Fin? && lo <= Mean(pairs).x <= hi
  {
    AnyNegInfAt(pairs);
    SumBetween(pairs, lo, hi);
    var n := |pairs| as real;
    assert SumOf(pairs) / n >= lo by {
      assert SumOf(pairs) >= n * lo;
    }
    assert SumOf(pairs) / n <= hi by {
      assert SumOf(pairs) <= n * hi;
    }
  }

  /**
   * A chance node is worth at least what a min node over the same children
   * is worth, and at most what a max node is worth.
   */
  lemma MeanBetweenMinAndMax(pairs: seq<(nat, Score)>)
    requires |pairs| > 0
    requires forall i :: 0 <= i < |pairs| ==> pairs[i].1 != PosInf
    ensures Le(Select(false, pairs).score, Mean(pairs))
    ensures Le(Mean(pairs), Select(true, pairs).score)
  {
    var lo, hi := Select(false, pairs).score, Select(true, pairs).score;
    SelectLeftmostBest(false, pairs);
    SelectLeftmostBest(true, pairs);
    AnyNegInfAt(pairs);
    if !AnyNegInf(pairs) {
      assert Less(NegInf, pairs[0].1) && Less(pairs[0].1, PosInf);
      assert lo.Fin? && hi.Fin?;
      forall i | 0 <= i < |pairs|
        ensures pairs[i].1.Fin? && lo.x <= pairs[i].1.x <= hi.x
      {
        assert !Improves(false, pairs[i].1, lo) && !Improves(true, pairs[i].1, hi);
      }
      MeanBetween(pairs, lo.x, hi.x);
    } else {
      var i :| 0 <= i < |pairs| && pairs[i].1 == NegInf;
      assert !Improves(false, pairs[i].1, lo);
    }
  }

  /** Three equally likely outcomes worth 10, 20 and 30 give a chance node worth 20. */
  lemma MeanOfThree()
    ensures Mean([(0, Fin(10.0)), (1, Fin(20.0)), (2, Fin(30.0))]) == Fin(20.0)
  {
    var ps: seq<(nat, Score)> := [(0, Fin(10.0)), (1, Fin(20.0)), (2, Fin(30.0))];
    var p1, p2 := ps[..1], ps[..2];
    assert p2[..1] == p1 && p1[..0] == [];
    assert !AnyNegInf(p1) && SumOf(p1) == 10.0;
    assert !AnyNegInf(p2) && SumOf(p2) == 30.0;
    assert !AnyNegInf(ps) && SumOf(ps) == 60.0;
  }

  /**
   * A chance node never names a column; with no child it is worth 0, and it
   * is worth `-inf` exactly when one of its children is.
   */
  lemma ExpectimaxChanceNode(terminal: Board -> bool, eval: Heuristic, player: Player, b: Board, depth: nat)
    requires b.Valid() && depth > 0 && !terminal(b)
    ensures var o := Expectimax(terminal, eval, player, b, depth, false);
      var kids := ChildBoards(player, b);
      o.placement == None &&
      (kids == [] ==> o.score == Fin(0.0)) &&
      ((exists i :: 0 <= i < |kids| && Expectimax(terminal, eval, Opponent(player), kids[i].1, depth - 1, true).score == NegInf)
         <==> o.score == NegInf)
  {
    var kids := ChildBoards(player, b);
    var es := ExpectScored(terminal, eval, Opponent(player), depth - 1, true, kids);
    ExpectScoredAt(terminal, eval, Opponent(player), depth - 1, true, kids);
    AnyNegInfAt(es);
  }

  /**
   * A chance node with children is worth no less than the worst child and no
   * more than the best child.
   */
  lemma ExpectimaxChanceBetween(terminal: Board -> bool, eval: Heuristic, player: Player, b: Board, depth: nat)
    requires b.Valid() && depth > 0 && !terminal(b) && ChildBoards(player, b) != []
    ensures var o := Expectimax(terminal, eval, player, b, depth, false);
      var es := ExpectScored(terminal, eval, Opponent(player), depth - 1, true, ChildBoards(player, b));
      Le(Select(false, es).score, o.score) && Le(o.score, Select(true, es).score)
  {
    var kids := ChildBoards(player, b);
    var es := ExpectScored(terminal, eval, Opponent(player), depth - 1, true, kids);
    ExpectScoredAt(terminal, eval, Opponent(player), depth - 1, true, kids);
    forall i | 0 <= i < |es|
      ensures es[i].1 != PosInf
    {
      ExpectimaxBelowPosInf(terminal, eval, Opponent(player), kids[i].1, depth - 1, true);
    }
    MeanBetweenMinAndMax(es);
  }

  /**
   * A max node is worth at least each of its children; it returns no column
   * exactly when its value is `-inf`, and with no child the result is no
   * column and `-inf`.
   */
  lemma ExpectimaxMaxNode(terminal: Board -> bool, eval: Heuristic, player: Player, b: Board, depth: nat)
    requires b.Valid() && depth > 0 && !terminal(b)
    ensures var kids := ChildBoards(player, b);
      var o := Expectimax(terminal, eval, player, b, depth, true);
      forall j :: 0 <= j < |kids| ==>
        Le(Expectimax(terminal, eval, Opponent(player), kids[j].1, depth - 1, false).score, o.score)
    ensures var o := Expectimax(terminal, eval, player, b, depth, true);
      o.placement.None? <==> o.score == NegInf
    ensures ChildBoards(player, b) == [] ==> Expectimax(terminal, eval, player, b, depth, true) == Outcome(None, NegInf)
  {
    var kids := ChildBoards(player, b);
    assert Expectimax(terminal, eval, player, b, depth, true)
      == Select(true, ExpectScored(terminal, eval, Opponent(player), depth - 1, false, kids));
    ExpectScoredBest(terminal, eval, Opponent(player), depth - 1, kids);
  }

  /**
   * A max node keeps the leftmost best child, as in minimax: the column
   * returned is that of a child worth the returned value, and every earlier
   * child is worth strictly less.
   */
  lemma ExpectimaxMaxLeftmost(terminal: Board -> bool, eval: Heuristic, player: Player, b: Board, depth: nat)
    requires b.Valid() && depth > 0 && !terminal(b)
    ensures var kids := ChildBoards(player, b);
      var o := Expectimax(terminal, eval, player, b, depth, true);
      o.placement.Some? ==>
        exists k :: 0 <= k < |kids| && kids[k].0 == o.placement.value &&
          Expectimax(terminal, eval, Opponent(player), kids[k].1, depth - 1, false).score == o.score &&
          forall j :: 0 <= j < k ==> Less(Expectimax(terminal, eval, Opponent(player), kids[j].1, depth - 1, false).score, o.score)
  {
    var kids := ChildBoards(player, b);
    assert Expectimax(terminal, eval, player, b, depth, true)
      == Select(true, ExpectScored(terminal, eval, Opponent(player), depth - 1, false, kids));
    ExpectScoredBest(terminal, eval, Opponent(player), depth - 1, kids);
  }

  /** The choice among the chance children `kids`: the leftmost child of greatest value, or no column and `-inf`. */
  lemma {:induction false} ExpectScoredBest(terminal: Board -> bool, eval: Heuristic, player: Player, depth: nat,
                                            kids: seq<Child>)
    requires forall i :: 0 <= i < |kids| ==> kids[i].1.Valid()
    ensures var o := Select(true, ExpectScored(terminal, eval, player, depth, false, kids));
      forall j :: 0 <= j < |kids| ==> Le(Expectimax(terminal, eval, player, kids[j].1, depth, false).score, o.score)
    ensures var o := Select(true, ExpectScored(terminal, eval, player, depth, false, kids));
      o.placement.None? <==> o.score == NegInf
    ensures var o := Select(true, ExpectScored(terminal, eval, player, depth, false, kids));
      o.placement.Some? ==>
        exists k :: 0 <= k < |kids| && kids[k].0 == o.placement.value &&
          Expectimax(terminal, eval, player, kids[k].1, depth, false).score == o.score &&
          forall j :: 0 <= j < k ==> Less(Expectimax(terminal, eval, player, kids[j].1, depth, false).score, o.score)
  {
    var es := ExpectScored(terminal, eval, player, depth, false, kids);
    var o := Select(true, es);
    SelectLeftmostBest(true, es);
    forall j | 0 <= j < |kids|
      ensures Le(Expectimax(terminal, eval, player, kids[j].1, depth, false).score, o.score)
    {
      ExpectScoredOne(terminal, eval, player, depth, false, kids, j);
    }
    if o.placement.Some? {
      var k :| 0 <= k < |es| && es[k] == (o.placement.value, o.score) &&
        forall j :: 0 <= j < k ==> Improves(true, o.score, es[j].1);
      ExpectScoredOne(terminal, eval, player, depth, false, kids, k);
      forall j | 0 <= j < k
        ensures Less(Expectimax(terminal, eval, player, kids[j].1, depth, false).score, o.score)
      {
        ExpectScoredOne(terminal, eval, player, depth, false, kids, j);
      }
    }
  }

  /** Every valid board on which `player` has no move counts as terminal (a full board is a draw). */
  ghost predicate StopsWhenStuck(terminal: Board -> bool)
  {
    forall p: Player, b: Board :: b.Valid() && ChildBoards(p, b) == [] ==> terminal(b)
  }

  /**
   * Expectimax is never more pessimistic than minimax: when the adversary
   * picks uniformly at random, every node is worth at least what it is worth
   * when the adversary picks its best reply.
   */
  lemma {:induction false} MinimaxBelowExpectimax(terminal: Board -> bool, eval: Heuristic, player: Player, b: Board,
                                                  depth: nat, maxing: bool)
    requires b.Valid() && StopsWhenStuck(terminal)
    ensures Le(Minimax(terminal, eval, player, b, depth, maxing).score,
               Expectimax(terminal, eval, player, b, depth, maxing).score)
    decreases depth, 1
  {
    if depth > 0 && !terminal(b) {
      var kids := ChildBoards(player, b);
      var adversary := Opponent(player);
      var ms := Scored(terminal, eval, adversary, depth - 1, !maxing, kids);
      var es := ExpectScored(terminal, eval, adversary, depth - 1, !maxing, kids);
      ChildrenBelowExpectimax(terminal, eval, adversary, depth - 1, !maxing, kids);
      SelectMonotone(maxing, ms, es);
      if !maxing {
        MeanBetweenMinAndMax(es);
      }
    }
  }

  /** Child by child, the minimax value is at most the expectimax value, which is never `+inf`. */
  lemma ChildrenBelowExpectimax(terminal: Board -> bool, eval: Heuristic, player: Player, depth: nat, maxing: bool,
                                kids: seq<Child>)
    requires forall k :: 0 <= k < |kids| ==> kids[k].1.Valid()
    requires StopsWhenStuck(terminal)
    ensures forall i :: 0 <= i < |kids| ==>
      Le(Scored(terminal, eval, player, depth, maxing, kids)[i].1, ExpectScored(terminal, eval, player, depth, maxing, kids)[i].1)
    ensures forall i :: 0 <= i < |kids| ==> ExpectScored(terminal, eval, player, depth, maxing, kids)[i].1 != PosInf
    decreases depth + 1, 0
  {
    ScoredAt(terminal, eval, player, depth, maxing, kids);
    ExpectScoredAt(terminal, eval, player, depth, maxing, kids);
    forall i | 0 <= i < |kids|
      ensures Le(Minimax(terminal, eval, player, kids[i].1, depth, maxing).score,
                 Expectimax(terminal, eval, player, kids[i].1, depth, maxing).score)
      ensures Expectimax(terminal, eval, player, kids[i].1, depth, maxing).score != PosInf
    {
      MinimaxBelowExpectimax(terminal, eval, player, kids[i].1, depth, maxing);
      ExpectimaxBelowPosInf(terminal, eval, player, kids[i].1, depth, maxing);
    }
  }
}
