/**
 * Search values: reals extended with the two infinities the searches use as
 * starting sentinels, and the leftmost strict-best selection that the
 * maximizing and minimizing loops perform.
 */
module Scores {
  import opened Wrappers

  datatype Score = NegInf | Fin(x: real) | PosInf

  /** Python's `<` on these values. */
  predicate Less(a: Score, b: Score)
  {
    match a
    case NegInf => !b.NegInf?
    case Fin(x) => b.PosInf? || (b.Fin? && x < b.x)
    case PosInf => false
  }

  predicate Le(a: Score, b: Score)
  {
    !Less(b, a)
  }

  /** Python's `max(a, b)`. */
  function Max(a: Score, b: Score): (m: Score)
    ensures Le(a, m) && Le(b, m) && (m == a || m == b)
  {
    if Less(a, b) then b else a
  }

  /** Python's `min(a, b)`. */
  function Min(a: Score, b: Score): (m: Score)
    ensures Le(m, a) && Le(m, b) && (m == a || m == b)
  {
    if Less(b, a) then b else a
  }

  /** What a search returns: the column to play (`None` to give up) and its value. */
  datatype Outcome = Outcome(placement: Option<nat>, score: Score)

  /** `s` replaces the best so far: strictly greater at a max node, strictly less at a min node. */
  predicate Improves(maxing: bool, s: Score, best: Score)
  {
    if maxing then Less(best, s) else Less(s, best)
  }

  /** The value a node starts from before any child: `-inf` at a max node, `+inf` at a min node. */
  function Worst(maxing: bool): Score
  {
    if maxing then NegInf else PosInf
  }

  /**
   * The loop over the scored children `(col, score)` in order: a child
   * replaces the current choice only when its score improves on it strictly.
   */
  function Select(maxing: bool, pairs: seq<(nat, Score)>): Outcome
  {
    if pairs == [] then Outcome(None, Worst(maxing))
    else
      var o := Select(maxing, pairs[..|pairs| - 1]);
      var (col, s) := pairs[|pairs| - 1];
      if Improves(maxing, s, o.score) then Outcome(Some(col), s) else o
  }

  /**
   * The selection is the leftmost best child: no child improves on the
   * returned score; a column is returned exactly when the score left the
   * sentinel; and the returned column is that of a child attaining the score
   * such that every child before it is strictly worse.
   */
  lemma {:induction false} SelectLeftmostBest(maxing: bool, pairs: seq<(nat, Score)>)
    ensures var o := Select(maxing, pairs);
      forall j :: 0 <= j < |pairs| ==> !Improves(maxing, pairs[j].1, o.score)
    ensures var o := Select(maxing, pairs);
      o.placement.Some? <==> o.score != Worst(maxing)
    ensures var o := Select(maxing, pairs);
      o.placement.Some? ==>
        exists k :: 0 <= k < |pairs| && pairs[k] == (o.placement.value, o.score) &&
          forall j :: 0 <= j < k ==> Improves(maxing, o.score, pairs[j].1)
  {
    if pairs != [] {
      var init := pairs[..|pairs| - 1];
      SelectLeftmostBest(maxing, init);
      var o := Select(maxing, init);
      var (col, s) := pairs[|pairs| - 1];
      assert forall j :: 0 <= j < |init| ==> pairs[j] == init[j];
      if !Improves(maxing, s, o.score) && o.placement.Some? {
        var k :| 0 <= k < |init| && init[k] == (o.placement.value, o.score) &&
          forall j :: 0 <= j < k ==> Improves(maxing, o.score, init[j].1);
        assert pairs[k] == init[k];
      }
    }
  }

  /** The selected score is the sentinel or one of the children's scores. */
  lemma SelectAttained(maxing: bool, pairs: seq<(nat, Score)>)
    ensures var o := Select(maxing, pairs);
      o.score == Worst(maxing) || exists k :: 0 <= k < |pairs| && pairs[k].1 == o.score
  {
    SelectLeftmostBest(maxing, pairs);
  }

  /**
   * Selection is monotone: if every child's score in `qs` is at least its
   * counterpart's in `ps`, so is the selected score, at a max node and at a
   * min node alike.
   */
  lemma {:induction false} SelectMonotone(maxing: bool, ps: seq<(nat, Score)>, qs: seq<(nat, Score)>)
    requires |ps| == |qs|
    requires forall i :: 0 <= i < |ps| ==> Le(ps[i].1, qs[i].1)
    ensures Le(Select(maxing, ps).score, Select(maxing, qs).score)
  {
    if ps != [] {
      var n := |ps| - 1;
      SelectMonotone(maxing, ps[..n], qs[..n]);
    }
  }
}
