# Connect-4 adversarial search, modelled in Dafny

This project models the game-playing core of a Connect-4 agent:

- **Successors.** `get_child_boards` lists the successor boards: one for every column that can still take a disc, in column order.
- **Heuristic.** `evaluate` scores a board for one player. It cuts the board into all 4-slot segments: rows, columns, and both diagonals through "revolved" padded copies of the grid. It counts the segments that only one side occupies, by how many discs that side holds. It weights the counts `0, 1, 4, 16, 1000` and returns the player's weighted total minus the adversary's.
- **Searches.** There are three depth-limited searches:
  - `minimax`;
  - `alphabeta`, minimax with alpha-beta pruning;
  - `expectimax`, where the adversary moves uniformly at random.

  Each returns a `(placement, score)` pair.
- **`ordinal`.** The small helper that writes `1st`, `2nd`, `3rd`, `11th`, … for the user interface.

Modules:

| File | Module | Contents |
|---|---|---|
| `wrappers.dfy` | `Wrappers` | `Option` |
| `board.dfy` | `Board` | The board as a value: `rows × cols` cells, row 0 on top. `Place` drops a disc to the lowest empty cell of a column. |
| `children.dfy` | `Children` | The successor list, as a function (`ChildBoards`) and as the source's loop (`GetChildBoards`). |
| `evaluation.dfy` | `Evaluation` | The heuristic. It is a specification function `Evaluation` (a sum over segments of a per-window value). Methods `CollectSegments`, `CountWindows` and `Evaluate` build the segment list and the two 5-bucket count arrays step by step, as the source does. |
| `scores.dfy` | `Scores` | Scores with `-inf` and `+inf`, and the selection loop shared by the searches. The selection keeps the first strictly better child. |
| `minimax.dfy` | `MinimaxSearch` | `Minimax` (specification) and `SearchMinimax` (the recursive method with its loop). |
| `alphabeta.dfy` | `AlphaBetaSearch` | `AlphaBeta` (specification) and `SearchAlphaBeta` (method), with the fail-soft bound. From the default window the result is exactly minimax's. |
| `expectimax.dfy` | `ExpectimaxSearch` | `Expectimax` (specification) and `SearchExpectimax` (method). A chance node accumulates `1/n · value` and is proved equal to the mean of its children. |
| `ordinal.dfy` | `Ordinal` | `ordinal(n)`, with decimal formatting and its round trip. |

Each search method is proved equal to its specification function. The properties the program relies on are lemmas about those functions.

The board's own win-or-draw test (`board.terminal()`) belongs to the board class, which is not part of this model. Every search takes it as a parameter `terminal: Board -> bool`. The heuristic is also passed in as a parameter, `eval`; the search methods require it to agree with `Evaluation` on every valid board.

## Model

| member | source | states |
|---|---|---|
| Board.Opponent | connect4.py:107 | the adversary of a player is the other player |
| Board.Board.Col | connect4.py:142-146 | a column of a valid board has `rows` cells and holds cell `(r, c)` at position `r` |
| Board.Board.LowestEmptyBelow | connect4.py:19-21 | the slot found is empty and every cell below it in the column is occupied; with none found, the whole column is occupied |
| Board.Board.Row | connect4.py:137-139 | a row of a valid board has `cols` cells and holds cell `(r, c)` at position `c` |
| Board.Board.Placeable | connect4.py:83 | `placeable(c)` holds exactly when column `c` has an empty cell |
| Board.Board.PlaceableIffEmptyCell | connect4.py:49-50 | a column is full, and not placeable, exactly when every one of its cells holds a disc |
| Board.Board.Place | connect4.py:51-52 | placing succeeds exactly when the column is placeable, and yields a valid board of the same size |
| Board.Board.PlaceDropsDisc | connect4.py:19-21 | the disc lands in the lowest empty cell of the column; every other cell is unchanged |
| Children.ChildrenBelow | connect4.py:82-86 | every successor names a column below the bound and is a valid board of the same size |
| Children.GetChildBoards | connect4.py:81-87 | the loop over the columns returns exactly the successor list `ChildBoards` |
| Children.ChildrenBelowSound | connect4.py:83-86 | each listed column is placeable, and its board is the parent with the player's disc placed there |
| Children.ChildrenBelowOrdered | connect4.py:82-86 | successors are listed in strictly increasing column order, so no column appears twice |
| Children.ChildrenBelowComplete | connect4.py:82-86 | every placeable column below the bound appears in the list |
| Children.ChildBoardsExact | connect4.py:64-87 | a column is listed if and only if it is placeable, and its board is the result of placing there |
| Evaluation.AppendWindows | connect4.py:140-141 | appends every 4-slot window of a line, in order |
| Evaluation.AppendLines | connect4.py:137-154 | appends the windows of each line in turn |
| Evaluation.CollectSegments | connect4.py:127-154 | builds exactly the segment list: rows, then columns, then the slash and backslash diagonals of the revolved grids |
| Evaluation.TallyInto | connect4.py:157-162 | one segment bumps the bucket of the number of the player's discs, unless it holds padding or an adversary disc |
| Evaluation.CountWindows | connect4.py:156-162 | the two count arrays are the buckets of the player and of the adversary over all segments |
| Evaluation.Evaluate | connect4.py:90-167 | the value returned is the heuristic `Evaluation` of the board for the player |
| Evaluation.BucketsWeighted | connect4.py:163-165 | reward minus penalty over the buckets equals the sum over segments of each window's value |
| Evaluation.WindowBuckets | connect4.py:157-162 | a padded segment changes no bucket; a segment holding both players' discs changes none and is worth 0; an all-empty segment bumps bucket 0 and is worth 0 |
| Evaluation.TotalAntisymmetric | connect4.py:159-165 | swapping the two players negates the summed segment value |
| Evaluation.EvaluationAntisymmetric | connect4.py:90-167 | a board is worth exactly as much to one player as it costs the other: `evaluate(p) == -evaluate(opponent)` |
| Evaluation.EmptyBoardEvaluatesToZero | connect4.py:117-165 | an empty board evaluates to 0 for either player |
| Evaluation.OwnDiscRaisesWindowValue | connect4.py:124 | adding an own disc to a segment that is only open to the player strictly raises that segment's value |
| Evaluation.CountOfUpdate | connect4.py:160 | writing a slot value into a segment raises its count by one |
| Evaluation.LeftRevolved | connect4.py:128-131 | `left_revolved` has one padded row per board row, each `rows + cols - 1` slots long |
| Evaluation.LeftRevolvedAt | connect4.py:128-131 | slot `j` of padded row `r` is cell `(r, j - r)` when `r <= j < r + cols`, and padding otherwise |
| Evaluation.RightRevolved | connect4.py:132-135 | `right_revolved` has one padded row per board row, each `rows + cols - 1` slots long |
| Evaluation.RightRevolvedAt | connect4.py:132-135 | slot `j` of padded row `r` is cell `(r, j - (rows - 1 - r))` when `rows - 1 - r <= j < rows - 1 - r + cols`, and padding otherwise |
| Evaluation.Transposed | connect4.py:147 | `zip(*m)` of equal-length rows: one column per slot index, column `j` holding slot `j` of every row in order, and nothing for no rows |
| Evaluation.Windows | connect4.py:149-150 | a line of `n` slots gives `n - 3` windows (none when `n < 4`), window `k` being the four slots from `k` |
| Evaluation.CountOf | connect4.py:160-162 | `s.count(x)` is at most the window's length, and 0 exactly when `x` is not in the window |
| Evaluation.Weighted | connect4.py:163-164 | with counts that are not negative the weighted total is not negative, and each window of four discs adds at least 1000 |
| Evaluation.AllWindowsLength | connect4.py:140-146 | lines of length `n` give `n - 3` windows each |
| Evaluation.RowWindowAt | connect4.py:137-141 | the row segments hold each horizontal 4-cell window, at position `r·(cols−3)+c` |
| Evaluation.ColWindowAt | connect4.py:142-146 | the column segments hold each vertical 4-cell window, at position `c·(rows−3)+r` |
| Evaluation.SlashWindowAt | connect4.py:129-132 | a window of a left-revolved column is free of padding if and only if it is an in-board down-left diagonal, and then it is that diagonal |
| Evaluation.BackslashWindowAt | connect4.py:133-136 | a window of a right-revolved column is free of padding if and only if it is an in-board down-right diagonal, and then it is that diagonal |
| Evaluation.WindowPosition | connect4.py:147-150 | every entry of the window list of equal-length lines is window `r < n - 3` of some line `j`, at position `LineStart(j, n - 3) + r` |
| Evaluation.SlashSegmentCount | connect4.py:147-150 | the slash loop appends `rows - 3` windows for each of the `rows + cols - 1` revolved columns |
| Evaluation.BackslashSegmentCount | connect4.py:151-154 | the backslash loop appends `rows - 3` windows for each of the `rows + cols - 1` revolved columns |
| Evaluation.SlashSegmentLine | connect4.py:147-150 | slash segment `k` is window `r` of revolved column `j`; it is free of padding if and only if `(r, j - r)` is an in-board start, and then it is that start's down-left window |
| Evaluation.BackslashSegmentLine | connect4.py:151-154 | backslash segment `k` is window `r` of revolved column `j`; it is free of padding if and only if `(r, j - (rows - 1) + r)` is an in-board start, and then it is that start's down-right window |
| Evaluation.SlashSegmentsExactlyOnce | connect4.py:147-150 | a slash segment is free of padding if and only if some in-board down-left start is placed at it; every start placed there has that segment as its window |
| Evaluation.BackslashSegmentsExactlyOnce | connect4.py:151-154 | a backslash segment is free of padding if and only if some in-board down-right start is placed at it; every start placed there has that segment as its window |
| Evaluation.SlashSegmentAt | connect4.py:147-150 | every in-board down-left start has its window among the slash segments, at position `LineStart(r + c, rows - 3) + r` |
| Evaluation.BackslashSegmentAt | connect4.py:151-154 | every in-board down-right start has its window among the backslash segments, at position `LineStart(c + rows - 1 - r, rows - 3) + r` |
| Evaluation.PositionsDistinct | connect4.py:147-154 | two windows of equal-length lines at the same position are the same window of the same line, so no start is counted twice |
| Scores.Max | connect4.py:285 | `max` is an upper bound of both arguments and is one of them |
| Scores.Min | connect4.py:299 | `min` is a lower bound of both arguments and is one of them |
| Scores.SelectLeftmostBest | connect4.py:206-224 | the selection loop returns no child better than its result; a chosen column is the leftmost child with that score; with nothing chosen the score is the starting sentinel |
| Scores.SelectAttained | connect4.py:206-224 | the selected score is the starting sentinel or the score of one of the children |
| Scores.SelectMonotone | connect4.py:206-224 | raising every child's score never lowers the selected score |
| MinimaxSearch.LeafValue | connect4.py:200-204 | at a leaf the score is the evaluation for the player at a max node and for the adversary at a min node |
| MinimaxSearch.SearchMinimax | connect4.py:170-232 | the recursive search returns exactly `Minimax` |
| MinimaxSearch.SearchChildren | connect4.py:206-224 | the loop over successors returns the leftmost best child, from the sentinel `-inf` (max) or `+inf` (min) |
| MinimaxSearch.MinimaxBest | connect4.py:205-224 | at an inner node no child is strictly better than the result; with no successors the result is `(None, ∓inf)` |
| MinimaxSearch.MinimaxLeftmost | connect4.py:212-214 | the chosen column is the first child reaching the returned score |
| AlphaBetaSearch.Advance | connect4.py:282-287 | a strictly better score becomes the choice; the loop stops exactly when `alpha >= beta` |
| AlphaBetaSearch.ExplorePruned | connect4.py:286-287 | once the loop has stopped, later children change nothing |
| AlphaBetaSearch.ExploreStep | connect4.py:279-287 | one turn of the loop advances the state by the next child's pruned score |
| AlphaBetaSearch.Improve | connect4.py:282-285 | one turn of the loop body updates the choice and the window as `Advance` says (lines 296-299 at a min node) |
| AlphaBetaSearch.ExploreChildren | connect4.py:276-301 | the loop with its `break` returns exactly the pruned selection `Explore` |
| AlphaBetaSearch.SearchAlphaBeta | connect4.py:235-305 | the recursive search returns exactly `AlphaBeta` |
| AlphaBetaSearch.FailSoft | connect4.py:235-305 | the pruned score equals the minimax score when that lies inside `(alpha, beta)`; otherwise it lies on the same side of the window as the minimax score |
| AlphaBetaSearch.ExploreBounded | connect4.py:276-301 | the pruned loop keeps the fail-soft relation to the unpruned selection, child by child |
| AlphaBetaSearch.CutKeepsInvariant | connect4.py:286-287 | stopping early keeps the fail-soft relation |
| AlphaBetaSearch.AdvanceKeepsInvariant | connect4.py:282-285 | one more child keeps the fail-soft relation |
| AlphaBetaSearch.AlphaBetaExact | connect4.py:237 | from the default window `(-inf, +inf)` alphabeta returns the same column and score as minimax |
| AlphaBetaSearch.ExploreExactPlacement | connect4.py:276-301 | from the full window the loop picks the same column as minimax |
| AlphaBetaSearch.FullWindowScore | connect4.py:237 | inside the full window a fail-soft score is exact |
| AlphaBetaSearch.FullWindowChoice | connect4.py:282-285 | under the full window, a bounded score improves on the best so far exactly when the exact score does |
| ExpectimaxSearch.Plus | connect4.py:373 | adding scores: `-inf` absorbs, otherwise `+inf` absorbs, otherwise the real sum |
| ExpectimaxSearch.Times | connect4.py:372 | a positive share of a score keeps its infinity or scales its value |
| ExpectimaxSearch.WeightedSumIsMean | connect4.py:372-373 | accumulating `1/n · value` over the children equals their mean when none is `+inf` |
| ExpectimaxSearch.SearchExpectimax | connect4.py:308-376 | the recursive search returns exactly `Expectimax` |
| ExpectimaxSearch.MaxChildren | connect4.py:349-359 | the max loop returns the leftmost best child, from `-inf` |
| ExpectimaxSearch.ChanceChildren | connect4.py:362-373 | the chance loop returns no column and the mean of the children's values (0 with no children) |
| ExpectimaxSearch.ChanceLoopStep | connect4.py:372-373 | one turn of the chance loop adds the next child's equal share |
| ExpectimaxSearch.ChanceLoopMean | connect4.py:367-373 | the accumulated sum after all children is their mean |
| ExpectimaxSearch.ExpectimaxBelowPosInf | connect4.py:342-373 | expectimax never returns `+inf` |
| ExpectimaxSearch.AnyNegInfAt | connect4.py:372-373 | the mean is `-inf` exactly when some child is worth `-inf` |
| ExpectimaxSearch.SumBetween | connect4.py:373 | bounds on each finite value bound their sum |
| ExpectimaxSearch.MeanBetween | connect4.py:367-373 | the mean of finite values lies between any bounds on them |
| ExpectimaxSearch.MeanBetweenMinAndMax | connect4.py:362-373 | a chance node is worth between its worst and its best child |
| ExpectimaxSearch.MeanOfThree | connect4.py:371-373 | three equally likely children worth 10, 20 and 30 give 20 |
| ExpectimaxSearch.ExpectimaxChanceNode | connect4.py:362-373 | a chance node names no column, is worth 0 with no children, and is `-inf` exactly when a child is |
| ExpectimaxSearch.ExpectimaxChanceBetween | connect4.py:362-373 | a chance node is worth between its worst and its best child's expectimax value |
| ExpectimaxSearch.ExpectimaxMaxNode | connect4.py:349-359 | a max node is worth at least each child; with no successors it returns `(None, -inf)` |
| ExpectimaxSearch.ExpectimaxMaxLeftmost | connect4.py:357-359 | a max node's column is the first child reaching its score |
| ExpectimaxSearch.MinimaxBelowExpectimax | connect4.py:308-316 | when a board with no moves is terminal, minimax never scores a node above expectimax: a random adversary is never worse than an optimal one |
| ExpectimaxSearch.ChildrenBelowExpectimax | connect4.py:308-316 | child by child, the minimax value is at most the expectimax value |
| Ordinal.OrdinalString | utils/utils.py:13-14 | `ordinal(n)` ends in the two-letter `Suffix(n)` after at least one character; `OrdinalSplits` shows the rest is the decimal of `n` and reads back as `n` |
| Ordinal.Digits | utils/utils.py:14 | `%d` writes at least one decimal digit, with no leading zero |
| Ordinal.DigitsRoundTrip | utils/utils.py:14 | reading back the digits of `n` gives `n` |
| Ordinal.DecimalRoundTrip | utils/utils.py:14 | reading back `%d` of any integer, negative ones included, gives that integer |
| Ordinal.SuffixIndex | utils/utils.py:14 | the start index into `"tsnrhtdd"` is below 4 |
| Ordinal.Suffix | utils/utils.py:13-14 | the suffix is `th` in the teens (tens digit 1), otherwise `st`, `nd`, `rd` for last digits 1, 2, 3 and `th` for the rest |
| Ordinal.OrdinalSplits | utils/utils.py:13-14 | `ordinal(n)` is the decimal of `n` followed by a two-letter suffix |
| Ordinal.OrdinalUnits | utils/utils.py:13-14 | 0th, 1st, 2nd, 3rd, 4th |
| Ordinal.OrdinalTeens | utils/utils.py:13-14 | 11th, 12th, 13th |
| Ordinal.OrdinalPastTeens | utils/utils.py:13-14 | 21st, 112th, 122nd |

## Left out

- **The board class.** Its implementation is not part of this model. `row`, `col`, `placeable`, `place` and `clone` are modelled from their documented interface (connect4.py:26-58), with row 0 on top and discs falling to the largest empty row index. `terminal` (a win or a full board) is a parameter of every search, and nothing about it is assumed except where a lemma states it: `MinimaxBelowExpectimax` asks that a board with no moves counts as terminal.
- **`board.col` and the documented `column`.** The code calls `board.col(c)` (connect4.py:144), while the documented interface names that method `column`. The model follows the code: `Board.Board.Col`.
- **Player tokens.** The integer player tokens and the `-1` padding slot are typed values here: `Player`, `Cell` and `Slot`. The padding can never be confused with a player. Neither can it be confused with an empty cell: `Empty` is its own `Cell` value. The scoring loop (connect4.py:157) relies on the empty-slot token differing from `-1`, since otherwise every window holding an empty cell would be skipped as padding. Only the board class, which is not part of this model, can guarantee that difference.
- **Floating point.** Scores are exact reals with `-inf` and `+inf`, so the rounding of `1/n · value` is not modelled. `WeightedSumIsMean` states the exact mean; IEEE sums can differ from it by rounding. The integer heuristic is carried as a real inside the searches.
- `ExpectimaxSearch.Plus`: in IEEE arithmetic `-inf + +inf` is NaN; here it is `-inf`. The case cannot arise, since `ExpectimaxBelowPosInf` shows that no expectimax value is `+inf`.
- **Depth.** A negative depth limit is not modelled; depths are natural numbers. In the source a negative depth searches until the board is terminal.
- **The evaluation hook.** The search methods take the heuristic as a ghost parameter tied to `Evaluation`. Their leaf step computes the evaluation with `Evaluate` and returns that value.
- **Debug output.** The prints in expectimax (connect4.py:355 and 364) are not modelled.
- **The user interface.** The `__main__` block (connect4.py:379-391) and `utils/app.py` are not part of this model.
- `Ordinal.OrdinalString`: `math.floor(n/10)` goes through a float division. For integers beyond 2^53 that float can round, which this model (exact floor division) does not capture. For negative `n`, Python's floor `%` matches Dafny's `%` for the positive divisor 10, so the same suffix rule applies. Python's true division `n/10` also raises `OverflowError` once the quotient `|n| / 10` exceeds the largest float (about 1.8·10^308, so for `|n|` above roughly 1.8·10^309), where the model still returns the numeral and its suffix.
