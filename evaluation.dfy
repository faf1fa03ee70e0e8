/**
 * `evaluate`: the static heuristic.  Every run of four consecutive cells along
 * a row, a column or either diagonal is a window; a window no opponent disc
 * blocks is credited to a player by how many of its cells that player holds,
 * weighted by `Weights`, and the evaluation is the player's credit minus the
 * opponent's.  Diagonals are read as the columns of the grid skewed row by row,
 * with `Invalid` padding standing for the `-1` sentinel; windows that contain
 * padding run off the board and are skipped.
 */
module Evaluation {
  import opened Board

  /** One entry of a scanned line: a board cell, or the `-1` padding of a skewed row. */
  datatype Slot = Invalid | On(cell: Cell)

  type Window = seq<Slot>

  /** The weight of a window holding 0, 1, 2, 3 or 4 of a player's discs. */
  const Weights: seq<int> := [0, 1, 4, 16, 1000]

  function Lift(cells: seq<Cell>): (line: seq<Slot>)
    ensures |line| == |cells|
    ensures forall i :: 0 <= i < |cells| ==> line[i] == On(cells[i])
  {
    seq(|cells|, i requires 0 <= i < |cells| => On(cells[i]))
  }

  function Padding(n: nat): (pad: seq<Slot>)
    ensures |pad| == n && forall i :: 0 <= i < n ==> pad[i] == Invalid
  {
    seq(n, _ => Invalid)
  }

  /**
   * `left_revolved`: row `r` preceded by `r` padding slots and followed by
   * `rows - 1 - r`, so that slot `j` of row `r` is cell `(r, j - r)`.
   */
  function LeftRevolved(b: Board): (m: seq<seq<Slot>>)
    requires b.Valid()
    ensures |m| == b.rows
    ensures forall r :: 0 <= r < b.rows ==> |m[r]| == b.rows + b.cols - 1
  {
    seq(b.rows, r requires 0 <= r < b.rows => Padding(r) + Lift(b.Row(r)) + Padding(b.rows - 1 - r))
  }

  /** Slot `j` of skewed row `r` is cell `(r, j - r)`, or padding off the board. */
  lemma LeftRevolvedAt(b: Board, r: nat, j: nat)
    requires b.Valid() && r < b.rows && j < b.rows + b.cols - 1
    ensures LeftRevolved(b)[r][j] == if r <= j < r + b.cols then On(b.grid[r][j - r]) else Invalid
  {
    var pre, mid := Padding(r), Lift(b.Row(r));
    assert LeftRevolved(b)[r] == pre + mid + Padding(b.rows - 1 - r);
  }

  /**
   * `right_revolved`: row `r` preceded by `rows - 1 - r` padding slots and
   * followed by `r`, so that slot `j` of row `r` is cell `(r, j - (rows - 1 - r))`.
   */
  function RightRevolved(b: Board): (m: seq<seq<Slot>>)
    requires b.Valid()
    ensures |m| == b.rows
    ensures forall r :: 0 <= r < b.rows ==> |m[r]| == b.rows + b.cols - 1
  {
    seq(b.rows, r requires 0 <= r < b.rows => Padding(b.rows - 1 - r) + Lift(b.Row(r)) + Padding(r))
  }

  /** Slot `j` of skewed row `r` is cell `(r, j - (rows - 1 - r))`, or padding off the board. */
  lemma RightRevolvedAt(b: Board, r: nat, j: nat)
    requires b.Valid() && r < b.rows && j < b.rows + b.cols - 1
    ensures var shift := b.rows - 1 - r;
      RightRevolved(b)[r][j] == if shift <= j < shift + b.cols then On(b.grid[r][j - shift]) else Invalid
  {
    var pre, mid := Padding(b.rows - 1 - r), Lift(b.Row(r));
    assert RightRevolved(b)[r] == pre + mid + Padding(r);
  }

  /** `zip(*m)` for rows of equal length: the columns of `m`. */
  function Transposed(m: seq<seq<Slot>>): (t: seq<seq<Slot>>)
    requires forall r :: 0 <= r < |m| ==> |m[r]| == |m[0]|
    ensures |m| == 0 ==> t == []
    ensures |m| > 0 ==> |t| == |m[0]|
    ensures forall j :: 0 <= j < |t| ==> |t[j]| == |m|
    ensures forall j, r :: 0 <= j < |t| && 0 <= r < |m| ==> t[j][r] == m[r][j]
  {
    if |m| == 0 then []
    else seq(|m[0]|, j requires 0 <= j < |m[0]| => seq(|m|, r requires 0 <= r < |m| => m[r][j]))
  }

  /** The windows `line[k..k+4]` for `k` in `range(len(line) - 3)`. */
  function Windows(line: seq<Slot>): (ws: seq<Window>)
    ensures |ws| == if |line| >= 3 then |line| - 3 else 0
    ensures forall k :: 0 <= k < |ws| ==> ws[k] == line[k..k + 4]
  {
    var n := if |line| >= 3 then |line| - 3 else 0;
    seq(n, k requires 0 <= k < n => line[k..k + 4])
  }

  /** The windows of each line in turn. */
  function AllWindows(lines: seq<seq<Slot>>): (ws: seq<Window>)
    ensures forall i :: 0 <= i < |ws| ==> |ws[i]| == 4
  {
    if lines == [] then []
    else AllWindows(lines[..|lines| - 1]) + Windows(lines[|lines| - 1])
  }

  function RowLines(b: Board): (lines: seq<seq<Slot>>)
    requires b.Valid()
    ensures |lines| == b.rows && forall r :: 0 <= r < b.rows ==> lines[r] == Lift(b.Row(r))
  {
    seq(b.rows, r requires 0 <= r < b.rows => Lift(b.Row(r)))
  }

  function ColLines(b: Board): (lines: seq<seq<Slot>>)
    requires b.Valid()
    ensures |lines| == b.cols && forall c :: 0 <= c < b.cols ==> lines[c] == Lift(b.Col(c))
  {
    seq(b.cols, c requires 0 <= c < b.cols => Lift(b.Col(c)))
  }

  /** The slash-diagonal lines: the columns of `left_revolved`. */
  function SlashLines(b: Board): seq<seq<Slot>>
    requires b.Valid()
  {
    Transposed(LeftRevolved(b))
  }

  /** The backslash-diagonal lines: the columns of `right_revolved`. */
  function BackslashLines(b: Board): seq<seq<Slot>>
    requires b.Valid()
  {
    Transposed(RightRevolved(b))
  }

  /** `seg`: all windows, rows first, then columns, slash and backslash diagonals. */
  function Segments(b: Board): (segs: seq<Window>)
    requires b.Valid()
    ensures forall i :: 0 <= i < |segs| ==> |segs[i]| == 4
  {
    AllWindows(RowLines(b)) + AllWindows(ColLines(b)) + AllWindows(SlashLines(b)) + AllWindows(BackslashLines(b))
  }

  /** `s.count(x)`. */
  function CountOf(w: Window, x: Slot): (k: nat)
    ensures k <= |w|
    ensures k == 0 <==> x !in w
  {
    if w == [] then 0
    else CountOf(w[..|w| - 1], x) + (if w[|w| - 1] == x then 1 else 0)
  }

  /**
   * What window `w` adds to `me`'s evaluation: nothing if it runs off the
   * board; otherwise the weight of `me`'s count if the opponent is absent,
   * minus the weight of the opponent's count if `me` is absent.
   */
  function WindowValue(me: Player, w: Window): int
    requires |w| == 4
  {
    var other := Opponent(me);
    if Invalid in w then 0
    else
      (if On(Disc(other)) !in w then Weights[CountOf(w, On(Disc(me)))] else 0)
      - (if On(Disc(me)) !in w then Weights[CountOf(w, On(Disc(other)))] else 0)
  }

  /** The sum of the window values of `segs`. */
  function Total(me: Player, segs: seq<Window>): int
    requires forall i :: 0 <= i < |segs| ==> |segs[i]| == 4
  {
    if segs == [] then 0
    else Total(me, segs[..|segs| - 1]) + WindowValue(me, segs[|segs| - 1])
  }

  /** The value `evaluate(me, b)` returns. */
  function Evaluation(me: Player, b: Board): int
    requires b.Valid()
  {
    Total(me, Segments(b))
  }

  /**
   * One window counted into `me`'s buckets: a window free of padding and of
   * opponent discs raises the bucket of `me`'s disc count by one.
   */
  function Tally(counts: seq<int>, w: Window, me: Player): (next: seq<int>)
    requires |counts| == 5 && |w| == 4
    ensures |next| == 5
  {
    if Invalid in w || On(Disc(Opponent(me))) in w then counts
    else
      var k := CountOf(w, On(Disc(me)));
      counts[k := counts[k] + 1]
  }

  /**
   * The bucket counts `score` (for `me`) after scanning `segs`: entry `k` is
   * the number of windows free of padding and of opponent discs in which `me`
   * holds exactly `k` cells.  With `me` the adversary these are `adv_score`.
   */
  function Buckets(segs: seq<Window>, me: Player): (counts: seq<int>)
    requires forall i :: 0 <= i < |segs| ==> |segs[i]| == 4
    ensures |counts| == 5
  {
    if segs == [] then [0, 0, 0, 0, 0]
    else Tally(Buckets(segs[..|segs| - 1], me), segs[|segs| - 1], me)
  }

  /**
   * The weighted total of five bucket counts: each count times the weight of
   * its bucket, summed.  With counts that are not negative, each window
   * holding four discs adds at least 1000 and nothing subtracts.
   */
  function Weighted(counts: seq<int>): (total: int)
    requires |counts| == 5
    ensures (forall i :: 0 <= i < 5 ==> counts[i] >= 0) ==> total >= 1000 * counts[4] >= 0
  {
    counts[0] * Weights[0] + counts[1] * Weights[1] + counts[2] * Weights[2]
    + counts[3] * Weights[3] + counts[4] * Weights[4]
  }

  /** The windows of `line`, appended to `seg` one by one. */
  method AppendWindows(seg: seq<Window>, line: seq<Slot>) returns (out: seq<Window>)
    ensures out == seg + Windows(line)
  {
    out := seg;
    var c := 0;
    while c < |line| - 3
      invariant 0 <= c <= |Windows(line)|
      invariant out == seg + Windows(line)[..c]
    {
      out := out + [line[c..c + 4]];
      c := c + 1;
    }
  }

  /** The windows of `lines[..n]` extended by those of `lines[n]`. */
  lemma AllWindowsStep(lines: seq<seq<Slot>>, n: nat)
    requires n < |lines|
    ensures AllWindows(lines[..n + 1]) == AllWindows(lines[..n]) + Windows(lines[n])
  {
    assert lines[..n + 1][..n] == lines[..n];
  }

  /** The windows of every line of `lines`, appended to `seg` line by line. */
  method AppendLines(seg: seq<Window>, lines: seq<seq<Slot>>) returns (out: seq<Window>)
    ensures out == seg + AllWindows(lines)
  {
    out := seg;
    var i := 0;
    while i < |lines|
      invariant i <= |lines|
      invariant out == seg + AllWindows(lines[..i])
    {
      out := AppendWindows(out, lines[i]);
      AllWindowsStep(lines, i);
      assert out == seg + (AllWindows(lines[..i]) + Windows(lines[i]));
      i := i + 1;
    }
    assert lines[..i] == lines;
  }

  /** The `seg` list of `evaluate`: row windows, column windows, then both skewed grids' column windows. */
  method CollectSegments(board: Board) returns (seg: seq<Window>)
    requires board.Valid()
    ensures seg == Segments(board)
  {
    seg := [];
    var leftRevolved := LeftRevolved(board);
    var rightRevolved := RightRevolved(board);
    seg := AppendLines(seg, RowLines(board));
    assert seg == AllWindows(RowLines(board));
    seg := AppendLines(seg, ColLines(board));
    seg := AppendLines(seg, Transposed(leftRevolved));
    assert Transposed(leftRevolved) == SlashLines(board);
    seg := AppendLines(seg, Transposed(rightRevolved));
    assert Transposed(rightRevolved) == BackslashLines(board);
  }

  /**
   * One side of the body of the scoring loop: a window holding no disc of
   * `me`'s opponent adds one to `counts[w.count(me)]`.
   */
  method TallyInto(counts: array<int>, w: Window, me: Player)
    requires counts.Length == 5 && |w| == 4 && Invalid !in w
    modifies counts
    ensures counts[..] == Tally(old(counts[..]), w, me)
  {
    if On(Disc(Opponent(me))) !in w {
      var k := CountOf(w, On(Disc(me)));
      counts[k] := counts[k] + 1;
    }
  }

  /**
   * The "compute score" loop of `evaluate`: skips windows holding padding and
   * counts each other window into `score` by `player`'s discs when the
   * adversary is absent, and into `advScore` by the adversary's discs when
   * `player` is absent.
   */
  method CountWindows(seg: seq<Window>, player: Player) returns (score: array<int>, advScore: array<int>)
    requires forall j :: 0 <= j < |seg| ==> |seg[j]| == 4
    ensures score[..] == Buckets(seg, player)
    ensures advScore[..] == Buckets(seg, Opponent(player))
  {
    var adversary := Opponent(player);
    score := new int[5](_ => 0);
    advScore := new int[5](_ => 0);
    assert score[..] == [0, 0, 0, 0, 0] == advScore[..];
    var i := 0;
    while i < |seg|
      invariant i <= |seg|
      invariant score[..] == Buckets(seg[..i], player)
      invariant advScore[..] == Buckets(seg[..i], adversary)
    {
      var s := seg[i];
      BucketsStep(seg, i, player);
      BucketsStep(seg, i, adversary);
      if Invalid !in s {
        TallyInto(score, s, player);
        TallyInto(advScore, s, adversary);
      }
      i := i + 1;
    }
    assert seg[..i] == seg;
  }

  /**
   * `evaluate(player, board)`: collects the windows of the rows, the columns
   * and the two skewed grids, counts them into the `score` and `adv_score`
   * buckets, and returns the weighted difference.
   */
  method Evaluate(player: Player, board: Board) returns (value: int)
    requires board.Valid()
    ensures value == Evaluation(player, board)
  {
    var seg := CollectSegments(board);
    var score, advScore := CountWindows(seg, player);
    var reward := Weighted(score[..]);
    var penalty := Weighted(advScore[..]);
    BucketsWeighted(seg, player);
    value := reward - penalty;
  }

  /** Adding one window to the buckets adds its value to the weighted difference. */
  lemma {:induction false} BucketsWeighted(segs: seq<Window>, me: Player)
    requires forall i :: 0 <= i < |segs| ==> |segs[i]| == 4
    ensures Weighted(Buckets(segs, me)) - Weighted(Buckets(segs, Opponent(me))) == Total(me, segs)
  {
    if segs != [] {
      var init, w := segs[..|segs| - 1], segs[|segs| - 1];
      var other := Opponent(me);
      BucketsWeighted(init, me);
      assert Opponent(other) == me;
      if Invalid !in w {
        if On(Disc(other)) !in w {
          WeightedBump(Buckets(init, me), CountOf(w, On(Disc(me))));
        }
        if On(Disc(me)) !in w {
          WeightedBump(Buckets(init, other), CountOf(w, On(Disc(other))));
        }
      }
    }
  }

  /** The buckets after one more window. */
  lemma BucketsSnoc(segs: seq<Window>, w: Window, me: Player)
    requires forall i :: 0 <= i < |segs| ==> |segs[i]| == 4
    requires |w| == 4
    ensures Buckets(segs + [w], me) == Tally(Buckets(segs, me), w, me)
  {
    assert (segs + [w])[..|segs|] == segs;
  }

  /** The buckets of `segs[..i + 1]` are those of `segs[..i]` with `segs[i]` tallied. */
  lemma BucketsStep(segs: seq<Window>, i: nat, me: Player)
    requires forall j :: 0 <= j < |segs| ==> |segs[j]| == 4
    requires i < |segs|
    ensures Buckets(segs[..i + 1], me) == Tally(Buckets(segs[..i], me), segs[i], me)
  {
    assert segs[..i + 1][..i] == segs[..i];
  }

  /** One more window in bucket `k` adds the weight of `k`. */
  lemma WeightedBump(counts: seq<int>, k: nat)
    requires |counts| == 5 && k < 5
    ensures Weighted(counts[k := counts[k] + 1]) == Weighted(counts) + Weights[k]
  {
  }

  // ----- Properties of the evaluation -----

  /** Swapping the player swaps the roles of the two buckets in every window. */
  lemma {:induction false} TotalAntisymmetric(me: Player, segs: seq<Window>)
    requires forall i :: 0 <= i < |segs| ==> |segs[i]| == 4
    ensures Total(me, segs) == -Total(Opponent(me), segs)
  {
    if segs != [] {
      TotalAntisymmetric(me, segs[..|segs| - 1]);
      assert Opponent(Opponent(me)) == me;
    }
  }

  /** `evaluate(P, B) == -evaluate(opponent(P), B)`. */
  lemma EvaluationAntisymmetric(p: Player, b: Board)
    requires b.Valid()
    ensures Evaluation(p, b) == -Evaluation(Opponent(p), b)
  {
    TotalAntisymmetric(p, Segments(b));
  }

  /**
   * How one window moves `me`'s buckets: one running off the board or
   * holding discs of both players moves none, and an all-empty window lands
   * in bucket 0, whose weight is 0.
   */
  lemma WindowBuckets(segs: seq<Window>, w: Window, me: Player)
    requires forall i :: 0 <= i < |segs| ==> |segs[i]| == 4
    requires |w| == 4
    ensures Invalid in w ==> Buckets(segs + [w], me) == Buckets(segs, me)
    ensures On(Disc(P1)) in w && On(Disc(P2)) in w ==>
      Buckets(segs + [w], me) == Buckets(segs, me) && WindowValue(me, w) == 0
    ensures Invalid !in w && On(Disc(P1)) !in w && On(Disc(P2)) !in w ==>
      var counts := Buckets(segs, me);
      Buckets(segs + [w], me) == counts[0 := counts[0] + 1] && WindowValue(me, w) == 0
  {
    BucketsSnoc(segs, w, me);
    var other := Opponent(me);
    assert me == P1 || me == P2;
    if On(Disc(P1)) in w && On(Disc(P2)) in w {
      assert On(Disc(me)) in w && On(Disc(other)) in w;
    }
    if Invalid !in w && On(Disc(P1)) !in w && On(Disc(P2)) !in w {
      assert On(Disc(me)) !in w && On(Disc(other)) !in w;
      assert CountOf(w, On(Disc(me))) == 0;
    }
  }

  /** Every slot is padding or an empty cell. */
  ghost predicate Blank(line: seq<Slot>)
  {
    forall i :: 0 <= i < |line| ==> line[i] == Invalid || line[i] == On(Empty)
  }

  ghost predicate EmptyBoard(b: Board)
    requires b.Valid()
  {
    forall r, c :: 0 <= r < b.rows && 0 <= c < b.cols ==> b.grid[r][c] == Empty
  }

  lemma {:induction false} BlankWindows(lines: seq<seq<Slot>>)
    requires forall i :: 0 <= i < |lines| ==> Blank(lines[i])
    ensures forall k :: 0 <= k < |AllWindows(lines)| ==> Blank(AllWindows(lines)[k])
  {
    if lines != [] {
      BlankWindows(lines[..|lines| - 1]);
    }
  }

  lemma {:induction false} BlankTotal(me: Player, segs: seq<Window>)
    requires forall i :: 0 <= i < |segs| ==> |segs[i]| == 4 && Blank(segs[i])
    ensures Total(me, segs) == 0
  {
    if segs != [] {
      BlankTotal(me, segs[..|segs| - 1]);
      var w := segs[|segs| - 1];
      assert On(Disc(me)) !in w && On(Disc(Opponent(me))) !in w;
    }
  }

  /** An empty board evaluates to 0 for either player. */
  lemma EmptyBoardEvaluatesToZero(p: Player, b: Board)
    requires b.Valid() && EmptyBoard(b)
    ensures Evaluation(p, b) == 0
  {
    var rows, cols := AllWindows(RowLines(b)), AllWindows(ColLines(b));
    var slash, backslash := AllWindows(SlashLines(b)), AllWindows(BackslashLines(b));
    BlankStraightWindows(b);
    BlankDiagonalWindows(b);
    assert Segments(b) == rows + cols + slash + backslash;
    BlankTotal(p, Segments(b));
  }

  /** On an empty board every row and column window is blank. */
  lemma BlankStraightWindows(b: Board)
    requires b.Valid() && EmptyBoard(b)
    ensures forall k :: 0 <= k < |AllWindows(RowLines(b))| ==> Blank(AllWindows(RowLines(b))[k])
    ensures forall k :: 0 <= k < |AllWindows(ColLines(b))| ==> Blank(AllWindows(ColLines(b))[k])
  {
    BlankWindows(RowLines(b));
    BlankWindows(ColLines(b));
  }

  /** On an empty board every diagonal window is blank. */
  lemma BlankDiagonalWindows(b: Board)
    requires b.Valid() && EmptyBoard(b)
    ensures forall k :: 0 <= k < |AllWindows(SlashLines(b))| ==> Blank(AllWindows(SlashLines(b))[k])
    ensures forall k :: 0 <= k < |AllWindows(BackslashLines(b))| ==> Blank(AllWindows(BackslashLines(b))[k])
  {
    var slash, backslash := SlashLines(b), BackslashLines(b);
    forall j | 0 <= j < |slash|
      ensures Blank(slash[j])
    {
      forall i | 0 <= i < |slash[j]|
        ensures slash[j][i] == Invalid || slash[j][i] == On(Empty)
      {
        SlashSlot(b, j, i);
      }
    }
    forall j | 0 <= j < |backslash|
      ensures Blank(backslash[j])
    {
      forall i | 0 <= i < |backslash[j]|
        ensures backslash[j][i] == Invalid || backslash[j][i] == On(Empty)
      {
        BackslashSlot(b, j, i);
      }
    }
    BlankWindows(slash);
    BlankWindows(backslash);
  }

  /** Changing one slot to `x` adds one to the count of `x`. */
  lemma {:induction false} CountOfUpdate(w: Window, i: nat, x: Slot)
    requires i < |w| && w[i] != x
    ensures CountOf(w[i := x], x) == CountOf(w, x) + 1
  {
    var v := w[i := x];
    var last := |w| - 1;
    assert CountOf(v, x) == CountOf(v[..last], x) + (if v[last] == x then 1 else 0);
    assert CountOf(w, x) == CountOf(w[..last], x) + (if w[last] == x then 1 else 0);
    if i < last {
      assert v[..last] == w[..last][i := x];
      CountOfUpdate(w[..last], i, x);
    } else {
      assert v[..last] == w[..last];
    }
  }

  /**
   * Dropping one more disc of `me` into an empty cell of a window that holds
   * no opponent disc and no padding strictly raises what the window is worth
   * to `me`: the bucket weights increase strictly with the disc count.
   */
  lemma OwnDiscRaisesWindowValue(me: Player, w: Window, i: nat)
    requires |w| == 4 && i < 4 && w[i] == On(Empty)
    requires Invalid !in w && On(Disc(Opponent(me))) !in w
    ensures WindowValue(me, w[i := On(Disc(me))]) > WindowValue(me, w)
  {
    var v := w[i := On(Disc(me))];
    CountOfUpdate(w, i, On(Disc(me)));
    assert Invalid !in v;
    assert On(Disc(Opponent(me))) !in v;
    assert On(Disc(me)) in v;
  }

  // ----- Which windows are scored -----

  /** `|lines|` lines of `n` slots give `n - 3` windows each, and none when `n` is below 4. */
  lemma {:induction false} AllWindowsLength(lines: seq<seq<Slot>>, n: nat)
    requires forall i :: 0 <= i < |lines| ==> |lines[i]| == n
    ensures |AllWindows(lines)| == |lines| * (if n >= 3 then n - 3 else 0)
  {
    if lines != [] {
      var m := if n >= 3 then n - 3 else 0;
      AllWindowsLength(lines[..|lines| - 1], n);
      assert |AllWindows(lines)| == (|lines| - 1) * m + m;
    }
  }

  /** Window `r` of line `j` sits at position `j * (n - 3) + r` of the window list. */
  lemma {:induction false} AllWindowsAt(lines: seq<seq<Slot>>, n: nat, j: nat, r: nat)
    requires forall i :: 0 <= i < |lines| ==> |lines[i]| == n
    requires j < |lines| && r + 4 <= n
    ensures j * (n - 3) + r < |AllWindows(lines)|
    ensures AllWindows(lines)[j * (n - 3) + r] == lines[j][r..r + 4]
  {
    var init := lines[..|lines| - 1];
    var m := n - 3;
    AllWindowsLength(init, n);
    var before := |AllWindows(init)|;
    assert before == (|lines| - 1) * m;
    assert AllWindows(lines) == AllWindows(init) + Windows(lines[|lines| - 1]);
    if j < |lines| - 1 {
      AllWindowsAt(init, n, j, r);
      MulMonotone(j + 1, |lines| - 1, m);
      assert j * m + r < (j + 1) * m;
    } else {
      assert j * m + r == before + r;
    }
  }

  lemma {:induction false} MulMonotone(a: nat, b: nat, m: nat)
    requires a <= b
    ensures a * m <= b * m
  {
    if a < b {
      MulMonotone(a, b - 1, m);
      assert (b - 1) * m + m == b * m;
    }
  }

  function Horizontal(b: Board, r: nat, c: nat): Window
    requires b.Valid() && r < b.rows && c + 4 <= b.cols
  {
    [On(b.grid[r][c]), On(b.grid[r][c + 1]), On(b.grid[r][c + 2]), On(b.grid[r][c + 3])]
  }

  function Vertical(b: Board, r: nat, c: nat): Window
    requires b.Valid() && r + 4 <= b.rows && c < b.cols
  {
    [On(b.grid[r][c]), On(b.grid[r + 1][c]), On(b.grid[r + 2][c]), On(b.grid[r + 3][c])]
  }

  /** The four cells down and to the left from `(r, c)`. */
  function Slash(b: Board, r: nat, c: nat): Window
    requires b.Valid() && r + 4 <= b.rows && 3 <= c < b.cols
  {
    [On(b.grid[r][c]), On(b.grid[r + 1][c - 1]), On(b.grid[r + 2][c - 2]), On(b.grid[r + 3][c - 3])]
  }

  /** The four cells down and to the right from `(r, c)`. */
  function Backslash(b: Board, r: nat, c: nat): Window
    requires b.Valid() && r + 4 <= b.rows && c + 4 <= b.cols
  {
    [On(b.grid[r][c]), On(b.grid[r + 1][c + 1]), On(b.grid[r + 2][c + 2]), On(b.grid[r + 3][c + 3])]
  }

  /** Row windows: position `r * (cols - 3) + c` holds the row window starting at `(r, c)`. */
  lemma RowWindowAt(b: Board, r: nat, c: nat)
    requires b.Valid() && r < b.rows && c + 4 <= b.cols
    ensures var segs := AllWindows(RowLines(b));
      r * (b.cols - 3) + c < |segs| && segs[r * (b.cols - 3) + c] == Horizontal(b, r, c)
  {
    AllWindowsAt(RowLines(b), b.cols, r, c);
    StraightWindowOf(RowLines(b)[r], c, Horizontal(b, r, c));
  }

  /** Column windows: position `c * (rows - 3) + r` holds the column window starting at `(r, c)`. */
  lemma ColWindowAt(b: Board, r: nat, c: nat)
    requires b.Valid() && r + 4 <= b.rows && c < b.cols
    ensures var segs := AllWindows(ColLines(b));
      c * (b.rows - 3) + r < |segs| && segs[c * (b.rows - 3) + r] == Vertical(b, r, c)
  {
    AllWindowsAt(ColLines(b), b.rows, c, r);
    StraightWindowOf(ColLines(b)[c], r, Vertical(b, r, c));
  }

  /** A line whose four slots from `k` on are those of `w` has `w` as its window at `k`. */
  lemma StraightWindowOf(line: seq<Slot>, k: nat, w: Window)
    requires k + 4 <= |line| && |w| == 4
    requires line[k] == w[0] && line[k + 1] == w[1] && line[k + 2] == w[2] && line[k + 3] == w[3]
    ensures line[k..k + 4] == w
  {
  }

  lemma WindowElements(line: seq<Slot>, r: nat)
    requires r + 4 <= |line|
    ensures line[r..r + 4] == [line[r], line[r + 1], line[r + 2], line[r + 3]]
  {
  }

  /**
   * Slash windows: window `r` of skewed column `j` (placed in the window list
   * by `AllWindowsAt`) runs off the board, holding padding, exactly when its
   * cells `(r + i, j - r - i)` leave the grid, and otherwise is the diagonal
   * window starting at `(r, j - r)`.  That each in-board start `(r, c)` is
   * met once, on line `r + c`, is `SlashSegmentsExactlyOnce`.
   */
  lemma SlashWindowAt(b: Board, j: nat, r: nat)
    requires b.Valid() && j < b.rows + b.cols - 1 && r + 4 <= b.rows
    ensures j < |SlashLines(b)| && |SlashLines(b)[j]| == b.rows
    ensures var w := SlashLines(b)[j][r..r + 4];
      var c := j - r;
      (Invalid !in w <==> 3 <= c < b.cols) &&
      (3 <= c < b.cols ==> w == Slash(b, r, c))
  {
    SlashSlot(b, j, r);
    SlashSlot(b, j, r + 1);
    SlashSlot(b, j, r + 2);
    SlashSlot(b, j, r + 3);
    SlashWindowOf(b, SlashLines(b)[j], j, r);
  }

  /** What slot `i` of slash line `j` holds: cell `(i, j - i)`, or padding off the board. */
  function SlashEntry(b: Board, j: nat, i: nat): Slot
    requires b.Valid() && i < b.rows
  {
    if i <= j < i + b.cols then On(b.grid[i][j - i]) else Invalid
  }

  lemma SlashSlot(b: Board, j: nat, i: nat)
    requires b.Valid() && j < b.rows + b.cols - 1 && i < b.rows
    ensures j < |SlashLines(b)| && |SlashLines(b)[j]| == b.rows
    ensures SlashLines(b)[j][i] == SlashEntry(b, j, i)
  {
    LeftRevolvedAt(b, i, j);
  }

  /** The window at `r` of a line holding the slash entries of `j` from `r` on. */
  lemma SlashWindowOf(b: Board, line: seq<Slot>, j: nat, r: nat)
    requires b.Valid() && r + 4 <= b.rows && r + 4 <= |line|
    requires line[r] == SlashEntry(b, j, r) && line[r + 1] == SlashEntry(b, j, r + 1)
    requires line[r + 2] == SlashEntry(b, j, r + 2) && line[r + 3] == SlashEntry(b, j, r + 3)
    ensures var w := line[r..r + 4];
      var c := j - r;
      (Invalid !in w <==> 3 <= c < b.cols) &&
      (3 <= c < b.cols ==> w == Slash(b, r, c))
  {
    WindowElements(line, r);
  }

  /**
   * Backslash windows: window `r` of skewed column `j` covers the cells
   * `(r + i, c + i)` with `c = j - (rows - 1) + r`; it holds padding exactly
   * when they leave the grid, and otherwise is the diagonal window starting
   * at `(r, c)`.  That each in-board start `(r, c)` is met once, on line
   * `c + rows - 1 - r`, is `BackslashSegmentsExactlyOnce`.
   */
  lemma BackslashWindowAt(b: Board, j: nat, r: nat)
    requires b.Valid() && j < b.rows + b.cols - 1 && r + 4 <= b.rows
    ensures j < |BackslashLines(b)| && |BackslashLines(b)[j]| == b.rows
    ensures var w := BackslashLines(b)[j][r..r + 4];
      var c := j - (b.rows - 1) + r;
      (Invalid !in w <==> 0 <= c && c + 4 <= b.cols) &&
      (0 <= c && c + 4 <= b.cols ==> w == Backslash(b, r, c))
  {
    BackslashSlot(b, j, r);
    BackslashSlot(b, j, r + 1);
    BackslashSlot(b, j, r + 2);
    BackslashSlot(b, j, r + 3);
    BackslashWindowOf(b, BackslashLines(b)[j], j, r);
  }

  /** What slot `i` of backslash line `j` holds: cell `(i, j + i - (rows - 1))`, or padding off the board. */
  function BackslashEntry(b: Board, j: nat, i: nat): Slot
    requires b.Valid() && i < b.rows
  {
    var d := j + i - (b.rows - 1);
    if 0 <= d < b.cols then On(b.grid[i][d]) else Invalid
  }

  lemma BackslashSlot(b: Board, j: nat, i: nat)
    requires b.Valid() && j < b.rows + b.cols - 1 && i < b.rows
    ensures j < |BackslashLines(b)| && |BackslashLines(b)[j]| == b.rows
    ensures BackslashLines(b)[j][i] == BackslashEntry(b, j, i)
  {
    RightRevolvedAt(b, i, j);
  }

  /** The window at `r` of a line holding the backslash entries of `j` from `r` on. */
  lemma BackslashWindowOf(b: Board, line: seq<Slot>, j: nat, r: nat)
    requires b.Valid() && r + 4 <= b.rows && r + 4 <= |line|
    requires line[r] == BackslashEntry(b, j, r) && line[r + 1] == BackslashEntry(b, j, r + 1)
    requires line[r + 2] == BackslashEntry(b, j, r + 2) && line[r + 3] == BackslashEntry(b, j, r + 3)
    ensures var w := line[r..r + 4];
      var c := j - (b.rows - 1) + r;
      (Invalid !in w <==> 0 <= c && c + 4 <= b.cols) &&
      (0 <= c && c + 4 <= b.cols ==> w == Backslash(b, r, c))
  {
    WindowElements(line, r);
  }

  /**
   * Window `k` of lines of `n` slots is window `r` of line `j`, whose
   * windows begin at `LineStart(j, n - 3)`; there are windows at all only
   * when `n` is at least 4.
   */
  lemma {:induction false} WindowPosition(lines: seq<seq<Slot>>, n: nat, k: nat) returns (j: nat, r: nat)
    requires forall i :: 0 <= i < |lines| ==> |lines[i]| == n
    requires k < |AllWindows(lines)|
    ensures n >= 4 && j < |lines| && r < n - 3 && k == LineStart(j, n - 3) + r
    ensures AllWindows(lines)[k] == lines[j][r..r + 4]
  {
    var init := lines[..|lines| - 1];
    AllWindowsLength(init, n);
    var before := |AllWindows(init)|;
    assert AllWindows(lines) == AllWindows(init) + Windows(lines[|lines| - 1]);
    if k < before {
      j, r := WindowPosition(init, n, k);
    } else {
      j, r := |lines| - 1, k - before;
      LineStartIsProduct(j, n - 3);
    }
  }

  /** Where the windows of line `j` begin when every line has `m` windows. */
  function LineStart(j: nat, m: nat): nat
  {
    if j == 0 then 0 else LineStart(j - 1, m) + m
  }

  lemma {:induction false} LineStartIsProduct(j: nat, m: nat)
    ensures LineStart(j, m) == j * m
  {
    if j > 0 {
      LineStartIsProduct(j - 1, m);
      assert (j - 1) * m + m == j * m;
    }
  }

  lemma {:induction false} LineStartMonotone(i: nat, j: nat, m: nat)
    requires i <= j
    ensures LineStart(i, m) <= LineStart(j, m)
  {
    if i < j {
      LineStartMonotone(i, j - 1, m);
    }
  }

  /** Window `r < m` of line `i` comes before every window of line `n > i`. */
  lemma BeforeLine(i: nat, r: nat, n: nat, m: nat)
    requires r < m && i < n
    ensures LineStart(i, m) + r < LineStart(n, m)
  {
    LineStartMonotone(i + 1, n, m);
  }

  /** Every line starts at least `m` slots after the lines before it. */
  lemma LineStartGap(i: nat, j: nat, m: nat)
    ensures i < j ==> LineStart(i, m) + m <= LineStart(j, m)
  {
    if i < j {
      LineStartMonotone(i + 1, j, m);
    }
  }

  /** A down-right start `(r, c)` lies on a backslash line before the last one ends. */
  lemma BackslashBound(rows: nat, cols: nat, r: nat, c: nat)
    requires r + 4 <= rows && c + 4 <= cols
    ensures LineStart(c + rows - 1 - r, rows - 3) + r < LineStart(rows + cols - 1, rows - 3)
  {
    BeforeLine(c + rows - 1 - r, r, rows + cols - 1, rows - 3);
  }

  /** The position of a down-left start lies inside the slash segments. */
  lemma SlashPositionInRange(b: Board, r: nat, c: nat)
    requires SlashStart(b, r, c)
    ensures SlashPosition(b, r, c) < |AllWindows(SlashLines(b))|
  {
    BeforeLine(r + c, r, b.rows + b.cols - 1, b.rows - 3);
    assert SlashPosition(b, r, c) < LineStart(b.rows + b.cols - 1, b.rows - 3);
    SlashSegmentCount(b);
  }

  /** The position of a down-right start lies inside the backslash segments. */
  lemma BackslashPositionInRange(b: Board, r: nat, c: nat)
    requires BackslashStart(b, r, c)
    ensures BackslashPosition(b, r, c) < |AllWindows(BackslashLines(b))|
  {
    BackslashBound(b.rows, b.cols, r, c);
    assert BackslashPosition(b, r, c) < LineStart(b.rows + b.cols - 1, b.rows - 3);
    BackslashSegmentCount(b);
  }

  /** A position `LineStart(j, m) + r` with `r < m` determines its line `j` and offset `r`. */
  lemma PositionsDistinct(m: nat, j1: nat, r1: nat, j2: nat, r2: nat)
    requires r1 < m && r2 < m && LineStart(j1, m) + r1 == LineStart(j2, m) + r2
    ensures j1 == j2 && r1 == r2
  {
    LineStartGap(j1, j2, m);
    LineStartGap(j2, j1, m);
  }

  /** The slash lines: one per skewed column, each `rows` slots long. */
  lemma SlashLinesShape(b: Board)
    requires b.Valid() && b.rows > 0
    ensures |SlashLines(b)| == b.rows + b.cols - 1
    ensures forall j :: 0 <= j < |SlashLines(b)| ==> |SlashLines(b)[j]| == b.rows
  {
  }

  /** The backslash lines: one per skewed column, each `rows` slots long. */
  lemma BackslashLinesShape(b: Board)
    requires b.Valid() && b.rows > 0
    ensures |BackslashLines(b)| == b.rows + b.cols - 1
    ensures forall j :: 0 <= j < |BackslashLines(b)| ==> |BackslashLines(b)[j]| == b.rows
  {
  }

  /** `(r, c)` starts a down-left window inside the board. */
  predicate SlashStart(b: Board, r: nat, c: nat)
  {
    b.Valid() && r + 4 <= b.rows && 3 <= c < b.cols
  }

  /** `(r, c)` starts a down-right window inside the board. */
  predicate BackslashStart(b: Board, r: nat, c: nat)
  {
    b.Valid() && r + 4 <= b.rows && c + 4 <= b.cols
  }

  /** Where the slash segments hold the window from `(r, c)`: window `r` of line `r + c`. */
  function SlashPosition(b: Board, r: nat, c: nat): nat
    requires b.rows >= 3
  {
    LineStart(r + c, b.rows - 3) + r
  }

  /** Where the backslash segments hold the window from `(r, c)`: window `r` of line `c + rows - 1 - r`. */
  function BackslashPosition(b: Board, r: nat, c: nat): nat
    requires r < b.rows && b.rows >= 3
  {
    LineStart(c + b.rows - 1 - r, b.rows - 3) + r
  }

  /** There are `rows - 3` slash segments for each of the `rows + cols - 1` skewed columns. */
  lemma SlashSegmentCount(b: Board)
    requires b.Valid() && b.rows >= 3
    ensures |AllWindows(SlashLines(b))| == LineStart(b.rows + b.cols - 1, b.rows - 3)
  {
    SlashLinesShape(b);
    AllWindowsLength(SlashLines(b), b.rows);
    LineStartIsProduct(b.rows + b.cols - 1, b.rows - 3);
  }

  /** Every in-board down-left window is among the slash segments, at its position. */
  lemma SlashSegmentAt(b: Board, r: nat, c: nat)
    requires SlashStart(b, r, c)
    ensures var segs := AllWindows(SlashLines(b));
      SlashPosition(b, r, c) < |segs| && segs[SlashPosition(b, r, c)] == Slash(b, r, c)
  {
    SlashPositionInRange(b, r, c);
    var j, r' := SlashSegmentLine(b, SlashPosition(b, r, c));
    SlashPositionUnique(b, r, c, j, r');
  }

  /**
   * Segment `k` of the slash segments is window `r` of line `j`: free of
   * padding exactly when its start `(r, j - r)` is inside the board, and
   * then the window from that start.
   */
  lemma SlashSegmentLine(b: Board, k: nat) returns (j: nat, r: nat)
    requires b.Valid() && k < |AllWindows(SlashLines(b))|
    ensures b.rows >= 4 && r < b.rows - 3 && k == LineStart(j, b.rows - 3) + r
    ensures Invalid !in AllWindows(SlashLines(b))[k] <==> 3 <= j - r < b.cols
    ensures 3 <= j - r < b.cols ==> AllWindows(SlashLines(b))[k] == Slash(b, r, j - r)
  {
    var lines := SlashLines(b);
    j, r := WindowPosition(lines, b.rows, k);
    SlashLinesShape(b);
    SlashWindowAt(b, j, r);
  }

  /**
   * The slash segments score each in-board down-left window exactly once:
   * segment `k` is free of padding if and only if `k` is the position of an
   * in-board start, and then that start is the only one placed at `k` and
   * the segment is its window.
   */
  lemma SlashSegmentsExactlyOnce(b: Board, k: nat)
    requires b.Valid() && k < |AllWindows(SlashLines(b))|
    ensures Invalid !in AllWindows(SlashLines(b))[k] <==>
      exists r: nat, c: nat :: SlashStart(b, r, c) && k == SlashPosition(b, r, c)
    ensures forall r: nat, c: nat :: SlashStart(b, r, c) && k == SlashPosition(b, r, c) ==>
      AllWindows(SlashLines(b))[k] == Slash(b, r, c)
  {
    var j, r := SlashSegmentLine(b, k);
    var inBoard := 3 <= j - r < b.cols;
    if inBoard {
      var c: nat := j - r;
      assert SlashStart(b, r, c) && k == SlashPosition(b, r, c);
    }
    forall r': nat, c': nat | SlashStart(b, r', c') && k == SlashPosition(b, r', c')
      ensures r' == r && r' + c' == j && inBoard
    {
      SlashPositionUnique(b, r', c', j, r);
    }
  }

  /** The start placed at window `r` of slash line `j` is `(r, j - r)`. */
  lemma SlashPositionUnique(b: Board, r1: nat, c1: nat, j: nat, r: nat)
    requires SlashStart(b, r1, c1) && r < b.rows - 3
    requires SlashPosition(b, r1, c1) == LineStart(j, b.rows - 3) + r
    ensures r1 == r && r1 + c1 == j
  {
    PositionsDistinct(b.rows - 3, r1 + c1, r1, j, r);
  }

  /** There are `rows - 3` backslash segments for each of the `rows + cols - 1` skewed columns. */
  lemma BackslashSegmentCount(b: Board)
    requires b.Valid() && b.rows >= 3
    ensures |AllWindows(BackslashLines(b))| == LineStart(b.rows + b.cols - 1, b.rows - 3)
  {
    BackslashLinesShape(b);
    AllWindowsLength(BackslashLines(b), b.rows);
    LineStartIsProduct(b.rows + b.cols - 1, b.rows - 3);
  }

  /** Every in-board down-right window is among the backslash segments, at its position. */
  lemma BackslashSegmentAt(b: Board, r: nat, c: nat)
    requires BackslashStart(b, r, c)
    ensures var segs := AllWindows(BackslashLines(b));
      BackslashPosition(b, r, c) < |segs| && segs[BackslashPosition(b, r, c)] == Backslash(b, r, c)
  {
    BackslashPositionInRange(b, r, c);
    var j, r' := BackslashSegmentLine(b, BackslashPosition(b, r, c));
    BackslashPositionUnique(b, r, c, j, r');
  }

  /**
   * Segment `k` of the backslash segments is window `r` of line `j`: free
   * of padding exactly when its start `(r, j - (rows - 1) + r)` is inside
   * the board, and then the window from that start.
   */
  lemma BackslashSegmentLine(b: Board, k: nat) returns (j: nat, r: nat)
    requires b.Valid() && k < |AllWindows(BackslashLines(b))|
    ensures b.rows >= 4 && r < b.rows - 3 && k == LineStart(j, b.rows - 3) + r
    ensures var c := j - (b.rows - 1) + r;
      Invalid !in AllWindows(BackslashLines(b))[k] <==> 0 <= c && c + 4 <= b.cols
    ensures var c := j - (b.rows - 1) + r;
      0 <= c && c + 4 <= b.cols ==> AllWindows(BackslashLines(b))[k] == Backslash(b, r, c)
  {
    var lines := BackslashLines(b);
    j, r := WindowPosition(lines, b.rows, k);
    BackslashLinesShape(b);
    BackslashWindowAt(b, j, r);
  }

  /**
   * The backslash segments score each in-board down-right window exactly
   * once, in the same sense as `SlashSegmentsExactlyOnce`.
   */
  lemma BackslashSegmentsExactlyOnce(b: Board, k: nat)
    requires b.Valid() && k < |AllWindows(BackslashLines(b))|
    ensures Invalid !in AllWindows(BackslashLines(b))[k] <==>
      exists r: nat, c: nat :: BackslashStart(b, r, c) && k == BackslashPosition(b, r, c)
    ensures forall r: nat, c: nat :: BackslashStart(b, r, c) && k == BackslashPosition(b, r, c) ==>
      AllWindows(BackslashLines(b))[k] == Backslash(b, r, c)
  {
    var j, r := BackslashSegmentLine(b, k);
    var c := j - (b.rows - 1) + r;
    var inBoard := 0 <= c && c + 4 <= b.cols;
    if inBoard {
      BackslashStartAt(b, k, j, r, c);
    }
    forall r': nat, c': nat | BackslashStart(b, r', c') && k == BackslashPosition(b, r', c')
      ensures r' == r && c' == c && inBoard
    {
      BackslashPositionUnique(b, r', c', j, r);
    }
  }

  /** An in-board start `(r, j - (rows - 1) + r)` is placed at window `r` of backslash line `j`. */
  lemma BackslashStartAt(b: Board, k: nat, j: nat, r: nat, c: int)
    requires b.Valid() && b.rows >= 4 && r < b.rows - 3 && k == LineStart(j, b.rows - 3) + r
    requires c == j - (b.rows - 1) + r && 0 <= c && c + 4 <= b.cols
    ensures BackslashStart(b, r, c) && k == BackslashPosition(b, r, c)
  {
    assert c + b.rows - 1 - r == j;
  }

  /** The start placed at window `r` of backslash line `j` is `(r, j - (rows - 1) + r)`. */
  lemma BackslashPositionUnique(b: Board, r1: nat, c1: nat, j: nat, r: nat)
    requires BackslashStart(b, r1, c1) && r < b.rows - 3
    requires BackslashPosition(b, r1, c1) == LineStart(j, b.rows - 3) + r
    ensures r1 == r && c1 + b.rows - 1 - r1 == j
  {
    PositionsDistinct(b.rows - 3, c1 + b.rows - 1 - r1, r1, j, r);
  }
}
