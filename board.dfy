/**
 * The game board as the search consumes it: a `rows` x `cols` grid of cells,
 * each empty or holding a disc of one of the two players.  Row 0 is the top
 * row; a disc dropped into a column comes to rest in the lowest empty cell,
 * that is, the empty cell with the largest row index.  The board is a value:
 * cloning it is copying the value, and placing a disc yields a new board.
 */
module Board {
  import opened Wrappers

  datatype Player = P1 | P2

  datatype Cell = Empty | Disc(owner: Player)

  /** The player who is not `p`. */
  function Opponent(p: Player): (q: Player)
    ensures q != p
  {
    if p == P1 then P2 else P1
  }

  /** Outcome of dropping a disc: the new board, or the "illegal move" error. */
  datatype Placement = Placed(next: Board) | ColumnFull

  datatype Board = Board(rows: nat, cols: nat, grid: seq<seq<Cell>>)
  {
    /** The grid has `rows` rows of `cols` cells each. */
    predicate Valid()
    {
      |grid| == rows && forall r :: 0 <= r < rows ==> |grid[r]| == cols
    }

    /** The cells of row `r`, left to right. */
    function Row(r: nat): (cells: seq<Cell>)
      requires Valid() && r < rows
      ensures |cells| == cols
      ensures forall c :: 0 <= c < cols ==> cells[c] == grid[r][c]
    {
      grid[r]
    }

    /** The cells of column `c`, top to bottom. */
    function Col(c: nat): (cells: seq<Cell>)
      requires Valid() && c < cols
      ensures |cells| == rows
      ensures forall r :: 0 <= r < rows ==> cells[r] == grid[r][c]
    {
      seq(rows, r requires 0 <= r < rows => grid[r][c])
    }

    /** The lowest empty cell of column `c` among rows `0 .. k-1`. */
    function LowestEmptyBelow(c: nat, k: nat): (slot: Option<nat>)
      requires Valid() && c < cols && k <= rows
      ensures slot.Some? ==> slot.value < k && grid[slot.value][c] == Empty
      ensures slot.Some? ==> forall r :: slot.value < r < k ==> grid[r][c] != Empty
      ensures slot.None? ==> forall r :: 0 <= r < k ==> grid[r][c] != Empty
    {
      if k == 0 then None
      else if grid[k - 1][c] == Empty then Some(k - 1)
      else LowestEmptyBelow(c, k - 1)
    }

    /** Where a disc dropped into column `c` comes to rest, if anywhere. */
    function LowestEmpty(c: nat): Option<nat>
      requires Valid() && c < cols
    {
      LowestEmptyBelow(c, rows)
    }

    /** `placeable(c)`: column `c` is not full, that is, one of its cells is empty. */
    predicate Placeable(c: nat): (ok: bool)
      requires Valid() && c < cols
      ensures ok <==> exists r :: 0 <= r < rows && grid[r][c] == Empty
    {
      LowestEmpty(c).Some?
    }

    /** A column is full, and so not placeable, exactly when every one of its cells holds a disc. */
    lemma PlaceableIffEmptyCell(c: nat)
      requires Valid() && c < cols
      ensures !Placeable(c) <==> forall r :: 0 <= r < rows ==> grid[r][c].Disc?
    {
    }

    /**
     * `place(player, c)`: drop a disc of `p` into column `c`; a full column is
     * the "illegal move" error.
     */
    function Place(p: Player, c: nat): (res: Placement)
      requires Valid() && c < cols
      ensures res.Placed? <==> Placeable(c)
      ensures res.Placed? ==> res.next.Valid() && res.next.rows == rows && res.next.cols == cols
    {
      match LowestEmpty(c)
      case None => ColumnFull
      case Some(r) => Placed(Board(rows, cols, grid[r := grid[r][c := Disc(p)]]))
    }

    /**
     * The board `Place` yields differs from this one in exactly one cell: the
     * lowest empty cell of column `c` (every cell below it is occupied), which
     * now holds `p`'s disc.
     */
    lemma PlaceDropsDisc(p: Player, c: nat)
      requires Valid() && c < cols && Placeable(c)
      ensures exists r :: (0 <= r < rows && grid[r][c] == Empty &&
        (forall r' :: r < r' < rows ==> grid[r'][c] != Empty) &&
        Place(p, c).next.grid == grid[r := grid[r][c := Disc(p)]])
    {
      var r := LowestEmpty(c).value;
      assert Place(p, c).next.grid == grid[r := grid[r][c := Disc(p)]];
    }
  }
}
