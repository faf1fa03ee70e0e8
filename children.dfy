/**
 * `get_child_boards`: the successor positions of a board, one per column that
 * still accepts a disc, in ascending column order.
 */
module Children {
  import opened Board

  /** A successor: the column played and the board that results. */
  type Child = (nat, Board)

  /** Every child board is well formed and has the dimensions of `b`. */
  ghost predicate ChildrenValid(b: Board, kids: seq<Child>)
  {
    forall i :: 0 <= i < |kids| ==>
      kids[i].1.Valid() && kids[i].1.rows == b.rows && kids[i].1.cols == b.cols
  }

  /**
   * The successors obtained from the columns `0 .. n-1`: the placeable ones,
   * in strictly ascending order, each paired with the board `p` reaches by
   * dropping a disc there.
   */
  function ChildrenBelow(p: Player, b: Board, n: nat): (kids: seq<Child>)
    requires b.Valid() && n <= b.cols
    ensures ChildrenValid(b, kids)
    ensures forall i :: 0 <= i < |kids| ==> kids[i].0 < n
  {
    if n == 0 then []
    else
      var earlier := ChildrenBelow(p, b, n - 1);
      var kids := if b.Placeable(n - 1) then earlier + [(n - 1, b.Place(p, n - 1).next)] else earlier;
      kids
  }

  /** All successors of `b` when `p` is to move. */
  function ChildBoards(p: Player, b: Board): seq<Child>
    requires b.Valid()
  {
    ChildrenBelow(p, b, b.cols)
  }

  /**
   * `get_child_boards(player, board)`: scans the columns left to right and, for
   * each placeable one, drops a disc of `player` into a copy of the board.
   */
  method GetChildBoards(player: Player, board: Board) returns (res: seq<Child>)
    requires board.Valid()
    ensures res == ChildBoards(player, board)
  {
    res := [];
    var c := 0;
    while c < board.cols
      invariant c <= board.cols
      invariant res == ChildrenBelow(player, board, c)
    {
      if board.Placeable(c) {
        var tmpBoard := board;
        tmpBoard := tmpBoard.Place(player, c).next;
        res := res + [(c, tmpBoard)];
      }
      c := c + 1;
    }
  }

  /** Each entry is a placeable column paired with the board `Place` yields there. */
  lemma {:induction false} ChildrenBelowSound(p: Player, b: Board, n: nat)
    requires b.Valid() && n <= b.cols
    ensures forall i :: 0 <= i < |ChildrenBelow(p, b, n)| ==>
      b.Place(p, ChildrenBelow(p, b, n)[i].0) == Placed(ChildrenBelow(p, b, n)[i].1)
  {
    if n > 0 {
      ChildrenBelowSound(p, b, n - 1);
      var earlier := ChildrenBelow(p, b, n - 1);
      var kids := ChildrenBelow(p, b, n);
      assert forall i :: 0 <= i < |earlier| ==> kids[i] == earlier[i];
      if b.Placeable(n - 1) {
        assert kids[|earlier|] == (n - 1, b.Place(p, n - 1).next);
      }
    }
  }

  /** The entries come in strictly ascending column order. */
  lemma {:induction false} ChildrenBelowOrdered(p: Player, b: Board, n: nat)
    requires b.Valid() && n <= b.cols
    ensures forall i, j :: 0 <= i < j < |ChildrenBelow(p, b, n)| ==>
      ChildrenBelow(p, b, n)[i].0 < ChildrenBelow(p, b, n)[j].0
  {
    if n > 0 {
      ChildrenBelowOrdered(p, b, n - 1);
      var earlier := ChildrenBelow(p, b, n - 1);
      var kids := ChildrenBelow(p, b, n);
      assert forall i :: 0 <= i < |earlier| ==> kids[i] == earlier[i];
    }
  }

  /** Every placeable column among `0 .. n-1` has an entry in the successor list. */
  lemma {:induction false} ChildrenBelowComplete(p: Player, b: Board, n: nat, c: nat)
    requires b.Valid() && c < n <= b.cols && b.Placeable(c)
    ensures exists i :: 0 <= i < |ChildrenBelow(p, b, n)| && ChildrenBelow(p, b, n)[i].0 == c
  {
    var earlier := ChildrenBelow(p, b, n - 1);
    var kids := ChildrenBelow(p, b, n);
    if c == n - 1 {
      assert kids[|earlier|].0 == c;
    } else {
      ChildrenBelowComplete(p, b, n - 1, c);
      var i :| 0 <= i < |earlier| && earlier[i].0 == c;
      assert kids[i] == earlier[i];
    }
  }

  /**
   * The successor list of `b` has an entry for column `c` exactly when `c` is
   * placeable, and that entry is the board `b.Place(p, c)` yields: `b` with one
   * disc of `p` added at the bottom of column `c`.  The entries come in
   * strictly ascending column order (`ChildrenBelowOrdered`), and `b`
   * itself, a value, is unchanged.
   */
  lemma ChildBoardsExact(p: Player, b: Board, c: nat)
    requires b.Valid() && c < b.cols
    ensures b.Placeable(c) <==> exists i :: 0 <= i < |ChildBoards(p, b)| && ChildBoards(p, b)[i].0 == c
    ensures forall i :: 0 <= i < |ChildBoards(p, b)| && ChildBoards(p, b)[i].0 == c ==>
      b.Place(p, c) == Placed(ChildBoards(p, b)[i].1)
  {
    var kids := ChildBoards(p, b);
    ChildrenBelowSound(p, b, b.cols);
    if b.Placeable(c) {
      ChildrenBelowComplete(p, b, b.cols, c);
    } else {
      forall i | 0 <= i < |kids| ensures kids[i].0 != c {
        assert b.Place(p, kids[i].0).Placed?;
      }
    }
  }
}
