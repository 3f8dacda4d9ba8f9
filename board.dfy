/** The 3x3 board: nine cells in row-major order, each empty or holding a
    player's mark, the eight winning lines, the win check and the list of
    empty cells. */
module Board {

  datatype Option<+T> = None | Some(value: T)

  /** X is the human and always moves first; O is the computer. */
  datatype Player = X | O

  /** An empty cell is `None` (the `null` of the original board). */
  type Cell = Option<Player>

  const Size: nat := 9

  /** The player who moves after `p`. */
  function Other(p: Player): (q: Player)
    ensures q != p
  {
    if p == X then O else X
  }

  /** A board of nine empty cells. */
  function EmptyBoard(): (s: seq<Cell>)
    ensures |s| == Size && forall i :: 0 <= i < |s| ==> s[i] == None
  {
    seq(Size, i => None)
  }

  /** The three rows, the three columns and the two diagonals, as cell indices. */
  const WinningConditions: seq<seq<nat>> :=
    [ [0, 1, 2], [3, 4, 5], [6, 7, 8],
      [0, 3, 6], [1, 4, 7], [2, 5, 8],
      [0, 4, 8], [2, 4, 6] ]

  predicate IndicesIn(line: seq<nat>, n: nat) {
    forall j :: 0 <= j < |line| ==> line[j] < n
  }

  lemma WinningConditionsShape()
    ensures |WinningConditions| == 8
    ensures forall k :: 0 <= k < 8 ==> |WinningConditions[k]| == 3 && IndicesIn(WinningConditions[k], Size)
  {
  }

  /** Every cell of `line` holds `p` (the inner `every` of the win check). */
  predicate LineHeld(s: seq<Cell>, line: seq<nat>, p: Player)
    requires IndicesIn(line, |s|)
  {
    forall j :: 0 <= j < |line| ==> s[line[j]] == Some(p)
  }

  /** Some winning condition is entirely held by `p` (the outer `some`). */
  predicate SomeLineHeld(s: seq<Cell>, p: Player)
    requires |s| == Size
  {
    WinningConditionsShape();
    exists k :: 0 <= k < |WinningConditions| && LineHeld(s, WinningConditions[k], p)
  }

  /** The win check: true exactly when `p` fills a row, a column or a
      diagonal of the grid. */
  predicate CheckWinner(s: seq<Cell>, p: Player)
    requires |s| == Size
    ensures CheckWinner(s, p) <==> Wins(s, p)
  {
    LinesAreRowsColumnsDiagonals(s, p);
    SomeLineHeld(s, p)
  }

  /** Reference definition of a win, from the geometry of the grid: a full
      row, a full column or a full diagonal of `p`'s marks. */
  function At(s: seq<Cell>, row: nat, col: nat): Cell
    requires |s| == Size && row < 3 && col < 3
  {
    s[3 * row + col]
  }

  ghost predicate RowWon(s: seq<Cell>, row: nat, p: Player)
    requires |s| == Size && row < 3
  {
    At(s, row, 0) == At(s, row, 1) == At(s, row, 2) == Some(p)
  }

  ghost predicate ColumnWon(s: seq<Cell>, col: nat, p: Player)
    requires |s| == Size && col < 3
  {
    At(s, 0, col) == At(s, 1, col) == At(s, 2, col) == Some(p)
  }

  ghost predicate Wins(s: seq<Cell>, p: Player)
    requires |s| == Size
  {
    (exists r: nat :: r < 3 && RowWon(s, r, p)) ||
    (exists c: nat :: c < 3 && ColumnWon(s, c, p)) ||
    At(s, 0, 0) == At(s, 1, 1) == At(s, 2, 2) == Some(p) ||
    At(s, 0, 2) == At(s, 1, 1) == At(s, 2, 0) == Some(p)
  }

  /** The check over the eight listed lines agrees with the geometric
      definition: the list holds exactly the rows, columns and diagonals. */
  lemma LinesAreRowsColumnsDiagonals(s: seq<Cell>, p: Player)
    requires |s| == Size
    ensures SomeLineHeld(s, p) <==> Wins(s, p)
  {
    if SomeLineHeld(s, p) {
      ListedLineIsGeometric(s, p);
    }
    if Wins(s, p) {
      GeometricLineIsListed(s, p);
    }
  }

  lemma ListedLineIsGeometric(s: seq<Cell>, p: Player)
    requires |s| == Size && SomeLineHeld(s, p)
    ensures Wins(s, p)
  {
    WinningConditionsShape();
    var W := WinningConditions;
    var k :| 0 <= k < |W| && LineHeld(s, W[k], p);
    assert s[W[k][0]] == s[W[k][1]] == s[W[k][2]] == Some(p);
    if k < 3 {
      assert RowWon(s, k, p);
    } else if k < 6 {
      assert ColumnWon(s, k - 3, p);
    }
  }

  lemma GeometricLineIsListed(s: seq<Cell>, p: Player)
    requires |s| == Size && Wins(s, p)
    ensures SomeLineHeld(s, p)
  {
    WinningConditionsShape();
    var W := WinningConditions;
    if r: nat :| r < 3 && RowWon(s, r, p) {
      assert LineHeld(s, W[r], p);
    } else if c: nat :| c < 3 && ColumnWon(s, c, p) {
      assert LineHeld(s, W[3 + c], p);
    } else if At(s, 0, 0) == At(s, 1, 1) == At(s, 2, 2) == Some(p) {
      assert LineHeld(s, W[6], p);
    } else {
      assert LineHeld(s, W[7], p);
    }
  }

  /** A win is never reported on a line that has an empty cell: all three
      cells of the winning line are occupied, by `p`. This follows from the
      definition, since a cell holding a player is never `None`. */
  lemma WinNeedsOccupiedLine(s: seq<Cell>, p: Player)
    requires |s| == Size && CheckWinner(s, p)
    ensures exists k :: 0 <= k < 8 &&
             s[WinningConditions[k][0]] != None && s[WinningConditions[k][1]] != None &&
             s[WinningConditions[k][2]] != None
  {
  }

  /** Writing `p` into a cell never completes a line for the other player. */
  lemma PlacingNeverHelpsOpponent(s: seq<Cell>, i: nat, p: Player, q: Player)
    requires |s| == Size && i < Size && q != p
    ensures CheckWinner(s[i := Some(p)], q) ==> CheckWinner(s, q)
  {
  }

  /** Nobody has a line on the empty board. */
  lemma EmptyBoardNoWinner(p: Player)
    ensures !CheckWinner(EmptyBoard(), p)
  {
    WinningConditionsShape();
    var s := EmptyBoard();
    forall k | 0 <= k < |WinningConditions|
      ensures !LineHeld(s, WinningConditions[k], p)
    {
      assert s[WinningConditions[k][0]] == None;
    }
  }

  /** Every cell is occupied (`gameState.every(cell => cell)`), which is
      the case exactly when the list of empty cells is empty. */
  predicate IsFull(s: seq<Cell>)
    ensures IsFull(s) <==> EmptyCells(s) == []
  {
    NoEmptyCellsIffAllOccupied(s);
    forall i :: 0 <= i < |s| ==> s[i] != None
  }

  /** The indices `j >= i` of the empty cells, in ascending order. */
  function EmptyFrom(s: seq<Cell>, i: nat): (r: seq<nat>)
    requires i <= |s|
    decreases |s| - i
    ensures forall k :: 0 <= k < |r| ==> i <= r[k] < |s| && s[r[k]] == None
    ensures forall k, l :: 0 <= k < l < |r| ==> r[k] < r[l]
    ensures forall j :: i <= j < |s| && s[j] == None ==> j in r
  {
    if i == |s| then []
    else if s[i] == None then [i] + EmptyFrom(s, i + 1)
    else EmptyFrom(s, i + 1)
  }

  /** The empty cells of the board in ascending index order: exactly the
      indices holding `None`, each once. */
  function EmptyCells(s: seq<Cell>): (r: seq<nat>)
    ensures forall k :: 0 <= k < |r| ==> r[k] < |s| && s[r[k]] == None
    ensures forall k, l :: 0 <= k < l < |r| ==> r[k] < r[l]
    ensures forall j :: 0 <= j < |s| && s[j] == None ==> j in r
  {
    EmptyFrom(s, 0)
  }

  /** No empty cell is listed exactly when every cell is occupied. */
  lemma NoEmptyCellsIffAllOccupied(s: seq<Cell>)
    ensures EmptyCells(s) == [] <==> forall i :: 0 <= i < |s| ==> s[i] != None
  {
    var r := EmptyCells(s);
    if !forall i :: 0 <= i < |s| ==> s[i] != None {
      var j :| 0 <= j < |s| && s[j] == None;
      assert j in r;
    }
    if |r| > 0 {
      assert s[r[0]] == None;
    }
  }

  lemma {:induction false} EmptyFromPlace(s: seq<Cell>, i: nat, k: nat, p: Player)
    requires i <= |s| && k < |s| && s[k] == None
    decreases |s| - i
    ensures |EmptyFrom(s[k := Some(p)], i)| == |EmptyFrom(s, i)| - (if i <= k then 1 else 0)
  {
    if i < |s| {
      EmptyFromPlace(s, i + 1, k, p);
    }
  }

  /** Filling an empty cell removes exactly one empty cell: this is the
      measure that makes the search terminate. */
  lemma PlaceShrinks(s: seq<Cell>, k: nat, p: Player)
    requires k < |s| && s[k] == None
    ensures |EmptyCells(s[k := Some(p)])| == |EmptyCells(s)| - 1
  {
    EmptyFromPlace(s, 0, k, p);
  }
}
