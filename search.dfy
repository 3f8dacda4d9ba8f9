/** The exhaustive minimax search. O, the computer, maximises the score and
    X minimises it; an X line is worth -10, an O line +10 and a full board 0.
    `GameValue` is the value of a position as a function of the board;
    `Minimax` is the search as the original runs it, placing each candidate
    mark in the shared array, recursing, and writing the empty cell back. */
module Search {
  import opened Board

  /** A search result: the chosen cell (absent at a terminal position) and
      the score of the position for O. */
  datatype Move = Move(index: Option<nat>, score: int)

  predicate ValidScore(v: int) {
    v == -10 || v == 0 || v == 10
  }

  /** `a` is strictly better than `b` for `p`: O wants more, X wants less. */
  predicate Better(p: Player, a: int, b: int) {
    if p == O then a > b else a < b
  }

  /** `k` is the first candidate, in list order, whose score no other
      candidate beats: every candidate before it is strictly worse. */
  predicate FirstBest(moves: seq<Move>, p: Player, k: nat) {
    k < |moves| &&
    (forall j :: 0 <= j < |moves| ==> !Better(p, moves[j].score, moves[k].score)) &&
    (forall j :: 0 <= j < k ==> Better(p, moves[k].score, moves[j].score))
  }

  /** The candidate the left-to-right scan keeps: a later candidate replaces
      the current choice only when it is strictly better. */
  function BestOf(moves: seq<Move>, p: Player): (k: nat)
    requires |moves| > 0
    ensures FirstBest(moves, p, k)
  {
    if |moves| == 1 then 0
    else
      var prefix := moves[..|moves| - 1];
      var k := BestOf(prefix, p);
      assert forall j :: 0 <= j < |prefix| ==> prefix[j] == moves[j];
      if Better(p, moves[|moves| - 1].score, moves[k].score) then |moves| - 1 else k
  }

  /** Two candidates that are both first-best are the same candidate. */
  lemma FirstBestUnique(moves: seq<Move>, p: Player, k1: nat, k2: nat)
    requires FirstBest(moves, p, k1) && FirstBest(moves, p, k2)
    ensures k1 == k2
  {
    assert !Better(p, moves[k2].score, moves[k1].score);
    assert !Better(p, moves[k1].score, moves[k2].score);
  }

  /** The minimax value of the position `s` with `p` to move, and the cell
      chosen: terminal positions are scored X line first, then O line, then
      full board; otherwise the candidates are compared and the first best
      one is returned. */
  function GameValue(s: seq<Cell>, p: Player): (r: Move)
    requires |s| == Size
    decreases |EmptyCells(s)|, 2
    ensures ValidScore(r.score)
    ensures r.index.Some? ==> r.index.value < Size && s[r.index.value] == None
  {
    if CheckWinner(s, X) then Move(None, -10)
    else if CheckWinner(s, O) then Move(None, 10)
    else if |EmptyCells(s)| == 0 then Move(None, 0)
    else
      var moves := Candidates(s, p);
      moves[BestOf(moves, p)]
  }

  /** One candidate per empty cell, in ascending index order, each scored
      by the value of the position after `p` plays there. */
  function Candidates(s: seq<Cell>, p: Player): (moves: seq<Move>)
    requires |s| == Size
    decreases |EmptyCells(s)|, 1
    ensures |moves| == |EmptyCells(s)|
    ensures forall k :: 0 <= k < |moves| ==>
              moves[k].index.Some? && moves[k].index.value < Size && s[moves[k].index.value] == None &&
              moves[k].score == ChildValue(s, p, moves[k].index.value) && ValidScore(moves[k].score)
    ensures forall k, l :: 0 <= k < l < |moves| ==> moves[k].index.value < moves[l].index.value
  {
    var cells := EmptyCells(s);
    seq(|cells|, k requires 0 <= k < |cells| => Move(Some(cells[k]), ChildValue(s, p, cells[k])))
  }

  /** The score of trying the empty cell `i` for `p`: the value of the
      resulting position with the other player to move. */
  function ChildValue(s: seq<Cell>, p: Player, i: nat): (v: int)
    requires |s| == Size && i < Size && s[i] == None
    decreases |EmptyCells(s)|, 0
    ensures ValidScore(v)
  {
    PlaceShrinks(s, i, p);
    GameValue(s[i := Some(p)], Other(p)).score
  }

  /** Terminal scoring: an X line gives -10 whoever is to move, checked
      before O; otherwise an O line gives +10; otherwise a full board gives
      0; and exactly these positions come back without a cell. */
  lemma GameValueTerminal(s: seq<Cell>, p: Player)
    requires |s| == Size
    ensures Wins(s, X) ==> GameValue(s, p) == Move(None, -10)
    ensures !Wins(s, X) && Wins(s, O) ==> GameValue(s, p) == Move(None, 10)
    ensures !Wins(s, X) && !Wins(s, O) && IsFull(s) ==> GameValue(s, p) == Move(None, 0)
    ensures GameValue(s, p).index.None? <==> Wins(s, X) || Wins(s, O) || IsFull(s)
  {
  }

  /** Cell `i` is empty, no empty cell has a child value `p` prefers to
      its own, and every empty cell before it has one `p` likes strictly less. */
  ghost predicate FirstBestCell(s: seq<Cell>, p: Player, i: nat)
    requires |s| == Size
  {
    i < Size && s[i] == None &&
    (forall j :: 0 <= j < Size && s[j] == None ==> !Better(p, ChildValue(s, p, j), ChildValue(s, p, i))) &&
    (forall j :: 0 <= j < i && s[j] == None ==> Better(p, ChildValue(s, p, i), ChildValue(s, p, j)))
  }

  /** The first-best candidate of a position is its first-best cell. */
  lemma CandidateToCell(s: seq<Cell>, p: Player, b: nat)
    requires |s| == Size && FirstBest(Candidates(s, p), p, b)
    ensures FirstBestCell(s, p, EmptyCells(s)[b])
  {
    var cells := EmptyCells(s);
    var moves := Candidates(s, p);
    var i := cells[b];
    forall j | 0 <= j < Size && s[j] == None
      ensures !Better(p, ChildValue(s, p, j), ChildValue(s, p, i))
    {
      assert j in cells;
      var m :| 0 <= m < |cells| && cells[m] == j;
      assert moves[m].score == ChildValue(s, p, j);
      assert moves[b].score == ChildValue(s, p, i);
    }
    forall j | 0 <= j < i && s[j] == None
      ensures Better(p, ChildValue(s, p, i), ChildValue(s, p, j))
    {
      assert j in cells;
      var m :| 0 <= m < |cells| && cells[m] == j;
      assert m < b;
      assert moves[m].score == ChildValue(s, p, j);
      assert moves[b].score == ChildValue(s, p, i);
    }
  }

  /** Selection rule on a position still in play: the search returns the
      first empty cell, in ascending order, whose child value is best for
      the player to move, together with that value. */
  lemma GameValueSelects(s: seq<Cell>, p: Player)
    requires |s| == Size && !Wins(s, X) && !Wins(s, O) && !IsFull(s)
    ensures GameValue(s, p).index.Some?
    ensures FirstBestCell(s, p, GameValue(s, p).index.value)
    ensures GameValue(s, p).score == ChildValue(s, p, GameValue(s, p).index.value)
  {
    var moves := Candidates(s, p);
    var b := BestOf(moves, p);
    assert GameValue(s, p) == moves[b];
    assert moves[b] == Move(Some(EmptyCells(s)[b]), ChildValue(s, p, EmptyCells(s)[b]));
    CandidateToCell(s, p, b);
  }

  /** When the player to move can complete a line at once, the position is
      worth that player's win: O to move scores +10, X to move -10, even if
      the cell the search picks is another equally good one. */
  lemma ImmediateWinValue(s: seq<Cell>, p: Player, i: nat)
    requires |s| == Size && !Wins(s, X) && !Wins(s, O)
    requires i < Size && s[i] == None && Wins(s[i := Some(p)], p)
    ensures GameValue(s, p).score == (if p == O then 10 else -10)
  {
    var t := s[i := Some(p)];
    PlacingNeverHelpsOpponent(s, i, p, Other(p));
    GameValueTerminal(t, Other(p));
    assert ChildValue(s, p, i) == (if p == O then 10 else -10);
    GameValueSelects(s, p);
  }

  /** The two selection loops of the search: O keeps the first strictly
      greater score, X the first strictly smaller one, starting from a
      sentinel outside the score range. */
  method SelectBest(moves: seq<Move>, player: Player) returns (bestMove: nat)
    requires |moves| > 0
    requires forall j :: 0 <= j < |moves| ==> ValidScore(moves[j].score)
    ensures FirstBest(moves, player, bestMove)
  {
    bestMove := 0;
    if player == O {
      var bestScore := -11;
      for i := 0 to |moves|
        invariant i == 0 ==> bestScore == -11
        invariant i > 0 ==> FirstBest(moves[..i], player, bestMove) && bestScore == moves[bestMove].score
      {
        if moves[i].score > bestScore {
          bestScore := moves[i].score;
          bestMove := i;
        }
      }
    } else {
      var bestScore := 11;
      for i := 0 to |moves|
        invariant i == 0 ==> bestScore == 11
        invariant i > 0 ==> FirstBest(moves[..i], player, bestMove) && bestScore == moves[bestMove].score
      {
        if moves[i].score < bestScore {
          bestScore := moves[i].score;
          bestMove := i;
        }
      }
    }
    assert moves[..|moves|] == moves;
  }

  /** The search on the shared array: the array is back as it was on return
      and the result is the minimax value of the position. The win check is
      made on the array being searched. */
  method Minimax(newGameState: array<Cell>, player: Player) returns (r: Move)
    requires newGameState.Length == Size
    modifies newGameState
    decreases |EmptyCells(newGameState[..])|
    ensures newGameState[..] == old(newGameState[..])
    ensures r == GameValue(old(newGameState[..]), player)
  {
    ghost var s := newGameState[..];
    var emptyCells := EmptyCells(newGameState[..]);

    if CheckWinner(newGameState[..], X) {
      return Move(None, -10);
    } else if CheckWinner(newGameState[..], O) {
      return Move(None, 10);
    } else if |emptyCells| == 0 {
      return Move(None, 0);
    }

    ghost var candidates := Candidates(s, player);
    var moves: seq<Move> := [];
    for i := 0 to |emptyCells|
      invariant newGameState[..] == s
      invariant moves == candidates[..i]
    {
      var cell := emptyCells[i];
      newGameState[cell] := Some(player);
      assert newGameState[..] == s[cell := Some(player)];
      PlaceShrinks(s, cell, player);
      var result := Minimax(newGameState, if player == O then X else O);
      newGameState[cell] := None;
      assert newGameState[..] == s;
      assert candidates[i] == Move(Some(cell), result.score) by {
        assert result.score == ChildValue(s, player, cell);
      }
      moves := moves + [Move(Some(cell), result.score)];
    }

    assert moves == candidates;
    var bestMove := SelectBest(moves, player);
    r := moves[bestMove];
    assert r == GameValue(s, player) by {
      FirstBestUnique(moves, player, bestMove, BestOf(moves, player));
    }
  }
}
