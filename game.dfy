/** The game state machine: the board, whose turn it is and whether the
    game is still on, changed in place by moves and by a reset. */
module GameState {
  import opened Board
  import opened Search

  /** The position is still in play: no line for either player and at
      least one empty cell. */
  ghost predicate InPlay(s: seq<Cell>)
    requires |s| == Size
  {
    !Wins(s, X) && !Wins(s, O) && !IsFull(s)
  }

  /** A board of nine empty cells is the empty board, and it is in play. */
  lemma EmptyBoardInPlay(s: seq<Cell>)
    requires |s| == Size && forall k :: 0 <= k < Size ==> s[k] == None
    ensures s == EmptyBoard() && InPlay(s)
  {
    assert s == EmptyBoard();
    EmptyBoardNoWinner(X);
    EmptyBoardNoWinner(O);
    assert s[0] == None;
  }

  class Game {
    var gameState: array<Cell>
    var currentPlayer: Player
    var gameActive: bool

    /** The board has nine cells, and the game is active only while the
        position is in play. */
    ghost predicate Valid()
      reads this, gameState
    {
      gameState.Length == Size && (gameActive ==> InPlay(gameState[..]))
    }

    /** A fresh game: an empty board, X to move, the game on. */
    constructor ()
      ensures Valid() && fresh(gameState)
      ensures gameState[..] == EmptyBoard() && currentPlayer == X && gameActive
    {
      gameState := new Cell[Size](i => None);
      currentPlayer := X;
      gameActive := true;
      new;
      assert forall k :: 0 <= k < Size ==> gameState[k] == None;
      EmptyBoardInPlay(gameState[..]);
    }

    /** Writes `player` into the cell, then ends the game if the mover now
        has a line or the board is full, and otherwise hands the turn over. */
    method MakeMove(cellIndex: nat, player: Player)
      requires Valid() && cellIndex < Size
      modifies this, gameState
      ensures Valid() && gameState == old(gameState)
      ensures gameState[..] == old(gameState[..])[cellIndex := Some(player)]
      ensures Wins(gameState[..], player) || IsFull(gameState[..]) ==>
                !gameActive && currentPlayer == old(currentPlayer)
      ensures !Wins(gameState[..], player) && !IsFull(gameState[..]) ==>
                gameActive == old(gameActive) && currentPlayer == Other(old(currentPlayer))
    {
      ghost var before := gameState[..];
      gameState[cellIndex] := Some(player);
      ghost var after := gameState[..];
      assert after == before[cellIndex := Some(player)];
      if CheckWinner(gameState[..], player) {
        gameActive := false;
      } else if IsFull(gameState[..]) {
        gameActive := false;
      } else {
        currentPlayer := if currentPlayer == X then O else X;
        if gameActive {
          PlacingNeverHelpsOpponent(before, cellIndex, player, Other(player));
        }
      }
    }

    /** Empties every cell, gives the turn to X and restarts the game. */
    method ResetGame()
      requires Valid()
      modifies this, gameState
      ensures Valid() && gameState == old(gameState)
      ensures gameState[..] == EmptyBoard() && currentPlayer == X && gameActive
    {
      currentPlayer := X;
      for i := 0 to gameState.Length
        invariant gameState == old(gameState) && currentPlayer == X
        invariant forall k :: 0 <= k < i ==> gameState[k] == None
      {
        gameState[i] := None;
      }
      gameActive := true;
      EmptyBoardInPlay(gameState[..]);
    }

    /** A click by the human on a cell. It is ignored, with nothing changed,
        when the cell is taken, the game is over or it is O's turn; otherwise
        X plays there, and the computer's reply is due exactly when the game
        is still on afterwards. */
    method HandleCellClick(cellIndex: nat) returns (aiPending: bool)
      requires Valid() && cellIndex < Size
      modifies this, gameState
      ensures Valid() && gameState == old(gameState)
      ensures old(gameState[cellIndex] != None || !gameActive || currentPlayer == O) ==>
                !aiPending && gameState[..] == old(gameState[..]) &&
                currentPlayer == old(currentPlayer) && gameActive == old(gameActive)
      ensures old(gameState[cellIndex] == None && gameActive && currentPlayer == X) ==>
                gameState[..] == old(gameState[..])[cellIndex := Some(X)] &&
                aiPending == gameActive &&
                if Wins(gameState[..], X) || IsFull(gameState[..])
                then !gameActive && currentPlayer == X
                else gameActive && currentPlayer == O
    {
      if gameState[cellIndex] != None || !gameActive || currentPlayer == O {
        return false;
      }
      MakeMove(cellIndex, X);
      aiPending := gameActive;
    }

    /** The computer's move: search the live board for O and play the cell
        the search picks, which is an empty cell. */
    method AiMove()
      requires Valid() && gameActive
      modifies this, gameState
      ensures Valid() && gameState == old(gameState)
      ensures GameValue(old(gameState[..]), O).index.Some?
      ensures var i := GameValue(old(gameState[..]), O).index.value;
              i < Size && old(gameState[..])[i] == None &&
              gameState[..] == old(gameState[..])[i := Some(O)]
      ensures Wins(gameState[..], O) || IsFull(gameState[..]) ==>
                !gameActive && currentPlayer == old(currentPlayer)
      ensures !Wins(gameState[..], O) && !IsFull(gameState[..]) ==>
                gameActive && currentPlayer == Other(old(currentPlayer))
    {
      GameValueSelects(gameState[..], O);
      var bestMove := Minimax(gameState, O);
      MakeMove(bestMove.index.value, O);
    }
  }
}
