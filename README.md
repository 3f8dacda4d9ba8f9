# Tic-tac-toe engine: board, game state machine and minimax search

A Dafny model of the logic in `beta.js`, a browser tic-tac-toe game in which
the human plays X and the computer plays O. The model covers three things:

- **Board** (`board.dfy`, module `Board`): nine cells in row-major order, each
  empty (`None`, the original's `null`) or holding `X` or `O`. It also holds
  the eight winning lines, the win check `checkWinner` and the list of empty
  cells that the search walks.
- **Search** (`search.dfy`, module `Search`): the exhaustive minimax search,
  with no pruning.
  - `GameValue` is the value of a position as a pure function of the board.
  - `Minimax` is the search as the original runs it. It writes each
    candidate mark into the shared array, recurses for the other player,
    then writes the empty cell back. It is proved to leave the array as it
    found it and to return `GameValue` of the starting board.
  - `SelectBest` is the pair of selection loops. O keeps the first strictly
    greater score and X the first strictly smaller one.
- **Game state** (`game.dfy`, module `GameState`): the class `Game` holds the
  three globals `gameState`, `currentPlayer` and `gameActive`.
  - `MakeMove`, `ResetGame`, the guard of `HandleCellClick` and `AiMove`
    update these fields in place.
  - The class invariant says the game is active only while neither player
    has a line and an empty cell is left.

Scores are taken from O's side: -10 for an X line, +10 for an O line, 0 for a
full board. An X line is checked first, whoever is to move. Each recursive
call fills one more cell, so the number of empty cells is the termination
measure (`PlaceShrinks`).

Aliasing: the original's win check reads the global board, not the array
handed to `minimax`. The only outside call (beta.js:30) passes the global
board, and the recursive calls (beta.js:83, 86) pass the same array on, so
the two are always the same array. The model therefore runs the win check on the
array being searched.

Three behaviours of the code are kept as written:

- Placing a mark does not reject an occupied cell. `makeMove` overwrites
  whatever is there. Only the click handler's guard refuses occupied cells,
  and the search only ever picks empty ones.
- Rejected clicks are silently ignored rather than reported as errors.
- After a move, `currentPlayer` toggles from its own old value. It is not
  computed from the player who moved.

## Model

| member | source | states |
|---|---|---|
| `Board.Other` | beta.js:45 | the turn toggle gives the player who is not the mover |
| `Board.CheckWinner` | beta.js:50-54 | the win check holds exactly when the player fills a row, a column or one of the two diagonals of the 3x3 grid |
| `Board.LinesAreRowsColumnsDiagonals` | beta.js:9-13 | some line of the eight listed is entirely the player's exactly when the player fills a row, a column or a diagonal, so the list holds exactly those eight lines |
| `Board.WinNeedsOccupiedLine` | beta.js:9-13 | a reported win has a winning line whose three cells are all occupied, so a line of empty cells never counts as a win |
| `Board.PlacingNeverHelpsOpponent` | beta.js:38 | writing one player's mark never completes a line for the other player, which is why `makeMove` checks only the mover |
| `Board.EmptyBoardNoWinner` | beta.js:56-59 | neither player has a line on the cleared board |
| `Board.EmptyCells` | beta.js:65 | the result lists exactly the indices of the empty cells, each below the board size, in strictly ascending order |
| `Board.IsFull` | beta.js:41 | the `every(cell => cell)` draw test holds exactly when the list of empty cells is empty, so `makeMove` and `minimax` agree on a full board |
| `Board.NoEmptyCellsIffAllOccupied` | beta.js:71 | the search's `emptyCells.length === 0` test holds exactly when every cell is occupied |
| `Board.PlaceShrinks` | beta.js:80 | filling an empty cell removes exactly one empty cell, the measure that makes the recursion terminate |
| `Search.BestOf` | beta.js:94-111 | the scan's choice is the first candidate that no candidate beats, with every earlier candidate strictly worse |
| `Search.FirstBestUnique` | beta.js:94-111 | at most one candidate is first-best, so the tie-break is deterministic |
| `Search.SelectBest` | beta.js:94-111 | the two loops with their -11/11 sentinels return the first-best candidate: for O the first maximum, for X the first minimum |
| `Search.GameValue` | beta.js:64-114 | every score is -10, 0 or 10, and a returned cell is an empty cell of the input board |
| `Search.Candidates` | beta.js:75-92 | one candidate per empty cell, naming the empty cells in strictly ascending order; each candidate's score is the value of the position after the mover plays there, and lies in {-10, 0, 10} |
| `Search.ChildValue` | beta.js:80-88 | the value after the mover plays an empty cell, with the other player to move, is -10, 0 or 10 |
| `Search.GameValueTerminal` | beta.js:67-73 | an X line gives -10 before O is checked, then an O line gives +10, then a full board gives 0; exactly these positions return no cell |
| `Search.GameValueSelects` | beta.js:77-113 | on a board still in play, the result is the first empty cell in ascending order whose child value no other empty cell beats, with that value as the score |
| `Search.ImmediateWinValue` | beta.js:67-111 | if the player to move can complete a line at once, the score is that player's win (+10 for O, -10 for X) |
| `Search.Minimax` | beta.js:64-114 | the search restores every hypothetical placement, so the array is unchanged on return, and it returns `GameValue` of the starting board |
| `GameState.Game.constructor` | beta.js:5-7 | a fresh game has an empty board, X to move and the game on |
| `GameState.Game.MakeMove` | beta.js:34-48 | exactly the chosen cell is set. A line for the mover or a full board ends the game with the turn unchanged. Otherwise the turn toggles. The invariant is kept |
| `GameState.Game.ResetGame` | beta.js:56-59 | the board is all empty again, X is to move and the game is on |
| `GameState.Game.HandleCellClick` | beta.js:15-27 | a click on an occupied cell, after game over or on O's turn changes nothing. Otherwise X is placed, and the computer's reply is due exactly when the game is still on |
| `GameState.Game.AiMove` | beta.js:29-32 | the search on the live board yields a cell that was empty, and O is placed there with the same turn handling as `MakeMove` |

## Left out

- Rendering and the page: cell text, status messages, and the element
  lookups and click listeners (beta.js:1-3, 36, 39-46, 60-61, 116-117). These
  are display I/O with no logic.
- The mapping from a clicked element to a cell index (beta.js:16). The model
  takes the index as a parameter below 9.
- The 500 ms timer that delays the computer's reply (beta.js:25). The model
  returns whether a reply is due, and `AiMove` is the reply itself.
- GameState.Game.AiMove: requires the game to be active, the state in which
  the click handler schedules it. The model does not cover a reset, or a
  second click after a reset, that lands while a reply is still pending.
- `-Infinity`/`Infinity` start values of the selection loops: replaced by
  -11 and 11, which lie outside every score the search produces.
- Concrete optimal replies from particular openings. These would need the
  whole game tree evaluated; the model proves structural properties instead.
- Player values are the strings `'X'`/`'O'` in the original and an enumeration
  here; the empty cell `null` is `None`.
