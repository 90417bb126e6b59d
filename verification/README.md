# Tic-tac-toe game logic in Dafny

This project models the game logic of `TicTacToee.py`, a pygame tic-tac-toe in which a human (X, mark 1) plays against an AI (O, mark 2 by default). Drawing and event handling are left out. The model has three parts.

- **The board** (`board.dfy`, module `Boards`): nine cells in row-major order plus the counter `marked_sqrs`. It models:
  - `final_state`, which scans the columns, then the rows, then the main diagonal, then the anti-diagonal, and reports the mark on the first line whose three cells are equal and non-empty;
  - `mark_sqr`, `empty_sqr` and `get_empty_sqrs`, which lists the empty squares in row-major order;
  - `is_full`, which looks only at the counter.
- **The AI search** (`scores.dfy`, `tree.dfy` and `search.dfy`, modules `Scores`, `GameTrees` and `Search`):
  - `minimax` is a method whose loop mirrors the source, one loop serving both branches. It plays with no pruning and a strict comparison, so among equal scores the first empty square in row-major order wins.
  - Its result is specified against two independent definitions: the recursive value of the game tree (`Value`), and the game-theoretic predicates "X can force at least `s`" and "O can force at most `s`". Neither predicate mentions scores of unfinished positions.
  - `random_move` and `get_best_move` are also modelled.
- **The turn logic** (`game.dfy`, module `Play`): `Game.make_move` marks the square for the player to move and passes the turn with `3 - player`; `Game.is_over` is "winner or full". The model also has the click guard and the AI's turn of the event loop.

Scores are those of the source: +1 when X (mark 1) wins, -1 when O (mark 2) wins, 0 for a full board with no winner. The source starts the scan with `-float('inf')` and `float('inf')`; the model uses -2 and +2 (`NegInf`, `PosInf`), which compare the same way with every real score.

Three points about the code that are easy to misread:
- `final_state` has no draw outcome; a draw is `final_state() == 0` together with `is_full()`.
- `mark_sqr` does not check that the square is empty. `MarkSqr` says exactly what happens to the counter either way.
- On a finished board minimax returns `(score, None)` rather than failing. Only the event loop's unpacking of that None could fail (`Play.AITurn`, `NoMoveToUnpack`), and the loop's guard on line 181 keeps the AI from searching a finished game, so this happens only on a board whose counter disagrees with its grid. `random.choice` fails on a board with no empty square (`Search.RandomMove`).

The counter `marked_sqrs` agrees with the grid (`Consistent`) only when every mark goes on an empty square. The source never checks this; its callers ensure it (the click guard at line 176, and minimax marking only squares from `get_empty_sqrs`). So properties that need it take `Consistent(b)` as a hypothesis rather than as a `requires`.

## Model

| member | source | states |
|---|---|---|
| Boards.ScanColumnsFindsFirst | TicTacToee.py:21-27 | The column loop returns the mark on the first complete column, and 0 exactly when no column is complete. |
| Boards.ScanRowsFindsFirst | TicTacToee.py:30-36 | The row loop returns the mark on the first complete row, and 0 exactly when no row is complete. |
| Boards.FinalStateFirstCompleteLine | TicTacToee.py:19-51 | `final_state` returns the owner of the first complete line in the order columns 0..2, rows 0..2, main diagonal, anti-diagonal; every earlier line is incomplete; it returns 0 if and only if no line is complete. |
| Boards.FinalStateNamesTheWinner | TicTacToee.py:19-51 | A reported winner owns a line; 0 is reported exactly when neither player owns a line; a player who alone owns a line is the one reported. |
| Boards.CountOfUpdate | TicTacToee.py:53-55 | Overwriting one cell changes the number of cells holding any value only by that cell's old and new value. |
| Boards.MarkSqr | TicTacToee.py:53-55 | The square gets the player's mark and the counter grows by one. The empty-cell count drops by one exactly when the square was empty. Marking an empty square keeps counter and grid in step; marking a taken one breaks that. |
| Boards.MarkSqrFrame | TicTacToee.py:53-55 | Marking a square leaves every other square unchanged. |
| Boards.EmptyInSound | TicTacToee.py:60-61 | The scan behind `get_empty_sqrs` lists only squares whose cell is 0, each inside the scanned range. |
| Boards.EmptyInCount | TicTacToee.py:60-61 | The scan lists one square per empty cell. |
| Boards.EmptyInOrder | TicTacToee.py:60-61 | The scan lists squares in strictly increasing row-major position. |
| Boards.EmptyInComplete | TicTacToee.py:60-61 | Every empty cell in the scanned range has its square listed. |
| Boards.EmptySqrs | TicTacToee.py:57-61 | `get_empty_sqrs` lists only empty squares, as many as there are empty cells. |
| Boards.EmptySqrsInOrder | TicTacToee.py:60-61 | `get_empty_sqrs` is in strictly increasing row-major order, so it has no duplicates. |
| Boards.EmptySqrsExactlyTheEmpty | TicTacToee.py:57-61 | A square is listed by `get_empty_sqrs` if and only if `empty_sqr` holds of it. |
| Boards.IsFull | TicTacToee.py:63-64 | When the counter agrees with the grid, `is_full` holds exactly when `get_empty_sqrs` is empty. |
| Boards.IsFullIffNoEmptySquare | TicTacToee.py:63-64 | When the counter agrees with the grid, `is_full` holds exactly when no square is empty. |
| Scores.FoldAtLeast | TicTacToee.py:85-105 | The strict scan ends at least `s` when maximising exactly when some score is at least `s`, and when minimising exactly when every score is. |
| Scores.FoldAtMost | TicTacToee.py:85-105 | The strict scan ends at most `s` when maximising exactly when every score is at most `s`, and when minimising exactly when some score is. |
| Scores.FoldRange | TicTacToee.py:85-105 | Scanning at least one score in [-1, 1] never leaves the infinite starting value behind. |
| Scores.FoldStep | TicTacToee.py:92-94 | Scanning one more score replaces the best only when the new score is strictly better. |
| Scores.FoldIsBest | TicTacToee.py:85-105 | No scanned score is strictly better than the scan's result. |
| Scores.BeatsScannedPrefix | TicTacToee.py:92-94 | A score that beats the best so far beats every score scanned so far. |
| Scores.FoldPicksFirstBest | TicTacToee.py:85-105 | The position that holds the result and strictly beats every earlier score is a best position with no best position before it. |
| Scores.FirstBestIndexIsUnique | TicTacToee.py:92-94 | At most one position is the first best one, so the tie-break is deterministic. |
| GameTrees.ValueRange | TicTacToee.py:76-105 | On a tree from real play, the minimax value is in [-1, 1]. |
| GameTrees.ValueAtLeastIffXSecures | TicTacToee.py:76-105 | The minimax value is at least `s` if and only if X can force a finish scoring at least `s`. |
| GameTrees.ValueAtMostIffOSecures | TicTacToee.py:76-105 | The minimax value is at most `s` if and only if the other side can force a finish scoring at most `s`. |
| GameTrees.ValueIsGameValue | TicTacToee.py:76-105 | Each side can force the minimax value, and neither side can force anything better. |
| GameTrees.FirstBestIsOptimal | TicTacToee.py:85-105 | The child chosen by the strict tie-break forces every bound that any other child lets the mover force. |
| Search.Child | TicTacToee.py:89-91 | The copy with one more mark has one empty cell fewer, which bounds the recursion depth by 9, and keeps counter and grid in step. |
| Search.SubtreeAt | TicTacToee.py:88-91 | The i-th subtree is the game after the i-th empty square is marked by the side to move. |
| Search.GameTreeIsProper | TicTacToee.py:77-105 | From a consistent board every finished game scores -1, 0 or 1, and every unfinished one has a move. |
| Search.MinimaxValueIsGameValue | TicTacToee.py:76-105 | On a consistent board the minimax value is in [-1, 1], each side can force it, and neither can force better. |
| Search.FirstBestIsUnique | TicTacToee.py:85-105 | At most one move is the first best one. |
| Search.ChosenMoveIsOptimal | TicTacToee.py:85-105 | The chosen move does at least as well for the mover as any other empty square, in the game-theoretic sense. |
| Search.Minimax | TicTacToee.py:76-105 | The score is the value of the game tree. A win for X gives (1, None), a win for O gives (-1, None), and a full board with no winner gives (0, None), with the winner check first. A returned move is an empty square and is the first best one. On a consistent board the score is in [-1, 1], and an unfinished game always yields a move. |
| Search.BestChild | TicTacToee.py:85-105 | The loop over the empty squares returns the fold of the children's scores and the first square whose child attains it. |
| Search.ScoreMove | TicTacToee.py:88-101 | One pass of the loop scores the i-th empty square by the value of the tree after it, in [-1, 1] on a consistent board. |
| Search.RandomMove | TicTacToee.py:72-74 | It fails exactly when there is no empty square; otherwise it returns a square from `get_empty_sqrs`. |
| Search.GetBestMove | TicTacToee.py:107-111 | Level 0 returns an empty square, failing only when none exists. Any other level never fails; it returns the first best minimax move for the AI's side, which is an empty square; on a consistent board it returns a move exactly when the game is unfinished. |
| Play.NewGame | TicTacToee.py:115-120 | A new game has all squares empty, the counter and turn in step, and X to move. |
| Play.MakeMove | TicTacToee.py:139-142 | The square gets the mover's mark, the counter grows by one, the turn passes to the other player, and the AI is unchanged. |
| Play.MakeMoveFrame | TicTacToee.py:139-142 | A move changes no square but its own. |
| Play.MakeMovePreservesInvariant | TicTacToee.py:139-142 | A move on an empty square keeps the counter in step with the grid, and X's marks equal O's marks plus one exactly when O is to move. |
| Play.IsOverIffWinnerOrNoSquare | TicTacToee.py:144-145 | On a consistent board the game is over exactly when some player owns a line or no square is empty. |
| Play.IsOverIffTerminal | TicTacToee.py:144-145 | The game is over exactly when minimax scores the board without searching. |
| Play.Click | TicTacToee.py:174-179 | A click on an empty square of a running game is exactly `make_move` on that square; any other click leaves the game unchanged. |
| Play.ClicksPreserveInvariant | TicTacToee.py:174-179 | Any run of clicks keeps counter and turn in step and never marks more than nine squares. |
| Play.AITurn | TicTacToee.py:181-186 | The AI acts only when its mark is the one to move and the game is running; otherwise the game is unchanged. When it acts it makes one move on an empty square. It fails only on a board whose counter disagrees with its grid; from real play its turn always goes through and keeps the invariant. An AI of level other than 0 plays the first best minimax move. |

## Left out

- Drawing and the window: the pygame setup (lines 9-12), the `show` branches of `final_state` (lines 23-26, 32-35, 40-42, 46-48), and `show_lines` and `draw_fig` (lines 123-137). They only paint the screen.
- The event loop `main` (lines 151-191): quitting, the `r`, `e` and `h` keys, and the mapping from a mouse position to a square. Its two game steps are modelled, with their guards, as `Click` (lines 174-179) and `AITurn` (lines 181-186). The `running` flag is represented by `!IsOver`, which is what it tracks from a fresh game. `reset` (lines 147-148) just builds a new game, which is `NewGame`.
- `gamemode` (line 119) is always `'ai'`, so it is not part of the state.
- The `constants` module is not part of this model. The board is fixed at 3 by 3, and only its dimensions matter to the logic.
- numpy: `np.zeros` stores floats, but only 0, 1 and 2 are ever written, so cells are integers 0..2.
- `copy.deepcopy`: boards are values, so a copy is just the same value.
- The random source of `random.choice`: `RandomMove` returns some empty square and leaves open which one.
- `Search.Minimax` works for `AI.player` 1 or 2 and does not assume the default `player == 2`; with `player == 1` both sides of the search would mark 1, and the model states what happens then.
- Other values of `AI.player`, which `AI.__init__` (lines 67-69) accepts, are not modelled: a cell holds only 0, 1 or 2, so `Player` is 1 or 2.
