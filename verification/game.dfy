/** The turn logic of `Game`: a move marks the square for the player to
    move and hands the turn over; the game is over once somebody has three
    in a row or the board is full. */
module Play {
  import opened Wrappers
  import opened Boards
  import opened Search

  /** `board`, `ai` and `player` of `Game`; `player` is the mark of the side
      to move. */
  datatype Game = Game(board: Board, ai: AI, player: Player)

  /** Why the AI's turn cannot be played: `random.choice` on no squares, or
      unpacking the None that minimax returns on a finished board. */
  datatype TurnError = NoSquareToChoose | NoMoveToUnpack

  /** X has moved first and the players have alternated: X has one mark
      more than O exactly when O is to move. */
  predicate TurnBalanced(g: Game)
  {
    CountOf(g.board.squares, 1) == CountOf(g.board.squares, 2) + (if g.player == 1 then 0 else 1)
  }

  /** What every game reached by play keeps: the counter agrees with the
      grid, and the turn agrees with the marks. */
  predicate Invariant(g: Game)
  {
    Consistent(g.board) && TurnBalanced(g)
  }

  /** `Game.__init__`: an empty board, the default AI, X to move. */
  function NewGame(): (g: Game)
    ensures Invariant(g)
    ensures g.player == 1
    ensures forall sq :: EmptySqr(g.board, sq)
  {
    Game(EmptyBoard(), DefaultAI(), 1)
  }

  /** `Game.make_move` without drawing: the square gets the mover's mark,
      one more square is counted, and the turn passes to the other player. */
  function MakeMove(g: Game, sq: Square): (r: Game)
    ensures Get(r.board, sq) == g.player
    ensures r.board.marked == g.board.marked + 1
    ensures r.player != g.player
    ensures r.ai == g.ai
  {
    Game(MarkSqr(g.board, sq, g.player), g.ai, 3 - g.player)
  }

  /** A move changes no square but its own. */
  lemma MakeMoveFrame(g: Game, sq: Square, other: Square)
    requires other != sq
    ensures Get(MakeMove(g, sq).board, other) == Get(g.board, other)
  {
  }

  /** A move on an empty square keeps the counter in step with the grid and
      the turn in step with the marks. */
  lemma MakeMovePreservesInvariant(g: Game, sq: Square)
    requires Invariant(g)
    requires EmptySqr(g.board, sq)
    ensures Invariant(MakeMove(g, sq))
  {
    CountOfUpdate(g.board.squares, Index(sq), g.player, 1);
    CountOfUpdate(g.board.squares, Index(sq), g.player, 2);
  }

  /** `Game.is_over`: somebody has three in a row, or the board is full. */
  function IsOver(g: Game): bool
  {
    FinalState(g.board) != 0 || IsFull(g.board)
  }

  /** On a consistent board the game is over exactly when a player owns a
      line or no square is left empty. */
  lemma IsOverIffWinnerOrNoSquare(g: Game)
    requires Consistent(g.board)
    ensures IsOver(g) <==> HasLine(g.board, 1) || HasLine(g.board, 2) || forall sq :: !EmptySqr(g.board, sq)
  {
    FinalStateNamesTheWinner(g.board, 1);
    IsFullIffNoEmptySquare(g.board);
  }

  /** The game is over exactly when minimax scores the board without
      searching. */
  lemma IsOverIffTerminal(g: Game)
    ensures IsOver(g) <==> TerminalScore(g.board).Some?
  {
  }

  /** A click on `sq` in the event loop: taken only while the game runs (it
      stops as soon as it is over) and only on an empty square; any other
      click is ignored. */
  function Click(g: Game, sq: Square): (r: Game)
    ensures !IsOver(g) && EmptySqr(g.board, sq) ==> r == MakeMove(g, sq)
    ensures IsOver(g) || !EmptySqr(g.board, sq) ==> r == g
  {
    if !IsOver(g) && EmptySqr(g.board, sq) then MakeMove(g, sq) else g
  }

  /** A run of clicks, one after the other. */
  function Clicks(g: Game, sqs: seq<Square>): Game
    decreases |sqs|
  {
    if sqs == [] then g else Clicks(Click(g, sqs[0]), sqs[1..])
  }

  /** However the clicks fall, play keeps the counter and the turn in step,
      and never takes more squares than the board has. */
  lemma {:induction false} ClicksPreserveInvariant(g: Game, sqs: seq<Square>)
    requires Invariant(g)
    ensures Invariant(Clicks(g, sqs))
    ensures g.board.marked <= Clicks(g, sqs).board.marked <= CellCount
    decreases |sqs|
  {
    if sqs != [] {
      if !IsOver(g) && EmptySqr(g.board, sqs[0]) {
        MakeMovePreservesInvariant(g, sqs[0]);
      }
      ClicksPreserveInvariant(Click(g, sqs[0]), sqs[1..]);
    } else {
      assert g.board.marked + CountOf(g.board.squares, 0) == CellCount;
    }
  }

  /** The AI's turn of the event loop: only when the AI's mark is the one to
      move and the game still runs, `get_best_move`, then `make_move`;
      otherwise the game is left as it is. The AI only ever marks an empty
      square; its turn fails only on a board whose counter is out of step
      with its grid; and a level-1 AI plays the first best move. */
  method AITurn(g: Game) returns (r: Result<Game, TurnError>)
    ensures g.player != g.ai.player || IsOver(g) ==> r == Success(g)
    ensures g.player == g.ai.player && !IsOver(g) && r.Success? ==>
              exists sq :: EmptySqr(g.board, sq) && r.value == MakeMove(g, sq)
    ensures r.Failure? ==> !Consistent(g.board)
    ensures Invariant(g) ==> r.Success? && Invariant(r.value)
    ensures g.ai.level != 0 && g.player == g.ai.player && !IsOver(g) && r.Success? ==>
              exists sq :: IsFirstBest(g.board, false, g.ai.player, sq) && r.value == MakeMove(g, sq)
  {
    if g.player != g.ai.player || IsOver(g) {
      return Success(g);
    }
    var best := GetBestMove(g.ai, g.board);
    match best
    case Failure(_) =>
      r := Failure(NoSquareToChoose);
    case Success(None) =>
      r := Failure(NoMoveToUnpack);
    case Success(Some(sq)) =>
      if Invariant(g) {
        MakeMovePreservesInvariant(g, sq);
      }
      r := Success(MakeMove(g, sq));
  }
}
