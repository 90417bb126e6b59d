/** The AI opponent: a uniformly random move, or a full-depth minimax with no
    pruning in which X (1) maximises and the AI's own mark minimises. */
module Search {
  import opened Wrappers
  import opened Boards
  import opened Scores
  import opened GameTrees

  /** `level` 0 plays randomly, any other level plays minimax; `player` is
      the mark the AI puts down when minimising. */
  datatype AI = AI(level: int, player: Player)

  /** `AI.__init__` with its default arguments. */
  function DefaultAI(): AI
  {
    AI(1, 2)
  }

  /** `random.choice` on an empty list raises. */
  datatype SearchError = NoEmptySquare

  /** The mark placed by the side to move: X when maximising, the AI's mark otherwise. */
  function Mover(maximizing: bool, p: Player): Player
  {
    if maximizing then 1 else p
  }

  /** The deep copy of `b` with `m` marked by the side to move. */
  function Child(b: Board, maximizing: bool, p: Player, m: Square): (r: Board)
    requires EmptySqr(b, m)
    ensures CountOf(r.squares, 0) == CountOf(b.squares, 0) - 1
    ensures Consistent(b) ==> Consistent(r)
  {
    MarkSqr(b, m, Mover(maximizing, p))
  }

  /** The score of a finished game from X's point of view, or None while it
      goes on. A winner takes precedence over a full board. */
  function TerminalScore(b: Board): Option<int>
  {
    if FinalState(b) == 1 then Some(1)
    else if FinalState(b) == 2 then Some(-1)
    else if IsFull(b) then Some(0)
    else None
  }

  /** The tree of every way the game can go on from `b`, with `maximizing`
      saying whether X is to move: a leaf for a finished game, otherwise one
      child per empty square in row-major order. */
  function GameTree(b: Board, maximizing: bool, p: Player): Tree
    decreases CountOf(b.squares, 0), 1
  {
    match TerminalScore(b)
    case Some(v) => Leaf(v)
    case None => Node(Subtrees(b, maximizing, p, EmptySqrs(b)))
  }

  /** The trees after each of `moves`, in the order given. */
  function Subtrees(b: Board, maximizing: bool, p: Player, moves: seq<Square>): (r: seq<Tree>)
    requires forall j :: 0 <= j < |moves| ==> EmptySqr(b, moves[j])
    ensures |r| == |moves|
    decreases CountOf(b.squares, 0), 0, |moves|
  {
    if moves == [] then []
    else [GameTree(Child(b, maximizing, p, moves[0]), !maximizing, p)] + Subtrees(b, maximizing, p, moves[1..])
  }

  /** The `i`-th subtree is the tree after the `i`-th move. */
  lemma {:induction false} SubtreeAt(b: Board, maximizing: bool, p: Player, moves: seq<Square>, i: int)
    requires forall j :: 0 <= j < |moves| ==> EmptySqr(b, moves[j])
    requires 0 <= i < |moves|
    ensures Subtrees(b, maximizing, p, moves)[i] == GameTree(Child(b, maximizing, p, moves[i]), !maximizing, p)
    decreases |moves|
  {
    if i > 0 {
      SubtreeAt(b, maximizing, p, moves[1..], i - 1);
    }
  }

  /** From a board whose counter agrees with its grid the game tree is proper:
      scores stay in [-1, 1] and an unfinished game always has a move. */
  lemma {:induction false} GameTreeIsProper(b: Board, maximizing: bool, p: Player)
    requires Consistent(b)
    ensures Proper(GameTree(b, maximizing, p))
    decreases CountOf(b.squares, 0)
  {
    var t := GameTree(b, maximizing, p);
    if TerminalScore(b).None? {
      var moves := EmptySqrs(b);
      forall i | 0 <= i < |moves|
        ensures Proper(t.children[i])
      {
        SubtreeAt(b, maximizing, p, moves, i);
        GameTreeIsProper(Child(b, maximizing, p, moves[i]), !maximizing, p);
      }
    }
  }

  /** On a consistent board the minimax value is the value of the game: X can
      force at least it, the AI's side can force at most it, and neither can
      force better. */
  lemma MinimaxValueIsGameValue(b: Board, maximizing: bool, p: Player)
    requires Consistent(b)
    ensures -1 <= Value(GameTree(b, maximizing, p), maximizing) <= 1
    ensures XCanSecure(GameTree(b, maximizing, p), maximizing, Value(GameTree(b, maximizing, p), maximizing))
    ensures OCanSecure(GameTree(b, maximizing, p), maximizing, Value(GameTree(b, maximizing, p), maximizing))
    ensures forall s :: (Value(GameTree(b, maximizing, p), maximizing) < s <= 1
                         ==> !XCanSecure(GameTree(b, maximizing, p), maximizing, s))
    ensures forall s :: (-1 <= s < Value(GameTree(b, maximizing, p), maximizing)
                         ==> !OCanSecure(GameTree(b, maximizing, p), maximizing, s))
  {
    GameTreeIsProper(b, maximizing, p);
    ValueRange(GameTree(b, maximizing, p), maximizing);
    ValueIsGameValue(GameTree(b, maximizing, p), maximizing);
  }

  // ----------------------------------------------------------------- the move

  /** `m` is the move `minimax` returns on an unfinished board: among the
      empty squares in row-major order it is the first whose child's value
      no other child beats. */
  predicate IsFirstBest(b: Board, maximizing: bool, p: Player, m: Square)
  {
    && TerminalScore(b).None?
    && exists k :: 0 <= k < |EmptySqrs(b)| && EmptySqrs(b)[k] == m
                   && IsFirstBestChild(GameTree(b, maximizing, p).children, maximizing, k)
  }

  /** The tie-break leaves no choice: at most one move is the first best one. */
  lemma FirstBestIsUnique(b: Board, maximizing: bool, p: Player, m1: Square, m2: Square)
    requires IsFirstBest(b, maximizing, p, m1)
    requires IsFirstBest(b, maximizing, p, m2)
    ensures m1 == m2
  {
    var moves := EmptySqrs(b);
    var cs := GameTree(b, maximizing, p).children;
    var k1 :| 0 <= k1 < |moves| && moves[k1] == m1 && IsFirstBestChild(cs, maximizing, k1);
    var k2 :| 0 <= k2 < |moves| && moves[k2] == m2 && IsFirstBestChild(cs, maximizing, k2);
    FirstBestIndexIsUnique(maximizing, ChildValues(cs, maximizing), k1, k2);
  }

  /** The chosen move is optimal: whatever bound another move lets the mover
      force, the chosen move forces it too. For the AI (minimising) with
      s == 0: when some reply keeps X from forcing a win, the chosen one does. */
  lemma ChosenMoveIsOptimal(b: Board, maximizing: bool, p: Player, m: Square, alt: Square, s: int)
    requires IsFirstBest(b, maximizing, p, m)
    requires EmptySqr(b, alt)
    requires -1 <= s <= 1
    ensures maximizing && XCanSecure(GameTree(Child(b, maximizing, p, alt), !maximizing, p), !maximizing, s)
            ==> XCanSecure(GameTree(Child(b, maximizing, p, m), !maximizing, p), !maximizing, s)
    ensures !maximizing && OCanSecure(GameTree(Child(b, maximizing, p, alt), !maximizing, p), !maximizing, s)
            ==> OCanSecure(GameTree(Child(b, maximizing, p, m), !maximizing, p), !maximizing, s)
  {
    var moves := EmptySqrs(b);
    var cs := GameTree(b, maximizing, p).children;
    var k :| 0 <= k < |moves| && moves[k] == m && IsFirstBestChild(cs, maximizing, k);
    EmptySqrsExactlyTheEmpty(b, alt);
    var j :| 0 <= j < |moves| && moves[j] == alt;
    SubtreeAt(b, maximizing, p, moves, k);
    SubtreeAt(b, maximizing, p, moves, j);
    FirstBestIsOptimal(cs, maximizing, k, j, s);
  }

  // ------------------------------------------------------------ the operations

  /** `AI.minimax`: the score of a finished game, or else the best move and
      its score as found by `BestChild`. */
  method Minimax(ai: AI, b: Board, maximizing: bool) returns (score: int, move: Option<Square>)
    ensures score == Value(GameTree(b, maximizing, ai.player), maximizing)
    ensures FinalState(b) == 1 ==> score == 1 && move == None
    ensures FinalState(b) == 2 ==> score == -1 && move == None
    ensures FinalState(b) == 0 && IsFull(b) ==> score == 0 && move == None
    ensures move.Some? ==> EmptySqr(b, move.value) && IsFirstBest(b, maximizing, ai.player, move.value)
    ensures Consistent(b) ==> -1 <= score <= 1
    ensures Consistent(b) && TerminalScore(b).None? ==> move.Some?
    decreases CountOf(b.squares, 0), 2
  {
    var state := FinalState(b);
    if state == 1 {
      return 1, None;
    }
    if state == 2 {
      return -1, None;
    }
    if IsFull(b) {
      return 0, None;
    }
    score, move := BestChild(ai, b, maximizing);
    if Consistent(b) {
      GameTreeIsProper(b, maximizing, ai.player);
      ValueRange(GameTree(b, maximizing, ai.player), maximizing);
    }
  }

  /** The loop of `AI.minimax` over the empty squares of an unfinished
      board. Its two branches differ only in the mark put down and the
      comparison used, so one loop serves both: each square is tried on a
      copy of the board, and a square replaces the best one so far only
      when its score is strictly better. */
  method BestChild(ai: AI, b: Board, maximizing: bool) returns (score: int, move: Option<Square>)
    requires TerminalScore(b).None?
    ensures score == Value(GameTree(b, maximizing, ai.player), maximizing)
    ensures move.Some? ==> EmptySqr(b, move.value) && IsFirstBest(b, maximizing, ai.player, move.value)
    ensures Consistent(b) ==> move.Some?
    decreases CountOf(b.squares, 0), 1
  {
    var moves := EmptySqrs(b);
    ghost var cs := GameTree(b, maximizing, ai.player).children;
    ghost var vals := ChildValues(cs, maximizing);
    score, move := Sentinel(maximizing), None;
    var i := 0;
    ghost var k := 0;
    while i < |moves|
      invariant 0 <= i <= |moves|
      invariant score == Fold(maximizing, vals[..i])
      invariant move.None? ==> score == Sentinel(maximizing)
      invariant Consistent(b) && i > 0 ==> move.Some?
      invariant move.Some? ==> 0 <= k < i && moves[k] == move.value && vals[k] == score
                               && forall j :: 0 <= j < k ==> Improves(maximizing, score, vals[j])
    {
      var m := moves[i];
      var eval := ScoreMove(ai, b, maximizing, i);
      FoldStep(maximizing, vals, i);
      if Improves(maximizing, eval, score) {
        BeatsScannedPrefix(maximizing, vals, i, eval);
        score, move := eval, Some(m);
        k := i;
      }
      i := i + 1;
    }
    assert vals[..i] == vals;
    if move.Some? {
      FoldPicksFirstBest(maximizing, vals, k);
      assert IsFirstBestChild(cs, maximizing, k);
    }
  }

  /** One pass of the loop of `AI.minimax`: the score of the `i`-th empty
      square, found by marking it on a copy of the board and searching on
      with the other side to move. */
  method ScoreMove(ai: AI, b: Board, maximizing: bool, i: int) returns (eval: int)
    requires TerminalScore(b).None?
    requires 0 <= i < |EmptySqrs(b)|
    ensures eval == ChildValues(GameTree(b, maximizing, ai.player).children, maximizing)[i]
    ensures Consistent(b) ==> -1 <= eval <= 1
    decreases CountOf(b.squares, 0), 0
  {
    var m := EmptySqrs(b)[i];
    var temp := MarkSqr(b, m, Mover(maximizing, ai.player));
    var best;
    eval, best := Minimax(ai, temp, !maximizing);
    SubtreeAt(b, maximizing, ai.player, EmptySqrs(b), i);
  }

  /** `AI.random_move`: some empty square, chosen by the random source, which
      the model leaves open. */
  method RandomMove(b: Board) returns (r: Result<Square, SearchError>)
    ensures r.Success? <==> EmptySqrs(b) != []
    ensures r.Success? ==> r.value in EmptySqrs(b) && EmptySqr(b, r.value)
  {
    var empty := EmptySqrs(b);
    if empty == [] {
      return Failure(NoEmptySquare);
    }
    assert empty[0] in empty;
    var m :| m in empty;
    r := Success(m);
  }

  /** `AI.get_best_move`: level 0 plays randomly, any other level returns the
      move of `minimax(board, False)`, which is None on a finished game. */
  method GetBestMove(ai: AI, b: Board) returns (r: Result<Option<Square>, SearchError>)
    ensures ai.level == 0 ==> (r.Success? <==> EmptySqrs(b) != [])
    ensures ai.level == 0 && r.Success? ==> r.value.Some? && EmptySqr(b, r.value.value)
    ensures ai.level != 0 ==> r.Success?
    ensures ai.level != 0 && r.Success? && r.value.Some? ==>
              EmptySqr(b, r.value.value) && IsFirstBest(b, false, ai.player, r.value.value)
    ensures ai.level != 0 && r.Success? && Consistent(b) ==> (r.value.Some? <==> TerminalScore(b).None?)
  {
    if ai.level == 0 {
      var choice := RandomMove(b);
      match choice
      case Success(sq) => r := Success(Some(sq));
      case Failure(e) => r := Failure(e);
    } else {
      var _, move := Minimax(ai, b, false);
      r := Success(move);
    }
  }
}
