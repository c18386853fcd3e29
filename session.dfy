/** The game session of script.js: the four variables `currentPlayer`,
    `gameBoard`, `gameActive` and `againstAI` (lines 9-12), the click handler
    with the computer's reply (lines 93-136), `resetGame` (lines 149-157) and
    the mode buttons (lines 159-174). */
module Session {
  import opened Board
  import opened Search

  /** A snapshot of the four session variables. */
  datatype GameState = GameState(board: seq<Cell>, player: Cell, active: bool, vsComputer: bool)

  /** `['', '', '', '', '', '', '', '', '']` */
  function EmptyBoard(): (b: seq<Cell>)
    ensures |b| == 9 && forall i | 0 <= i < 9 :: b[i] == Empty
  {
    seq(9, _ => Empty)
  }

  /** The session before any mode is chosen. */
  function Initial(): (r: GameState)
    ensures Consistent(r) && !r.active
  {
    EmptyBoardFacts();
    GameState(EmptyBoard(), X, false, false)
  }

  /** `resetGame()`: a fresh board, X to move, the game on; the mode stays. */
  function Reset(s: GameState): (r: GameState)
    ensures Consistent(r) && r.active && r.vsComputer == s.vsComputer
  {
    EmptyBoardFacts();
    s.(board := EmptyBoard(), player := X, active := true)
  }

  /** A mode button: set `againstAI`, then reset. */
  function ChooseMode(s: GameState, vsComputer: bool): (r: GameState)
    ensures Consistent(r) && r.active && r.vsComputer == vsComputer
  {
    Reset(s.(vsComputer := vsComputer))
  }

  /** The delayed body of the computer's reply, run at once. It plays the
      cell `bestMove` picks for X but writes the current player's marker
      there, and after a tie it still passes the turn. */
  function Reply(t: GameState): (r: GameState)
    ensures |r.board| == |t.board| && r.vsComputer == t.vsComputer
    ensures forall k | 0 <= k < |t.board| && t.board[k] != Empty :: r.board[k] == t.board[k]
    ensures r.active ==> t.active
  {
    var b := match BestCell(t.board)
      case Some(m) => t.board[m := t.player]
      case None => t.board;
    if CheckWin(b, t.player) then t.(board := b, active := false)
    else if CheckTie(b) then t.(board := b, active := false, player := Toggle(t.player))
    else t.(board := b, player := Toggle(t.player))
  }

  /** `handleCellClick(index)`. */
  function Click(s: GameState, index: int): (r: GameState)
    ensures |r.board| == |s.board| && r.vsComputer == s.vsComputer
    ensures forall k | 0 <= k < |s.board| && s.board[k] != Empty :: r.board[k] == s.board[k]
    ensures r.active ==> s.active
    ensures r != s ==> s.active && 0 <= index < |s.board| && s.board[index] == Empty && r.board[index] == s.player
  {
    if !s.active || !(0 <= index < |s.board|) || s.board[index] != Empty then s
    else
      var b := s.board[index := s.player];
      if CheckWin(b, s.player) then s.(board := b, active := false)
      else if CheckTie(b) then s.(board := b, active := false)
      else
        var t := s.(board := b, player := Toggle(s.player));
        if t.vsComputer && t.player == O then Reply(t) else t
  }

  /** The state every reachable session is in: X moves first and the turns
      alternate; a game still on has no line and an empty cell; against the
      computer it is always X's (the human's) turn while the game is on. */
  ghost predicate Consistent(s: GameState): (ok: bool)
    ensures ok && s.active ==> exists i | 0 <= i < |s.board| :: s.board[i] == Empty
  {
    |s.board| == 9 && (s.player == X || s.player == O) &&
    (Count(s.board, X) == Count(s.board, O) || Count(s.board, X) == Count(s.board, O) + 1) &&
    (s.active ==>
       (s.player == X <==> Count(s.board, X) == Count(s.board, O)) &&
       !CheckWin(s.board, X) && !CheckWin(s.board, O) && !CheckTie(s.board) &&
       (s.vsComputer ==> s.player == X))
  }

  lemma EmptyBoardFacts()
    ensures Count(EmptyBoard(), X) == 0 && Count(EmptyBoard(), O) == 0
    ensures !CheckWin(EmptyBoard(), X) && !CheckWin(EmptyBoard(), O) && !CheckTie(EmptyBoard())
  {
    CountAbsent(EmptyBoard(), X);
    CountAbsent(EmptyBoard(), O);
  }

  /** The start state, every reset and every mode choice are consistent. */
  lemma StartsConsistent(s: GameState, vsComputer: bool)
    ensures Consistent(Initial()) && Consistent(Reset(s)) && Consistent(ChooseMode(s, vsComputer))
    ensures Reset(s).active && Reset(s).player == X && Reset(s).vsComputer == s.vsComputer
  {
    EmptyBoardFacts();
  }

  /** A click on a finished game, off the board or on a taken cell changes
      nothing. */
  lemma ClickIgnored(s: GameState, index: int)
    requires !s.active || !(0 <= index < |s.board|) || s.board[index] != Empty
    ensures Click(s, index) == s
  {
  }

  /** A valid click between two humans: only the clicked cell changes, and
      it takes the mover's marker; a win or a full board ends the game with
      the mover still current, otherwise the turn passes. */
  lemma HumanClick(s: GameState, index: int)
    requires s.active && 0 <= index < |s.board| && s.board[index] == Empty
    requires !s.vsComputer
    ensures var r := Click(s, index);
      r.board == s.board[index := s.player] && r.vsComputer == s.vsComputer &&
      (r.active <==> !CheckWin(r.board, s.player) && !CheckTie(r.board)) &&
      r.player == (if r.active then Toggle(s.player) else s.player)
  {
  }

  /** Facts about a computer reply to a consistent position with O to move. */
  lemma ReplyFacts(t: GameState)
    requires |t.board| == 9 && t.player == O && t.active && t.vsComputer
    requires Count(t.board, X) == Count(t.board, O) + 1
    requires !CheckWin(t.board, X) && !CheckWin(t.board, O) && !CheckTie(t.board)
    ensures exists m | 0 <= m < 9 && t.board[m] == Empty ::
      BestCell(t.board) == Some(m) && Reply(t).board == t.board[m := O]
    ensures !CheckTie(Reply(t).board) && !CheckWin(Reply(t).board, X)
    ensures Count(Reply(t).board, X) == Count(Reply(t).board, O)
    ensures Reply(t).vsComputer && (Reply(t).active <==> !CheckWin(Reply(t).board, O))
    ensures Reply(t).player == (if Reply(t).active then X else O)
  {
    BestCellIsFirstBest(t.board);
    var m := BestCell(t.board).value;
    var b := t.board[m := O];
    assert Reply(t).board == b;
    CountUpdate(t.board, m, O, X);
    CountUpdate(t.board, m, O, O);
    CountUpdate(t.board, m, O, Empty);
    CountTotal(t.board);
    PlaceGivesNoOtherWin(t.board, m, O, X);
  }

  /** A valid click against the computer: the clicked cell takes X and, when
      the game goes on, the computer writes O on the cell `bestMove` picks
      for X. The reply can never fill the board, so its tie branch is never
      taken; while the game is on it is X's move again. */
  lemma ComputerClick(s: GameState, index: int)
    requires Consistent(s) && s.active && s.vsComputer
    requires 0 <= index < 9 && s.board[index] == Empty
    ensures var r := Click(s, index);
      var h := s.board[index := X];
      r.vsComputer &&
      (r.board == h ||
       exists m | 0 <= m < 9 && h[m] == Empty :: BestCell(h) == Some(m) && r.board == h[m := O]) &&
      (r.board == h ==> (CheckWin(h, X) || CheckTie(h)) && !r.active && r.player == X) &&
      ((CheckWin(h, X) || CheckTie(h)) ==> r.board == h && !r.active && r.player == X) &&
      (r.board != h ==> !CheckTie(r.board) && (r.active <==> !CheckWin(r.board, O))) &&
      (r.active ==> r.player == X)
  {
    var h := s.board[index := X];
    CountUpdate(s.board, index, X, X);
    CountUpdate(s.board, index, X, O);
    PlaceGivesNoOtherWin(s.board, index, X, O);
    if !CheckWin(h, X) && !CheckTie(h) {
      var t := s.(board := h, player := O);
      ReplyFacts(t);
      var m :| 0 <= m < 9 && t.board[m] == Empty && BestCell(t.board) == Some(m) && Reply(t).board == t.board[m := O];
      assert h[m := O][m] != h[m];
    }
  }

  /** Every click keeps the session consistent. */
  lemma ClickKeepsConsistent(s: GameState, index: int)
    requires Consistent(s)
    ensures Consistent(Click(s, index))
  {
    if s.active && 0 <= index < |s.board| && s.board[index] == Empty {
      var p := s.player;
      var b := s.board[index := p];
      CountUpdate(s.board, index, p, X);
      CountUpdate(s.board, index, p, O);
      PlaceGivesNoOtherWin(s.board, index, p, Toggle(p));
      if !CheckWin(b, p) && !CheckTie(b) {
        var t := s.(board := b, player := Toggle(p));
        if t.vsComputer && t.player == O {
          ReplyFacts(t);
        }
      }
    }
  }

  /** A game on a consistent session stops exactly when the board shows a
      line or is full, and if it shows a line, it is the current player's
      only: the winner the status line names. */
  lemma ClickEndsOnlyWhenDecided(s: GameState, index: int)
    requires Consistent(s) && s.active
    ensures var r := Click(s, index);
      (!r.active <==> CheckWin(r.board, X) || CheckWin(r.board, O) || CheckTie(r.board)) &&
      (CheckWin(r.board, X) || CheckWin(r.board, O) ==>
         CheckWin(r.board, r.player) && !CheckWin(r.board, Toggle(r.player)))
  {
    ClickKeepsConsistent(s, index);
    if 0 <= index < |s.board| && s.board[index] == Empty {
      var p := s.player;
      var b := s.board[index := p];
      PlaceGivesNoOtherWin(s.board, index, p, Toggle(p));
      if !CheckWin(b, p) && !CheckTie(b) {
        var t := s.(board := b, player := Toggle(p));
        if t.vsComputer && t.player == O {
          ComputerClick(s, index);
        }
      }
    }
  }

  /** The tie branch of the reply, as written, passes the turn even though
      the game is over. */
  lemma ReplyTieKeepsToggle(t: GameState)
    requires t.active
    ensures var r := Reply(t);
      (!r.active && !CheckWin(r.board, t.player) ==> CheckTie(r.board) && r.player == Toggle(t.player)) &&
      (!r.active && CheckWin(r.board, t.player) ==> r.player == t.player)
  {
  }

  /** Because `bestMove` scores moves for X, the computer playing O lets
      its own win go: here O completes the top row at cell 2, yet the reply
      blocks X at cell 5 and the game goes on. */
  lemma ReplyMissesOwnWin()
    ensures var t := GameState([O, O, Empty, X, X, Empty, Empty, Empty, X], O, true, true);
      CheckWin(t.board[2 := O], O) &&
      Reply(t).board == t.board[5 := O] && Reply(t).active && !CheckWin(Reply(t).board, O)
  {
    var t := GameState([O, O, Empty, X, X, Empty, Empty, Empty, X], O, true, true);
    var b := t.board;
    assert Complete(b[2 := O], O, WinPatterns[0]);
    assert Complete(b[5 := X], X, WinPatterns[1]);
    NoWinFromPatterns(b[2 := X], X);
    BestCellTakesImmediateWin(b, 5);
    NoWinFromPatterns(b[5 := O], O);
  }

  /** The session variables of the page. */
  class Game {
    var gameBoard: array<Cell>
    var currentPlayer: Cell
    var gameActive: bool
    var againstAI: bool

    ghost predicate Valid()
      reads this
    {
      gameBoard.Length == 9
    }

    function State(): GameState
      reads this, gameBoard
    {
      GameState(gameBoard[..], currentPlayer, gameActive, againstAI)
    }

    constructor ()
      ensures Valid() && fresh(gameBoard)
      ensures State() == Initial()
    {
      gameBoard := new Cell[9](_ => Empty);
      currentPlayer := X;
      gameActive := false;
      againstAI := false;
      new;
      assert gameBoard[..] == EmptyBoard();
    }

    /** `bestMove()`: tries X on each empty cell in turn, keeps the first
        cell with the strictly highest score, and leaves the board as it
        was. */
    method BestMove() returns (move: Option<nat>)
      modifies gameBoard
      ensures gameBoard[..] == old(gameBoard[..])
      ensures move == BestCell(old(gameBoard[..]))
    {
      ghost var b := gameBoard[..];
      var bestScore := Lowest;
      move := None;
      var i := 0;
      while i < gameBoard.Length
        invariant 0 <= i <= gameBoard.Length
        invariant gameBoard[..] == b
        invariant ScanMoves(b, i, bestScore, move) == BestCell(b)
      {
        if gameBoard[i] == Empty {
          gameBoard[i] := X;
          assert gameBoard[..] == b[i := X];
          var score := Minimax(gameBoard, 0, false);
          gameBoard[i] := Empty;
          assert gameBoard[..] == b;
          if score > bestScore {
            bestScore := score;
            move := Some(i);
          }
        }
        i := i + 1;
      }
    }

    /** The computer's reply, run at once instead of after the delay. */
    method ComputerReply()
      requires Valid()
      modifies this, gameBoard
      ensures Valid() && gameBoard == old(gameBoard)
      ensures State() == Reply(old(State()))
    {
      var move := BestMove();
      if move.Some? {
        gameBoard[move.value] := currentPlayer;
      }
      if CheckWin(gameBoard[..], currentPlayer) {
        gameActive := false;
        return;
      }
      if CheckTie(gameBoard[..]) {
        gameActive := false;
      }
      currentPlayer := Toggle(currentPlayer);
    }

    /** `handleCellClick(index)`. */
    method HandleCellClick(index: int)
      requires Valid()
      modifies this, gameBoard
      ensures Valid() && gameBoard == old(gameBoard)
      ensures State() == Click(old(State()), index)
    {
      if !gameActive || !(0 <= index < gameBoard.Length) || gameBoard[index] != Empty {
        return;
      }
      gameBoard[index] := currentPlayer;
      if CheckWin(gameBoard[..], currentPlayer) {
        gameActive := false;
        return;
      }
      if CheckTie(gameBoard[..]) {
        gameActive := false;
        return;
      }
      currentPlayer := Toggle(currentPlayer);
      if againstAI && currentPlayer == O {
        ComputerReply();
      }
    }

    /** `resetGame()`: a new empty board, X to move, the game on. */
    method ResetGame()
      modifies this
      ensures Valid() && fresh(gameBoard)
      ensures State() == Reset(old(State()))
    {
      currentPlayer := X;
      gameBoard := new Cell[9](_ => Empty);
      gameActive := true;
      assert gameBoard[..] == EmptyBoard();
    }

    /** The reset button (`playAgain`): a reset that keeps the mode. */
    method PlayAgain()
      modifies this
      ensures Valid() && fresh(gameBoard)
      ensures State() == Reset(old(State()))
    {
      ResetGame();
    }

    /** The two-player button. */
    method ChoosePlayerMode()
      modifies this
      ensures Valid() && fresh(gameBoard)
      ensures State() == ChooseMode(old(State()), false)
    {
      againstAI := false;
      ResetGame();
    }

    /** The play-the-computer button. */
    method ChooseComputerMode()
      modifies this
      ensures Valid() && fresh(gameBoard)
      ensures State() == ChooseMode(old(State()), true)
    {
      againstAI := true;
      ResetGame();
    }
  }
}
