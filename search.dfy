/** The exhaustive minimax search of script.js lines 36-91. The search always
    scores the position for 'X' (the maximiser) against 'O' (the minimiser). */
module Search {
  import opened Board

  datatype Option<T> = None | Some(value: T)

  const WinScore: int := 10
  const LossScore: int := -10
  const TieScore: int := 0
  /** Stand-ins for the source's `-Infinity` and `Infinity` accumulators;
      every score the search meets lies in [-10, 10]. */
  const Lowest: int := -1000
  const Highest: int := 1000

  /** The marker the side to move places. */
  function Marker(maximizing: bool): Cell
  {
    if maximizing then X else O
  }

  function Max(a: int, b: int): int { if a >= b then a else b }
  function Min(a: int, b: int): int { if a <= b then a else b }

  /** Initial accumulator of the child scan. */
  function Start(maximizing: bool): int
  {
    if maximizing then Lowest else Highest
  }

  /** What `minimax(board, depth, isMaximizing)` returns: the terminal scores
      in the order X line, O line, full board; otherwise the scan over the
      empty cells in ascending order. */
  function MinimaxValue(b: seq<Cell>, depth: nat, maximizing: bool): int
    decreases Count(b, Empty), 1, 0
  {
    if CheckWin(b, X) then WinScore - depth
    else if CheckWin(b, O) then LossScore + depth
    else if CheckTie(b) then TieScore
    else ScanChildren(b, depth, maximizing, 0, Start(maximizing))
  }

  /** The score of the child reached by placing the mover's marker on the
      empty cell `j`. */
  function Child(b: seq<Cell>, depth: nat, maximizing: bool, j: nat): int
    requires j < |b| && b[j] == Empty
    decreases Count(b, Empty), 0, 0
  {
    CountUpdate(b, j, Marker(maximizing), Empty);
    MinimaxValue(b[j := Marker(maximizing)], depth + 1, !maximizing)
  }

  /** The `for` loop of `minimax` from cell `i` on, with `best` as the
      running `bestScore`. */
  function ScanChildren(b: seq<Cell>, depth: nat, maximizing: bool, i: nat, best: int): int
    requires i <= |b|
    decreases Count(b, Empty), 0, |b| - i
  {
    if i == |b| then best
    else if b[i] == Empty then
      var score := Child(b, depth, maximizing, i);
      ScanChildren(b, depth, maximizing, i + 1, if maximizing then Max(score, best) else Min(score, best))
    else ScanChildren(b, depth, maximizing, i + 1, best)
  }

  /** The scan ends at its accumulator or at one of the child scores, and
      bounds every child score from the mover's side. */
  lemma {:induction false} ScanChildrenFacts(b: seq<Cell>, depth: nat, maximizing: bool, i: nat, best: int)
    requires i <= |b|
    ensures var r := ScanChildren(b, depth, maximizing, i, best);
      (maximizing ==> best <= r && forall j | i <= j < |b| && b[j] == Empty :: Child(b, depth, maximizing, j) <= r) &&
      (!maximizing ==> r <= best && forall j | i <= j < |b| && b[j] == Empty :: r <= Child(b, depth, maximizing, j)) &&
      (r == best || exists j | i <= j < |b| && b[j] == Empty :: Child(b, depth, maximizing, j) == r)
    decreases |b| - i
  {
    if i < |b| {
      var r := ScanChildren(b, depth, maximizing, i, best);
      if b[i] == Empty {
        var score := Child(b, depth, maximizing, i);
        var next := if maximizing then Max(score, best) else Min(score, best);
        assert r == ScanChildren(b, depth, maximizing, i + 1, next);
        ScanChildrenFacts(b, depth, maximizing, i + 1, next);
        if r == next && next != best {
          assert Child(b, depth, maximizing, i) == r;
        }
      } else {
        assert r == ScanChildren(b, depth, maximizing, i + 1, best);
        ScanChildrenFacts(b, depth, maximizing, i + 1, best);
      }
    }
  }

  /** While the depth and the number of empty cells add up to at most 10
      (every call the game makes), the score lies between `-10 + depth` and
      `10 - depth`; in particular it is never an infinity stand-in. */
  lemma {:induction false} MinimaxValueBounds(b: seq<Cell>, depth: nat, maximizing: bool)
    requires depth + Count(b, Empty) <= 10
    ensures LossScore + depth <= MinimaxValue(b, depth, maximizing) <= WinScore - depth
    decreases Count(b, Empty)
  {
    if !CheckWin(b, X) && !CheckWin(b, O) && !CheckTie(b) {
      forall j | 0 <= j < |b| && b[j] == Empty
        ensures LossScore + depth + 1 <= Child(b, depth, maximizing, j) <= WinScore - depth - 1
      {
        CountUpdate(b, j, Marker(maximizing), Empty);
        MinimaxValueBounds(b[j := Marker(maximizing)], depth + 1, !maximizing);
      }
      ScanChildrenFacts(b, depth, maximizing, 0, Start(maximizing));
    }
  }

  /** A board with no line that is not full has an empty cell, and
      its score is the largest (maximiser) or smallest (minimiser) child
      score, reached by some empty cell. */
  lemma MinimaxValueIsExtremum(b: seq<Cell>, depth: nat, maximizing: bool)
    requires depth + Count(b, Empty) <= 10
    requires !CheckWin(b, X) && !CheckWin(b, O) && !CheckTie(b)
    ensures exists j | 0 <= j < |b| :: b[j] == Empty
    ensures var r := MinimaxValue(b, depth, maximizing);
      (exists j | 0 <= j < |b| && b[j] == Empty :: Child(b, depth, maximizing, j) == r) &&
      (maximizing ==> forall j | 0 <= j < |b| && b[j] == Empty :: Child(b, depth, maximizing, j) <= r) &&
      (!maximizing ==> forall j | 0 <= j < |b| && b[j] == Empty :: r <= Child(b, depth, maximizing, j))
  {
    var j :| 0 <= j < |b| && b[j] == Empty;
    CountUpdate(b, j, Marker(maximizing), Empty);
    MinimaxValueBounds(b[j := Marker(maximizing)], depth + 1, !maximizing);
    ScanChildrenFacts(b, depth, maximizing, 0, Start(maximizing));
  }

  /** The top score `10 - depth` is reached exactly on boards where X
      already has a line: any other line of play ends deeper. */
  lemma TopScoreIffXWon(b: seq<Cell>, depth: nat, maximizing: bool)
    requires depth + Count(b, Empty) <= 10 && depth < 10
    ensures MinimaxValue(b, depth, maximizing) == WinScore - depth <==> CheckWin(b, X)
  {
    if !CheckWin(b, X) && !CheckWin(b, O) && !CheckTie(b) {
      MinimaxValueIsExtremum(b, depth, maximizing);
      var j :| 0 <= j < |b| && b[j] == Empty && Child(b, depth, maximizing, j) == MinimaxValue(b, depth, maximizing);
      CountUpdate(b, j, Marker(maximizing), Empty);
      MinimaxValueBounds(b[j := Marker(maximizing)], depth + 1, !maximizing);
    }
  }

  // Symmetry under exchanging the two markers.

  function SwapCell(c: Cell): Cell
  {
    match c
    case Empty => Empty
    case X => O
    case O => X
  }

  function Swap(b: seq<Cell>): (r: seq<Cell>)
    ensures |r| == |b| && forall i | 0 <= i < |b| :: r[i] == SwapCell(b[i])
  {
    seq(|b|, i requires 0 <= i < |b| => SwapCell(b[i]))
  }

  lemma SwapWin(b: seq<Cell>, p: Cell)
    ensures CheckWin(Swap(b), SwapCell(p)) == CheckWin(b, p)
  {
    if CheckWin(b, p) {
      var k :| 0 <= k < |WinPatterns| && Complete(b, p, WinPatterns[k]);
      assert Complete(Swap(b), SwapCell(p), WinPatterns[k]);
    }
    if CheckWin(Swap(b), SwapCell(p)) {
      var k :| 0 <= k < |WinPatterns| && Complete(Swap(b), SwapCell(p), WinPatterns[k]);
      assert Complete(b, p, WinPatterns[k]);
    }
  }

  /** Exchanging X and O and the side to move negates the score, on every
      board where the two markers do not both have a line. */
  lemma {:induction false} MinimaxSymmetric(b: seq<Cell>, depth: nat, maximizing: bool)
    requires !(CheckWin(b, X) && CheckWin(b, O))
    ensures MinimaxValue(Swap(b), depth, !maximizing) == -MinimaxValue(b, depth, maximizing)
    decreases Count(b, Empty), 1, 0
  {
    SwapWin(b, X);
    SwapWin(b, O);
    if !CheckWin(b, X) && !CheckWin(b, O) && !CheckTie(b) {
      ScanSymmetric(b, depth, maximizing, 0, Start(maximizing));
    }
  }

  lemma {:induction false} ScanSymmetric(b: seq<Cell>, depth: nat, maximizing: bool, i: nat, best: int)
    requires i <= |b|
    requires !CheckWin(b, X) && !CheckWin(b, O)
    ensures ScanChildren(Swap(b), depth, !maximizing, i, -best) == -ScanChildren(b, depth, maximizing, i, best)
    decreases Count(b, Empty), 0, |b| - i
  {
    if i < |b| {
      if b[i] == Empty {
        var m := Marker(maximizing);
        var c := b[i := m];
        assert Swap(b)[i := Marker(!maximizing)] == Swap(c);
        PlaceGivesNoOtherWin(b, i, m, SwapCell(m));
        CountUpdate(b, i, m, Empty);
        MinimaxSymmetric(c, depth + 1, !maximizing);
        var score := Child(b, depth, maximizing, i);
        ScanSymmetric(b, depth, maximizing, i + 1, if maximizing then Max(score, best) else Min(score, best));
      } else {
        ScanSymmetric(b, depth, maximizing, i + 1, best);
      }
    }
  }

  /** `minimax`: scores the board by placing markers into the array and
      taking them back, and hands the array back as it found it. */
  method Minimax(board: array<Cell>, depth: nat, isMaximizing: bool) returns (score: int)
    modifies board
    ensures board[..] == old(board[..])
    ensures score == MinimaxValue(old(board[..]), depth, isMaximizing)
    decreases Count(board[..], Empty)
  {
    ghost var b := board[..];
    if CheckWin(board[..], X) {
      return WinScore - depth;
    } else if CheckWin(board[..], O) {
      return LossScore + depth;
    } else if CheckTie(board[..]) {
      return TieScore;
    }

    if isMaximizing {
      var bestScore := Lowest;
      var i := 0;
      while i < board.Length
        invariant 0 <= i <= board.Length
        invariant board[..] == b
        invariant ScanChildren(b, depth, true, i, bestScore) == ScanChildren(b, depth, true, 0, Lowest)
      {
        if board[i] == Empty {
          board[i] := X;
          assert board[..] == b[i := X];
          CountUpdate(b, i, X, Empty);
          var s := Minimax(board, depth + 1, false);
          board[i] := Empty;
          assert board[..] == b;
          bestScore := Max(s, bestScore);
        }
        i := i + 1;
      }
      return bestScore;
    } else {
      var bestScore := Highest;
      var i := 0;
      while i < board.Length
        invariant 0 <= i <= board.Length
        invariant board[..] == b
        invariant ScanChildren(b, depth, false, i, bestScore) == ScanChildren(b, depth, false, 0, Highest)
      {
        if board[i] == Empty {
          board[i] := O;
          assert board[..] == b[i := O];
          CountUpdate(b, i, O, Empty);
          var s := Minimax(board, depth + 1, true);
          board[i] := Empty;
          assert board[..] == b;
          bestScore := Min(s, bestScore);
        }
        i := i + 1;
      }
      return bestScore;
    }
  }

  // The root scan of `bestMove`.

  /** The score `bestMove` gives to playing X on the empty cell `j`. */
  function RootScore(b: seq<Cell>, j: nat): int
    requires j < |b| && b[j] == Empty
  {
    MinimaxValue(b[j := X], 0, false)
  }

  /** The loop of `bestMove` from cell `i` on: a cell replaces the kept move
      only when its score is strictly greater. */
  function ScanMoves(b: seq<Cell>, i: nat, best: int, move: Option<nat>): (r: Option<nat>)
    requires i <= |b|
    ensures r == move || (r.Some? && i <= r.value < |b| && b[r.value] == Empty)
    decreases |b| - i
  {
    if i == |b| then move
    else if b[i] == Empty then
      var score := RootScore(b, i);
      if score > best then ScanMoves(b, i + 1, score, Some(i)) else ScanMoves(b, i + 1, best, move)
    else ScanMoves(b, i + 1, best, move)
  }

  /** What `bestMove()` returns for the board: `None` stands for the
      `undefined` left in `move` when no cell is empty. */
  function BestCell(b: seq<Cell>): (r: Option<nat>)
    ensures r.Some? ==> r.value < |b| && b[r.value] == Empty
  {
    ScanMoves(b, 0, Lowest, None)
  }

  lemma RootScoreBounds(b: seq<Cell>, j: nat)
    requires |b| == 9 && j < |b| && b[j] == Empty
    ensures LossScore <= RootScore(b, j) <= WinScore
  {
    CountUpdate(b, j, X, Empty);
    MinimaxValueBounds(b[j := X], 0, false);
  }

  /** What the root scan knows after the cells before `i`. */
  ghost predicate MovesSoFar(b: seq<Cell>, i: nat, best: int, move: Option<nat>)
    requires i <= |b|
  {
    match move
    case None => best == Lowest && forall j | 0 <= j < i :: b[j] != Empty
    case Some(m) =>
      m < i && b[m] == Empty && best == RootScore(b, m) &&
      (forall j | 0 <= j < i && b[j] == Empty :: RootScore(b, j) <= best) &&
      (forall j | 0 <= j < m && b[j] == Empty :: RootScore(b, j) < best)
  }

  /** `move` is the first cell with the best root score. */
  ghost predicate FirstBest(b: seq<Cell>, move: Option<nat>)
  {
    match move
    case None => forall j | 0 <= j < |b| :: b[j] != Empty
    case Some(m) =>
      m < |b| && b[m] == Empty &&
      (forall j | 0 <= j < |b| && b[j] == Empty :: RootScore(b, j) <= RootScore(b, m)) &&
      (forall j | 0 <= j < m && b[j] == Empty :: RootScore(b, j) < RootScore(b, m))
  }

  /** A step of the root scan that takes cell `i` as the new best move. */
  lemma MovesSoFarTake(b: seq<Cell>, i: nat, best: int, move: Option<nat>, score: int)
    requires |b| == 9 && i < |b| && b[i] == Empty && score == RootScore(b, i)
    requires MovesSoFar(b, i, best, move)
    requires score > best
    ensures MovesSoFar(b, i + 1, score, Some(i))
  {
    forall j | 0 <= j < i && b[j] == Empty ensures RootScore(b, j) < score {
      assert move.Some? && RootScore(b, j) <= best;
    }
  }

  /** A step of the root scan that keeps the move it had. */
  lemma MovesSoFarKeep(b: seq<Cell>, i: nat, best: int, move: Option<nat>)
    requires |b| == 9 && i < |b|
    requires MovesSoFar(b, i, best, move)
    requires b[i] == Empty ==> RootScore(b, i) <= best
    ensures MovesSoFar(b, i + 1, best, move)
  {
    match move
    case None =>
      if b[i] == Empty {
        RootScoreBounds(b, i);
        assert false;
      }
    case Some(m) =>
      forall j | 0 <= j < i + 1 && b[j] == Empty ensures RootScore(b, j) <= best {
        if j < i {
          assert RootScore(b, j) <= best;
        }
      }
  }

  lemma {:induction false} ScanMovesFirstBest(b: seq<Cell>, i: nat, best: int, move: Option<nat>)
    requires |b| == 9 && i <= |b|
    requires MovesSoFar(b, i, best, move)
    ensures FirstBest(b, ScanMoves(b, i, best, move))
    decreases |b| - i
  {
    if i < |b| {
      if b[i] == Empty && RootScore(b, i) > best {
        MovesSoFarTake(b, i, best, move, RootScore(b, i));
        ScanMovesFirstBest(b, i + 1, RootScore(b, i), Some(i));
      } else {
        MovesSoFarKeep(b, i, best, move);
        ScanMovesFirstBest(b, i + 1, best, move);
      }
    }
  }

  /** `bestMove` returns nothing exactly on a full board; otherwise it
      returns an empty cell whose score is maximal, and the lowest such. */
  lemma BestCellIsFirstBest(b: seq<Cell>)
    requires |b| == 9
    ensures BestCell(b).None? <==> CheckTie(b)
    ensures FirstBest(b, BestCell(b))
  {
    ScanMovesFirstBest(b, 0, Lowest, None);
  }

  /** If X can complete a line in one move, `bestMove` returns the lowest
      cell that does so. */
  lemma BestCellTakesImmediateWin(b: seq<Cell>, j: nat)
    requires |b| == 9 && j < |b| && b[j] == Empty && CheckWin(b[j := X], X)
    requires forall k | 0 <= k < j && b[k] == Empty :: !CheckWin(b[k := X], X)
    ensures BestCell(b) == Some(j)
  {
    BestCellIsFirstBest(b);
    var m := BestCell(b).value;
    forall k | 0 <= k < |b| && b[k] == Empty
      ensures RootScore(b, k) <= WinScore && (RootScore(b, k) == WinScore <==> CheckWin(b[k := X], X))
    {
      CountUpdate(b, k, X, Empty);
      RootScoreBounds(b, k);
      TopScoreIffXWon(b[k := X], 0, false);
    }
  }

  /** X to move on X X _ / O O _ / _ _ _ completes the top row. */
  lemma BestCellCompletesRow()
    ensures BestCell([X, X, Empty, O, O, Empty, Empty, Empty, Empty]) == Some(2)
  {
    var b := [X, X, Empty, O, O, Empty, Empty, Empty, Empty];
    assert Complete(b[2 := X], X, WinPatterns[0]);
    BestCellTakesImmediateWin(b, 2);
  }

  /** X to move on O O _ / X X _ / _ _ _ : rather than block the top row at
      cell 2, the search completes the middle row at cell 5. */
  lemma BestCellPrefersWinToBlock()
    ensures BestCell([O, O, Empty, X, X, Empty, Empty, Empty, Empty]) == Some(5)
  {
    var b := [O, O, Empty, X, X, Empty, Empty, Empty, Empty];
    assert Complete(b[5 := X], X, WinPatterns[1]);
    NoWinFromPatterns(b[2 := X], X);
    BestCellTakesImmediateWin(b, 5);
  }
}
