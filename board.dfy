/** The 3x3 board of the game: cells, the eight winning lines, and the win
    and full-board tests (script.js lines 15-34). */
module Board {

  /** A cell holds a marker or is empty; the source uses the strings
      'X', 'O' and '' for the three values. */
  datatype Cell = Empty | X | O

  /** The other player's marker: `currentPlayer === 'X' ? 'O' : 'X'`. */
  function Toggle(p: Cell): (q: Cell)
    ensures q != Empty
    ensures p != Empty ==> q != p
  {
    if p == X then O else X
  }

  /** Number of cells of `b` that hold `c`. */
  function Count(b: seq<Cell>, c: Cell): (n: nat)
    ensures n <= |b|
  {
    if b == [] then 0 else (if b[0] == c then 1 else 0) + Count(b[1..], c)
  }

  /** Writing `v` into cell `i` moves that cell from the count of `b[i]` to
      the count of `v`, and leaves every other count alone. */
  lemma {:induction false} CountUpdate(b: seq<Cell>, i: nat, v: Cell, c: Cell)
    requires i < |b|
    ensures Count(b[i := v], c) == Count(b, c) - (if b[i] == c then 1 else 0) + (if v == c then 1 else 0)
  {
    if i == 0 {
      assert b[i := v][1..] == b[1..];
    } else {
      assert b[i := v][1..] == b[1..][i - 1 := v];
      CountUpdate(b[1..], i - 1, v, c);
    }
  }

  /** Every cell holds one of the three values. */
  lemma {:induction false} CountTotal(b: seq<Cell>)
    ensures Count(b, X) + Count(b, O) + Count(b, Empty) == |b|
  {
    if b != [] {
      CountTotal(b[1..]);
    }
  }

  /** A value that occurs in no cell has count zero. */
  lemma {:induction false} CountAbsent(b: seq<Cell>, c: Cell)
    requires forall i | 0 <= i < |b| :: b[i] != c
    ensures Count(b, c) == 0
  {
    if b != [] {
      assert forall i | 0 <= i < |b| - 1 :: b[1..][i] == b[i + 1];
      CountAbsent(b[1..], c);
    }
  }

  /** An index triple of the board. */
  type Triple = (nat, nat, nat)

  /** The eight winning lines: three rows, three columns, two diagonals. */
  const WinPatterns: seq<Triple> :=
    [(0, 1, 2), (3, 4, 5), (6, 7, 8),
     (0, 3, 6), (1, 4, 7), (2, 5, 8),
     (0, 4, 8), (2, 4, 6)]

  /** All three cells of line `t` hold `p`. A cell outside the board reads as
      `undefined` in the source, which equals no marker. */
  predicate Complete(b: seq<Cell>, p: Cell, t: Triple)
  {
    t.0 < |b| && t.1 < |b| && t.2 < |b| && b[t.0] == p && b[t.1] == p && b[t.2] == p
  }

  /** The scan of `checkWin` over a list of lines, stopping at the first line
      that is complete for `p`. */
  function AnyComplete(b: seq<Cell>, p: Cell, lines: seq<Triple>): (r: bool)
    ensures r <==> exists k | 0 <= k < |lines| :: Complete(b, p, lines[k])
  {
    if lines == [] then false
    else if Complete(b, p, lines[0]) then true
    else
      var rest := AnyComplete(b, p, lines[1..]);
      assert forall k | 1 <= k < |lines| :: lines[k] == lines[1..][k - 1];
      rest
  }

  /** `checkWin(board, player)`: some winning line is all `p`. */
  function CheckWin(b: seq<Cell>, p: Cell): (r: bool)
    ensures r <==> exists k | 0 <= k < |WinPatterns| :: Complete(b, p, WinPatterns[k])
  {
    AnyComplete(b, p, WinPatterns)
  }

  /** `checkTie(board)`, i.e. `board.every(cell => cell !== '')`: the board
      is full. It says nothing about a winner. */
  function CheckTie(b: seq<Cell>): (r: bool)
    ensures r <==> forall i | 0 <= i < |b| :: b[i] != Empty
    ensures r <==> Count(b, Empty) == 0
  {
    if b == [] then true
    else
      var rest := CheckTie(b[1..]);
      assert forall i | 1 <= i < |b| :: b[i] == b[1..][i - 1];
      b[0] != Empty && rest
  }

  // A geometric description of the winning lines, independent of the table.

  predicate RowOf(b: seq<Cell>, p: Cell, r: nat)
    requires |b| == 9 && r < 3
  {
    b[3 * r] == p && b[3 * r + 1] == p && b[3 * r + 2] == p
  }

  predicate ColumnOf(b: seq<Cell>, p: Cell, c: nat)
    requires |b| == 9 && c < 3
  {
    b[c] == p && b[c + 3] == p && b[c + 6] == p
  }

  predicate HasLine(b: seq<Cell>, p: Cell)
    requires |b| == 9
  {
    (exists r: nat | r < 3 :: RowOf(b, p, r)) ||
    (exists c: nat | c < 3 :: ColumnOf(b, p, c)) ||
    (b[0] == p && b[4] == p && b[8] == p) ||
    (b[2] == p && b[4] == p && b[6] == p)
  }

  /** The table of patterns is exactly the three rows, the three columns and
      the two diagonals of the row-major 3x3 grid. */
  lemma CheckWinIsLine(b: seq<Cell>, p: Cell)
    requires |b| == 9
    ensures CheckWin(b, p) <==> HasLine(b, p)
  {
    if CheckWin(b, p) {
      var k :| 0 <= k < |WinPatterns| && Complete(b, p, WinPatterns[k]);
      if k < 3 {
        assert RowOf(b, p, k);
      } else if k < 6 {
        assert ColumnOf(b, p, k - 3);
      }
    }
    if HasLine(b, p) {
      if r: nat :| r < 3 && RowOf(b, p, r) {
        assert Complete(b, p, WinPatterns[r]);
      } else if c: nat :| c < 3 && ColumnOf(b, p, c) {
        assert Complete(b, p, WinPatterns[c + 3]);
      } else if b[0] == p && b[4] == p && b[8] == p {
        assert Complete(b, p, WinPatterns[6]);
      } else {
        assert Complete(b, p, WinPatterns[7]);
      }
    }
  }

  /** A cell of `b` that lies on some line complete for `p`. */
  ghost predicate OnCompleteLine(b: seq<Cell>, p: Cell, i: nat)
  {
    exists k | 0 <= k < |WinPatterns| :: Complete(b, p, WinPatterns[k]) &&
      (i == WinPatterns[k].0 || i == WinPatterns[k].1 || i == WinPatterns[k].2)
  }

  /** Changing cells that lie on no line complete for `p` keeps `p` winning. */
  lemma WinSurvivesOffLineChanges(b: seq<Cell>, b': seq<Cell>, p: Cell)
    requires |b'| == |b|
    requires CheckWin(b, p)
    requires forall i | 0 <= i < |b| && OnCompleteLine(b, p, i) :: b'[i] == b[i]
    ensures CheckWin(b', p)
  {
    var k :| 0 <= k < |WinPatterns| && Complete(b, p, WinPatterns[k]);
    var t := WinPatterns[k];
    assert OnCompleteLine(b, p, t.0) && OnCompleteLine(b, p, t.1) && OnCompleteLine(b, p, t.2);
    assert Complete(b', p, WinPatterns[k]);
  }

  /** A win for `p` survives any change that keeps every `p` cell. */
  lemma WinMonotone(b: seq<Cell>, b': seq<Cell>, p: Cell)
    requires |b'| == |b|
    requires forall i | 0 <= i < |b| :: b[i] == p ==> b'[i] == p
    requires CheckWin(b, p)
    ensures CheckWin(b', p)
  {
    var k :| 0 <= k < |WinPatterns| && Complete(b, p, WinPatterns[k]);
    assert Complete(b', p, WinPatterns[k]);
  }

  /** Placing a marker on an empty cell gives no line to anyone else. */
  lemma PlaceGivesNoOtherWin(b: seq<Cell>, i: nat, m: Cell, p: Cell)
    requires i < |b| && b[i] == Empty && p != m
    ensures CheckWin(b[i := m], p) ==> CheckWin(b, p)
  {
    if CheckWin(b[i := m], p) {
      WinMonotone(b[i := m], b, p);
    }
  }

  /** The board with `m` on the three cells of pattern `k` and empty cells
      elsewhere is a win for `m`, whichever way the triple is listed. */
  lemma EveryPatternWins(k: nat, m: Cell)
    requires k < |WinPatterns|
    ensures var t := WinPatterns[k];
      var b := seq(9, i => if i == t.0 || i == t.1 || i == t.2 then m else Empty);
      CheckWin(b, m) &&
      forall u: Triple | {u.0, u.1, u.2} == {t.0, t.1, t.2} :: Complete(b, m, u)
  {
    var t := WinPatterns[k];
    var b := seq(9, i => if i == t.0 || i == t.1 || i == t.2 then m else Empty);
    assert Complete(b, m, WinPatterns[k]);
    forall u: Triple | {u.0, u.1, u.2} == {t.0, t.1, t.2} ensures Complete(b, m, u) {
      assert u.0 in {t.0, t.1, t.2} && u.1 in {t.0, t.1, t.2} && u.2 in {t.0, t.1, t.2};
    }
  }

  /** No line is complete for `p` once each of the eight is seen to miss. */
  lemma NoWinFromPatterns(b: seq<Cell>, p: Cell)
    requires !Complete(b, p, (0, 1, 2)) && !Complete(b, p, (3, 4, 5)) && !Complete(b, p, (6, 7, 8))
    requires !Complete(b, p, (0, 3, 6)) && !Complete(b, p, (1, 4, 7)) && !Complete(b, p, (2, 5, 8))
    requires !Complete(b, p, (0, 4, 8)) && !Complete(b, p, (2, 4, 6))
    ensures !CheckWin(b, p)
  {
    forall k | 0 <= k < |WinPatterns| ensures !Complete(b, p, WinPatterns[k]) {
      assert k in {0, 1, 2, 3, 4, 5, 6, 7};
    }
  }

  /** A full board on which neither marker has a line: the tie test holds
      and the win test fails for both markers. */
  lemma FullBoardWithoutWinner()
    ensures var b := [X, O, X, X, O, O, O, X, X];
      CheckTie(b) && !CheckWin(b, X) && !CheckWin(b, O)
  {
    var b := [X, O, X, X, O, O, O, X, X];
    NoWinFromPatterns(b, X);
    NoWinFromPatterns(b, O);
  }

  /** The tie test ignores winners: a full board can also hold a line. */
  lemma FullBoardWithWinner()
    ensures var b := [X, X, X, O, O, X, X, O, O];
      CheckTie(b) && CheckWin(b, X)
  {
    var b := [X, X, X, O, O, X, X, O, O];
    assert Complete(b, X, WinPatterns[0]);
  }
}
