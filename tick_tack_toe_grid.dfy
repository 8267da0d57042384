/** Values of the N×N tic-tac-toe engine (tick_tack_toe.py): cells, results,
    moves, the read-only position handed to players, and the specification of
    how a grid is classified and how moves change it. */
module TickTackToeGrid {

  /** A square of the board: empty, or holding one of the two marks. */
  datatype Cell = E | X | O

  /** What `check_state` reports. `Lose` exists but is never produced. */
  datatype Result = Unknown | Pair | Win | Lose

  /** A requested coordinate pair; it carries no board and may be out of range. */
  datatype Move = Move(x: int, y: int)

  datatype Option<T> = None | Some(value: T)

  /** One turn of a game: who played, where, and which mark was written. */
  datatype Turn<P> = Turn(player: P, move: Move, mark: Cell)

  /** The board contents as nested rows, `g[x][y]` being row x, column y. */
  type Grid = seq<seq<Cell>>

  /** Every row is as long as there are rows. */
  predicate IsSquare(g: Grid)
  {
    forall i :: 0 <= i < |g| ==> |g[i]| == |g|
  }

  predicate InRange(g: Grid, m: Move)
  {
    0 <= m.x < |g| && 0 <= m.y < |g|
  }

  /** The snapshot of the board that a player receives to choose a move. */
  datatype Position = Position(board: Grid) {

    function N(): nat
    {
      |board|
    }

    /** A move is valid when both coordinates lie in [0, N) and the cell is empty;
        out-of-range and occupied cells are both simply invalid. */
    predicate IsValid(m: Move): (valid: bool)
      requires IsSquare(board)
      ensures valid <==> InRange(board, m) && board[m.x][m.y] == E
    {
      0 <= m.x < N() && 0 <= m.y < N() && board[m.x][m.y] == E
    }
  }

  /** The grid of a fresh `Board(n)`: n rows of n empty cells, no rows when n <= 0. */
  function EmptyGrid(n: int): (g: Grid)
    ensures IsSquare(g)
    ensures |g| == if n < 0 then 0 else n
    ensures forall i, j :: 0 <= i < |g| && 0 <= j < |g| ==> g[i][j] == E
  {
    var size := if n < 0 then 0 else n;
    seq(size, _ => seq(size, _ => E))
  }

  /** The grid with the cell of `m` overwritten by `c`. */
  function Update(g: Grid, m: Move, c: Cell): (h: Grid)
    requires IsSquare(g) && InRange(g, m)
    ensures IsSquare(h) && |h| == |g|
  {
    g[m.x := g[m.x][m.y := c]]
  }

  // ---------------------------------------------------------------------------
  // Counting empty cells

  function EmptyIn(r: seq<Cell>): nat
  {
    if r == [] then 0 else EmptyIn(r[..|r| - 1]) + (if r[|r| - 1] == E then 1 else 0)
  }

  /** The number of empty cells of the grid, row by row. */
  function CountEmpty(g: Grid): nat
  {
    if g == [] then 0 else CountEmpty(g[..|g| - 1]) + EmptyIn(g[|g| - 1])
  }

  /** No cell of the grid is empty. */
  predicate Full(g: Grid)
  {
    forall i, j :: 0 <= i < |g| && 0 <= j < |g[i]| ==> g[i][j] != E
  }

  lemma {:induction false} EmptyInZero(r: seq<Cell>)
    ensures EmptyIn(r) == 0 <==> forall j :: 0 <= j < |r| ==> r[j] != E
  {
    if r != [] {
      var p := r[..|r| - 1];
      EmptyInZero(p);
      assert forall j :: 0 <= j < |p| ==> p[j] == r[j];
    }
  }

  /** The counter of `check_state` is zero exactly when the grid is full. */
  lemma {:induction false} CountEmptyZeroIffFull(g: Grid)
    ensures CountEmpty(g) == 0 <==> Full(g)
  {
    if g != [] {
      var p := g[..|g| - 1];
      CountEmptyZeroIffFull(p);
      EmptyInZero(g[|g| - 1]);
      assert forall i :: 0 <= i < |p| ==> p[i] == g[i];
    }
  }

  lemma {:induction false} EmptyInBound(r: seq<Cell>)
    ensures EmptyIn(r) <= |r|
  {
    if r != [] {
      EmptyInBound(r[..|r| - 1]);
    }
  }

  lemma {:induction false} CountEmptyPrefixBound(g: Grid, k: nat)
    requires IsSquare(g) && k <= |g|
    ensures CountEmpty(g[..k]) <= k * |g|
  {
    if k > 0 {
      assert g[..k][..k - 1] == g[..k - 1];
      CountEmptyPrefixBound(g, k - 1);
      EmptyInBound(g[k - 1]);
      assert k * |g| == (k - 1) * |g| + |g|;
    }
  }

  /** An N×N grid has at most N² empty cells, so at most N² moves fill it. */
  lemma CountEmptyBound(g: Grid)
    requires IsSquare(g)
    ensures CountEmpty(g) <= |g| * |g|
  {
    CountEmptyPrefixBound(g, |g|);
    assert g[..|g|] == g;
  }

  function Indicator(b: bool): nat
  {
    if b then 1 else 0
  }

  lemma {:induction false} EmptyInUpdate(r: seq<Cell>, j: nat, c: Cell)
    requires j < |r|
    ensures EmptyIn(r[j := c]) == EmptyIn(r) - Indicator(r[j] == E) + Indicator(c == E)
  {
    var s := r[j := c];
    if j == |r| - 1 {
      assert s[..|s| - 1] == r[..|r| - 1];
    } else {
      assert s[..|s| - 1] == r[..|r| - 1][j := c];
      EmptyInUpdate(r[..|r| - 1], j, c);
    }
  }

  lemma {:induction false} CountEmptyUpdateRow(g: Grid, i: nat, row: seq<Cell>)
    requires i < |g|
    ensures CountEmpty(g[i := row]) == CountEmpty(g) - EmptyIn(g[i]) + EmptyIn(row)
  {
    var h := g[i := row];
    if i == |g| - 1 {
      assert h[..|h| - 1] == g[..|g| - 1];
    } else {
      assert h[..|h| - 1] == g[..|g| - 1][i := row];
      CountEmptyUpdateRow(g[..|g| - 1], i, row);
    }
  }

  /** Writing one cell changes the number of empty cells by what was lost and gained there. */
  lemma CountEmptyUpdate(g: Grid, m: Move, c: Cell)
    requires IsSquare(g) && InRange(g, m)
    ensures CountEmpty(Update(g, m, c))
            == CountEmpty(g) - Indicator(g[m.x][m.y] == E) + Indicator(c == E)
  {
    CountEmptyUpdateRow(g, m.x, g[m.x][m.y := c]);
    EmptyInUpdate(g[m.x], m.y, c);
  }

  /** Playing a mark on a valid move fills exactly one empty cell. */
  lemma ValidMoveFillsOneCell(g: Grid, m: Move, c: Cell)
    requires IsSquare(g) && Position(g).IsValid(m) && c != E
    ensures CountEmpty(Update(g, m, c)) == CountEmpty(g) - 1
  {
    CountEmptyUpdate(g, m, c);
  }

  /** A grid that is not full offers a valid move, so a player's retry loop can succeed. */
  lemma NotFullHasValidMove(g: Grid)
    requires IsSquare(g) && !Full(g)
    ensures exists m :: Position(g).IsValid(m)
  {
    var i, j :| 0 <= i < |g| && 0 <= j < |g[i]| && g[i][j] == E;
    assert Position(g).IsValid(Move(i, j));
  }

  // ---------------------------------------------------------------------------
  // Lines and classification

  /** Every element equals every other one (vacuous for zero or one element). */
  predicate AllEqual(s: seq<Cell>)
  {
    forall i :: 0 <= i < |s| ==> s[i] == s[0]
  }

  /** Equal to the first element is the same as pairwise equal, which is what
      comparing each element with the one before it establishes. */
  lemma AllEqualPairwise(s: seq<Cell>)
    ensures AllEqual(s) <==> forall i, j :: 0 <= i < |s| && 0 <= j < |s| ==> s[i] == s[j]
    ensures AllEqual(s) <==> forall i :: 0 < i < |s| ==> s[i - 1] == s[i]
  {
    if forall i :: 0 < i < |s| ==> s[i - 1] == s[i] {
      ChainEqual(s, |s|);
    }
  }

  lemma {:induction false} ChainEqual(s: seq<Cell>, k: nat)
    requires k <= |s| && forall i :: 0 < i < |s| ==> s[i - 1] == s[i]
    ensures forall i :: 0 <= i < k ==> s[i] == s[0]
  {
    if k > 1 {
      ChainEqual(s, k - 1);
      assert s[k - 2] == s[k - 1];
    }
  }

  /** A line that is entirely one mark. */
  predicate Uniform(s: seq<Cell>)
  {
    |s| > 0 && s[0] != E && AllEqual(s)
  }

  function Column(g: Grid, j: nat): (s: seq<Cell>)
    requires IsSquare(g) && j < |g|
    ensures |s| == |g|
  {
    seq(|g|, i requires 0 <= i < |g| => g[i][j])
  }

  /** Cells (i, i). */
  function Diagonal(g: Grid): (s: seq<Cell>)
    requires IsSquare(g)
    ensures |s| == |g|
  {
    seq(|g|, i requires 0 <= i < |g| => g[i][i])
  }

  /** Cells (n - 1 - i, i): from the bottom-left corner to the top-right one. */
  function AntiDiagonal(g: Grid): (s: seq<Cell>)
    requires IsSquare(g)
    ensures |s| == |g|
  {
    seq(|g|, i requires 0 <= i < |g| => g[|g| - 1 - i][i])
  }

  /** Some row, column, the main diagonal or the anti-diagonal is uniformly one mark. */
  predicate HasWinningLine(g: Grid)
    requires IsSquare(g)
  {
    Uniform(Diagonal(g)) || Uniform(AntiDiagonal(g))
    || exists i :: 0 <= i < |g| && (Uniform(g[i]) || Uniform(Column(g, i)))
  }

  /** The classification `check_state` computes: a full grid is a draw before any
      line is looked at; otherwise a uniform line is a win; otherwise play goes on. */
  function Classify(g: Grid): Result
    requires IsSquare(g)
  {
    if Full(g) then Pair
    else if HasWinningLine(g) then Win
    else Unknown
  }

  /** A fresh board of size n >= 1 is still being played; one of size n <= 0 is a draw. */
  lemma FreshGridClassify(n: int)
    ensures n >= 1 ==> Classify(EmptyGrid(n)) == Unknown
    ensures n <= 0 ==> Classify(EmptyGrid(n)) == Pair
  {
    var g := EmptyGrid(n);
    if n >= 1 {
      assert g[0][0] == E;
      assert !Uniform(Diagonal(g)) by { assert Diagonal(g)[0] == E; }
      assert !Uniform(AntiDiagonal(g)) by { assert AntiDiagonal(g)[0] == E; }
      forall i | 0 <= i < |g|
        ensures !Uniform(g[i]) && !Uniform(Column(g, i))
      {
        assert g[i][0] == E;
        assert Column(g, i)[0] == E;
      }
    }
  }

  /** A full grid is reported as a draw even when one of its lines is complete. */
  lemma FullGridWithLineIsPair(g: Grid)
    requires IsSquare(g) && Full(g) && HasWinningLine(g)
    ensures Classify(g) == Pair
  {
  }

  /** Such grids occur in play: the last mark of X's top row can fill the board. */
  lemma FullGridWithLineExists()
    ensures exists g: Grid :: |g| == 3 && IsSquare(g) && Full(g) && HasWinningLine(g)
  {
    var g := [[X, X, X], [O, O, X], [X, O, O]];
    assert Uniform(g[0]);
    assert |g| == 3 && IsSquare(g) && Full(g) && HasWinningLine(g);
  }

  /** A row of one mark wins on a grid that still has an empty cell. */
  lemma UniformRowWins(g: Grid, i: nat)
    requires IsSquare(g) && i < |g| && !Full(g) && Uniform(g[i])
    ensures Classify(g) == Win
  {
  }

  /** A column of one mark wins on a grid that still has an empty cell. */
  lemma UniformColumnWins(g: Grid, j: nat)
    requires IsSquare(g) && j < |g| && !Full(g) && Uniform(Column(g, j))
    ensures Classify(g) == Win
  {
  }

  /** Classification never yields `Lose`, and is `Pair` exactly on a full grid. */
  lemma ClassifyOutcomes(g: Grid)
    requires IsSquare(g)
    ensures Classify(g) != Lose
    ensures Classify(g) == Pair <==> CountEmpty(g) == 0
    ensures Classify(g) == Win <==> CountEmpty(g) > 0 && HasWinningLine(g)
  {
    CountEmptyZeroIffFull(g);
  }

  // ---------------------------------------------------------------------------
  // Playing a sequence of turns

  /** Every turn is a valid move on the grid left by the turns before it and
      writes a mark. */
  ghost predicate Legal<P>(g: Grid, log: seq<Turn<P>>)
    requires IsSquare(g)
    decreases |log|, 0
  {
    log == [] ||
    (Legal(g, log[..|log| - 1]) &&
     var last := log[|log| - 1];
     last.mark != E && Position(Replay(g, log[..|log| - 1])).IsValid(last.move))
  }

  /** The grid after writing each turn's mark in order. */
  ghost function Replay<P>(g: Grid, log: seq<Turn<P>>): (h: Grid)
    requires IsSquare(g) && Legal(g, log)
    ensures IsSquare(h) && |h| == |g|
    decreases |log|, 1
  {
    if log == [] then g
    else
      var last := log[|log| - 1];
      Update(Replay(g, log[..|log| - 1]), last.move, last.mark)
  }

  /** A legal log followed by a valid move of a mark is legal, and replays to one more write. */
  lemma ReplayExtend<P>(g: Grid, log: seq<Turn<P>>, t: Turn<P>)
    requires IsSquare(g) && Legal(g, log)
    requires t.mark != E && Position(Replay(g, log)).IsValid(t.move)
    ensures Legal(g, log + [t])
    ensures Replay(g, log + [t]) == Update(Replay(g, log), t.move, t.mark)
  {
    assert (log + [t])[..|log|] == log;
  }

  /** Each legal turn consumes one empty cell, so a game of legal turns on an
      N×N grid lasts at most N² turns. */
  lemma {:induction false} ReplayConsumesEmpties<P>(g: Grid, log: seq<Turn<P>>)
    requires IsSquare(g) && Legal(g, log)
    ensures CountEmpty(Replay(g, log)) == CountEmpty(g) - |log|
    ensures |log| <= CountEmpty(g) <= |g| * |g|
    decreases |log|
  {
    CountEmptyBound(g);
    if log != [] {
      var prefix := log[..|log| - 1];
      var last := log[|log| - 1];
      ReplayConsumesEmpties(g, prefix);
      ValidMoveFillsOneCell(Replay(g, prefix), last.move, last.mark);
    }
  }
}
