/** The board of tick_tack_toe.py: an n×n grid of cells, written one cell at a
    time and classified by `CheckState`. */
module TickTackToeBoard {
  import opened TickTackToeGrid
  import PyIndex

  class Board {
    /** The size the board was created with; it may be zero or negative. */
    const n: int
    /** The cells, `cells[x, y]` being row x, column y. */
    const cells: array2<Cell>

    /** The number of rows and columns: `range(n)` is empty for n <= 0. */
    function Size(): nat
    {
      if n < 0 then 0 else n
    }

    predicate Valid()
    {
      cells.Length0 == Size() && cells.Length1 == Size()
    }

    /** The contents as a value, row by row. */
    function Grid(): (g: Grid)
      requires Valid()
      reads cells
      ensures IsSquare(g) && |g| == Size()
      ensures forall i, j :: 0 <= i < Size() && 0 <= j < Size() ==> g[i][j] == cells[i, j]
    {
      seq(Size(), i requires 0 <= i < Size() reads cells =>
        seq(Size(), j requires 0 <= j < Size() reads cells => cells[i, j]))
    }

    /** A fresh board of n rows of n empty cells. */
    constructor (n: int)
      ensures this.n == n && Valid() && fresh(cells)
      ensures Grid() == EmptyGrid(n)
    {
      this.n := n;
      var size := if n < 0 then 0 else n;
      cells := new Cell[size, size]((i, j) => E);
      new;
      assert Grid() == EmptyGrid(n) by {
        var g, e := Grid(), EmptyGrid(n);
        forall i | 0 <= i < size
          ensures g[i] == e[i]
        {
          assert |g[i]| == |e[i]|;
        }
      }
    }

    /** Whether all elements of `row` are equal, scanning with the previous element. */
    static method EqOnRow(row: seq<Cell>) returns (b: bool)
      ensures b <==> AllEqual(row)
    {
      var last: Option<Cell> := None;
      for k := 0 to |row|
        invariant last == if k == 0 then None else Some(row[k - 1])
        invariant forall i :: 0 <= i < k ==> row[i] == row[0]
      {
        if last.Some? && last.value != row[k] {
          assert row[k - 1] != row[k];
          return false;
        }
        last := Some(row[k]);
      }
      return true;
    }

    /** The number of empty cells, counted as `check_state` does before it looks at any line. */
    method CountEmptyCells() returns (empty: nat)
      requires Valid()
      ensures empty == CountEmpty(Grid())
      ensures empty == 0 <==> Full(Grid())
    {
      var g := Grid();
      var size := Size();
      empty := 0;
      for i := 0 to size
        invariant empty == CountEmpty(g[..i])
      {
        for j := 0 to size
          invariant empty == CountEmpty(g[..i]) + EmptyIn(g[i][..j])
        {
          assert g[i][..j + 1][..j] == g[i][..j];
          if cells[i, j] == E {
            empty := empty + 1;
          }
        }
        assert g[i][..size] == g[i];
        assert g[..i + 1][..i] == g[..i];
      }
      assert g[..size] == g;
      CountEmptyZeroIffFull(g);
    }

    /** Reports a draw when no cell is empty; otherwise looks for a uniform
        diagonal, anti-diagonal, row or column. */
    method CheckState() returns (r: Result)
      requires Valid()
      ensures r == Classify(Grid())
      ensures r != Lose
    {
      var empty := CountEmptyCells();
      var g := Grid();
      var size := Size();
      if empty == 0 {
        return Pair;
      }
      assert !Full(g);
      var diagonal := EqOnRow(Diagonal(g));
      if diagonal && cells[0, 0] != E {
        assert Uniform(Diagonal(g));
        return Win;
      }
      var anti := EqOnRow(AntiDiagonal(g));
      if anti && cells[size - 1, 0] != E {
        assert Uniform(AntiDiagonal(g));
        return Win;
      }
      var line := RowOrColumnWins(g);
      return if line then Win else Unknown;
    }

    /** The last scan of `check_state`: row i, then column i, for each i in turn;
        a line counts when it is all equal and its first cell is marked. */
    static method RowOrColumnWins(g: Grid) returns (b: bool)
      requires IsSquare(g)
      ensures b <==> exists i :: 0 <= i < |g| && (Uniform(g[i]) || Uniform(Column(g, i)))
    {
      for i := 0 to |g|
        invariant forall k :: 0 <= k < i ==> !Uniform(g[k]) && !Uniform(Column(g, k))
      {
        var row := EqOnRow(g[i]);
        if row && g[i][0] != E {
          return true;
        }
        var column := EqOnRow(Column(g, i));
        if column && g[0][i] != E {
          return true;
        }
      }
      return false;
    }

    /** Writes `c` into the cell of `m` without any check; negative coordinates
        count from the end as Python list indices do. */
    method SetCell(m: Move, c: Cell)
      requires Valid()
      requires -(Size() as int) <= m.x < Size() && -(Size() as int) <= m.y < Size()
      modifies cells
      ensures Grid() == Update(old(Grid()), Move(PyIndex.Wrap(m.x, Size()), PyIndex.Wrap(m.y, Size())), c)
    {
      var x := PyIndex.Wrap(m.x, Size());
      var y := PyIndex.Wrap(m.y, Size());
      ghost var before := Grid();
      cells[x, y] := c;
      ghost var after := Grid();
      ghost var expected := Update(before, Move(x, y), c);
      forall i | 0 <= i < Size()
        ensures after[i] == expected[i]
      {
        assert |after[i]| == |expected[i]|;
        forall j | 0 <= j < Size()
          ensures after[i][j] == expected[i][j]
        {
        }
      }
    }
  }
}
