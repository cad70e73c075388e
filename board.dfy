/** The tic-tac-toe board of src/Board.java: a fixed size-by-size grid of
    Space objects, updated in place by moves and scanned by the fullness and
    win checks.  Its abstract value is the ghost grid `cells`, specified in
    module BoardSpec. */
module Boards {
  import opened Spaces
  import opened BoardSpec

  class Board {
    /** The grid; the constructor allocates it full of nulls, as Java does,
        and then fills every cell with a fresh Space. */
    const spaces: array2<Space?>
    const boardSize: nat

    /** The symbols of the grid, row by row. */
    ghost var cells: Grid
    /** The Space objects of the grid. */
    ghost const Repr: set<Space>

    /** Every cell holds its own Space (no two cells share one), and the
        symbols of those Spaces are `cells`. */
    ghost predicate Valid()
      reads this, spaces, Repr
    {
      spaces.Length0 == boardSize && spaces.Length1 == boardSize &&
      IsSquare(cells, boardSize) &&
      (forall r, c :: 0 <= r < boardSize && 0 <= c < boardSize ==>
         spaces[r, c] != null && spaces[r, c] in Repr && spaces[r, c].symbol == cells[r][c]) &&
      (forall r, c, r', c' ::
         (0 <= r < boardSize && 0 <= c < boardSize && 0 <= r' < boardSize && 0 <= c' < boardSize &&
          spaces[r, c] == spaces[r', c']) ==> r == r' && c == c')
    }

    /** Builds a size-by-size board of blank Spaces. */
    constructor (size: nat)
      ensures Valid() && boardSize == size
      ensures cells == BlankGrid(size)
      ensures fresh(spaces) && fresh(Repr)
    {
      boardSize := size;
      var a := new Space?[size, size];
      ghost var made: set<Space> := {};
      var row := 0;
      while row < a.Length0
        invariant 0 <= row <= size
        invariant forall o :: o in made ==> fresh(o)
        invariant forall r, c :: 0 <= r < row && 0 <= c < size ==>
                    a[r, c] != null && a[r, c] in made && a[r, c].symbol == BLANK
        invariant forall r, c, r', c' ::
                    (0 <= r < row && 0 <= c < size && 0 <= r' < row && 0 <= c' < size &&
                     a[r, c] == a[r', c']) ==> r == r' && c == c'
      {
        var col := 0;
        while col < a.Length1
          invariant 0 <= col <= size
          invariant forall o :: o in made ==> fresh(o)
          invariant forall r, c :: (0 <= r < row && 0 <= c < size) || (r == row && 0 <= c < col) ==>
                      a[r, c] != null && a[r, c] in made && a[r, c].symbol == BLANK
          invariant forall r, c, r', c' ::
                      (((0 <= r < row && 0 <= c < size) || (r == row && 0 <= c < col)) &&
                       ((0 <= r' < row && 0 <= c' < size) || (r' == row && 0 <= c' < col)) &&
                       a[r, c] == a[r', c']) ==> r == r' && c == c'
        {
          var sp := new Space();
          a[row, col] := sp;
          made := made + {sp};
          col := col + 1;
        }
        row := row + 1;
      }
      spaces := a;
      cells := BlankGrid(size);
      Repr := made;
    }

    /** The Space at (row, col), or null when either index is off the board. */
    method GetSpace(row: int, col: int) returns (sp: Space?)
      requires Valid()
      ensures sp != null <==> 0 <= row < boardSize && 0 <= col < boardSize
      ensures sp != null ==> sp == spaces[row, col] && sp.symbol == cells[row][col]
    {
      if 0 <= row < spaces.Length0 && 0 <= col < spaces.Length1 {
        return spaces[row, col];
      }
      return null;
    }

    /** Records a move by `symbol` at the 1-based row-major position
        spaceNum and reports whether the cell was taken. */
    method RecordMove(spaceNum: int, symbol: string) returns (ok: bool)
      requires Valid()
      requires symbol != BLANK
      modifies this, Repr
      ensures Valid()
      ensures ok <==> MoveAccepted(old(cells), boardSize, spaceNum)
      ensures cells == AfterMove(old(cells), boardSize, spaceNum, symbol)
      ensures ok ==> CellAt(cells, boardSize, spaceNum) == symbol
    {
      if spaceNum < 1 || spaceNum > boardSize * boardSize {
        return false;
      }
      PositionToCell(spaceNum, boardSize);
      var count := 0;
      var rowNum := 0;
      var colNum := 0;
      var row := 0;
      while row < spaces.Length0
        invariant 0 <= row <= boardSize
        invariant count < spaceNum ==> count == row * boardSize
        invariant count >= spaceNum ==> rowNum == RowOf(spaceNum, boardSize) && colNum == ColOf(spaceNum, boardSize)
        modifies {}
      {
        var col := 0;
        while col < spaces.Length1
          invariant 0 <= col <= boardSize
          invariant count < spaceNum ==> count == row * boardSize + col
          invariant count >= spaceNum ==> rowNum == RowOf(spaceNum, boardSize) && colNum == ColOf(spaceNum, boardSize)
          modifies {}
        {
          count := count + 1;
          if count == spaceNum {
            DivModOf(row, col, boardSize);
            rowNum := row;
            colNum := col;
            break;
          }
          col := col + 1;
        }
        assert (row + 1) * boardSize == row * boardSize + boardSize;
        row := row + 1;
      }
      ok := spaces[rowNum, colNum].OccupySpace(symbol);
      cells := AfterMove(cells, boardSize, spaceNum, symbol);
      AfterMoveCells(old(cells), boardSize, spaceNum, symbol);
    }

    /** True exactly when no cell of the grid is blank. */
    method IsFull() returns (full: bool)
      requires Valid()
      ensures full <==> Full(cells, boardSize)
    {
      var row := 0;
      while row < spaces.Length0
        invariant 0 <= row <= boardSize
        invariant forall r, c :: 0 <= r < row && 0 <= c < boardSize ==> cells[r][c] != BLANK
      {
        var col := 0;
        while col < spaces.Length1
          invariant 0 <= col <= boardSize
          invariant forall c :: 0 <= c < col ==> cells[row][c] != BLANK
        {
          var s := spaces[row, col].GetSymbol();
          if s == BLANK {
            return false;
          }
          col := col + 1;
        }
        row := row + 1;
      }
      return true;
    }

    /** The symbol reported by the win check, scanning rows, columns and
        diagonals in that order. */
    method CheckWinner() returns (w: string)
      requires Valid() && boardSize >= 1
      ensures w == Winner(cells, boardSize)
    {
      var rowWinner := CheckRows();
      if rowWinner != BLANK {
        return rowWinner;
      }
      var colWinner := CheckColumns();
      if colWinner != BLANK {
        return colWinner;
      }
      var diagWinner := CheckDiagonals();
      if diagWinner != BLANK {
        return diagWinner;
      }
      return BLANK;
    }

    /** The first symbol of the first row whose cells all equal its first
        cell, top to bottom; BLANK when there is none. */
    method CheckRows() returns (w: string)
      requires Valid()
      ensures w == RowsWinner(cells, boardSize)
    {
      var row := 0;
      while row < spaces.Length0
        invariant 0 <= row <= boardSize
        invariant FirstUniform(cells[row..]) == RowsWinner(cells, boardSize)
      {
        var firstSymbolInRow := spaces[row, 0].GetSymbol();
        var winningRow := true;
        var col := 1;
        while col < spaces.Length1
          invariant 1 <= col <= boardSize
          invariant winningRow <==> forall c :: 0 <= c < col ==> cells[row][c] == firstSymbolInRow
        {
          var nextSymbol := spaces[row, col].GetSymbol();
          if firstSymbolInRow != nextSymbol {
            winningRow := false;
          }
          col := col + 1;
        }
        assert cells[row..][0] == cells[row];
        if winningRow {
          return firstSymbolInRow;
        }
        assert cells[row..][1..] == cells[row + 1..];
        row := row + 1;
      }
      return BLANK;
    }

    /** The first symbol of the first column whose cells all equal its top
        cell, left to right; BLANK when there is none. */
    method CheckColumns() returns (w: string)
      requires Valid() && boardSize >= 1
      ensures w == ColumnsWinner(cells, boardSize)
    {
      ghost var cols := Columns(cells, boardSize);
      var col := 0;
      while col < spaces.Length1
        invariant 0 <= col <= boardSize
        invariant FirstUniform(cols[col..]) == ColumnsWinner(cells, boardSize)
      {
        var firstSymbolInColumn := spaces[0, col].GetSymbol();
        var winningColumn := true;
        var row := 1;
        while row < spaces.Length0
          invariant 1 <= row <= boardSize
          invariant winningColumn <==> forall r :: 0 <= r < row ==> cells[r][col] == firstSymbolInColumn
        {
          var nextSymbol := spaces[row, col].GetSymbol();
          if firstSymbolInColumn != nextSymbol {
            winningColumn := false;
          }
          row := row + 1;
        }
        assert cols[col..][0] == cols[col] == Column(cells, boardSize, col);
        if winningColumn {
          return firstSymbolInColumn;
        }
        assert cols[col..][1..] == cols[col + 1..];
        col := col + 1;
      }
      return BLANK;
    }

    /** The top-left cell's symbol if the main diagonal is uniform, else the
        top-right cell's symbol if the anti-diagonal is, else BLANK. */
    method CheckDiagonals() returns (w: string)
      requires Valid() && boardSize >= 1
      ensures w == DiagonalsWinner(cells, boardSize)
    {
      var firstSymbol := spaces[0, 0].GetSymbol();
      var winningDiag := true;
      var count := 1;
      while count < boardSize
        invariant 1 <= count <= boardSize
        invariant winningDiag <==> forall i :: 0 <= i < count ==> cells[i][i] == firstSymbol
      {
        var nextSymbol := spaces[count, count].GetSymbol();
        if firstSymbol != nextSymbol {
          winningDiag := false;
        }
        count := count + 1;
      }
      assert winningDiag <==> Uniform(MainDiagonal(cells, boardSize));
      if winningDiag {
        return firstSymbol;
      }

      firstSymbol := spaces[0, boardSize - 1].GetSymbol();
      winningDiag := true;
      count := 1;
      while count < boardSize
        invariant 1 <= count <= boardSize
        invariant winningDiag <==> forall i :: 0 <= i < count ==> cells[i][boardSize - 1 - i] == firstSymbol
      {
        var nextSymbol := spaces[count, boardSize - count - 1].GetSymbol();
        if firstSymbol != nextSymbol {
          winningDiag := false;
        }
        count := count + 1;
      }
      assert winningDiag <==> Uniform(AntiDiagonal(cells, boardSize));
      assert Diagonals(cells, boardSize)[1..] == [AntiDiagonal(cells, boardSize)];
      assert AntiDiagonal(cells, boardSize)[0] == cells[0][boardSize - 1];
      assert FirstUniform([AntiDiagonal(cells, boardSize)]) ==
               if winningDiag then cells[0][boardSize - 1] else BLANK;
      if winningDiag {
        return firstSymbol;
      }
      return BLANK;
    }
  }

  /** A client game through the Board class: X 4, O 7, X 5, O 8, X 6 on a
      3-by-3 board.  X completes the middle row, yet the win check reports
      no winner. */
  method PlayMaskedRowGame() returns (w: string)
    ensures w == BLANK
  {
    var b := new Board(3);
    ghost var g := b.cells;
    var ok := b.RecordMove(4, "X");
    ok := b.RecordMove(7, "O");
    ok := b.RecordMove(5, "X");
    ok := b.RecordMove(8, "O");
    ok := b.RecordMove(6, "X");
    ghost var m := MaskedRowGame;
    assert b.cells == Play(g, 3, m) by {
      assert m[1..][1..][1..][1..][1..] == [];
    }
    MaskedRowExample();
    w := b.CheckWinner();
  }
}
