/** The board of src/Board.java seen as a value: a square grid of symbols,
    the 1-based row-major positions players name, what a move does to the
    grid, and what the win checks compute.  The class in board.dfy is
    proved against these definitions. */
module BoardSpec {
  import opened Spaces

  /** The symbols of an n-by-n board, row by row. */
  type Grid = seq<seq<string>>

  ghost predicate IsSquare(g: Grid, n: nat)
  {
    |g| == n && forall r :: 0 <= r < n ==> |g[r]| == n
  }

  /** The board as it is built: every cell blank. */
  ghost function BlankGrid(n: nat): (g: Grid)
    ensures IsSquare(g, n)
    ensures forall r, c :: 0 <= r < n && 0 <= c < n ==> g[r][c] == BLANK
  {
    seq(n, _ => seq(n, _ => BLANK))
  }

  /** No cell is blank. */
  ghost predicate Full(g: Grid, n: nat)
    requires IsSquare(g, n)
  {
    forall r, c :: 0 <= r < n && 0 <= c < n ==> g[r][c] != BLANK
  }

  // ---------------------------------------------------------------------
  // Positions

  /** Positions 1 .. n*n name the cells in row-major order. */
  predicate InRange(p: int, n: nat)
  {
    1 <= p <= n * n
  }

  function RowOf(p: int, n: nat): int
    requires n > 0
  {
    (p - 1) / n
  }

  function ColOf(p: int, n: nat): int
    requires n > 0
  {
    (p - 1) % n
  }

  function PositionOf(r: int, c: int, n: nat): int
  {
    r * n + c + 1
  }

  /** Quotient and remainder of r*n + c by n are r and c when 0 <= c < n. */
  lemma DivModOf(r: int, c: int, n: nat)
    requires n > 0 && 0 <= c < n
    ensures (r * n + c) / n == r
    ensures (r * n + c) % n == c
  {
    var x := r * n + c;
    var q, m := x / n, x % n;
    assert q * n + m == r * n + c;
    assert (q - r) * n == c - m;
    if q > r {
      assert (q - r) * n >= n by { MulAtLeast(q - r, n); }
      assert false;
    } else if q < r {
      assert (r - q) * n >= n by { MulAtLeast(r - q, n); }
      assert false;
    }
  }

  lemma MulAtLeast(k: int, n: nat)
    requires k >= 1
    ensures k * n >= n
  {
  }

  /** Every in-range position names a cell of the grid, and that cell's
      position is the one we started from. */
  lemma {:induction false} PositionToCell(p: int, n: nat)
    requires InRange(p, n)
    ensures n > 0
    ensures 0 <= RowOf(p, n) < n && 0 <= ColOf(p, n) < n
    ensures PositionOf(RowOf(p, n), ColOf(p, n), n) == p
  {
    var q, m := (p - 1) / n, (p - 1) % n;
    assert q * n + m == p - 1;
    assert q >= 0;
  }

  lemma MulMono(a: nat, b: nat, n: nat)
    requires a <= b
    ensures a * n <= b * n
  {
  }

  /** Every cell has an in-range position, and that position names it. */
  lemma {:induction false} CellToPosition(r: int, c: int, n: nat)
    requires 0 <= r < n && 0 <= c < n
    ensures InRange(PositionOf(r, c, n), n)
    ensures RowOf(PositionOf(r, c, n), n) == r && ColOf(PositionOf(r, c, n), n) == c
  {
    DivModOf(r, c, n);
    assert r * n + c + 1 <= n * n by {
      assert r <= n - 1;
      MulMono(r, n - 1, n);
      assert (n - 1) * n == n * n - n;
    }
  }

  /** The symbol at an in-range position. */
  ghost function CellAt(g: Grid, n: nat, p: int): string
    requires IsSquare(g, n) && InRange(p, n)
  {
    PositionToCell(p, n);
    g[RowOf(p, n)][ColOf(p, n)]
  }

  /** A grid is full exactly when the cell of every position is occupied. */
  lemma FullByPositions(g: Grid, n: nat)
    requires IsSquare(g, n)
    ensures Full(g, n) <==> forall p :: InRange(p, n) ==> CellAt(g, n, p) != BLANK
  {
    if forall p :: InRange(p, n) ==> CellAt(g, n, p) != BLANK {
      forall r, c | 0 <= r < n && 0 <= c < n
        ensures g[r][c] != BLANK
      {
        CellToPosition(r, c, n);
        assert CellAt(g, n, PositionOf(r, c, n)) != BLANK;
      }
    }
    if Full(g, n) {
      forall p | InRange(p, n)
        ensures CellAt(g, n, p) != BLANK
      {
        PositionToCell(p, n);
      }
    }
  }

  // ---------------------------------------------------------------------
  // Moves

  /** A move at position p is accepted when p is in range and its cell is blank. */
  ghost predicate MoveAccepted(g: Grid, n: nat, p: int)
    requires IsSquare(g, n)
  {
    InRange(p, n) && CellAt(g, n, p) == BLANK
  }

  /** The grid after a move by `s` at position p: out-of-range positions
      change nothing, otherwise the target cell goes through Occupied. */
  ghost function AfterMove(g: Grid, n: nat, p: int, s: string): (h: Grid)
    requires IsSquare(g, n)
    ensures IsSquare(h, n)
  {
    if !InRange(p, n) then g
    else
      PositionToCell(p, n);
      var r, c := RowOf(p, n), ColOf(p, n);
      g[r := g[r][c := Occupied(g[r][c], s)]]
  }

  /** A move touches at most its own cell, and writes `s` there exactly when
      it is accepted. */
  lemma AfterMoveCells(g: Grid, n: nat, p: int, s: string)
    requires IsSquare(g, n)
    ensures var h := AfterMove(g, n, p, s);
      forall r, c :: 0 <= r < n && 0 <= c < n ==>
        h[r][c] == (if InRange(p, n) && PositionOf(r, c, n) == p
                    then Occupied(g[r][c], s) else g[r][c])
    ensures MoveAccepted(g, n, p) ==> CellAt(AfterMove(g, n, p, s), n, p) == s
    ensures !MoveAccepted(g, n, p) ==> AfterMove(g, n, p, s) == g
  {
    var h := AfterMove(g, n, p, s);
    forall r, c | 0 <= r < n && 0 <= c < n
      ensures h[r][c] == (if InRange(p, n) && PositionOf(r, c, n) == p
                          then Occupied(g[r][c], s) else g[r][c])
    {
      CellToPosition(r, c, n);
    }
    if InRange(p, n) {
      PositionToCell(p, n);
      var r, c := RowOf(p, n), ColOf(p, n);
      if !MoveAccepted(g, n, p) {
        assert g[r][c := g[r][c]] == g[r];
        assert g[r := g[r]] == g;
      }
    }
  }

  /** Out-of-range moves are refused and change nothing. */
  lemma OutOfRangeRefused(g: Grid, n: nat, p: int, s: string)
    requires IsSquare(g, n)
    requires p < 1 || p > n * n
    ensures !MoveAccepted(g, n, p)
    ensures AfterMove(g, n, p, s) == g
  {
  }

  /** After an accepted move by a real occupant, a second move at the same
      position by anybody is refused and changes nothing. */
  lemma SecondMoveRefused(g: Grid, n: nat, p: int, s: string, t: string)
    requires IsSquare(g, n) && s != BLANK
    requires MoveAccepted(g, n, p)
    ensures var h := AfterMove(g, n, p, s);
      !MoveAccepted(h, n, p) && AfterMove(h, n, p, t) == h
  {
    AfterMoveCells(g, n, p, s);
    AfterMoveCells(AfterMove(g, n, p, s), n, p, t);
  }

  datatype Move = Move(position: int, symbol: string)

  /** The grid after a sequence of moves, in order. */
  ghost function Play(g: Grid, n: nat, moves: seq<Move>): (h: Grid)
    requires IsSquare(g, n)
    ensures IsSquare(h, n)
    decreases |moves|
  {
    if moves == [] then g
    else Play(AfterMove(g, n, moves[0].position, moves[0].symbol), n, moves[1..])
  }

  ghost predicate Attempted(moves: seq<Move>, p: int)
  {
    exists k :: 0 <= k < |moves| && moves[k].position == p
  }

  ghost predicate RealOccupants(moves: seq<Move>)
  {
    forall k :: 0 <= k < |moves| ==> moves[k].symbol != BLANK
  }

  /** Moves never blank an occupied cell, an attempted position ends up
      occupied, and a cell that was blank and stays unattempted stays blank. */
  lemma {:induction false} PlayCells(g: Grid, n: nat, moves: seq<Move>, p: int)
    requires IsSquare(g, n) && InRange(p, n) && RealOccupants(moves)
    ensures CellAt(g, n, p) != BLANK ==> CellAt(Play(g, n, moves), n, p) != BLANK
    ensures Attempted(moves, p) ==> CellAt(Play(g, n, moves), n, p) != BLANK
    ensures !Attempted(moves, p) ==> CellAt(Play(g, n, moves), n, p) == CellAt(g, n, p)
    decreases |moves|
  {
    if moves != [] {
      var m := moves[0];
      var h := AfterMove(g, n, m.position, m.symbol);
      AfterMoveCells(g, n, m.position, m.symbol);
      PositionToCell(p, n);
      assert CellAt(h, n, p) == (if m.position == p then Occupied(CellAt(g, n, p), m.symbol) else CellAt(g, n, p));
      OccupiedOneWay(CellAt(g, n, p), m.symbol);
      assert RealOccupants(moves[1..]) by {
        forall k | 0 <= k < |moves[1..]| ensures moves[1..][k].symbol != BLANK {
          assert moves[1..][k] == moves[k + 1];
        }
      }
      PlayCells(h, n, moves[1..], p);
      if Attempted(moves, p) && m.position != p {
        var k :| 0 <= k < |moves| && moves[k].position == p;
        assert moves[1..][k - 1].position == p;
      }
      if Attempted(moves[1..], p) {
        var k :| 0 <= k < |moves[1..]| && moves[1..][k].position == p;
        assert moves[k + 1].position == p;
      }
      if !Attempted(moves, p) {
        assert moves[0].position != p;
      }
    }
  }

  /** From a blank board, with real occupants, the board is full exactly
      when every position has been played. */
  lemma FullIffAllPlayed(n: nat, moves: seq<Move>)
    requires RealOccupants(moves)
    ensures Full(Play(BlankGrid(n), n, moves), n) <==> forall p :: InRange(p, n) ==> Attempted(moves, p)
  {
    var g := BlankGrid(n);
    var h := Play(g, n, moves);
    FullByPositions(h, n);
    forall p | InRange(p, n)
      ensures CellAt(h, n, p) != BLANK <==> Attempted(moves, p)
    {
      PlayCells(g, n, moves, p);
      PositionToCell(p, n);
    }
  }

  /** A fresh board of at least one cell is not full. */
  lemma BlankGridNotFull(n: nat)
    requires n >= 1
    ensures !Full(BlankGrid(n), n)
  {
    assert BlankGrid(n)[0][0] == BLANK;
  }

  // ---------------------------------------------------------------------
  // Lines and the win checks

  /** A line wins in the source's sense: it is non-empty and every cell equals
      its first cell, which includes a line of blanks. */
  predicate Uniform(line: seq<string>)
  {
    |line| > 0 && forall i :: 0 <= i < |line| ==> line[i] == line[0]
  }

  ghost function Column(g: Grid, n: nat, c: nat): (line: seq<string>)
    requires IsSquare(g, n) && c < n
    ensures |line| == n && forall i :: 0 <= i < n ==> line[i] == g[i][c]
  {
    seq(n, i requires 0 <= i < n => g[i][c])
  }

  ghost function Columns(g: Grid, n: nat): (cols: seq<seq<string>>)
    requires IsSquare(g, n)
    ensures |cols| == n && forall c :: 0 <= c < n ==> cols[c] == Column(g, n, c)
  {
    seq(n, c requires 0 <= c < n => Column(g, n, c))
  }

  /** Top-left to bottom-right. */
  ghost function MainDiagonal(g: Grid, n: nat): (line: seq<string>)
    requires IsSquare(g, n)
    ensures |line| == n && forall i :: 0 <= i < n ==> line[i] == g[i][i]
  {
    seq(n, i requires 0 <= i < n => g[i][i])
  }

  /** Top-right to bottom-left. */
  ghost function AntiDiagonal(g: Grid, n: nat): (line: seq<string>)
    requires IsSquare(g, n)
    ensures |line| == n && forall i :: 0 <= i < n ==> line[i] == g[i][n - 1 - i]
  {
    seq(n, i requires 0 <= i < n => g[i][n - 1 - i])
  }

  ghost function Diagonals(g: Grid, n: nat): seq<seq<string>>
    requires IsSquare(g, n)
  {
    [MainDiagonal(g, n), AntiDiagonal(g, n)]
  }

  /** The scan shared by checkRows, checkColumns and checkDiagonals: the
      first symbol of the first uniform line, BLANK when there is none. */
  function FirstUniform(lines: seq<seq<string>>): string
  {
    if lines == [] then BLANK
    else if Uniform(lines[0]) then lines[0][0]
    else FirstUniform(lines[1..])
  }

  /** FirstUniform stops at the first uniform line, whatever it holds: a
      uniform line of blanks yields BLANK and hides every later line. */
  lemma {:induction false} FirstUniformIsFirst(lines: seq<seq<string>>)
    ensures (forall i :: 0 <= i < |lines| ==> !Uniform(lines[i])) ==> FirstUniform(lines) == BLANK
    ensures forall i :: 0 <= i < |lines| && Uniform(lines[i]) && (forall j :: 0 <= j < i ==> !Uniform(lines[j]))
              ==> FirstUniform(lines) == lines[i][0]
    ensures FirstUniform(lines) != BLANK ==>
              exists i :: 0 <= i < |lines| && Uniform(lines[i]) && lines[i][0] == FirstUniform(lines)
  {
    if lines != [] {
      FirstUniformIsFirst(lines[1..]);
      if !Uniform(lines[0]) {
        forall i | 0 <= i < |lines| && Uniform(lines[i]) && (forall j :: 0 <= j < i ==> !Uniform(lines[j]))
          ensures FirstUniform(lines) == lines[i][0]
        {
          assert i > 0;
          assert lines[1..][i - 1] == lines[i];
          forall j | 0 <= j < i - 1 ensures !Uniform(lines[1..][j]) {
            assert lines[1..][j] == lines[j + 1];
          }
        }
        if FirstUniform(lines) != BLANK {
          var i :| 0 <= i < |lines[1..]| && Uniform(lines[1..][i]) && lines[1..][i][0] == FirstUniform(lines);
          assert lines[i + 1] == lines[1..][i];
        }
      }
    }
  }

  ghost function RowsWinner(g: Grid, n: nat): string
    requires IsSquare(g, n)
  {
    FirstUniform(g)
  }

  ghost function ColumnsWinner(g: Grid, n: nat): string
    requires IsSquare(g, n)
  {
    FirstUniform(Columns(g, n))
  }

  ghost function DiagonalsWinner(g: Grid, n: nat): string
    requires IsSquare(g, n)
  {
    FirstUniform(Diagonals(g, n))
  }

  /** checkWinner as written: rows, then columns, then diagonals, looking
      past a group only when its scan gave BLANK. */
  ghost function Winner(g: Grid, n: nat): string
    requires IsSquare(g, n)
  {
    var rw := RowsWinner(g, n);
    if rw != BLANK then rw
    else
      var cw := ColumnsWinner(g, n);
      if cw != BLANK then cw
      else
        var dw := DiagonalsWinner(g, n);
        if dw != BLANK then dw else BLANK
  }

  /** A reported winner owns a whole row, column or diagonal. */
  lemma WinnerOwnsALine(g: Grid, n: nat)
    requires IsSquare(g, n)
    ensures var w := Winner(g, n);
      w != BLANK ==>
        (exists r :: 0 <= r < n && Uniform(g[r]) && g[r][0] == w) ||
        (exists c :: 0 <= c < n && Uniform(Column(g, n, c)) && g[0][c] == w) ||
        (Uniform(MainDiagonal(g, n)) && g[0][0] == w) ||
        (Uniform(AntiDiagonal(g, n)) && g[0][n - 1] == w)
  {
    FirstUniformIsFirst(g);
    FirstUniformIsFirst(Columns(g, n));
    FirstUniformIsFirst(Diagonals(g, n));
    var w := Winner(g, n);
    if w != BLANK && RowsWinner(g, n) == BLANK && ColumnsWinner(g, n) != BLANK {
      var c :| 0 <= c < n && Uniform(Columns(g, n)[c]) && Columns(g, n)[c][0] == w;
      assert Column(g, n, c)[0] == g[0][c];
    }
  }

  /** Rows take priority: the first uniform row decides when it is occupied;
      columns are consulted only when the row scan gave BLANK, diagonals only
      when the column scan did too. */
  lemma WinnerPriority(g: Grid, n: nat, r: nat)
    requires IsSquare(g, n) && r < n
    requires Uniform(g[r]) && g[r][0] != BLANK
    requires forall j :: 0 <= j < r ==> !Uniform(g[j])
    ensures Winner(g, n) == g[r][0]
  {
    FirstUniformIsFirst(g);
  }

  /** With no uniform row, the first uniform column decides when it is
      occupied. */
  lemma WinnerByColumn(g: Grid, n: nat, c: nat)
    requires IsSquare(g, n) && c < n
    requires forall r :: 0 <= r < n ==> !Uniform(g[r])
    requires Uniform(Column(g, n, c)) && g[0][c] != BLANK
    requires forall j :: 0 <= j < c ==> !Uniform(Column(g, n, j))
    ensures Winner(g, n) == g[0][c]
  {
    FirstUniformIsFirst(g);
    FirstUniformIsFirst(Columns(g, n));
    assert Columns(g, n)[c][0] == g[0][c];
  }

  /** With no uniform row or column, the row and column scans both give BLANK. */
  lemma NoUniformRowOrColumn(g: Grid, n: nat)
    requires IsSquare(g, n)
    requires forall i :: 0 <= i < n ==> !Uniform(g[i]) && !Uniform(Column(g, n, i))
    ensures RowsWinner(g, n) == BLANK && ColumnsWinner(g, n) == BLANK
  {
    FirstUniformIsFirst(g);
    var cols := Columns(g, n);
    forall i | 0 <= i < n ensures !Uniform(cols[i]) {
      assert cols[i] == Column(g, n, i);
    }
    FirstUniformIsFirst(cols);
  }

  /** With no uniform row or column, an occupied uniform main diagonal
      decides; failing that, an occupied uniform anti-diagonal does. */
  lemma WinnerByDiagonal(g: Grid, n: nat)
    requires IsSquare(g, n) && n >= 1
    requires forall i :: 0 <= i < n ==> !Uniform(g[i]) && !Uniform(Column(g, n, i))
    ensures Uniform(MainDiagonal(g, n)) && g[0][0] != BLANK ==> Winner(g, n) == g[0][0]
    ensures !Uniform(MainDiagonal(g, n)) && Uniform(AntiDiagonal(g, n)) && g[0][n - 1] != BLANK ==>
              Winner(g, n) == g[0][n - 1]
  {
    NoUniformRowOrColumn(g, n);
    var main, anti := MainDiagonal(g, n), AntiDiagonal(g, n);
    assert main[0] == g[0][0];
    assert anti[0] == g[0][n - 1];
    assert Diagonals(g, n) == [main, anti];
    assert FirstUniform([main, anti]) ==
             if Uniform(main) then main[0] else FirstUniform([anti]);
    assert [main, anti][1..] == [anti];
  }

  /** On a blank board nothing has won. */
  lemma BlankGridNoWinner(n: nat)
    ensures Winner(BlankGrid(n), n) == BLANK
  {
    var g := BlankGrid(n);
    if n > 0 {
      assert Uniform(g[0]);
      FirstUniformIsFirst(g);
      assert Uniform(Columns(g, n)[0]);
      FirstUniformIsFirst(Columns(g, n));
      assert Uniform(MainDiagonal(g, n));
      FirstUniformIsFirst(Diagonals(g, n));
    } else {
      assert Columns(g, n) == [];
      assert !Uniform(MainDiagonal(g, n)) && !Uniform(AntiDiagonal(g, n));
      FirstUniformIsFirst(Diagonals(g, n));
    }
  }

  /** A blank row with no uniform row above it ends the row scan with
      BLANK: any uniform row below it, occupied or not, goes unreported. */
  lemma BlankRowHidesLaterRows(g: Grid, n: nat, r: nat)
    requires IsSquare(g, n) && r < n
    requires forall c :: 0 <= c < n ==> g[r][c] == BLANK
    requires forall j :: 0 <= j < r ==> !Uniform(g[j])
    ensures RowsWinner(g, n) == BLANK
  {
    assert Uniform(g[r]);
    FirstUniformIsFirst(g);
  }

  /** The same for columns: a blank column with no uniform column to its
      left ends the column scan with BLANK. */
  lemma BlankColumnHidesLaterColumns(g: Grid, n: nat, c: nat)
    requires IsSquare(g, n) && c < n
    requires forall r :: 0 <= r < n ==> g[r][c] == BLANK
    requires forall j :: 0 <= j < c ==> !Uniform(Column(g, n, j))
    ensures ColumnsWinner(g, n) == BLANK
  {
    assert Uniform(Columns(g, n)[c]);
    FirstUniformIsFirst(Columns(g, n));
  }

  /** On a board of odd size the two diagonals share the centre cell, so an
      occupied anti-diagonal is always reported by the diagonal scan. */
  lemma OddAntiDiagonalNotMasked(g: Grid, n: nat)
    requires IsSquare(g, n) && n % 2 == 1
    requires Uniform(AntiDiagonal(g, n)) && g[0][n - 1] != BLANK
    ensures DiagonalsWinner(g, n) == g[0][n - 1]
  {
    var m := n / 2;
    assert n - 1 - m == m;
    assert AntiDiagonal(g, n)[m] == g[m][m] == MainDiagonal(g, n)[m];
    assert AntiDiagonal(g, n)[0] == g[0][n - 1];
    assert MainDiagonal(g, n)[0] == g[0][0];
    if Uniform(MainDiagonal(g, n)) {
      assert g[0][0] == MainDiagonal(g, n)[m] == AntiDiagonal(g, n)[m] == g[0][n - 1];
    } else {
      assert Diagonals(g, n)[1..] == [AntiDiagonal(g, n)];
      assert FirstUniform([AntiDiagonal(g, n)]) == g[0][n - 1];
    }
  }

  // ---------------------------------------------------------------------
  // The evidently intended check: blank lines never win

  /** The first symbol of the first uniform line that is not blank. */
  function FirstOccupiedUniform(lines: seq<seq<string>>): string
  {
    if lines == [] then BLANK
    else if Uniform(lines[0]) && lines[0][0] != BLANK then lines[0][0]
    else FirstOccupiedUniform(lines[1..])
  }

  /** FirstOccupiedUniform finds a winner exactly when some line is uniform
      and occupied, and what it finds is such a line's symbol. */
  lemma {:induction false} FirstOccupiedUniformFinds(lines: seq<seq<string>>)
    ensures FirstOccupiedUniform(lines) != BLANK <==>
              exists i :: 0 <= i < |lines| && Uniform(lines[i]) && lines[i][0] != BLANK
    ensures FirstOccupiedUniform(lines) != BLANK ==>
              exists i :: 0 <= i < |lines| && Uniform(lines[i]) && lines[i][0] == FirstOccupiedUniform(lines)
  {
    if lines != [] {
      FirstOccupiedUniformFinds(lines[1..]);
      if !(Uniform(lines[0]) && lines[0][0] != BLANK) {
        if exists i :: 0 <= i < |lines| && Uniform(lines[i]) && lines[i][0] != BLANK {
          var i :| 0 <= i < |lines| && Uniform(lines[i]) && lines[i][0] != BLANK;
          assert lines[1..][i - 1] == lines[i];
        }
        if FirstOccupiedUniform(lines) != BLANK {
          var i :| 0 <= i < |lines[1..]| && Uniform(lines[1..][i]) && lines[1..][i][0] == FirstOccupiedUniform(lines);
          assert lines[i + 1] == lines[1..][i];
        }
      }
    }
  }

  /** When no line is a uniform line of blanks, the scan as written and the
      intended scan agree. */
  lemma {:induction false} FirstUniformWithoutBlankLines(lines: seq<seq<string>>)
    requires forall i :: 0 <= i < |lines| && Uniform(lines[i]) ==> lines[i][0] != BLANK
    ensures FirstUniform(lines) == FirstOccupiedUniform(lines)
  {
    if lines != [] {
      forall i | 0 <= i < |lines[1..]| && Uniform(lines[1..][i]) ensures lines[1..][i][0] != BLANK {
        assert lines[1..][i] == lines[i + 1];
      }
      FirstUniformWithoutBlankLines(lines[1..]);
    }
  }

  lemma {:induction false} FirstOccupiedUniformAppend(a: seq<seq<string>>, b: seq<seq<string>>)
    ensures FirstOccupiedUniform(a + b) ==
              if FirstOccupiedUniform(a) != BLANK then FirstOccupiedUniform(a) else FirstOccupiedUniform(b)
  {
    if a != [] {
      assert (a + b)[0] == a[0];
      assert (a + b)[1..] == a[1..] + b;
      FirstOccupiedUniformAppend(a[1..], b);
    } else {
      assert a + b == b;
    }
  }

  /** All lines in checking order: rows, columns, main then anti diagonal. */
  ghost function Lines(g: Grid, n: nat): seq<seq<string>>
    requires IsSquare(g, n)
  {
    g + Columns(g, n) + Diagonals(g, n)
  }

  /** The winner the doc comment of checkWinner promises. */
  ghost function IntendedWinner(g: Grid, n: nat): string
    requires IsSquare(g, n)
  {
    FirstOccupiedUniform(Lines(g, n))
  }

  /** The intended check reports a winner exactly when some row, column or
      diagonal is uniform and occupied, and the winner owns such a line. */
  lemma IntendedWinnerComplete(g: Grid, n: nat)
    requires IsSquare(g, n)
    ensures IntendedWinner(g, n) != BLANK <==>
              exists i :: 0 <= i < |Lines(g, n)| && Uniform(Lines(g, n)[i]) && Lines(g, n)[i][0] != BLANK
    ensures IntendedWinner(g, n) != BLANK ==>
              exists i :: 0 <= i < |Lines(g, n)| && Uniform(Lines(g, n)[i]) && Lines(g, n)[i][0] == IntendedWinner(g, n)
  {
    FirstOccupiedUniformFinds(Lines(g, n));
  }

  /** On boards without a uniform line of blanks the check as written
      reports the intended winner. */
  lemma WinnerIsIntendedWithoutBlankLines(g: Grid, n: nat)
    requires IsSquare(g, n)
    requires forall i :: 0 <= i < |Lines(g, n)| && Uniform(Lines(g, n)[i]) ==> Lines(g, n)[i][0] != BLANK
    ensures Winner(g, n) == IntendedWinner(g, n)
  {
    var rows, cols, diags := g, Columns(g, n), Diagonals(g, n);
    assert Lines(g, n) == rows + cols + diags;
    forall i | 0 <= i < |rows| && Uniform(rows[i]) ensures rows[i][0] != BLANK {
      assert Lines(g, n)[i] == rows[i];
    }
    forall i | 0 <= i < |cols| && Uniform(cols[i]) ensures cols[i][0] != BLANK {
      assert Lines(g, n)[|rows| + i] == cols[i];
    }
    forall i | 0 <= i < |diags| && Uniform(diags[i]) ensures diags[i][0] != BLANK {
      assert Lines(g, n)[|rows| + |cols| + i] == diags[i];
    }
    FirstUniformWithoutBlankLines(rows);
    FirstUniformWithoutBlankLines(cols);
    FirstUniformWithoutBlankLines(diags);
    FirstOccupiedUniformAppend(rows + cols, diags);
    FirstOccupiedUniformAppend(rows, cols);
  }

  // ---------------------------------------------------------------------
  // Boards on which the check as written misses a winner

  /** The moves X 4, O 7, X 5, O 8, X 6 on a 3-by-3 board: alternating
      play that completes the middle row for X with the top row still blank. */
  ghost const MaskedRowGame: seq<Move> :=
    [Move(4, "X"), Move(7, "O"), Move(5, "X"), Move(8, "O"), Move(6, "X")]

  ghost const MaskedRowGrid: Grid :=
    [[BLANK, BLANK, BLANK], ["X", "X", "X"], ["O", "O", BLANK]]

  lemma MaskedRowGameReaches()
    ensures Play(BlankGrid(3), 3, MaskedRowGame) == MaskedRowGrid
  {
    var B := BLANK;
    var g0 := BlankGrid(3);
    assert g0[0] == [B, B, B] && g0[1] == [B, B, B] && g0[2] == [B, B, B];
    assert g0 == [[B, B, B], [B, B, B], [B, B, B]];
    var g1 := AfterMove(g0, 3, 4, "X");
    assert g1 == g0[1 := g0[1][0 := "X"]];
    assert g1[0] == [B, B, B] && g1[1] == ["X", B, B] && g1[2] == [B, B, B];
    var g2 := AfterMove(g1, 3, 7, "O");
    assert g2 == g1[2 := g1[2][0 := "O"]];
    assert g2[0] == [B, B, B] && g2[1] == ["X", B, B] && g2[2] == ["O", B, B];
    var g3 := AfterMove(g2, 3, 5, "X");
    assert g3 == g2[1 := g2[1][1 := "X"]];
    assert g3[0] == [B, B, B] && g3[1] == ["X", "X", B] && g3[2] == ["O", B, B];
    var g4 := AfterMove(g3, 3, 8, "O");
    assert g4 == g3[2 := g3[2][1 := "O"]];
    assert g4[0] == [B, B, B] && g4[1] == ["X", "X", B] && g4[2] == ["O", "O", B];
    var g := AfterMove(g4, 3, 6, "X");
    assert g == g4[1 := g4[1][2 := "X"]];
    assert g[0] == [B, B, B] && g[1] == ["X", "X", "X"] && g[2] == ["O", "O", B];
    assert g == MaskedRowGrid;
    var m := MaskedRowGame;
    assert Play(g4, 3, m[4..]) == g;
    assert Play(g3, 3, m[3..]) == g;
    assert Play(g2, 3, m[2..]) == g;
    assert Play(g1, 3, m[1..]) == g;
  }

  /** After that game the middle row is all X, but the blank top row ends
      the row scan, no column or diagonal is uniform, and the check as
      written reports nothing, where the intended check reports X. */
  lemma MaskedRowExample()
    ensures var g := Play(BlankGrid(3), 3, MaskedRowGame);
      Uniform(g[1]) && g[1][0] == "X" && Winner(g, 3) == BLANK && IntendedWinner(g, 3) == "X"
  {
    MaskedRowGameReaches();
    var g := MaskedRowGrid;
    assert Uniform(g[0]) && Uniform(g[1]);
    FirstUniformIsFirst(g);
    assert !Uniform(Column(g, 3, 0)) && !Uniform(Column(g, 3, 1)) && !Uniform(Column(g, 3, 2));
    FirstUniformIsFirst(Columns(g, 3));
    assert !Uniform(MainDiagonal(g, 3)) && !Uniform(AntiDiagonal(g, 3));
    FirstUniformIsFirst(Diagonals(g, 3));
    assert Lines(g, 3)[1] == g[1];
    assert !(Uniform(Lines(g, 3)[0]) && Lines(g, 3)[0][0] != BLANK);
    assert FirstOccupiedUniform(Lines(g, 3)) == FirstOccupiedUniform(Lines(g, 3)[1..]);
  }

  /** The moves X 4, O 2, X 7, O 5, X 10, O 15, X 13 on a 4-by-4 board:
      alternating play in which X takes the whole anti-diagonal while
      nobody touches the main diagonal. */
  ghost const MaskedAntiDiagonalGame: seq<Move> :=
    [Move(4, "X"), Move(2, "O"), Move(7, "X"), Move(5, "O"),
     Move(10, "X"), Move(15, "O"), Move(13, "X")]

  /** The board that game leaves: X holds the whole anti-diagonal, the main
      diagonal is blank. */
  ghost const MaskedAntiDiagonalGrid: Grid :=
    [[BLANK, "O", BLANK, "X"], ["O", BLANK, "X", BLANK],
     [BLANK, "X", BLANK, BLANK], ["X", BLANK, "O", BLANK]]

  /** The first four moves of that game fill in the top two rows. */
  lemma MaskedAntiDiagonalOpening()
    ensures var B := BLANK;
      var g := AfterMove(AfterMove(AfterMove(AfterMove(BlankGrid(4), 4, 4, "X"), 4, 2, "O"), 4, 7, "X"), 4, 5, "O");
      g == [[B, "O", B, "X"], ["O", B, "X", B], [B, B, B, B], [B, B, B, B]]
  {
    var B := BLANK;
    var g0 := BlankGrid(4);
    assert g0[0] == [B, B, B, B] && g0[1] == [B, B, B, B] && g0[2] == [B, B, B, B] && g0[3] == [B, B, B, B];
    var g1 := AfterMove(g0, 4, 4, "X");
    assert g1 == g0[0 := g0[0][3 := "X"]];
    assert g1[0] == [B, B, B, "X"] && g1[1] == g0[1] && g1[2] == g0[2] && g1[3] == g0[3];
    var g2 := AfterMove(g1, 4, 2, "O");
    assert g2 == g1[0 := g1[0][1 := "O"]];
    assert g2[0] == [B, "O", B, "X"] && g2[1] == g0[1] && g2[2] == g0[2] && g2[3] == g0[3];
    var g3 := AfterMove(g2, 4, 7, "X");
    assert g3 == g2[1 := g2[1][2 := "X"]];
    assert g3[0] == g2[0] && g3[1] == [B, B, "X", B] && g3[2] == g0[2] && g3[3] == g0[3];
    var g := AfterMove(g3, 4, 5, "O");
    assert g == g3[1 := g3[1][0 := "O"]];
    assert g[0] == [B, "O", B, "X"] && g[1] == ["O", B, "X", B] && g[2] == [B, B, B, B] && g[3] == [B, B, B, B];
  }

  /** The whole game leaves MaskedAntiDiagonalGrid. */
  lemma MaskedAntiDiagonalGameReaches()
    ensures Play(BlankGrid(4), 4, MaskedAntiDiagonalGame) == MaskedAntiDiagonalGrid
  {
    var B := BLANK;
    MaskedAntiDiagonalOpening();
    var g1 := AfterMove(BlankGrid(4), 4, 4, "X");
    var g2 := AfterMove(g1, 4, 2, "O");
    var g3 := AfterMove(g2, 4, 7, "X");
    var g4 := AfterMove(g3, 4, 5, "O");
    assert g4[0] == [B, "O", B, "X"] && g4[1] == ["O", B, "X", B] && g4[2] == [B, B, B, B] && g4[3] == [B, B, B, B];
    var g5 := AfterMove(g4, 4, 10, "X");
    assert g5 == g4[2 := g4[2][1 := "X"]];
    assert g5[0] == g4[0] && g5[1] == g4[1] && g5[2] == [B, "X", B, B] && g5[3] == g4[3];
    var g6 := AfterMove(g5, 4, 15, "O");
    assert g6 == g5[3 := g5[3][2 := "O"]];
    assert g6[0] == g4[0] && g6[1] == g4[1] && g6[2] == g5[2] && g6[3] == [B, B, "O", B];
    var g := AfterMove(g6, 4, 13, "X");
    assert g == g6[3 := g6[3][0 := "X"]];
    assert g[0] == g4[0] && g[1] == g4[1] && g[2] == g5[2] && g[3] == ["X", B, "O", B];
    assert g == MaskedAntiDiagonalGrid;
    var m := MaskedAntiDiagonalGame;
    assert Play(g6, 4, m[6..]) == g;
    assert Play(g5, 4, m[5..]) == g;
    assert Play(g4, 4, m[4..]) == g;
    assert Play(g3, 4, m[3..]) == g;
    assert Play(g2, 4, m[2..]) == g;
    assert Play(g1, 4, m[1..]) == g;
  }

  /** No row and no column of that board is uniform. */
  lemma MaskedAntiDiagonalRowsAndColumns()
    ensures IsSquare(MaskedAntiDiagonalGrid, 4)
    ensures var g := MaskedAntiDiagonalGrid;
      forall i :: 0 <= i < 8 ==> !Uniform((g + Columns(g, 4))[i])
  {
    var g := MaskedAntiDiagonalGrid;
    assert IsSquare(g, 4);
    var cols := Columns(g, 4);
    forall i | 0 <= i < 8 ensures !Uniform((g + cols)[i]) {
      if i < 4 {
        assert (g + cols)[i] == g[i];
        assert g[i][0] != g[i][1];
      } else {
        assert (g + cols)[i] == cols[i - 4];
        assert cols[i - 4][0] != cols[i - 4][1];
      }
    }
  }

  /** When no row and no column is uniform and the main diagonal is blank,
      the diagonal scan stops at the main diagonal: a won anti-diagonal is
      reported by the intended check only. */
  lemma BlankMainDiagonalMasks(g: Grid, n: nat)
    requires IsSquare(g, n) && n >= 1
    requires forall i :: 0 <= i < 2 * n ==> !Uniform((g + Columns(g, n))[i])
    requires forall i :: 0 <= i < n ==> g[i][i] == BLANK
    requires Uniform(AntiDiagonal(g, n)) && g[0][n - 1] != BLANK
    ensures Winner(g, n) == BLANK && IntendedWinner(g, n) == g[0][n - 1]
  {
    var cols := Columns(g, n);
    forall i | 0 <= i < n ensures !Uniform(g[i]) && !Uniform(cols[i]) {
      assert (g + cols)[i] == g[i];
      assert (g + cols)[i + n] == cols[i];
    }
    FirstUniformIsFirst(g);
    FirstUniformIsFirst(cols);
    var main, anti := MainDiagonal(g, n), AntiDiagonal(g, n);
    assert Uniform(main) && main[0] == BLANK;
    FirstUniformIsFirst(Diagonals(g, n));
    FirstOccupiedUniformFinds(g + cols);
    FirstOccupiedUniformAppend(g + cols, Diagonals(g, n));
    assert Diagonals(g, n)[1..] == [anti];
    assert anti[0] == g[0][n - 1];
  }

  /** On a board of even size the diagonals share no cell, so a blank main
      diagonal can hide a won anti-diagonal. */
  lemma MaskedAntiDiagonalExample()
    ensures var g := Play(BlankGrid(4), 4, MaskedAntiDiagonalGame);
      IsSquare(g, 4) && Uniform(AntiDiagonal(g, 4)) && g[0][3] == "X" &&
      Winner(g, 4) == BLANK && IntendedWinner(g, 4) == "X"
  {
    MaskedAntiDiagonalGameReaches();
    var g := MaskedAntiDiagonalGrid;
    MaskedAntiDiagonalRowsAndColumns();
    assert Uniform(AntiDiagonal(g, 4));
    BlankMainDiagonalMasks(g, 4);
  }
}
