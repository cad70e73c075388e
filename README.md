# Tic-tac-toe board and cells, modelled in Dafny

This project models the game state of a text tic-tac-toe program with square
boards of any size (the program means sizes 3 to 6):

- `space.dfy`, module `Spaces`: the class `Space`, one cell of the grid. A cell
  holds the symbol `BLANK` (a single space character) until an occupant's
  symbol is written into it, and a written symbol is never replaced.
- `board.dfy`, module `Boards`: the class `Board`, a fixed `size`-by-`size`
  `array2` of `Space` objects, with the source's operations. `RecordMove`
  takes a 1-based row-major position. `IsFull` scans for blanks. `GetSpace` is a
  bounds-checked accessor. `CheckWinner` runs `CheckRows`, `CheckColumns` and
  `CheckDiagonals`. Every method has the source's loops. A ghost grid `cells`
  holds the symbols, and `Valid()` ties it to the Space objects. `Valid()` also
  requires that no two cells share a Space.
- `grid.dfy`, module `BoardSpec`: the board as a value. It defines positions
  and their cells, a move (`AfterMove`) and a sequence of moves (`Play`). It
  defines the lines of the grid and the scans the win check performs
  (`FirstUniform`, `Winner`). It also defines the winner the doc comment of
  `checkWinner` describes (`IntendedWinner`). Lemmas state the source's
  properties about these definitions.

The win check is modelled as the code behaves, not as its doc comment
describes it. `checkRows`, `checkColumns` and `checkDiagonals` each return the
first symbol of the first line whose cells all equal that line's first cell.
That symbol can be `BLANK`. `checkWinner` moves on to the next group only when
a group's result is `BLANK`. So a line of blanks that comes earlier hides a won
line that comes later (see "## Findings").

All symbol comparisons are value comparisons. The source compares with `BLANK`
by reference in `occupySpace`, `isFull` and `drawBoard`, and by `.equals` in
the win checks. The two kinds of comparison can only disagree on an occupant
whose symbol equals `BLANK` in value. So `OccupySpace` and `RecordMove` require
`symbol != BLANK`. Lemma `Spaces.OccupiedByBlank` shows what value equality
would do without that requirement.

The all-blank-line defect is reachable in normal play: alternating play X 4,
O 7, X 5, O 8, X 6 completes X's middle row, and `checkWinner` returns
`BLANK`. The constructor checks no board size, and the model accepts any
`size: nat`, as the constructor does.

## Model

| member | source | states |
|---|---|---|
| `Spaces.Space.constructor` | src/Space.java:14-17 | a new cell holds BLANK |
| `Spaces.Space.GetSymbol` | src/Space.java:19-22 | returns the current symbol and changes nothing |
| `Spaces.Space.OccupySpace` | src/Space.java:31-39 | succeeds exactly when the cell was BLANK; on success the cell holds the occupant, on failure it keeps its old symbol; afterwards it is never BLANK |
| `Spaces.OccupiedOneWay` | src/Space.java:31-39 | a real occupant leaves the cell non-BLANK, and an occupied cell keeps its symbol: the transition is one-way |
| `Spaces.OccupiedTwice` | src/Space.java:33-38 | after a real occupant, every later attempt by anybody leaves the symbol unchanged |
| `Spaces.OccupiedByBlank` | src/Space.java:33-35 | under value equality, occupying with BLANK leaves the cell as it was, so a blank cell stays open |
| `Boards.Board.constructor` | src/Board.java:15-31 | the grid is size by size, every cell holds its own fresh Space, and every symbol is BLANK |
| `Boards.Board.GetSpace` | src/Board.java:35-43 | returns a Space exactly when both indices are in [0, size); that Space is the stored cell and holds the cell's symbol; otherwise returns null |
| `Boards.Board.RecordMove` | src/Board.java:128-163 | the counting loop finds row (p-1)/size and column (p-1)%size; the result is true exactly when p is in [1, size*size] and that cell was BLANK; the new grid is AfterMove of the old one: only that cell changes, and only on success, to the player's symbol |
| `Boards.Board.IsFull` | src/Board.java:170-183 | true exactly when no cell of the grid is BLANK |
| `Boards.Board.CheckWinner` | src/Board.java:193-224 | returns Winner of the grid: the row scan's result unless it is BLANK, then the column scan's unless that is BLANK, then the diagonal scan's |
| `Boards.Board.CheckRows` | src/Board.java:233-269 | returns the scan of the rows top to bottom: the first symbol of the first uniform row, BLANK if none |
| `Boards.Board.CheckColumns` | src/Board.java:278-314 | returns the scan of the columns left to right: the top symbol of the first uniform column, BLANK if none |
| `Boards.Board.CheckDiagonals` | src/Board.java:323-383 | returns the main diagonal's first symbol if it is uniform, else the anti-diagonal's first symbol if that is uniform, else BLANK |
| `Boards.PlayMaskedRowGame` | src/Board.java:193-224 | a client game through the class (X 4, O 7, X 5, O 8, X 6 on 3 by 3) ends with CheckWinner returning BLANK |
| `BoardSpec.PositionToCell` | src/Board.java:137-155 | every position in [1, size*size] names the cell ((p-1)/size, (p-1)%size) on the board, and that cell's position is p |
| `BoardSpec.CellToPosition` | src/Board.java:137-155 | every cell (r, c) has the in-range position r*size + c + 1, and that position maps back to (r, c) |
| `BoardSpec.FullByPositions` | src/Board.java:170-183 | the grid is full exactly when the cell of every position 1..size*size is occupied |
| `BoardSpec.AfterMoveCells` | src/Board.java:156-162 | a move changes only its own cell, writes the player's symbol there exactly when accepted, and changes nothing when refused |
| `BoardSpec.OutOfRangeRefused` | src/Board.java:132-135 | a position below 1 or above size*size is refused and leaves the grid unchanged |
| `BoardSpec.SecondMoveRefused` | src/Board.java:159-162 | after an accepted move, a second move at the same position by anybody is refused and changes nothing |
| `BoardSpec.PlayCells` | src/Board.java:128-163 | over a sequence of moves, occupied cells stay occupied, every attempted position ends occupied, and an unattempted cell keeps its symbol |
| `BoardSpec.FullIffAllPlayed` | src/Board.java:170-183 | from a fresh board the grid is full exactly when every position 1..size*size has been played |
| `BoardSpec.BlankGridNotFull` | src/Board.java:170-183 | a fresh board of size at least 1 is not full |
| `BoardSpec.FirstUniformIsFirst` | src/Board.java:233-269 | the line scan returns BLANK when no line is uniform; otherwise it returns the first symbol of the first uniform line, even when that symbol is BLANK |
| `BoardSpec.WinnerOwnsALine` | src/Board.java:193-224 | a non-BLANK result of the win check fills a whole row, column or diagonal |
| `BoardSpec.WinnerPriority` | src/Board.java:198-204 | when the first uniform row is occupied, its symbol is the result, whatever the columns and diagonals hold |
| `BoardSpec.WinnerByColumn` | src/Board.java:206-212 | with no uniform row, the first uniform column decides when it is occupied |
| `BoardSpec.WinnerByDiagonal` | src/Board.java:214-220 | with no uniform row or column, an occupied uniform main diagonal decides, and failing that an occupied uniform anti-diagonal |
| `BoardSpec.BlankGridNoWinner` | src/Board.java:193-224 | on a fresh board the win check returns BLANK |
| `BoardSpec.BlankRowHidesLaterRows` | src/Board.java:253-264 | a blank row with no uniform row above it makes the row scan return BLANK |
| `BoardSpec.BlankColumnHidesLaterColumns` | src/Board.java:298-309 | a blank column with no uniform column to its left makes the column scan return BLANK |
| `BoardSpec.OddAntiDiagonalNotMasked` | src/Board.java:323-383 | on odd sizes the diagonals share the centre, so an occupied uniform anti-diagonal is always reported by the diagonal scan |
| `BoardSpec.BlankMainDiagonalMasks` | src/Board.java:341-351 | with no uniform row or column and a blank main diagonal, a won anti-diagonal is not reported, though the intended check reports it |
| `BoardSpec.MaskedRowGameReaches` | src/Board.java:128-163 | the game X 4, O 7, X 5, O 8, X 6 on a fresh 3-by-3 board yields the grid with X's middle row and a blank top row |
| `BoardSpec.MaskedRowExample` | src/Board.java:193-224 | on that grid the middle row is all X, yet the win check returns BLANK, while the intended check returns X |
| `BoardSpec.MaskedAntiDiagonalOpening` | src/Board.java:128-163 | the moves X 4, O 2, X 7, O 5 on a fresh 4-by-4 board fill in the expected cells of the top two rows and nothing else |
| `BoardSpec.MaskedAntiDiagonalGameReaches` | src/Board.java:128-163 | the game X 4, O 2, X 7, O 5, X 10, O 15, X 13 on a fresh 4-by-4 board yields the grid with X's anti-diagonal and a blank main diagonal |
| `BoardSpec.MaskedAntiDiagonalExample` | src/Board.java:323-383 | after that game the anti-diagonal is all X and the main diagonal is blank: the win check returns BLANK and the intended check returns X |
| `BoardSpec.FirstOccupiedUniformFinds` | src/Board.java:186-191 | the intended line scan finds a symbol exactly when some line is uniform and occupied, and the symbol it finds fills such a line |
| `BoardSpec.IntendedWinnerComplete` | src/Board.java:186-191 | the intended winner is non-BLANK exactly when some row, column or diagonal is uniform and occupied, and it fills such a line |
| `BoardSpec.WinnerIsIntendedWithoutBlankLines` | src/Board.java:193-224 | on boards where no uniform line is blank, the check as written returns the intended winner |

## Left out

- `drawBoard` (src/Board.java:67-113) writes the board to the console and returns nothing. Console output is not modelled.
- `Player` (src/Player.java) only holds an immutable symbol and a suggested palette. A player is modelled as the symbol passed to `RecordMove`.
- Reference identity of Java strings is not modelled. All comparisons are value comparisons, and occupants must differ from `BLANK`, which is the case where the two kinds of comparison agree.
- Board sizes outside 3..6 are not rejected, because the constructor does not reject them. A negative size cannot be expressed (`size: nat`). In Java a negative size throws while the array is allocated.
- The game driver loop and its input parsing are not part of this model.
- `Boards.Board.RecordMove` keeps the position check `spaceNum > boardSize * boardSize` on unbounded integers. A Java `int` product overflows only for boards larger than 46340 by 46340, far beyond the sizes the program uses.
- `Boards.Board.GetSpace` returns the live Space stored in the grid (src/Board.java:40), so a caller could occupy it directly. The model supports occupying a cell only through `RecordMove`. A Space occupied through the returned reference leaves the ghost grid `cells` stale, `Valid()` no longer holds, and later Board methods cannot be called. Aliasing through that reference is not modelled.
- `Boards.Board.CheckWinner` requires `size >= 1`, and so do `Boards.Board.CheckColumns` and `Boards.Board.CheckDiagonals`. On a size-0 board the Java code throws an out-of-bounds exception where it reads `spaces[0]` (src/Board.java:282 and src/Board.java:328). The model does not model that exception.

## Findings

| source | as written | input that shows it | evidently intended | confidence | as-written member | corrected member |
|---|---|---|---|---|---|---|
| src/Board.java:193-269 | a uniform row of blanks ends the row scan with BLANK, and checkWinner then reports no winner even though a later row is won | 3-by-3 board after alternating play X 4, O 7, X 5, O 8, X 6 | report the symbol of the first uniform line that is not blank (doc comment at src/Board.java:186-191) | high; not executed | `BoardSpec.MaskedRowExample` | `BoardSpec.IntendedWinnerComplete` |
| src/Board.java:323-383 | on even sizes a blank main diagonal ends the diagonal scan with BLANK and hides a won anti-diagonal | 4-by-4 board after X 4, O 2, X 7, O 5, X 10, O 15, X 13 | report the won anti-diagonal | high; not executed | `BoardSpec.MaskedAntiDiagonalExample` | `BoardSpec.IntendedWinnerComplete` |

The corrected definition is `BoardSpec.IntendedWinner`. The class `Boards.Board`
keeps the behaviour as written, because it models the code. The corrected
definition is the reference in the lemmas that compare the two
(`BlankMainDiagonalMasks`, `WinnerIsIntendedWithoutBlankLines` and the two
examples above).
