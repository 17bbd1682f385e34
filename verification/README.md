# Sudoku core in Dafny

A model of the algorithmic core of `sudoku.py`, a Tkinter Sudoku game
written for Python 2, with proofs about it. Three parts of the program are
modelled:

- **The board parser**, `SudokuBoard.__create_board` (module `Board`). A
  board file arrives as a sequence of lines. Each line is stripped of
  surrounding whitespace. It must then be 9 characters long (otherwise
  `BadLineLength`) and consist of digits (otherwise `BadCharacter`). After
  all lines are read, there must be 9 of them (otherwise `BadLineCount`).
  The three `SudokuError` messages are modelled as the three `FormatError`
  values. The result is a `Result<Grid, FormatError>`.
- **The game state**, `SudokuGame.start` and `SudokuGame.check_win` with
  its `__check_block`, `__check_row`, `__check_column` and `__check_square`
  helpers (module `Game`). A `Game` value holds the starting puzzle, the
  play grid and the game-over flag. `Start` builds a fresh game. `CheckWin`
  returns the verdict and the game after the call.
- **The generator**, `make_board` with its inner `search` (module
  `Generator`), fixed at m = 3. It is randomised backtracking over the 81
  cells in row-major order.

Module `Grid` holds the shared vocabulary:
- the 9x9 grid, with `EMPTY` (0) for an empty cell;
- row, column and block units;
- the validity predicate `ValidSolution`;
- the counting lemmas that connect "the set of a unit's values is {1..9}"
  to "the unit holds each of 1..9 exactly once".

Module `Wrappers` defines `Result` and `Option`.

Modelling choices:
- The generator fills empty cells with `None` and the parser with `0`. Both
  are modelled as `EMPTY` (0). No candidate digit is 0, so the generator's
  candidate test behaves the same either way.
- `random.shuffle` is replaced by a parameter `shuffle: nat -> seq<int>`.
  `shuffle(k)` is the candidate order produced by the k-th shuffle of a run.
  `IsShuffler` requires every such order to be an ordering of 1..9.
  `Search` threads a draw counter through the recursion. A cell that is
  entered again after backtracking therefore gets a fresh order, as a fresh
  call of `random.shuffle` would give it.
- The Python function mutates one board shared by all recursive calls.
  `Search` instead returns an `Outcome` holding the board left behind, a
  `found` flag, and the draw counter. On failure the board returned is
  exactly the board the call was entered with: cell `c` and every later
  cell are empty again.
- The program runs under Python 2, where lines are byte strings. A line
  is modelled as a `string` in which each `char` stands for one byte of
  the line. Accordingly `str.strip` removes ASCII whitespace (space and
  the characters tab to carriage return), and `str.isdigit` accepts
  `0`..`9`. A non-ASCII character in a file counts as the several bytes
  of its encoding, so its line must be given to the model byte by byte.
- `start` reads `start_puzzle[i][j]` for `i, j < 9`. If the starting puzzle
  is smaller than that, Python raises `IndexError`; this is modelled as
  `Err(IndexOutOfRange)`. Rows or columns beyond the ninth are ignored.
- `check_win` is a method returning the verdict and the resulting game. On
  success the result has the game-over flag set. Otherwise it is the game
  unchanged.

Only what the code does is modelled:
- The file has no puzzle-blanking step. It has no win check against a
  stored solution. Any grid whose units all hold {1..9} wins.
- The generator's block test looks only at the rows of the block above the
  current row. The row test covers the current row.

Three defects of the code as written are recorded here. The model does
not reproduce them:
- `SudokuBoard.__init__` (sudoku.py:24-25) stores the raw board file in
  `self.board`. It never calls `__create_board`. As wired,
  `SudokuGame.start_puzzle` is therefore the unparsed file, not a grid.
  `Board.CreateBoard` models the parser itself, and `Game.Start` takes the
  grid the parser would have produced.
- `search` calls `random.shuffle` (sudoku.py:306), but the module never
  imports `random`. As written, the first call of `make_board` raises
  `NameError`. The model injects the shuffle instead.
- The block origin is computed as `i - i % 3, j - j % 3` (sudoku.py:304)
  instead of `i % m`. This is correct only for the default `m = 3`, which
  is the only case modelled.

## Model

| member | source | states |
|---|---|---|
| Board.Strip | sudoku.py:34 | `line.strip()` returns a slice of the line with only whitespace outside it and no whitespace at either end |
| Board.IsDigit | sudoku.py:50 | definition of `c.isdigit()` on one byte; what the parser does with it is stated by `Board.ReadDigits` and `Board.ParseLine` |
| Board.DigitValue | sudoku.py:57 | `int(c)` of a digit character is a number from 0 to 9 |
| Board.ReadDigits | sudoku.py:47-58 | the character loop succeeds iff every character is a digit, yields `int(c)` for each character in order, and otherwise fails with the bad-character error |
| Board.ParseLine | sudoku.py:33-58 | one line is accepted iff it strips to 9 digits; a wrong stripped length is reported before any bad character; an accepted line yields the 9 digit values |
| Board.ReadLines | sudoku.py:33-59 | the outer loop succeeds iff every line is accepted, keeps the lines' values in order, and on failure reports the error of the first rejected line |
| Board.CreateBoard | sudoku.py:28-67 | the parse succeeds iff there are exactly 9 lines and each strips to 9 digits, and the cells are the digits' values; every line well formed but the count wrong gives the line-count error; otherwise the first malformed line's error is raised, whatever the count |
| Board.RenderRoundTrip | sudoku.py:28-67 | parsing the text of any 9x9 grid of digits 0..9 gives that grid back |
| Board.MissingLineRejected | sudoku.py:61-63 | an 8-line file of well-formed lines fails with the line-count error |
| Board.LetterLine | sudoku.py:37-53 | a line with any character that is neither a digit nor whitespace in place of a digit keeps its stripped length and is rejected for its character |
| Board.FirstBadLineDecides | sudoku.py:33-63 | once an earlier line is malformed, neither later lines nor the line count change the error raised |
| Board.LetterRejected | sudoku.py:47-53 | any character that is neither a digit nor whitespace, written over any digit of any line of a board file, is reported as a bad character |
| Game.Start | sudoku.py:82-93 | `start` succeeds iff the starting puzzle covers 9x9 cells; the play grid is a 9x9 copy of those cells, the game is not over, and the starting puzzle is kept as it was |
| Game.StartCopiesPuzzle | sudoku.py:82-93 | on a 9x9 starting puzzle the play grid equals the starting puzzle |
| Grid.UnitSetIffPermutation | sudoku.py:120-121 | `set(block) == set(range(1, 10))` holds iff the block contains exactly the values 1..9; for a 9-cell block, iff each cell holds 1..9 and no value repeats |
| Game.CheckBlock | sudoku.py:120-121 | definition of `__check_block` as the set comparison; its meaning is stated by `Grid.UnitSetIffPermutation` |
| Game.CheckRow | sudoku.py:124-126 | definition of `__check_row`; its meaning is stated by `Game.CheckRowIff` |
| Game.CheckColumn | sudoku.py:128-132 | definition of `__check_column` over the list of column cells top to bottom; its meaning is stated by `Game.CheckColumnIff` |
| Game.CheckSquare | sudoku.py:134-142 | definition of `__check_square` over the square's cells row by row; its meaning is stated by `Game.CheckSquareIff` |
| Game.CheckRowIff | sudoku.py:124-126 | a row passes iff its cells hold 1..9 and no two cells of the row are equal |
| Game.CheckColumnIff | sudoku.py:128-132 | a column passes iff its cells hold 1..9 and no two cells of the column are equal |
| Game.CheckSquareIff | sudoku.py:134-142 | a 3x3 square passes iff its cells hold 1..9 and no two cells of the square are equal |
| Game.RowsPass | sudoku.py:96-100 | the row loop reports success iff all 9 rows pass |
| Game.ColumnsPass | sudoku.py:102-106 | the column loop reports success iff all 9 columns pass |
| Game.SquaresPass | sudoku.py:108-114 | the nested square loop reports success iff all 9 squares pass |
| Game.WinIffValid | sudoku.py:95-121 | every row, column and square passing is equivalent to the grid being a filled Sudoku with no two equal cells in any unit |
| Game.CheckWin | sudoku.py:95-118 | `check_win` returns true iff all units pass, that is iff the grid is a valid solution; it never changes the play grid or the starting puzzle; it sets the game-over flag exactly when it returns true |
| Game.EmptyCellLoses | sudoku.py:120-121 | a grid with an empty or out-of-range cell does not win |
| Game.RepeatLoses | sudoku.py:120-142 | a grid with the same value in two cells of one row, column or square does not win |
| Generator.SetCell | sudoku.py:313 | `board[i][j] = x` changes that cell and no other |
| Generator.EmptyBoard | sudoku.py:300 | the initial board is 9x9 with every cell empty |
| Generator.Fits | sudoku.py:309-312 | definition of the candidate test (row, column, block rows above); its meaning is stated by `Generator.FitsAvoidsUnit` |
| Generator.FitsAvoidsUnit | sudoku.py:309-312 | a candidate passing the row, column and upper-block test differs from every filled cell sharing a unit with the current cell |
| Generator.PlacementKeepsConflictFree | sudoku.py:308-313 | placing a candidate that passes the test in the last non-empty cell keeps every row, column and block free of repeats |
| Generator.Search | sudoku.py:302-324 | `search(c)` terminates; it never writes a cell before c; when it succeeds the board is a valid solution; when it fails the board is exactly as it was on entry, so cell c and every later cell are empty |
| Generator.TryCandidates | sudoku.py:308-324 | the candidate loop either finds a valid solution or clears cell c and returns, leaving earlier cells untouched |
| Generator.MakeBoard | sudoku.py:297-326 | any board `make_board` returns is a filled 9x9 Sudoku with no repeat in any row, column or block |
| Generator.GeneratedBoardWins | sudoku.py:297-326 | any board `make_board` returns passes the win check |

## Left out

- The Tkinter user interface, `SudokuUI` (sudoku.py:145-295). This covers drawing, mouse and key handling, and the "Clear answers" button. The rule that only cells currently empty can be selected for editing lives there too (sudoku.py:241). All of it is I/O over a window.
- `parse_arguments` and the `__main__` block (sudoku.py:329-359). They do argument parsing, open the board file and run the Tk main loop. All of this is I/O.
- `SudokuBoard.__init__` (sudoku.py:24-25). It only stores its argument; the wiring defect it causes is described above.
- Real randomness. `random.shuffle` becomes the injected `shuffle` parameter.
- Generator.MakeBoard: completeness is not proved. The contract does not say that a board is always found for 9x9. Proving it would take a combinatorial argument that every backtracking run reaches a full board.
- Game.Start: `start` does not model the partial mutation before the `IndexError` on an undersized puzzle. The exception aborts before the game is used, and the model returns only the error.
- Board.Strip: Unicode whitespace and Unicode digits are not modelled. The program runs on Python 2 byte strings, where only ASCII whitespace and ASCII digits count, and each `char` of a modelled line stands for one byte.
