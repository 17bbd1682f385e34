/**
 * The game state and win check, `SudokuGame`: `start` copies the starting
 * puzzle into the play grid and clears the game-over flag; `check_win`
 * tests every row, then every column, then every 3x3 square for the value
 * set {1..9}, and ends the game only when all of them pass.
 */
module Game {
  import opened Wrappers
  import opened Grid

  /** A started `SudokuGame`: the starting puzzle, the play grid and the game-over flag. */
  datatype Game = Game(startPuzzle: Grid, puzzle: Grid, gameOver: bool)

  /** `start` indexes `start_puzzle[i][j]` for i, j < 9 and raises IndexError past its end. */
  datatype GameError = IndexOutOfRange

  /** The starting puzzle holds the 9x9 cells `start` reads; extra rows or columns are ignored. */
  predicate CoversGrid(p: Grid) {
    |p| >= N && forall i :: 0 <= i < N ==> |p[i]| >= N
  }

  /**
   * `SudokuGame.start`, also what "Clear answers" runs: a fresh 9x9 play
   * grid holding the starting puzzle's cells, with the game not over.
   */
  function Start(startPuzzle: Grid): (r: Result<Game, GameError>)
    ensures r.Ok? <==> CoversGrid(startPuzzle)
    ensures r.Ok? ==> (
      && r.value.startPuzzle == startPuzzle
      && !r.value.gameOver
      && IsGrid(r.value.puzzle)
      && forall i, j :: 0 <= i < N && 0 <= j < N ==> r.value.puzzle[i][j] == startPuzzle[i][j])
  {
    if CoversGrid(startPuzzle) then
      Ok(Game(startPuzzle, seq(N, i requires 0 <= i < N => startPuzzle[i][..N]), false))
    else
      Err(IndexOutOfRange)
  }

  /** On a 9x9 starting puzzle the play grid is an exact copy of it. */
  lemma StartCopiesPuzzle(p: Grid)
    requires IsGrid(p)
    ensures Start(p).Ok? && Start(p).value.puzzle == p
  {
    var g := Start(p).value.puzzle;
    forall i | 0 <= i < N
      ensures g[i] == p[i]
    {
      assert forall j :: 0 <= j < N ==> g[i][j] == p[i][j];
    }
  }

  /** `__check_block`: the values of the unit, as a set, are exactly {1..9} (see UnitSetIffPermutation). */
  function CheckBlock(block: seq<int>): bool {
    SetOf(block) == Digits
  }

  /** The cells of column `c`, top to bottom. */
  function Column(g: Grid, c: int): (s: seq<int>)
    requires IsGrid(g) && 0 <= c < N
  {
    seq(N, r requires 0 <= r < N => g[r][c])
  }

  /** The cells of square (`br`, `bc`), row by row, as `__check_square` lists them. */
  function Square(g: Grid, br: int, bc: int): (s: seq<int>)
    requires IsGrid(g) && 0 <= br < 3 && 0 <= bc < 3
  {
    seq(N, k requires 0 <= k < N => g[br * 3 + k / 3][bc * 3 + k % 3])
  }

  /** Cell (r, c) lies in square (`br`, `bc`). */
  ghost predicate InSquare(br: int, bc: int, r: int, c: int) {
    br * 3 <= r < br * 3 + 3 && bc * 3 <= c < bc * 3 + 3
  }

  /** `__check_row`. */
  function CheckRow(g: Grid, r: int): bool
    requires IsGrid(g) && 0 <= r < N
  {
    CheckBlock(g[r])
  }

  /** `__check_column`. */
  function CheckColumn(g: Grid, c: int): bool
    requires IsGrid(g) && 0 <= c < N
  {
    CheckBlock(Column(g, c))
  }

  /** `__check_square`. */
  function CheckSquare(g: Grid, br: int, bc: int): bool
    requires IsGrid(g) && 0 <= br < 3 && 0 <= bc < 3
  {
    CheckBlock(Square(g, br, bc))
  }

  /** A row passes exactly when its cells hold digits 1..9 and no two agree. */
  lemma CheckRowIff(g: Grid, r: int)
    requires IsGrid(g) && 0 <= r < N
    ensures CheckRow(g, r) <==>
      (forall c :: 0 <= c < N ==> 1 <= g[r][c] <= N) &&
      (forall c1, c2 :: 0 <= c1 < c2 < N ==> g[r][c1] != g[r][c2])
  {
    UnitSetIffPermutation(g[r]);
  }

  /** A column passes exactly when its cells hold digits 1..9 and no two agree. */
  lemma CheckColumnIff(g: Grid, c: int)
    requires IsGrid(g) && 0 <= c < N
    ensures CheckColumn(g, c) <==>
      (forall r :: 0 <= r < N ==> 1 <= g[r][c] <= N) &&
      (forall r1, r2 :: 0 <= r1 < r2 < N ==> g[r1][c] != g[r2][c])
  {
    var col := Column(g, c);
    assert forall r :: 0 <= r < N ==> col[r] == g[r][c];
    UnitSetIffPermutation(col);
  }

  /** A square passes exactly when its cells hold digits 1..9 and no two agree. */
  lemma CheckSquareIff(g: Grid, br: int, bc: int)
    requires IsGrid(g) && 0 <= br < 3 && 0 <= bc < 3
    ensures CheckSquare(g, br, bc) <==> SquareFilled(g, br, bc) && SquareDistinct(g, br, bc)
  {
    UnitSetIffPermutation(Square(g, br, bc));
    SquareFilledIff(g, br, bc);
    SquareDistinctIff(g, br, bc);
  }

  /** Every cell of square (`br`, `bc`) holds a digit 1..9. */
  ghost predicate SquareFilled(g: Grid, br: int, bc: int)
    requires IsGrid(g) && 0 <= br < 3 && 0 <= bc < 3
  {
    forall r, c :: InSquare(br, bc, r, c) ==> 1 <= g[r][c] <= N
  }

  /** No two cells of square (`br`, `bc`) hold the same value. */
  ghost predicate SquareDistinct(g: Grid, br: int, bc: int)
    requires IsGrid(g) && 0 <= br < 3 && 0 <= bc < 3
  {
    forall r1, c1, r2, c2 ::
      InSquare(br, bc, r1, c1) && InSquare(br, bc, r2, c2) && (r1 != r2 || c1 != c2)
      ==> g[r1][c1] != g[r2][c2]
  }

  /** Cell (`r`, `c`) of square (`br`, `bc`) sits at one position of the square's list, and no other cell does. */
  lemma SquareCell(g: Grid, br: int, bc: int, r: int, c: int)
    requires IsGrid(g) && 0 <= br < 3 && 0 <= bc < 3 && InSquare(br, bc, r, c)
    ensures var k := (r - br * 3) * 3 + (c - bc * 3);
      0 <= k < N && k / 3 == r - br * 3 && k % 3 == c - bc * 3 && Square(g, br, bc)[k] == g[r][c]
  {
    Pos3(r - br * 3, c - bc * 3);
  }

  /** Position `k` of the list of square (`br`, `bc`) is a cell of that square. */
  lemma SquareIndex(br: int, bc: int, k: int)
    requires 0 <= br < 3 && 0 <= bc < 3 && 0 <= k < N
    ensures InSquare(br, bc, br * 3 + k / 3, bc * 3 + k % 3)
  {
    DivMod3(k);
  }

  /** The list of a square holds only digits 1..9 exactly when every cell of the square does. */
  lemma SquareFilledIff(g: Grid, br: int, bc: int)
    requires IsGrid(g) && 0 <= br < 3 && 0 <= bc < 3
    ensures AllFilled(Square(g, br, bc)) <==> SquareFilled(g, br, bc)
  {
    var sq := Square(g, br, bc);
    if AllFilled(sq) {
      forall r, c | InSquare(br, bc, r, c)
        ensures 1 <= g[r][c] <= N
      {
        SquareCell(g, br, bc, r, c);
      }
    }
    if SquareFilled(g, br, bc) {
      forall k | 0 <= k < N
        ensures 1 <= sq[k] <= N
      {
        SquareIndex(br, bc, k);
      }
    }
  }

  /** A square whose list repeats no value has no two equal cells. */
  lemma SquareDistinctFromList(g: Grid, br: int, bc: int)
    requires IsGrid(g) && 0 <= br < 3 && 0 <= bc < 3 && Distinct(Square(g, br, bc))
    ensures SquareDistinct(g, br, bc)
  {
    var sq := Square(g, br, bc);
    forall r1, c1, r2, c2 |
      InSquare(br, bc, r1, c1) && InSquare(br, bc, r2, c2) && (r1 != r2 || c1 != c2)
      ensures g[r1][c1] != g[r2][c2]
    {
      SquareCell(g, br, bc, r1, c1);
      SquareCell(g, br, bc, r2, c2);
      var k1 := (r1 - br * 3) * 3 + (c1 - bc * 3);
      var k2 := (r2 - br * 3) * 3 + (c2 - bc * 3);
      assert k1 < k2 || k2 < k1;
    }
  }

  /** A square with no two equal cells has a list that repeats no value. */
  lemma SquareListFromDistinct(g: Grid, br: int, bc: int)
    requires IsGrid(g) && 0 <= br < 3 && 0 <= bc < 3 && SquareDistinct(g, br, bc)
    ensures Distinct(Square(g, br, bc))
  {
    var sq := Square(g, br, bc);
    forall a, b | 0 <= a < b < N
      ensures sq[a] != sq[b]
    {
      SquareIndex(br, bc, a);
      SquareIndex(br, bc, b);
      DivMod3(a);
      DivMod3(b);
    }
  }

  /** The list of a square repeats no value exactly when no two cells of the square agree. */
  lemma SquareDistinctIff(g: Grid, br: int, bc: int)
    requires IsGrid(g) && 0 <= br < 3 && 0 <= bc < 3
    ensures Distinct(Square(g, br, bc)) <==> SquareDistinct(g, br, bc)
  {
    if Distinct(Square(g, br, bc)) {
      SquareDistinctFromList(g, br, bc);
    }
    if SquareDistinct(g, br, bc) {
      SquareListFromDistinct(g, br, bc);
    }
  }

  /** The condition `check_win` tests: every row, then every column, then every square. */
  predicate AllUnitsComplete(g: Grid)
    requires IsGrid(g)
  {
    && (forall r :: 0 <= r < N ==> CheckRow(g, r))
    && (forall c :: 0 <= c < N ==> CheckColumn(g, c))
    && (forall br, bc :: 0 <= br < 3 && 0 <= bc < 3 ==> CheckSquare(g, br, bc))
  }

  /** The unit-by-unit set test holds exactly of the grids that are solved cell by cell. */
  lemma WinIffValid(g: Grid)
    requires IsGrid(g)
    ensures AllUnitsComplete(g) <==> ValidSolution(g)
  {
    if AllUnitsComplete(g) {
      UnitsImplyValid(g);
    }
    if ValidSolution(g) {
      ValidImpliesUnits(g);
    }
  }

  /** A grid passing every unit test is filled and has no two equal cells in a unit. */
  lemma UnitsImplyValid(g: Grid)
    requires IsGrid(g) && AllUnitsComplete(g)
    ensures ValidSolution(g)
  {
    assert Filled(g) by {
      forall r, c | 0 <= r < N && 0 <= c < N
        ensures 1 <= g[r][c] <= N
      {
        CheckRowIff(g, r);
      }
    }
    forall r1, c1, r2, c2 |
      0 <= r1 < N && 0 <= c1 < N && 0 <= r2 < N && 0 <= c2 < N && (r1 != r2 || c1 != c2) &&
      SameUnit(r1, c1, r2, c2) && g[r1][c1] != EMPTY
      ensures g[r1][c1] != g[r2][c2]
    {
      if r1 == r2 {
        CheckRowIff(g, r1);
        assert c1 < c2 || c2 < c1;
      } else if c1 == c2 {
        CheckColumnIff(g, c1);
        assert r1 < r2 || r2 < r1;
      } else {
        DivMod3(r1);
        DivMod3(c1);
        DivMod3(r2);
        DivMod3(c2);
        CheckSquareIff(g, r1 / 3, c1 / 3);
        assert InSquare(r1 / 3, c1 / 3, r1, c1) && InSquare(r1 / 3, c1 / 3, r2, c2);
      }
    }
  }

  /** A filled grid with no two equal cells in a unit passes every unit test. */
  lemma ValidImpliesUnits(g: Grid)
    requires ValidSolution(g)
    ensures AllUnitsComplete(g)
  {
    forall r | 0 <= r < N
      ensures CheckRow(g, r)
    {
      forall c1, c2 | 0 <= c1 < c2 < N
        ensures g[r][c1] != g[r][c2]
      {
        assert SameUnit(r, c1, r, c2);
      }
      CheckRowIff(g, r);
    }
    forall c | 0 <= c < N
      ensures CheckColumn(g, c)
    {
      forall r1, r2 | 0 <= r1 < r2 < N
        ensures g[r1][c] != g[r2][c]
      {
        assert SameUnit(r1, c, r2, c);
      }
      CheckColumnIff(g, c);
    }
    forall br, bc | 0 <= br < 3 && 0 <= bc < 3
      ensures CheckSquare(g, br, bc)
    {
      forall r1, c1, r2, c2 |
        InSquare(br, bc, r1, c1) && InSquare(br, bc, r2, c2) && (r1 != r2 || c1 != c2)
        ensures g[r1][c1] != g[r2][c2]
      {
        Pos3(br, r1 - br * 3);
        Pos3(br, r2 - br * 3);
        Pos3(bc, c1 - bc * 3);
        Pos3(bc, c2 - bc * 3);
        assert SameUnit(r1, c1, r2, c2);
      }
      CheckSquareIff(g, br, bc);
    }
  }

  /** The first loop of `check_win`: every row passes, checked top to bottom. */
  method RowsPass(g: Grid) returns (ok: bool)
    requires IsGrid(g)
    ensures ok <==> forall r :: 0 <= r < N ==> CheckRow(g, r)
  {
    for row := 0 to N
      invariant forall r :: 0 <= r < row ==> CheckRow(g, r)
    {
      if !CheckRow(g, row) {
        return false;
      }
    }
    return true;
  }

  /** The second loop of `check_win`: every column passes, checked left to right. */
  method ColumnsPass(g: Grid) returns (ok: bool)
    requires IsGrid(g)
    ensures ok <==> forall c :: 0 <= c < N ==> CheckColumn(g, c)
  {
    for column := 0 to N
      invariant forall c :: 0 <= c < column ==> CheckColumn(g, c)
    {
      if !CheckColumn(g, column) {
        return false;
      }
    }
    return true;
  }

  /** The nested third loop of `check_win`: every square passes, row of squares by row of squares. */
  method SquaresPass(g: Grid) returns (ok: bool)
    requires IsGrid(g)
    ensures ok <==> forall br, bc :: 0 <= br < 3 && 0 <= bc < 3 ==> CheckSquare(g, br, bc)
  {
    for row := 0 to 3
      invariant forall br, bc :: 0 <= br < row && 0 <= bc < 3 ==> CheckSquare(g, br, bc)
    {
      for column := 0 to 3
        invariant forall br, bc :: 0 <= br < row && 0 <= bc < 3 ==> CheckSquare(g, br, bc)
        invariant forall bc :: 0 <= bc < column ==> CheckSquare(g, row, bc)
      {
        if !CheckSquare(g, row, column) {
          return false;
        }
      }
      assert forall bc :: 0 <= bc < 3 ==> CheckSquare(g, row, bc);
    }
    return true;
  }

  /**
   * `SudokuGame.check_win`: true exactly when the play grid is solved; the
   * play grid is never changed, and the game ends only on a win.
   */
  method CheckWin(game: Game) returns (won: bool, after: Game)
    requires IsGrid(game.puzzle)
    ensures won <==> AllUnitsComplete(game.puzzle)
    ensures won <==> ValidSolution(game.puzzle)
    ensures after.puzzle == game.puzzle && after.startPuzzle == game.startPuzzle
    ensures won ==> after.gameOver
    ensures !won ==> after == game
  {
    var g := game.puzzle;
    WinIffValid(g);
    var rows := RowsPass(g);
    if !rows {
      return false, game;
    }
    var columns := ColumnsPass(g);
    if !columns {
      return false, game;
    }
    var squares := SquaresPass(g);
    if !squares {
      return false, game;
    }
    return true, game.(gameOver := true);
  }

  /** A grid with an empty cell, or any cell outside 1..9, is never a win. */
  lemma EmptyCellLoses(g: Grid, r: int, c: int)
    requires IsGrid(g) && 0 <= r < N && 0 <= c < N
    requires !(1 <= g[r][c] <= N)
    ensures !AllUnitsComplete(g)
  {
    WinIffValid(g);
  }

  /** A grid in which two cells of one row, column or square agree is never a win. */
  lemma RepeatLoses(g: Grid, r1: int, c1: int, r2: int, c2: int)
    requires IsGrid(g)
    requires 0 <= r1 < N && 0 <= c1 < N && 0 <= r2 < N && 0 <= c2 < N && (r1 != r2 || c1 != c2)
    requires SameUnit(r1, c1, r2, c2) && g[r1][c1] == g[r2][c2]
    ensures !AllUnitsComplete(g)
  {
    WinIffValid(g);
    if g[r1][c1] != EMPTY {
      assert !ConflictFree(g);
    } else {
      assert !Filled(g);
    }
  }
}
