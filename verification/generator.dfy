/**
 * The randomised backtracking generator `make_board`, for m = 3 (n = 9).
 * Cells are filled in row-major order; each cell tries the digits 1..9 in a
 * freshly shuffled order and takes the first that is absent from its row,
 * its column and the block rows above it, then recurses on the next cell.
 * A cell for which no digit leads to a full board is cleared again and the
 * failure is reported to the previous cell, which tries its next digit.
 */
module Generator {
  import opened Wrappers
  import opened Grid
  import Game

  /** Number of cells, n * n. */
  const Cells := 81

  /**
   * The source of randomness: the k-th call of `random.shuffle` in a run
   * turns the candidate list into `shuffle(k)`.
   */
  type Shuffler = nat -> seq<int>

  /** A shuffled candidate list: the digits 1..9, each once. */
  ghost predicate IsOrdering(p: seq<int>) {
    |p| == N && AllFilled(p) && Distinct(p)
  }

  /** Every shuffle the generator can draw is an ordering of 1..9. */
  ghost predicate IsShuffler(shuffle: Shuffler) {
    forall k :: IsOrdering(shuffle(k))
  }

  /** The board after `board[i][j] = v`. */
  function SetCell(b: Grid, i: int, j: int, v: int): (b': Grid)
    requires IsGrid(b) && 0 <= i < N && 0 <= j < N
    ensures IsGrid(b') && b'[i][j] == v
    ensures forall r, k :: 0 <= r < N && 0 <= k < N && (r != i || k != j) ==> b'[r][k] == b[r][k]
  {
    b[i := b[i][j := v]]
  }

  /** The initial board: every cell empty (`None` in the source, `EMPTY` here). */
  function EmptyBoard(): (b: Grid)
    ensures IsGrid(b) && forall r, k :: 0 <= r < N && 0 <= k < N ==> b[r][k] == EMPTY
  {
    seq(N, _ => seq(N, _ => EMPTY))
  }

  /** Cells before position `c` in row-major order hold digits. */
  ghost predicate FilledBefore(b: Grid, c: int)
    requires IsGrid(b)
  {
    forall r, k :: 0 <= r < N && 0 <= k < N && r * 9 + k < c ==> 1 <= b[r][k] <= N
  }

  /** Cells from position `c` on in row-major order are empty. */
  ghost predicate EmptyFrom(b: Grid, c: int)
    requires IsGrid(b)
  {
    forall r, k :: 0 <= r < N && 0 <= k < N && r * 9 + k >= c ==> b[r][k] == EMPTY
  }

  /** Two boards agree on the cells before position `c`. */
  ghost predicate AgreeBefore(a: Grid, b: Grid, c: int)
    requires IsGrid(a) && IsGrid(b)
  {
    forall r, k :: 0 <= r < N && 0 <= k < N && r * 9 + k < c ==> a[r][k] == b[r][k]
  }

  /**
   * The candidate test of `search`: `x` is not in row `i`, not in column `j`,
   * and not in the part of the block of (i, j) that lies in the rows above `i`.
   */
  predicate Fits(b: Grid, i: int, j: int, x: int)
    requires IsGrid(b) && 0 <= i < N && 0 <= j < N
  {
    var i0, j0 := i - i % 3, j - j % 3;
    && x !in b[i]
    && (forall r :: 0 <= r < N ==> b[r][j] != x)
    && (forall r :: i0 <= r < i ==> x !in b[r][j0..j0 + 3])
  }

  /** Position c in row-major order is row c / 9, column c % 9. */
  lemma DivMod9(c: int)
    requires 0 <= c < Cells
    ensures 0 <= c / 9 < N && 0 <= c % 9 < N && c == (c / 9) * 9 + c % 9
  {
  }

  /**
   * When cell c = (i, j) is the last non-empty one, a digit that fits there
   * differs from every filled cell sharing a unit with (i, j).
   */
  lemma FitsAvoidsUnit(b: Grid, c: int, x: int, r: int, k: int)
    requires IsGrid(b) && 0 <= c < Cells && EmptyFrom(b, c + 1)
    requires Fits(b, c / 9, c % 9, x)
    requires 0 <= r < N && 0 <= k < N && (r != c / 9 || k != c % 9)
    requires SameUnit(r, k, c / 9, c % 9) && b[r][k] != EMPTY
    ensures b[r][k] != x
  {
    var i, j := c / 9, c % 9;
    DivMod9(c);
    assert r * 9 + k < c;
    if r == i {
      assert b[r][k] in b[i];
    } else if k == j {
    } else {
      assert r < i;
      DivMod3(r % 9);
      assert i - i % 3 <= r;
      assert j - j % 3 <= k < j - j % 3 + 3;
      var j0 := j - j % 3;
      assert b[r][j0..j0 + 3][k - j0] == b[r][k];
    }
  }

  /** Placing a fitting digit in the last non-empty cell keeps every unit free of repeats. */
  lemma PlacementKeepsConflictFree(b: Grid, c: int, x: int)
    requires IsGrid(b) && 0 <= c < Cells && 1 <= x <= N
    requires EmptyFrom(b, c + 1) && ConflictFree(b)
    requires Fits(b, c / 9, c % 9, x)
    ensures ConflictFree(SetCell(b, c / 9, c % 9, x))
  {
    var i, j := c / 9, c % 9;
    DivMod9(c);
    var nb := SetCell(b, i, j, x);
    forall r1, c1, r2, c2 |
      0 <= r1 < N && 0 <= c1 < N && 0 <= r2 < N && 0 <= c2 < N && (r1 != r2 || c1 != c2) &&
      SameUnit(r1, c1, r2, c2) && nb[r1][c1] != EMPTY
      ensures nb[r1][c1] != nb[r2][c2]
    {
      if r1 == i && c1 == j {
        if b[r2][c2] != EMPTY {
          FitsAvoidsUnit(b, c, x, r2, c2);
        }
      } else if r2 == i && c2 == j {
        FitsAvoidsUnit(b, c, x, r1, c1);
      }
    }
  }

  /** What a call of `search` leaves behind: the board, whether it is complete, and the shuffles drawn so far. */
  datatype Outcome = Outcome(board: Grid, found: bool, draws: nat)

  /** The state `search(c)` is entered in: cells before c filled, c and later empty, no repeats. */
  ghost predicate Entry(b: Grid, c: int) {
    IsGrid(b) && 0 <= c < Cells && FilledBefore(b, c) && EmptyFrom(b, c) && ConflictFree(b)
  }

  /**
   * `search(c)`: draws a shuffle and tries its digits at cell c. On success
   * the board is a solved Sudoku; on failure it is exactly the board the
   * call started from. Cells before c are never written.
   */
  function Search(shuffle: Shuffler, b: Grid, c: int, draws: nat): (o: Outcome)
    requires IsShuffler(shuffle) && Entry(b, c)
    ensures IsGrid(o.board) && o.draws > draws
    ensures AgreeBefore(o.board, b, c)
    ensures o.found ==> ValidSolution(o.board)
    ensures !o.found ==> o.board == b
    decreases Cells - c, 1, 0
  {
    DivMod9(c);
    var o := TryCandidates(shuffle, b, c, shuffle(draws), 0, draws + 1);
    assert !o.found ==> o.board == b by {
      assert b[c / 9][c % 9 := EMPTY] == b[c / 9];
    }
    o
  }

  /**
   * The `for x in numbers` loop of `search(c)` from the k-th candidate on.
   * Cell c may still hold the previous candidate, whose search failed.
   */
  function TryCandidates(shuffle: Shuffler, b: Grid, c: int, nums: seq<int>, k: nat, draws: nat): (o: Outcome)
    requires IsShuffler(shuffle) && AllFilled(nums) && k <= |nums|
    requires IsGrid(b) && 0 <= c < Cells && FilledBefore(b, c) && EmptyFrom(b, c + 1) && ConflictFree(b)
    ensures IsGrid(o.board) && o.draws >= draws
    ensures AgreeBefore(o.board, b, c)
    ensures o.found ==> ValidSolution(o.board)
    ensures !o.found ==> o.board == SetCell(b, c / 9, c % 9, EMPTY)
    decreases Cells - c, 0, |nums| - k
  {
    DivMod9(c);
    var i, j := c / 9, c % 9;
    if k == |nums| then
      // No number is valid in this cell: clear it and backtrack.
      Outcome(SetCell(b, i, j, EMPTY), false, draws)
    else
      var x := nums[k];
      if Fits(b, i, j, x) then
        var placed := SetCell(b, i, j, x);
        PlacementKeepsConflictFree(b, c, x);
        if c + 1 >= Cells then
          Outcome(placed, true, draws)
        else
          var o := Search(shuffle, placed, c + 1, draws);
          if o.found then
            o
          else
            assert SetCell(o.board, i, j, EMPTY) == SetCell(b, i, j, EMPTY) by {
              assert o.board[i][j := EMPTY] == b[i][j := EMPTY];
            }
            TryCandidates(shuffle, o.board, c, nums, k + 1, o.draws)
      else
        TryCandidates(shuffle, b, c, nums, k + 1, draws)
  }

  /** `make_board()`: a solved Sudoku, or `None` when the search from the empty board fails. */
  function MakeBoard(shuffle: Shuffler): (r: Option<Grid>)
    requires IsShuffler(shuffle)
    ensures r.Some? ==> ValidSolution(r.value)
  {
    var o := Search(shuffle, EmptyBoard(), 0, 0);
    if o.found then Some(o.board) else None
  }

  /** Every board the generator returns passes the win check. */
  lemma GeneratedBoardWins(shuffle: Shuffler)
    requires IsShuffler(shuffle)
    ensures MakeBoard(shuffle).Some? ==> Game.AllUnitsComplete(MakeBoard(shuffle).value)
  {
    if MakeBoard(shuffle).Some? {
      Game.WinIffValid(MakeBoard(shuffle).value);
    }
  }
}
