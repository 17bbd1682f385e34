/**
 * The shared vocabulary of a 9x9 Sudoku grid: its shape, its units (rows,
 * columns and 3x3 blocks) and what it means for a grid to be solved.
 */
module Grid {

  /** Rows and columns of the grid, and cells in every unit. */
  const N := 9
  /** The value of an empty cell. */
  const EMPTY := 0
  /** The values every unit of a solved grid holds. */
  const Digits: set<int> := set x | 1 <= x <= N

  /** Rows of cells; a well-shaped one satisfies IsGrid. */
  type Grid = seq<seq<int>>

  /** Exactly 9 rows of exactly 9 cells. */
  predicate IsGrid(g: Grid) {
    |g| == N && forall r :: 0 <= r < N ==> |g[r]| == N
  }

  /** The set of values a sequence holds, as Python's `set(block)`. */
  function SetOf(s: seq<int>): set<int> {
    set x | x in s
  }

  /** No value occurs twice. */
  predicate Distinct(s: seq<int>) {
    forall a, b :: 0 <= a < b < |s| ==> s[a] != s[b]
  }

  /** Every entry is a digit 1..9 (no empty cell). */
  predicate AllFilled(s: seq<int>) {
    forall k :: 0 <= k < |s| ==> 1 <= s[k] <= N
  }

  /** Two cells lie in the same 3x3 block. */
  predicate SameBlock(r1: int, c1: int, r2: int, c2: int) {
    r1 / 3 == r2 / 3 && c1 / 3 == c2 / 3
  }

  /** Two cells share a row, a column or a block. */
  predicate SameUnit(r1: int, c1: int, r2: int, c2: int) {
    r1 == r2 || c1 == c2 || SameBlock(r1, c1, r2, c2)
  }

  /** No filled cell shares a unit with another cell of the same value. */
  ghost predicate ConflictFree(g: Grid)
    requires IsGrid(g)
  {
    forall r1, c1, r2, c2 ::
      0 <= r1 < N && 0 <= c1 < N && 0 <= r2 < N && 0 <= c2 < N && (r1 != r2 || c1 != c2) &&
      SameUnit(r1, c1, r2, c2) && g[r1][c1] != EMPTY
      ==> g[r1][c1] != g[r2][c2]
  }

  /** Every cell holds a digit 1..9. */
  ghost predicate Filled(g: Grid)
    requires IsGrid(g)
  {
    forall r, c :: 0 <= r < N && 0 <= c < N ==> 1 <= g[r][c] <= N
  }

  /**
   * A solved Sudoku stated cell by cell: every cell filled and no two
   * cells of a unit equal. The win check's unit-by-unit set test is proved
   * equivalent to this.
   */
  ghost predicate ValidSolution(g: Grid) {
    IsGrid(g) && Filled(g) && ConflictFree(g)
  }

  /** Position k of a row-by-row listing of a 3x3 block is row k / 3, column k % 3. */
  lemma DivMod3(k: int)
    requires 0 <= k < 9
    ensures 0 <= k / 3 < 3 && 0 <= k % 3 < 3 && k == (k / 3) * 3 + k % 3
  {
  }

  /** Row a, column b of a 3x3 block is position a * 3 + b of its row-by-row listing. */
  lemma Pos3(a: int, b: int)
    requires 0 <= a < 3 && 0 <= b < 3
    ensures (a * 3 + b) / 3 == a && (a * 3 + b) % 3 == b
  {
  }

  /** Prepending a value that does not occur keeps a sequence free of repeats, and only then. */
  lemma DistinctCons(s: seq<int>)
    requires |s| > 0 && s[0] !in s[1..]
    ensures Distinct(s) <==> Distinct(s[1..])
  {
    var t := s[1..];
    if Distinct(t) {
      forall a, b | 0 <= a < b < |s|
        ensures s[a] != s[b]
      {
        if a == 0 {
          assert s[b] == t[b - 1];
        } else {
          assert s[a] == t[a - 1] && s[b] == t[b - 1];
        }
      }
    } else {
      var a, b :| 0 <= a < b < |t| && t[a] == t[b];
      assert s[a + 1] == s[b + 1];
    }
  }

  /** A sequence has no more distinct values than entries, and fewer exactly when it repeats one. */
  lemma {:induction false} SetOfSize(s: seq<int>)
    ensures |SetOf(s)| <= |s|
    ensures Distinct(s) <==> |SetOf(s)| == |s|
  {
    if s != [] {
      var t := s[1..];
      SetOfSize(t);
      assert SetOf(s) == {s[0]} + SetOf(t);
      if s[0] in t {
        assert SetOf(s) == SetOf(t);
        var k :| 0 <= k < |t| && t[k] == s[0];
        assert s[0] == s[k + 1];
      } else {
        assert s[0] !in SetOf(t);
        DistinctCons(s);
      }
    }
  }

  /** A subset of a finite set with as many elements is the whole set. */
  lemma SubsetOfSameSize(a: set<int>, b: set<int>)
    requires a <= b && |a| == |b|
    ensures a == b
  {
    assert b == a + (b - a);
    assert |b - a| == 0;
  }

  /**
   * Pigeonhole for one unit: nine values form the set {1..9} exactly when
   * each is a digit 1..9 and none repeats.
   */
  lemma UnitSetIffPermutation(s: seq<int>)
    ensures SetOf(s) == Digits <==> forall x :: x in s <==> 1 <= x <= N
    ensures |s| == N ==> (SetOf(s) == Digits <==> AllFilled(s) && Distinct(s))
  {
    assert forall x :: x in Digits <==> 1 <= x <= N;
    assert forall x :: x in SetOf(s) <==> x in s;
    if forall x :: x in s <==> 1 <= x <= N {
      assert SetOf(s) == Digits;
    }
    if |s| != N {
      return;
    }
    SetOfSize(s);
    assert Digits == {1, 2, 3, 4, 5, 6, 7, 8, 9};
    assert |Digits| == N;
    if SetOf(s) == Digits {
      forall k | 0 <= k < |s|
        ensures 1 <= s[k] <= N
      {
        assert s[k] in SetOf(s);
      }
    }
    if AllFilled(s) && Distinct(s) {
      assert SetOf(s) <= Digits by {
        forall x | x in SetOf(s)
          ensures x in Digits
        {
          var k :| 0 <= k < |s| && s[k] == x;
        }
      }
      SubsetOfSameSize(SetOf(s), Digits);
    }
  }
}
