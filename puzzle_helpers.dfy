/**
 * The row, column and block helpers of the Python prototype.  A puzzle is
 * a list of rows of strings, with "0" standing for an empty cell.
 */
module PuzzleHelpers {
  type Puzzle = seq<seq<string>>

  /** `EMPTY_VALUE_PLACEHOLDER` */
  const EMPTY: string := "0"

  /** Every string the puzzle holds, at any position. */
  ghost function Entries(p: Puzzle): set<string>
  {
    set r, k | 0 <= r < |p| && 0 <= k < |p[r]| :: p[r][k]
  }

  /** The strings other than "0" in column `j` of every row long enough to have one. */
  ghost function ColumnValues(p: Puzzle, j: int): set<string>
  {
    set r | 0 <= r < |p| && 0 <= j < |p[r]| && p[r][j] != EMPTY :: p[r][j]
  }

  /**
   * `get_column_values`: visit every entry of every row and keep the ones
   * in column `index.1` that are not "0".  `index.0` is never read.
   */
  method GetColumnValues(index: (int, int), puzzle: Puzzle) returns (values: set<string>)
    ensures values == ColumnValues(puzzle, index.1)
  {
    values := {};
    for r := 0 to |puzzle|
      invariant values == ColumnValues(puzzle[..r], index.1)
    {
      var row := puzzle[r];
      for k := 0 to |row|
        invariant values == ColumnValues(puzzle[..r], index.1) +
                            (if 0 <= index.1 < k && row[index.1] != EMPTY then {row[index.1]} else {})
      {
        if k == index.1 && row[k] != EMPTY {
          values := values + {row[k]};
        }
      }
      ColumnValuesStep(puzzle, r, index.1);
    }
    assert puzzle[..|puzzle|] == puzzle;
  }

  /** Taking one more row into account adds that row's entry in column `j`, if any. */
  lemma ColumnValuesStep(p: Puzzle, r: int, j: int)
    requires 0 <= r < |p|
    ensures ColumnValues(p[..r + 1], j) ==
            ColumnValues(p[..r], j) + (if 0 <= j < |p[r]| && p[r][j] != EMPTY then {p[r][j]} else {})
  {
    var q, q' := p[..r], p[..r + 1];
    assert forall r' :: 0 <= r' < r ==> q'[r'] == q[r'];
    assert q'[r] == p[r];
  }

  /** `get_row_values`: the strings other than "0" in row `index.0`. */
  function GetRowValues(index: (int, int), puzzle: Puzzle): (values: set<string>)
    requires 0 <= index.0 < |puzzle|
  {
    set e | e in puzzle[index.0] && e != EMPTY
  }

  /**
   * `get_block_values`: the strings other than "0" in the 3 by 3 block whose
   * top-left corner is `(index.0 / 3 * 3, index.1 / 3 * 3)`.
   */
  function GetBlockValues(index: (int, int), puzzle: Puzzle): (values: set<string>)
    requires BlockInside(index, puzzle)
  {
    var rowStart, colStart := index.0 / 3 * 3, index.1 / 3 * 3;
    set r, c | rowStart <= r < rowStart + 3 && colStart <= c < colStart + 3 && puzzle[r][c] != EMPTY :: puzzle[r][c]
  }

  /** The block of `index` lies inside the puzzle, so no lookup of `get_block_values` fails. */
  predicate BlockInside(index: (int, int), puzzle: Puzzle)
  {
    0 <= index.0 && 0 <= index.1 && index.0 / 3 * 3 + 3 <= |puzzle| &&
    forall r :: index.0 / 3 * 3 <= r < index.0 / 3 * 3 + 3 ==> index.1 / 3 * 3 + 3 <= |puzzle[r]|
  }

  /**
   * The column values in index form: exactly the strings other than "0"
   * found at position `j` of some row.
   */
  lemma ColumnValuesExact(p: Puzzle, j: int, e: string)
    ensures e in ColumnValues(p, j) <==> e != EMPTY && exists r :: 0 <= r < |p| && 0 <= j < |p[r]| && p[r][j] == e
  {
  }

  /**
   * The row values in index form: exactly the strings other than "0" at
   * some position of row `i`, whatever `j` is.
   */
  lemma RowValuesExact(p: Puzzle, i: int, j: int, e: string)
    requires 0 <= i < |p|
    ensures e in GetRowValues((i, j), p) <==> e != EMPTY && exists k :: 0 <= k < |p[i]| && p[i][k] == e
  {
    if e != EMPTY && exists k :: 0 <= k < |p[i]| && p[i][k] == e {
      var k :| 0 <= k < |p[i]| && p[i][k] == e;
      assert p[i][k] in p[i];
    }
  }

  /** Which row of the puzzle is read depends on `index.0` alone. */
  lemma RowValuesIgnoreColumn(p: Puzzle, i: int, j: int, j': int)
    requires 0 <= i < |p|
    ensures GetRowValues((i, j), p) == GetRowValues((i, j'), p)
  {
  }

  /**
   * The block values in index form: exactly the strings other than "0" at
   * the nine positions of the block.
   */
  lemma BlockValuesExact(p: Puzzle, i: int, j: int, e: string)
    requires BlockInside((i, j), p)
    ensures e in GetBlockValues((i, j), p) <==>
            e != EMPTY && exists r, c :: i / 3 * 3 <= r < i / 3 * 3 + 3 && j / 3 * 3 <= c < j / 3 * 3 + 3 && p[r][c] == e
  {
  }

  /** Every cell of a block names the same block. */
  lemma BlockValuesPerBlock(p: Puzzle, i: int, j: int, i': int, j': int)
    requires BlockInside((i, j), p) && 0 <= i' && 0 <= j' && i' / 3 == i / 3 && j' / 3 == j / 3
    ensures BlockInside((i', j'), p) && GetBlockValues((i', j'), p) == GetBlockValues((i, j), p)
  {
  }

  /** None of the three helpers ever returns "0", and each returns strings the puzzle holds. */
  lemma HelpersAvoidEmpty(p: Puzzle, i: int, j: int)
    ensures EMPTY !in ColumnValues(p, j) && ColumnValues(p, j) <= Entries(p)
    ensures 0 <= i < |p| ==> EMPTY !in GetRowValues((i, j), p) && GetRowValues((i, j), p) <= Entries(p)
    ensures BlockInside((i, j), p) ==> EMPTY !in GetBlockValues((i, j), p) && GetBlockValues((i, j), p) <= Entries(p)
  {
    forall e | e in ColumnValues(p, j) ensures e in Entries(p) {
      var r :| 0 <= r < |p| && 0 <= j < |p[r]| && p[r][j] != EMPTY && p[r][j] == e;
    }
    if 0 <= i < |p| {
      forall e | e in GetRowValues((i, j), p) ensures e in Entries(p) {
        var k :| 0 <= k < |p[i]| && p[i][k] == e;
      }
    }
    if BlockInside((i, j), p) {
      forall e | e in GetBlockValues((i, j), p) ensures e in Entries(p) {
        var r, c :| i / 3 * 3 <= r < i / 3 * 3 + 3 && j / 3 * 3 <= c < j / 3 * 3 + 3 && p[r][c] == e;
      }
    }
  }

  /** The puzzle the tests use: a solved grid with cell (4, 6) emptied. */
  const SAMPLE: Puzzle := [
    ["2", "1", "8", "9", "5", "4", "7", "6", "3"],
    ["7", "6", "3", "1", "2", "8", "5", "9", "4"],
    ["5", "9", "4", "6", "7", "3", "2", "1", "8"],
    ["4", "2", "9", "5", "3", "6", "8", "7", "1"],
    ["3", "5", "6", "7", "8", "1", "0", "2", "9"],
    ["8", "7", "1", "2", "4", "9", "3", "5", "6"],
    ["9", "8", "2", "4", "6", "5", "1", "3", "7"],
    ["1", "3", "7", "8", "9", "2", "6", "4", "5"],
    ["6", "4", "5", "3", "1", "7", "9", "8", "2"]
  ]

  const DIGITS: set<string> := {"1", "2", "3", "4", "5", "6", "7", "8", "9"}

  /** For the sample, the row of index (0, 0) holds all nine digits. */
  lemma SampleRow()
    ensures GetRowValues((0, 0), SAMPLE) == DIGITS
  {
    assert SAMPLE[0] == ["2", "1", "8", "9", "5", "4", "7", "6", "3"];
  }

  /** The strings of column `j`, one per row. */
  function ColumnSeq(p: Puzzle, j: int): seq<string>
    requires 0 <= j && forall r :: 0 <= r < |p| ==> j < |p[r]|
  {
    seq(|p|, r requires 0 <= r < |p| => p[r][j])
  }

  /** A column's values are the strings other than "0" in its sequence. */
  lemma ColumnAsSeq(p: Puzzle, j: int)
    requires 0 <= j && forall r :: 0 <= r < |p| ==> j < |p[r]|
    ensures ColumnValues(p, j) == set e | e in ColumnSeq(p, j) && e != EMPTY
  {
    var s := ColumnSeq(p, j);
    forall e | e in s && e != EMPTY ensures e in ColumnValues(p, j) {
      var r :| 0 <= r < |s| && s[r] == e;
    }
    forall e | e in ColumnValues(p, j) ensures e in s {
      var r :| 0 <= r < |p| && p[r][j] == e;
      assert s[r] == e;
    }
  }

  /** For the sample, column 0 (that of index (0, 0)) holds all nine digits. */
  lemma SampleColumn()
    ensures ColumnValues(SAMPLE, 0) == DIGITS
  {
    ColumnAsSeq(SAMPLE, 0);
    var col := ColumnSeq(SAMPLE, 0);
    assert col == ["2", "7", "5", "4", "3", "8", "9", "1", "6"];
    forall e | e in col ensures e in DIGITS && e != EMPTY {
    }
    forall e | e in DIGITS ensures e in col {
    }
  }

  /** The nine strings of the block of `index`, row by row. */
  function BlockSeq(index: (int, int), p: Puzzle): seq<string>
    requires BlockInside(index, p)
  {
    var rowStart, colStart := index.0 / 3 * 3, index.1 / 3 * 3;
    seq(9, k requires 0 <= k < 9 => p[rowStart + k / 3][colStart + k % 3])
  }

  /** A block's values are the strings other than "0" among its nine strings. */
  lemma BlockAsSeq(index: (int, int), p: Puzzle)
    requires BlockInside(index, p)
    ensures GetBlockValues(index, p) == set e | e in BlockSeq(index, p) && e != EMPTY
  {
    var rowStart, colStart := index.0 / 3 * 3, index.1 / 3 * 3;
    var s := BlockSeq(index, p);
    forall e | e in s && e != EMPTY ensures e in GetBlockValues(index, p) {
      var k :| 0 <= k < 9 && s[k] == e;
      assert p[rowStart + k / 3][colStart + k % 3] == e;
    }
    forall e | e in GetBlockValues(index, p) ensures e in s {
      var r, c :| rowStart <= r < rowStart + 3 && colStart <= c < colStart + 3 && p[r][c] == e;
      var k := (r - rowStart) * 3 + (c - colStart);
      assert k / 3 == r - rowStart && k % 3 == c - colStart;
      assert s[k] == e;
    }
  }

  /** For the sample, the block of index (7, 6) holds all nine digits. */
  lemma SampleBlock()
    ensures BlockInside((7, 6), SAMPLE) && GetBlockValues((7, 6), SAMPLE) == DIGITS
  {
    BlockAsSeq((7, 6), SAMPLE);
    var b := BlockSeq((7, 6), SAMPLE);
    assert b == ["1", "3", "7", "6", "4", "5", "9", "8", "2"];
    forall e | e in b ensures e in DIGITS && e != EMPTY {
    }
    forall e | e in DIGITS ensures e in b {
    }
  }
}
