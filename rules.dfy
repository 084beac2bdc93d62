/**
 * The rules of the game on the 81 cells of a board, independent of how a
 * board is stored: the numbering of cells, rows, columns and boxes, what a
 * valid (solved) board is, and the candidate mask a row, column or box
 * should carry for a given filling.
 *
 * Cells are numbered row by row, 0 in the top left corner to 80 in the
 * bottom right; boxes are numbered the same way, 0..8. A cell holds a
 * value 0..15 (a nibble); 0 means empty, 1..9 are digits.
 */
module Rules {
  import opened Candidates

  /** `row_index`. */
  function RowIndex(i: int): (r: int)
    requires 0 <= i < 81
    ensures 0 <= r < 9 && 9 * r <= i < 9 * r + 9
  {
    i / 9
  }

  /** `col_index`. */
  function ColIndex(i: int): (c: int)
    requires 0 <= i < 81
    ensures 0 <= c < 9 && i == 9 * RowIndex(i) + c
  {
    i % 9
  }

  /** `grid_index`: the box of cell `i`. */
  function GridIndex(i: int): (b: int)
    requires 0 <= i < 81
    ensures 0 <= b < 9 && b == RowIndex(i) / 3 * 3 + ColIndex(i) / 3
  {
    i / 27 * 3 + i % 9 / 3
  }

  /** The top left cell of box `b`: 0, 3, 6, 27, 30, 33, 54, 57, 60. */
  function BoxStart(b: int): int
    requires 0 <= b < 9
  {
    b / 3 * 27 + b % 3 * 3
  }

  /** The cells of row `r`, left to right. */
  function RowUnit(r: int): (u: seq<int>)
    requires 0 <= r < 9
    ensures |u| == 9 && IsCellList(u)
  {
    seq(9, j => 9 * r + j)
  }

  /** The cells of column `c`, top to bottom. */
  function ColUnit(c: int): (u: seq<int>)
    requires 0 <= c < 9
    ensures |u| == 9 && IsCellList(u)
  {
    seq(9, j => c + 9 * j)
  }

  /** The cells of box `b`, row by row: start + 0, 1, 2, 9, 10, 11, 18, 19, 20. */
  function BoxUnit(b: int): (u: seq<int>)
    requires 0 <= b < 9
    ensures |u| == 9 && IsCellList(u)
  {
    seq(9, j => BoxStart(b) + j / 3 * 9 + j % 3)
  }

  lemma RowUnitCells(r: int, j: int)
    requires 0 <= r < 9 && 0 <= j < 9
    ensures 0 <= RowUnit(r)[j] < 81 && RowIndex(RowUnit(r)[j]) == r && ColIndex(RowUnit(r)[j]) == j
  {
  }

  lemma ColUnitCells(c: int, j: int)
    requires 0 <= c < 9 && 0 <= j < 9
    ensures 0 <= ColUnit(c)[j] < 81 && ColIndex(ColUnit(c)[j]) == c && RowIndex(ColUnit(c)[j]) == j
  {
  }

  lemma BoxUnitCells(b: int, j: int)
    requires 0 <= b < 9 && 0 <= j < 9
    ensures 0 <= BoxUnit(b)[j] < 81 && GridIndex(BoxUnit(b)[j]) == b
  {
    BoxCell(b / 3, b % 3, j / 3, j % 3);
  }

  /** The cell in band `q`, stack `s`, row `p` and column `t` of its box lies in box `3q + s`. */
  lemma BoxCell(q: int, s: int, p: int, t: int)
    requires 0 <= q < 3 && 0 <= s < 3 && 0 <= p < 3 && 0 <= t < 3
    ensures GridIndex(27 * q + 9 * p + 3 * s + t) == 3 * q + s
  {
    var k := 27 * q + 9 * p + 3 * s + t;
    Div27(k, q, 9 * p + 3 * s + t);
    Div9(k, 3 * q + p, 3 * s + t);
    Div3(3 * s + t, s, t);
  }

  // Division facts for the proofs about cell numbers, one per divisor, for the solver.

  /** Division of a cell number by 27, 9 and 3, spelled out. */
  lemma Div27(n: int, q: int, r: int)
    requires n == 27 * q + r && 0 <= r < 27
    ensures n / 27 == q
  {
  }

  lemma Div9(n: int, q: int, r: int)
    requires n == 9 * q + r && 0 <= r < 9
    ensures n / 9 == q && n % 9 == r
  {
  }

  lemma Div3(n: int, q: int, r: int)
    requires n == 3 * q + r && 0 <= r < 3
    ensures n / 3 == q && n % 3 == r
  {
  }

  /** Cell `i` sits at position `ColIndex(i)` of its row. */
  lemma CellInRow(i: int)
    requires 0 <= i < 81
    ensures RowUnit(RowIndex(i))[ColIndex(i)] == i
  {
  }

  /** Cell `i` sits at position `RowIndex(i)` of its column. */
  lemma CellInCol(i: int)
    requires 0 <= i < 81
    ensures ColUnit(ColIndex(i))[RowIndex(i)] == i
  {
  }

  /** The position of cell `i` inside its box. */
  function BoxPos(i: int): (p: int)
    requires 0 <= i < 81
    ensures 0 <= p < 9
  {
    RowIndex(i) % 3 * 3 + ColIndex(i) % 3
  }

  /** Cell `i` sits at position `BoxPos(i)` of its box. */
  lemma CellInBox(i: int)
    requires 0 <= i < 81
    ensures BoxUnit(GridIndex(i))[BoxPos(i)] == i
  {
    var r, c := RowIndex(i), ColIndex(i);
    var q, p, s, t := r / 3, r % 3, c / 3, c % 3;
    assert i == 27 * q + 9 * p + 3 * s + t;
    BoxCell(q, s, p, t);
    BoxUnitAt(q, s, p, t);
  }

  lemma BoxUnitAt(q: int, s: int, p: int, t: int)
    requires 0 <= q < 3 && 0 <= s < 3 && 0 <= p < 3 && 0 <= t < 3
    ensures BoxUnit(3 * q + s)[3 * p + t] == 27 * q + 9 * p + 3 * s + t
  {
    Div3(3 * q + s, q, s);
    Div3(3 * p + t, p, t);
  }

  /** Two positions of a box hold two different cells. */
  lemma BoxUnitDistinct(b: int, p: int, q: int)
    requires 0 <= b < 9 && 0 <= p < 9 && 0 <= q < 9 && p != q
    ensures BoxUnit(b)[p] != BoxUnit(b)[q]
  {
  }

  /** A filling of the 81 cells, each empty (0) or a digit 1..9. */
  predicate IsBoard(c: seq<bv16>)
  {
    |c| == 81 && forall k :: 0 <= k < 81 ==> c[k] <= 9
  }

  /** A list of cell numbers. */
  predicate IsCellList(u: seq<int>)
  {
    forall j :: 0 <= j < |u| ==> 0 <= u[j] < 81
  }

  /** Two cells share a row, a column or a box (every cell sees itself). */
  predicate Sees(i: int, j: int)
    requires 0 <= i < 81 && 0 <= j < 81
  {
    RowIndex(i) == RowIndex(j) || ColIndex(i) == ColIndex(j) || GridIndex(i) == GridIndex(j)
  }

  /** Two different cells that must not hold the same digit. */
  predicate Peers(i: int, j: int)
    requires 0 <= i < 81 && 0 <= j < 81
  {
    i != j && Sees(i, j)
  }

  /** The value of cell `i` occurs at none of its peers. */
  ghost predicate UniqueAt(c: seq<bv16>, i: int)
    requires |c| == 81 && 0 <= i < 81
  {
    forall j :: 0 <= j < 81 && Peers(i, j) ==> c[j] != c[i]
  }

  /** No two peers hold the same digit. */
  ghost predicate NoConflicts(c: seq<bv16>)
    requires |c| == 81
  {
    forall i :: 0 <= i < 81 && c[i] != 0 ==> UniqueAt(c, i)
  }

  /** Digit `d` may be written into cell `i`: no cell it sees holds `d`. */
  ghost predicate Allowed(c: seq<bv16>, i: int, d: bv16)
    requires |c| == 81 && 0 <= i < 81
  {
    1 <= d <= 9 && forall j :: 0 <= j < 81 && Sees(i, j) ==> c[j] != d
  }

  /** The digit `d` is held by none of the cells of `u`. */
  ghost predicate Absent(c: seq<bv16>, u: seq<int>, d: bv16)
    requires |c| == 81 && IsCellList(u)
  {
    forall j :: 0 <= j < |u| ==> c[u[j]] != d
  }

  /** `set`'s update for a value leaving a unit: its bit is restored. */
  function Restore(m: CandidateSet, v: bv16): CandidateSet
    requires v <= 9
  {
    if v == 0 then m else Insert(m, v)
  }

  /** `set`'s update for a value entering a unit: its bit is cleared. */
  function Strike(m: CandidateSet, v: bv16): CandidateSet
    requires v <= 9
  {
    if v == 0 then m else Remove(m, v)
  }

  /** The mask a unit should carry: `FULL` with the digit of every filled cell of `u` struck out. */
  function UnitMask(c: seq<bv16>, u: seq<int>): CandidateSet
    requires IsBoard(c) && IsCellList(u)
    decreases |u|
  {
    if |u| == 0 then FULL else Strike(UnitMask(c, u[1..]), c[u[0]])
  }

  /** The unit mask holds exactly the digits 1..9 that no cell of the unit holds. */
  lemma {:induction false} UnitMaskHas(c: seq<bv16>, u: seq<int>, d: bv16)
    requires IsBoard(c) && IsCellList(u) && 1 <= d <= 16
    ensures Has(UnitMask(c, u), d) <==> d <= 9 && Absent(c, u, d)
    decreases |u|
  {
    if |u| == 0 {
      FullHas();
    } else {
      var m := UnitMask(c, u[1..]);
      UnitMaskHas(c, u[1..], d);
      AbsentCons(c, u, d);
      if c[u[0]] != 0 {
        RemoveHas(m, c[u[0]]);
      }
    }
  }

  /** A digit is absent from a unit when it is absent from its first cell and from the rest. */
  lemma AbsentCons(c: seq<bv16>, u: seq<int>, d: bv16)
    requires IsBoard(c) && IsCellList(u) && |u| > 0
    ensures Absent(c, u, d) <==> c[u[0]] != d && Absent(c, u[1..], d)
  {
    if c[u[0]] != d && Absent(c, u[1..], d) {
      forall j | 1 <= j < |u| ensures c[u[j]] != d {
        assert c[u[j]] == c[u[1..][j - 1]];
      }
    }
  }

  /** Writing a cell outside `u` leaves the unit mask of `u` alone. */
  lemma {:induction false} UnitMaskFrame(c: seq<bv16>, u: seq<int>, i: int, v: bv16)
    requires IsBoard(c) && IsCellList(u) && 0 <= i < 81 && v <= 9
    requires forall j :: 0 <= j < |u| ==> u[j] != i
    ensures UnitMask(c[i := v], u) == UnitMask(c, u)
    decreases |u|
  {
    if |u| != 0 {
      UnitMaskFrame(c, u[1..], i, v);
    }
  }

  /**
   * Writing `v` into cell `i = u[p]` changes the unit mask of `u` the way
   * `set` does (restore the old digit, strike the new one), provided the
   * old digit was held by no other cell of `u`.
   */
  lemma UnitMaskUpdate(c: seq<bv16>, u: seq<int>, p: int, v: bv16)
    requires IsBoard(c) && IsCellList(u) && 0 <= p < |u| && v <= 9
    requires c[u[p]] == 0 || forall j :: 0 <= j < |u| && u[j] != u[p] ==> c[u[j]] != c[u[p]]
    ensures UnitMask(c[u[p] := v], u) == Strike(Restore(UnitMask(c, u), c[u[p]]), v)
  {
    var i := u[p];
    var c' := c[i := v];
    var after := UnitMask(c', u);
    var expected := Strike(Restore(UnitMask(c, u), c[i]), v);
    forall d: bv16 | 1 <= d <= 16 ensures Has(after, d) <==> Has(expected, d) {
      UnitMaskHas(c, u, d);
      UnitMaskHas(c', u, d);
      UpdateDigit(c, u, p, v, d);
      if c[i] != 0 {
        InsertHas(UnitMask(c, u), c[i]);
      }
      if v != 0 {
        RemoveHas(Restore(UnitMask(c, u), c[i]), v);
      }
    }
    Extensionality(after, expected);
  }

  lemma UpdateDigit(c: seq<bv16>, u: seq<int>, p: int, v: bv16, d: bv16)
    requires IsBoard(c) && IsCellList(u) && 0 <= p < |u| && v <= 9 && 1 <= d <= 16
    requires c[u[p]] == 0 || forall j :: 0 <= j < |u| && u[j] != u[p] ==> c[u[j]] != c[u[p]]
    ensures (d <= 9 && Absent(c[u[p] := v], u, d))
        <==> (v == 0 || d != v) && ((d <= 9 && Absent(c, u, d)) || (c[u[p]] != 0 && d == c[u[p]]))
  {
    var i := u[p];
    var c' := c[i := v];
    if d == v {
      assert c'[u[p]] == d;
    } else if c[i] != 0 && d == c[i] {
      assert !Absent(c, u, d) by { assert c[u[p]] == d; }
      assert Absent(c', u, d) by {
        forall j | 0 <= j < |u| ensures c'[u[j]] != d {
          if u[j] != i {
            assert c'[u[j]] == c[u[j]];
          }
        }
      }
    } else {
      assert Absent(c', u, d) <==> Absent(c, u, d) by {
        forall j | 0 <= j < |u| ensures (c'[u[j]] != d <==> c[u[j]] != d) {
          if u[j] == i {
            assert c'[u[j]] == v && c[u[j]] == c[i];
          }
        }
      }
    }
  }

  /** Every row mask is the unit mask of its row in the filling `c`; likewise for columns and boxes. */
  ghost predicate RowsSynced(c: seq<bv16>, rows: seq<CandidateSet>)
    requires IsBoard(c)
  {
    |rows| == 9 && forall k :: 0 <= k < 9 ==> rows[k] == UnitMask(c, RowUnit(k))
  }

  ghost predicate ColsSynced(c: seq<bv16>, cols: seq<CandidateSet>)
    requires IsBoard(c)
  {
    |cols| == 9 && forall k :: 0 <= k < 9 ==> cols[k] == UnitMask(c, ColUnit(k))
  }

  ghost predicate BoxesSynced(c: seq<bv16>, boxes: seq<CandidateSet>)
    requires IsBoard(c)
  {
    |boxes| == 9 && forall k :: 0 <= k < 9 ==> boxes[k] == UnitMask(c, BoxUnit(k))
  }

  /** The three mask arrays are exactly what the filling `c` calls for. */
  ghost predicate Synced(c: seq<bv16>, rows: seq<CandidateSet>, cols: seq<CandidateSet>, boxes: seq<CandidateSet>)
  {
    IsBoard(c) && RowsSynced(c, rows) && ColsSynced(c, cols) && BoxesSynced(c, boxes)
  }

  /** The update `set` applies to the masks of the cell's units when the cell goes from `prev` to `v`. */
  function Retarget(m: CandidateSet, prev: bv16, v: bv16): CandidateSet
    requires prev <= 9 && v <= 9
  {
    Strike(Restore(m, prev), v)
  }

  /** The empty board with full masks is in sync. */
  lemma EmptySynced()
    ensures Synced(seq(81, _ => 0), seq(9, _ => FULL), seq(9, _ => FULL), seq(9, _ => FULL))
  {
    var c: seq<bv16> := seq(81, _ => 0);
    forall k | 0 <= k < 9
      ensures UnitMask(c, RowUnit(k)) == FULL && UnitMask(c, ColUnit(k)) == FULL && UnitMask(c, BoxUnit(k)) == FULL
    {
      EmptyUnitMask(c, RowUnit(k));
      EmptyUnitMask(c, ColUnit(k));
      EmptyUnitMask(c, BoxUnit(k));
    }
  }

  lemma {:induction false} EmptyUnitMask(c: seq<bv16>, u: seq<int>)
    requires IsBoard(c) && IsCellList(u) && forall k :: 0 <= k < 81 ==> c[k] == 0
    ensures UnitMask(c, u) == FULL
    decreases |u|
  {
    if |u| != 0 {
      EmptyUnitMask(c, u[1..]);
    }
  }

  /**
   * Writing a digit into cell `i`, and retargeting the masks of its row,
   * column and box the way `set` does, keeps the masks in sync, as long as
   * the cell was empty or its old digit occurred at none of its peers.
   */
  lemma SyncedAfterSet(c: seq<bv16>, rows: seq<CandidateSet>, cols: seq<CandidateSet>, boxes: seq<CandidateSet>, i: int, v: bv16)
    requires Synced(c, rows, cols, boxes) && 0 <= i < 81 && v <= 9
    requires c[i] == 0 || UniqueAt(c, i)
    ensures Synced(c[i := v],
                   rows[RowIndex(i) := Retarget(rows[RowIndex(i)], c[i], v)],
                   cols[ColIndex(i) := Retarget(cols[ColIndex(i)], c[i], v)],
                   boxes[GridIndex(i) := Retarget(boxes[GridIndex(i)], c[i], v)])
  {
    RowsAfterSet(c, rows, i, v);
    ColsAfterSet(c, cols, i, v);
    BoxesAfterSet(c, boxes, i, v);
  }

  lemma RowsAfterSet(c: seq<bv16>, rows: seq<CandidateSet>, i: int, v: bv16)
    requires IsBoard(c) && RowsSynced(c, rows) && 0 <= i < 81 && v <= 9
    requires c[i] == 0 || UniqueAt(c, i)
    ensures RowsSynced(c[i := v], rows[RowIndex(i) := Retarget(rows[RowIndex(i)], c[i], v)])
  {
    var c' := c[i := v];
    forall k | 0 <= k < 9
      ensures UnitMask(c', RowUnit(k)) == if k == RowIndex(i) then Retarget(rows[k], c[i], v) else rows[k]
    {
      if k == RowIndex(i) {
        CellInRow(i);
        forall j | 0 <= j < 9 && RowUnit(k)[j] != i ensures c[RowUnit(k)[j]] != c[i] || c[i] == 0 {
          RowUnitCells(k, j);
        }
        UnitMaskUpdate(c, RowUnit(k), ColIndex(i), v);
      } else {
        forall j | 0 <= j < 9 ensures RowUnit(k)[j] != i { RowUnitCells(k, j); }
        UnitMaskFrame(c, RowUnit(k), i, v);
      }
    }
  }

  lemma ColsAfterSet(c: seq<bv16>, cols: seq<CandidateSet>, i: int, v: bv16)
    requires IsBoard(c) && ColsSynced(c, cols) && 0 <= i < 81 && v <= 9
    requires c[i] == 0 || UniqueAt(c, i)
    ensures ColsSynced(c[i := v], cols[ColIndex(i) := Retarget(cols[ColIndex(i)], c[i], v)])
  {
    var c' := c[i := v];
    forall k | 0 <= k < 9
      ensures UnitMask(c', ColUnit(k)) == if k == ColIndex(i) then Retarget(cols[k], c[i], v) else cols[k]
    {
      if k == ColIndex(i) {
        CellInCol(i);
        forall j | 0 <= j < 9 && ColUnit(k)[j] != i ensures c[ColUnit(k)[j]] != c[i] || c[i] == 0 {
          ColUnitCells(k, j);
        }
        UnitMaskUpdate(c, ColUnit(k), RowIndex(i), v);
      } else {
        forall j | 0 <= j < 9 ensures ColUnit(k)[j] != i { ColUnitCells(k, j); }
        UnitMaskFrame(c, ColUnit(k), i, v);
      }
    }
  }

  lemma BoxesAfterSet(c: seq<bv16>, boxes: seq<CandidateSet>, i: int, v: bv16)
    requires IsBoard(c) && BoxesSynced(c, boxes) && 0 <= i < 81 && v <= 9
    requires c[i] == 0 || UniqueAt(c, i)
    ensures BoxesSynced(c[i := v], boxes[GridIndex(i) := Retarget(boxes[GridIndex(i)], c[i], v)])
  {
    var c' := c[i := v];
    forall k | 0 <= k < 9
      ensures UnitMask(c', BoxUnit(k)) == if k == GridIndex(i) then Retarget(boxes[k], c[i], v) else boxes[k]
    {
      if k == GridIndex(i) {
        CellInBox(i);
        forall j | 0 <= j < 9 && BoxUnit(k)[j] != i ensures c[BoxUnit(k)[j]] != c[i] || c[i] == 0 {
          BoxUnitCells(k, j);
        }
        UnitMaskUpdate(c, BoxUnit(k), BoxPos(i), v);
      } else {
        forall j | 0 <= j < 9 ensures BoxUnit(k)[j] != i { BoxUnitCells(k, j); }
        UnitMaskFrame(c, BoxUnit(k), i, v);
      }
    }
  }

  /** `get_candidates`: the AND of the column, row and box masks of cell `i`. */
  function CandidatesAt(rows: seq<CandidateSet>, cols: seq<CandidateSet>, boxes: seq<CandidateSet>, i: int): CandidateSet
    requires |rows| == 9 && |cols| == 9 && |boxes| == 9 && 0 <= i < 81
  {
    Intersect(Intersect(cols[ColIndex(i)], rows[RowIndex(i)]), boxes[GridIndex(i)])
  }

  /**
   * On masks in sync with the filling, the candidates of a cell are exactly
   * the digits that no cell in its row, column or box holds.
   */
  lemma CandidatesAllowed(c: seq<bv16>, rows: seq<CandidateSet>, cols: seq<CandidateSet>, boxes: seq<CandidateSet>, i: int, d: bv16)
    requires Synced(c, rows, cols, boxes) && 0 <= i < 81 && 1 <= d <= 16
    ensures Has(CandidatesAt(rows, cols, boxes, i), d) <==> Allowed(c, i, d)
  {
    IntersectHas(cols[ColIndex(i)], rows[RowIndex(i)]);
    IntersectHas(Intersect(cols[ColIndex(i)], rows[RowIndex(i)]), boxes[GridIndex(i)]);
    UnitMaskHas(c, RowUnit(RowIndex(i)), d);
    UnitMaskHas(c, ColUnit(ColIndex(i)), d);
    UnitMaskHas(c, BoxUnit(GridIndex(i)), d);
    AbsentFromUnits(c, i, d);
  }

  /** A digit is missing from the three units of `i` exactly when no cell seen from `i` holds it. */
  lemma AbsentFromUnits(c: seq<bv16>, i: int, d: bv16)
    requires IsBoard(c) && 0 <= i < 81
    ensures Absent(c, RowUnit(RowIndex(i)), d) && Absent(c, ColUnit(ColIndex(i)), d) && Absent(c, BoxUnit(GridIndex(i)), d)
        <==> forall j :: 0 <= j < 81 && Sees(i, j) ==> c[j] != d
  {
    var r, col, b := RowIndex(i), ColIndex(i), GridIndex(i);
    if Absent(c, RowUnit(r), d) && Absent(c, ColUnit(col), d) && Absent(c, BoxUnit(b), d) {
      forall j | 0 <= j < 81 && Sees(i, j) ensures c[j] != d {
        if RowIndex(j) == r {
          CellInRow(j);
        } else if ColIndex(j) == col {
          CellInCol(j);
        } else {
          CellInBox(j);
        }
      }
    }
    if forall j :: 0 <= j < 81 && Sees(i, j) ==> c[j] != d {
      forall k | 0 <= k < 9 ensures c[RowUnit(r)[k]] != d && c[ColUnit(col)[k]] != d && c[BoxUnit(b)[k]] != d {
        RowUnitCells(r, k);
        ColUnitCells(col, k);
        BoxUnitCells(b, k);
      }
    }
  }

  /** A line of nine values holds each digit 1..9, and nothing else. */
  ghost predicate IsDigitPermutation(line: seq<bv16>)
  {
    |line| == 9 && (forall k :: 0 <= k < 9 ==> 1 <= line[k] <= 9) && forall d: bv16 :: 1 <= d <= 9 ==> d in line
  }

  /** The slot of `occurance` that records digit `x`. */
  function Slot(x: bv16): (p: int)
    requires 1 <= x <= 9
    ensures 0 <= p < 9
  {
    (x - 1) as int
  }

  /** The digit recorded by slot `p`. */
  function SlotDigit(p: int): (d: bv16)
    requires 0 <= p < 9
    ensures 1 <= d <= 9 && Slot(d) == p
  {
    (p + 1) as bv16
  }

  lemma SlotInjective(x: bv16, y: bv16)
    requires 1 <= x <= 9 && 1 <= y <= 9 && Slot(x) == Slot(y)
    ensures x == y
  {
  }

  /** Some value among the first `j` of `line` is the digit of slot `p`. */
  ghost predicate Seen(line: seq<bv16>, j: int, p: int)
    requires 0 <= j <= |line|
  {
    exists k :: 0 <= k < j && 1 <= line[k] <= 9 && Slot(line[k]) == p
  }

  /**
   * `is_valid` on the nine values of a row, column or box: false on an
   * empty cell, otherwise true when every digit was seen. Values above 9
   * would index past the end of `occurance`; the values of a board are
   * digits, so they are excluded.
   */
  method IsValidLine(line: seq<bv16>) returns (ok: bool)
    requires |line| == 9 && forall k :: 0 <= k < 9 ==> line[k] <= 9
    ensures ok <==> IsDigitPermutation(line)
  {
    var occurance := new bool[9](_ => false);
    for j := 0 to 9
      invariant forall k :: 0 <= k < j ==> 1 <= line[k]
      invariant forall p :: 0 <= p < 9 ==> (occurance[p] <==> Seen(line, j, p))
    {
      if line[j] < 1 {
        return false;
      }
      occurance[Slot(line[j])] := true;
    }
    ok := forall p :: 0 <= p < 9 ==> occurance[p];
    SeenAllDigits(line);
  }

  /** Seeing every slot 0..8 of `occurance` is seeing every digit 1..9. */
  lemma SeenAllDigits(line: seq<bv16>)
    requires |line| == 9 && forall k :: 0 <= k < 9 ==> 1 <= line[k] <= 9
    ensures (forall p :: 0 <= p < 9 ==> Seen(line, 9, p)) <==> forall d: bv16 :: 1 <= d <= 9 ==> d in line
  {
    if forall p :: 0 <= p < 9 ==> Seen(line, 9, p) {
      SeenSlotsGiveDigits(line);
    }
    if forall d: bv16 :: 1 <= d <= 9 ==> d in line {
      DigitsGiveSeenSlots(line);
    }
  }

  lemma SeenSlotsGiveDigits(line: seq<bv16>)
    requires |line| == 9 && forall p :: 0 <= p < 9 ==> Seen(line, 9, p)
    ensures forall d: bv16 :: 1 <= d <= 9 ==> d in line
  {
    forall d: bv16 | 1 <= d <= 9 ensures d in line {
      assert Seen(line, 9, Slot(d));
      var k :| 0 <= k < 9 && 1 <= line[k] <= 9 && Slot(line[k]) == Slot(d);
      SlotInjective(line[k], d);
    }
  }

  lemma DigitsGiveSeenSlots(line: seq<bv16>)
    requires |line| == 9 && forall k :: 0 <= k < 9 ==> 1 <= line[k] <= 9
    requires forall d: bv16 :: 1 <= d <= 9 ==> d in line
    ensures forall p :: 0 <= p < 9 ==> Seen(line, 9, p)
  {
    forall p | 0 <= p < 9 ensures Seen(line, 9, p) {
      var d := SlotDigit(p);
      assert d in line;
      var k :| 0 <= k < 9 && line[k] == d;
    }
  }

  /** No value occurs twice in `line`. */
  ghost predicate Distinct(line: seq<bv16>)
  {
    forall a, b :: 0 <= a < b < |line| ==> line[a] != line[b]
  }

  /**
   * Nine values 1..9 hold every digit exactly when no two are equal: the
   * check `is_valid` makes (every digit seen) is the rule of the game (no
   * digit twice).
   */
  lemma PermutationIffDistinct(line: seq<bv16>)
    requires |line| == 9 && forall k :: 0 <= k < 9 ==> 1 <= line[k] <= 9
    ensures IsDigitPermutation(line) <==> Distinct(line)
  {
    if Distinct(line) {
      DistinctCovers(line);
    }
    if IsDigitPermutation(line) {
      CoverIsDistinct(line);
    }
  }

  /** The nine digits. */
  const DIGITS: set<bv16> := {1, 2, 3, 4, 5, 6, 7, 8, 9}

  lemma DigitsSize()
    ensures |DIGITS| == 9
  {
  }

  lemma InDigits(x: bv16)
    requires 1 <= x <= 9
    ensures x in DIGITS
  {
  }

  lemma ImgWithinDigits(line: seq<bv16>)
    requires |line| == 9 && forall k :: 0 <= k < 9 ==> 1 <= line[k] <= 9
    ensures Img(line, 9) <= DIGITS
  {
    forall x | x in Img(line, 9) ensures x in DIGITS {
      var k :| 0 <= k < 9 && line[k] == x;
      InDigits(x);
    }
  }

  lemma DistinctCovers(line: seq<bv16>)
    requires |line| == 9 && forall k :: 0 <= k < 9 ==> 1 <= line[k] <= 9
    requires Distinct(line)
    ensures forall d: bv16 :: 1 <= d <= 9 ==> d in line
  {
    ImgWithinDigits(line);
    ImgDistinct(line, 9);
    DigitsSize();
    SubsetSameSize(Img(line, 9), DIGITS);
    forall d: bv16 | 1 <= d <= 9 ensures d in line {
      InDigits(d);
      var k :| 0 <= k < 9 && line[k] == d;
    }
  }

  lemma CoverIsDistinct(line: seq<bv16>)
    requires |line| == 9 && forall k :: 0 <= k < 9 ==> 1 <= line[k] <= 9
    requires forall d: bv16 :: 1 <= d <= 9 ==> d in line
    ensures Distinct(line)
  {
    if !Distinct(line) {
      var a, b :| 0 <= a < b < 9 && line[a] == line[b];
      ImgRepeat(line, 9, a, b);
      forall d | d in DIGITS ensures d in Img(line, 9) {
        assert d in line;
        var k :| 0 <= k < 9 && line[k] == d;
      }
      DigitsSize();
      SubsetAtMost(DIGITS, Img(line, 9));
    }
  }

  /** The values among the first `n` of `line`. */
  ghost function Img(line: seq<bv16>, n: int): set<bv16>
    requires 0 <= n <= |line|
  {
    set k | 0 <= k < n :: line[k]
  }

  lemma ImgStep(line: seq<bv16>, n: int)
    requires 0 < n <= |line|
    ensures Img(line, n) == Img(line, n - 1) + {line[n - 1]}
  {
  }

  lemma {:induction false} ImgDistinct(line: seq<bv16>, n: int)
    requires 0 <= n <= |line| && Distinct(line)
    ensures |Img(line, n)| == n
  {
    if n == 0 {
      assert Img(line, 0) == {};
    } else {
      ImgDistinct(line, n - 1);
      ImgStep(line, n);
      assert line[n - 1] !in Img(line, n - 1);
    }
  }

  lemma {:induction false} ImgAtMost(line: seq<bv16>, n: int)
    requires 0 <= n <= |line|
    ensures |Img(line, n)| <= n
  {
    if n == 0 {
      assert Img(line, 0) == {};
    } else {
      ImgAtMost(line, n - 1);
      ImgStep(line, n);
    }
  }

  lemma {:induction false} ImgRepeat(line: seq<bv16>, n: int, a: int, b: int)
    requires 0 <= a < b < n <= |line| && line[a] == line[b]
    ensures |Img(line, n)| < n
  {
    ImgStep(line, n);
    if b == n - 1 {
      assert line[n - 1] in Img(line, n - 1);
      ImgAtMost(line, n - 1);
    } else {
      ImgRepeat(line, n - 1, a, b);
    }
  }

  lemma SubsetSameSize(a: set<bv16>, b: set<bv16>)
    requires a <= b && |a| == |b|
    ensures a == b
  {
    assert |b - a| == |b| - |a|;
  }

  lemma SubsetAtMost(a: set<bv16>, b: set<bv16>)
    requires a <= b
    ensures |a| <= |b|
  {
    assert |b - a| == |b| - |a|;
  }

  /** The values of the cells of `u`, in order: the array `is_valid` builds with `get`. */
  function LineOf(c: seq<bv16>, u: seq<int>): (line: seq<bv16>)
    requires |c| == 81 && IsCellList(u)
    ensures |line| == |u| && forall j :: 0 <= j < |u| ==> line[j] == c[u[j]]
  {
    seq(|u|, j requires 0 <= j < |u| => c[u[j]])
  }

  /** `Sudoku::is_valid`'s verdict: every row, every column and every box holds the nine digits. */
  ghost predicate BoardValid(c: seq<bv16>)
    requires IsBoard(c)
  {
    forall k :: 0 <= k < 9 ==>
      IsDigitPermutation(LineOf(c, RowUnit(k))) &&
      IsDigitPermutation(LineOf(c, ColUnit(k))) &&
      IsDigitPermutation(LineOf(c, BoxUnit(k)))
  }

  /** A solved board: every cell filled, no two peers alike. */
  ghost predicate Solved(c: seq<bv16>)
    requires IsBoard(c)
  {
    (forall i :: 0 <= i < 81 ==> c[i] != 0) && NoConflicts(c)
  }

  /** Checking the 27 lines is the same as the rule of the game. */
  lemma BoardValidIffSolved(c: seq<bv16>)
    requires IsBoard(c)
    ensures BoardValid(c) <==> Solved(c)
  {
    if BoardValid(c) {
      ValidIsSolved(c);
    }
    if Solved(c) {
      forall k | 0 <= k < 9
        ensures IsDigitPermutation(LineOf(c, RowUnit(k)))
        ensures IsDigitPermutation(LineOf(c, ColUnit(k)))
        ensures IsDigitPermutation(LineOf(c, BoxUnit(k)))
      {
        forall a, b | 0 <= a < b < 9 ensures RowUnit(k)[a] != RowUnit(k)[b] && Sees(RowUnit(k)[a], RowUnit(k)[b]) {
          RowUnitCells(k, a);
          RowUnitCells(k, b);
        }
        SolvedLine(c, RowUnit(k));
        forall a, b | 0 <= a < b < 9 ensures ColUnit(k)[a] != ColUnit(k)[b] && Sees(ColUnit(k)[a], ColUnit(k)[b]) {
          ColUnitCells(k, a);
          ColUnitCells(k, b);
        }
        SolvedLine(c, ColUnit(k));
        forall a, b | 0 <= a < b < 9 ensures BoxUnit(k)[a] != BoxUnit(k)[b] && Sees(BoxUnit(k)[a], BoxUnit(k)[b]) {
          BoxUnitCells(k, a);
          BoxUnitCells(k, b);
          BoxUnitDistinct(k, a, b);
        }
        SolvedLine(c, BoxUnit(k));
      }
    }
  }

  /** On a solved board, nine cells that all see each other hold the nine digits. */
  lemma SolvedLine(c: seq<bv16>, u: seq<int>)
    requires IsBoard(c) && Solved(c) && |u| == 9 && IsCellList(u)
    requires forall a, b :: 0 <= a < b < 9 ==> u[a] != u[b] && Sees(u[a], u[b])
    ensures IsDigitPermutation(LineOf(c, u))
  {
    var line := LineOf(c, u);
    forall a, b | 0 <= a < b < 9 ensures line[a] != line[b] {
      assert Peers(u[b], u[a]);
      assert UniqueAt(c, u[b]);
    }
    PermutationIffDistinct(line);
  }

  lemma ValidIsSolved(c: seq<bv16>)
    requires IsBoard(c) && BoardValid(c)
    ensures Solved(c)
  {
    forall i | 0 <= i < 81 ensures c[i] != 0 {
      CellInRow(i);
      assert LineOf(c, RowUnit(RowIndex(i)))[ColIndex(i)] == c[i];
    }
    forall i, j | 0 <= i < 81 && 0 <= j < 81 && c[i] != 0 && Peers(i, j) ensures c[j] != c[i] {
      PeersDiffer(c, i, j);
    }
  }

  lemma PeersDiffer(c: seq<bv16>, i: int, j: int)
    requires IsBoard(c) && BoardValid(c) && 0 <= i < 81 && 0 <= j < 81 && Peers(i, j)
    ensures c[j] != c[i]
  {
    if RowIndex(i) == RowIndex(j) {
      CellInRow(i);
      CellInRow(j);
      LineDistinct(c, RowUnit(RowIndex(i)), ColIndex(i), ColIndex(j));
    } else if ColIndex(i) == ColIndex(j) {
      CellInCol(i);
      CellInCol(j);
      LineDistinct(c, ColUnit(ColIndex(i)), RowIndex(i), RowIndex(j));
    } else {
      CellInBox(i);
      CellInBox(j);
      LineDistinct(c, BoxUnit(GridIndex(i)), BoxPos(i), BoxPos(j));
    }
  }

  /** Two positions of a line holding the nine digits hold different digits. */
  lemma LineDistinct(c: seq<bv16>, u: seq<int>, p: int, q: int)
    requires IsBoard(c) && IsCellList(u) && IsDigitPermutation(LineOf(c, u))
    requires 0 <= p < |u| && 0 <= q < |u| && p != q
    ensures c[u[p]] != c[u[q]]
  {
    var line := LineOf(c, u);
    PermutationIffDistinct(line);
    if p < q {
      assert line[p] != line[q];
    } else {
      assert line[q] != line[p];
    }
  }
}
