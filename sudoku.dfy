/**
 * The packed board: 81 cells of four bits each in 41 bytes (cell `i` is
 * the low nibble of byte `i / 2` when `i` is even, its high nibble when
 * `i` is odd; the high nibble of byte 40 belongs to no cell), together with
 * one candidate mask per row, column and box that `Set` keeps up to date.
 */
module Board {
  import opened Candidates
  import opened Rules

  /** The nibble of byte `b` that holds an odd (`high`) or even cell. */
  function Nibble(b: bv8, high: bool): bv8
  {
    if high then b >> 4 else b & 0xF
  }

  /** The byte `b` with its high nibble replaced by `v` (`*p & 0b1111 | v << 4`). */
  function WithHigh(b: bv8, v: bv8): bv8
  {
    (b & 0xF) | (v << 4)
  }

  /** The byte `b` with its low nibble replaced by `v` (`(*p & 0b11110000) | v`). */
  function WithLow(b: bv8, v: bv8): bv8
  {
    (b & 0xF0) | v
  }

  /** A nibble value as a digit of the candidate masks. */
  function Widen(x: bv8): bv16
  {
    x as bv16
  }

  /** The nibble of cell `i` in the packed bytes `g`. */
  function CellOf(g: seq<bv8>, i: int): bv8
    requires |g| == 41 && 0 <= i < 81
  {
    Nibble(g[i / 2], i % 2 == 1)
  }

  /** The 81 cells stored in the packed bytes `g`. */
  function CellsOf(g: seq<bv8>): (c: seq<bv16>)
    requires |g| == 41
    ensures |c| == 81
  {
    seq(81, i requires 0 <= i < 81 => Widen(CellOf(g, i)))
  }

  /** The byte of cell `i` after `set` wrote `v` into its nibble. */
  function Written(b: bv8, i: int, v: bv8): bv8
  {
    if i % 2 == 1 then WithHigh(b, v) else WithLow(b, v)
  }

  /** The high nibble of byte 40, which stands for no cell, is clear. */
  predicate PadClear(g: seq<bv8>)
    requires |g| == 41
  {
    g[40] >> 4 == 0
  }

  /**
   * Writing a digit into a nibble changes that cell and no other, keeps
   * every cell a digit and leaves the unused nibble alone.
   */
  lemma WriteCell(g: seq<bv8>, i: int, v: bv8)
    requires |g| == 41 && 0 <= i < 81 && v <= 9
    ensures CellsOf(g[i / 2 := Written(g[i / 2], i, v)]) == CellsOf(g)[i := Widen(v)]
    ensures PadClear(g) ==> PadClear(g[i / 2 := Written(g[i / 2], i, v)])
    ensures IsBoard(CellsOf(g)) ==> IsBoard(CellsOf(g[i / 2 := Written(g[i / 2], i, v)]))
    ensures IsBoard(CellsOf(g)) ==> CellOf(g, i) <= 9
  {
    WidenDigit(v);
    CellAt(g, i);
    if IsBoard(CellsOf(g)) {
      NarrowDigit(CellOf(g, i), CellsOf(g)[i]);
    }
    WriteCellOnly(g, i, v);
  }

  lemma WriteCellOnly(g: seq<bv8>, i: int, v: bv8)
    requires |g| == 41 && 0 <= i < 81 && v <= 15
    ensures CellsOf(g[i / 2 := Written(g[i / 2], i, v)]) == CellsOf(g)[i := Widen(v)]
    ensures g[40] >> 4 == 0 ==> g[i / 2 := Written(g[i / 2], i, v)][40] >> 4 == 0
  {
    var g' := g[i / 2 := Written(g[i / 2], i, v)];
    HighWritten(g[i / 2], v);
    LowWritten(g[i / 2], v);
    forall k | 0 <= k < 81 ensures CellOf(g', k) == if k == i then v else CellOf(g, k) {
      if k != i && k / 2 == i / 2 {
        assert k % 2 != i % 2;
      }
    }
  }

  class Sudoku {
    var grid: array<bv8>
    var rowCandidates: array<CandidateSet>
    var colCandidates: array<CandidateSet>
    var gridCandidates: array<CandidateSet>

    /**
     * The shape of the storage; the unused high nibble of byte 40 is zero
     * and every cell holds 0..9.
     */
    ghost predicate Valid()
      reads this, grid
    {
      grid.Length == 41 && rowCandidates.Length == 9 && colCandidates.Length == 9 && gridCandidates.Length == 9 &&
      rowCandidates != colCandidates && rowCandidates != gridCandidates && colCandidates != gridCandidates &&
      PadClear(grid[..]) && IsBoard(Cells())
    }

    /**
     * `From<[u8; 81]>`: start from the empty board with full masks and
     * `set` every nonzero input value.
     */
    constructor FromDigits(v: seq<bv8>)
      requires |v| == 81 && forall k :: 0 <= k < 81 ==> v[k] <= 9
      ensures Valid() && Synced()
      ensures Cells() == DigitCells(v)
      ensures forall k :: 0 <= k < 81 ==> Get(k) == v[k]
      ensures fresh(grid) && fresh(rowCandidates) && fresh(colCandidates) && fresh(gridCandidates)
    {
      ghost var target := DigitCells(v);
      grid := new bv8[41](_ => 0);
      rowCandidates := new CandidateSet[9](_ => FULL);
      colCandidates := new CandidateSet[9](_ => FULL);
      gridCandidates := new CandidateSet[9](_ => FULL);
      new;
      StartEmpty();
      for k := 0 to 81
        invariant Valid() && Synced()
        invariant fresh(grid) && fresh(rowCandidates) && fresh(colCandidates) && fresh(gridCandidates)
        invariant Cells() == Filled(target, k)
      {
        SetNonzero(target, k, v[k]);
      }
      FilledAll(target, 81);
      DigitsGet(v, grid[..]);
    }

    /**
     * `From<[u8; 41]>`: `set` the low nibble of byte `k` into cell `2k` and
     * its high nibble into cell `2k + 1`, except for byte 40, whose high
     * nibble is no cell.
     */
    constructor FromPacked(v: seq<bv8>)
      requires |v| == 41 && IsBoard(CellsOf(v))
      ensures Valid() && Synced()
      ensures Cells() == CellsOf(v)
      ensures forall k :: 0 <= k < 41 ==> Get(2 * k) == v[k] & 0xF
      ensures forall k :: 0 <= k < 40 ==> Get(2 * k + 1) == v[k] >> 4
      ensures fresh(grid) && fresh(rowCandidates) && fresh(colCandidates) && fresh(gridCandidates)
    {
      ghost var target := CellsOf(v);
      grid := new bv8[41](_ => 0);
      rowCandidates := new CandidateSet[9](_ => FULL);
      colCandidates := new CandidateSet[9](_ => FULL);
      gridCandidates := new CandidateSet[9](_ => FULL);
      new;
      StartEmpty();
      FilledAll(target, 81);
      for k := 0 to 41
        invariant Valid() && Synced()
        invariant fresh(grid) && fresh(rowCandidates) && fresh(colCandidates) && fresh(gridCandidates)
        invariant Cells() == Filled(target, 2 * k)
      {
        var v1 := v[k] & 0xF;
        var v2 := v[k] >> 4;
        PackedCells(v, k);
        SetNonzero(target, 2 * k, v1);
        // `if v2 != 0 && k != 40`
        if k != 40 {
          SetNonzero(target, 2 * k + 1, v2);
        } else {
          FilledAll(target, 82);
        }
      }
      FilledAll(target, 82);
      PackedGet(v, grid[..]);
    }

    /**
     * `From<&str>`: `set` character `k`'s digit into cell `k`; the cells past
     * the end of a short string stay empty.
     */
    constructor FromString(s: string)
      requires |s| <= 81 && forall k :: 0 <= k < |s| ==> '0' <= s[k] <= '9'
      ensures Valid() && Synced()
      ensures Cells() == StringCells(s)
      ensures forall k :: 0 <= k < 81 ==> Get(k) as int == if k < |s| then s[k] as int - '0' as int else 0
      ensures fresh(grid) && fresh(rowCandidates) && fresh(colCandidates) && fresh(gridCandidates)
    {
      ghost var target := StringCells(s);
      grid := new bv8[41](_ => 0);
      rowCandidates := new CandidateSet[9](_ => FULL);
      colCandidates := new CandidateSet[9](_ => FULL);
      gridCandidates := new CandidateSet[9](_ => FULL);
      new;
      StartEmpty();
      FilledAll(target, 81);
      for k := 0 to |s|
        invariant Valid() && Synced()
        invariant fresh(grid) && fresh(rowCandidates) && fresh(colCandidates) && fresh(gridCandidates)
        invariant Cells() == Filled(target, k)
      {
        var digit := CharDigit(s[k]);
        SetNonzero(target, k, digit);
      }
      StringRest(s);
      StringGet(s, grid[..]);
    }

    /** The fresh arrays of a constructor hold the empty board, in sync. */
    lemma StartEmpty()
      requires grid.Length == 41 && rowCandidates.Length == 9 && colCandidates.Length == 9 && gridCandidates.Length == 9
      requires rowCandidates != colCandidates && rowCandidates != gridCandidates && colCandidates != gridCandidates
      requires forall k :: 0 <= k < 41 ==> grid[k] == 0
      requires forall k :: 0 <= k < 9 ==> rowCandidates[k] == FULL && colCandidates[k] == FULL && gridCandidates[k] == FULL
      ensures PadClear(grid[..]) && Valid() && Synced() && Cells() == seq(81, _ => 0)
    {
      ZeroBytes(grid[..]);
      assert rowCandidates[..] == seq(9, _ => FULL);
      assert colCandidates[..] == seq(9, _ => FULL);
      assert gridCandidates[..] == seq(9, _ => FULL);
      EmptySynced();
    }

    /** `get`: the nibble of cell `index`. */
    function Get(index: int): (r: bv8)
      requires grid.Length == 41 && 0 <= index < 81
      reads this, grid
      ensures r <= 15 && r == CellOf(grid[..], index) && Widen(r) == Cells()[index]
    {
      Nibble(grid[index / 2], index % 2 == 1)
    }

    /** The 81 cell values. */
    function Cells(): (c: seq<bv16>)
      requires grid.Length == 41
      reads this, grid
      ensures |c| == 81
    {
      CellsOf(grid[..])
    }

    /** The three masks are exactly what the cells call for. */
    ghost predicate Synced()
      requires Valid()
      reads this, grid, rowCandidates, colCandidates, gridCandidates
    {
      Rules.Synced(Cells(), rowCandidates[..], colCandidates[..], gridCandidates[..])
    }

    /** `is_missing`. */
    function IsMissing(index: int): (r: bool)
      requires grid.Length == 41 && 0 <= index < 81
      reads this, grid
      ensures r <==> Cells()[index] == 0
    {
      Get(index) == 0
    }

    /** `get_candidates`: the digits the cell's row, column and box all still allow. */
    function GetCandidates(index: int): CandidateSet
      requires rowCandidates.Length == 9 && colCandidates.Length == 9 && gridCandidates.Length == 9
      requires 0 <= index < 81
      reads this, rowCandidates, colCandidates, gridCandidates
    {
      Intersect(Intersect(colCandidates[ColIndex(index)], rowCandidates[RowIndex(index)]), gridCandidates[GridIndex(index)])
    }

    /**
     * With the masks in sync, a cell's candidates are exactly the digits
     * that no cell of its row, column or box holds.
     */
    lemma CandidatesOfCell(index: int, d: bv16)
      requires Valid() && Synced() && 0 <= index < 81 && 1 <= d <= 16
      ensures Has(GetCandidates(index), d) <==> Allowed(Cells(), index, d)
    {
      CandidatesAllowed(Cells(), rowCandidates[..], colCandidates[..], gridCandidates[..], index, d);
    }

    /** `PartialEq`: two boards are equal when their packed bytes are. */
    function Equals(other: Sudoku): bool
      requires grid.Length == 41 && other.grid.Length == 41
      reads this, grid, other, other.grid
    {
      grid[..] == other.grid[..]
    }

    /** Comparing the bytes compares exactly the cells; the masks play no part. */
    lemma EqualsIffSameCells(other: Sudoku)
      requires Valid() && other.Valid()
      ensures Equals(other) <==> Cells() == other.Cells()
    {
      if Cells() == other.Cells() {
        SameCellsSameBytes(grid[..], other.grid[..]);
      }
    }

    /**
     * `MaybeValid for Sudoku`: check the nine rows and the nine columns, then
     * the nine boxes by their top-left cells.
     */
    method IsValid() returns (ok: bool)
      requires Valid()
      ensures ok <==> BoardValid(Cells())
    {
      // the cells as `get` reads them: `c[k] == Widen(Get(k))`
      var c := Cells();
      for i := 0 to 9
        invariant forall k :: 0 <= k < i ==>
          IsDigitPermutation(LineOf(Cells(), RowUnit(k))) && IsDigitPermutation(LineOf(Cells(), ColUnit(k)))
      {
        var row := seq(9, j requires 0 <= j < 9 => c[i * 9 + j]);
        RowLine(c, i, row);
        ok := IsValidLine(row);
        if !ok {
          return;
        }
        var col := seq(9, j requires 0 <= j < 9 => c[i + 9 * j]);
        ColLine(c, i, col);
        ok := IsValidLine(col);
        if !ok {
          return;
        }
      }
      var starts := [0, 3, 6, 27, 30, 33, 54, 57, 60];
      for b := 0 to 9
        invariant forall k :: 0 <= k < b ==> IsDigitPermutation(LineOf(Cells(), BoxUnit(k)))
      {
        var i := starts[b];
        BoxStarts(b, i);
        var box := seq(9, j requires 0 <= j < 9 => c[i + j / 3 * 9 + j % 3]);
        BoxLine(c, b, box);
        ok := IsValidLine(box);
        if !ok {
          return;
        }
      }
      return true;
    }

    /**
     * `set`: write `val` into the nibble of cell `index`, give the old digit
     * back to the masks of the cell's row, column and box and take the new
     * one out of them.
     */
    method Set(index: int, val: bv8)
      requires Valid() && 0 <= index < 81 && val <= 9
      modifies grid, rowCandidates, colCandidates, gridCandidates
      ensures Valid()
      ensures Cells() == old(Cells())[index := Widen(val)]
      ensures rowCandidates[..] == old(rowCandidates[..])[RowIndex(index) :=
        Retarget(old(rowCandidates[RowIndex(index)]), old(Cells())[index], Widen(val))]
      ensures colCandidates[..] == old(colCandidates[..])[ColIndex(index) :=
        Retarget(old(colCandidates[ColIndex(index)]), old(Cells())[index], Widen(val))]
      ensures gridCandidates[..] == old(gridCandidates[..])[GridIndex(index) :=
        Retarget(old(gridCandidates[GridIndex(index)]), old(Cells())[index], Widen(val))]
      ensures old(Synced()) && (old(Cells())[index] == 0 || UniqueAt(old(Cells()), index)) ==> Synced()
    {
      ghost var cells, rows, cols, boxes := Cells(), rowCandidates[..], colCandidates[..], gridCandidates[..];
      var oldval := WriteNibble(index, val);
      var r, c, b := RowIndex(index), ColIndex(index), GridIndex(index);
      var o, v := Widen(oldval), Widen(val);
      WidenDigit(val);
      // `|= 1 << (oldval - 1)` when `oldval != 0`, then `&= !(1 << (val - 1))` when `val != 0`
      rowCandidates[r] := Retarget(rowCandidates[r], o, v);
      colCandidates[c] := Retarget(colCandidates[c], o, v);
      gridCandidates[b] := Retarget(gridCandidates[b], o, v);
      if Rules.Synced(cells, rows, cols, boxes) && (cells[index] == 0 || UniqueAt(cells, index)) {
        SyncedAfterSet(cells, rows, cols, boxes, index, v);
      }
    }

    /**
     * One step of a constructor, `if v != 0 { sudoku.set(k, v) }`, while
     * it builds the board `target` cell by cell.
     */
    method SetNonzero(ghost target: seq<bv16>, index: int, val: bv8)
      requires Valid() && Synced() && |target| == 81 && 0 <= index < 81 && val <= 9
      requires Cells() == Filled(target, index) && target[index] == Widen(val)
      modifies grid, rowCandidates, colCandidates, gridCandidates
      ensures Valid() && Synced() && Cells() == Filled(target, index + 1)
    {
      FilledStep(target, index);
      WidenDigit(val);
      if val != 0 {
        Set(index, val);
      }
    }

    /** `set` where the masks stay in sync: the cell was empty or its digit occurs at no peer. */
    method SetInSync(index: int, val: bv8)
      requires Valid() && Synced() && 0 <= index < 81 && val <= 9
      requires Cells()[index] == 0 || UniqueAt(Cells(), index)
      modifies grid, rowCandidates, colCandidates, gridCandidates
      ensures Valid() && Synced() && Cells() == old(Cells())[index := Widen(val)]
    {
      Set(index, val);
    }

    /** The nibble half of `set`: store `val` in cell `index` and return the value it held. */
    method WriteNibble(index: int, val: bv8) returns (oldval: bv8)
      requires Valid() && 0 <= index < 81 && val <= 9
      modifies grid
      ensures Valid()
      ensures Cells() == old(Cells())[index := Widen(val)]
      ensures Widen(oldval) == old(Cells())[index] && oldval <= 9
    {
      ghost var g := grid[..];
      var pair := grid[index / 2];
      if index % 2 == 1 {
        oldval := pair >> 4;
        grid[index / 2] := WithHigh(pair, val);
      } else {
        oldval := pair & 0xF;
        grid[index / 2] := WithLow(pair, val);
      }
      assert oldval == CellOf(g, index);
      assert grid[..] == g[index / 2 := Written(pair, index, val)];
      WriteCell(g, index, val);
      CellAt(g, index);
    }
  }

  // Facts about nibbles, digit casts and the cell view, one per lemma, for the solver.
  lemma HighWritten(p: bv8, v: bv8)
    requires v <= 15
    ensures Nibble(WithHigh(p, v), true) == v && Nibble(WithHigh(p, v), false) == Nibble(p, false)
  {
  }

  lemma LowWritten(p: bv8, v: bv8)
    requires v <= 15
    ensures Nibble(WithLow(p, v), false) == v && Nibble(WithLow(p, v), true) == Nibble(p, true)
  {
  }

  lemma WidenDigit(x: bv8)
    requires x <= 9
    ensures Widen(x) <= 9 && (Widen(x) == 0 <==> x == 0)
  {
  }

  lemma NarrowDigit(x: bv8, w: bv16)
    requires Widen(x) == w && w <= 9
    ensures x <= 9
  {
  }

  lemma CellAt(g: seq<bv8>, i: int)
    requires |g| == 41 && 0 <= i < 81
    ensures CellsOf(g)[i] == Widen(CellOf(g, i))
  {
  }

  /** The 81 cells of `From<[u8; 81]>`'s input. */
  function DigitCells(v: seq<bv8>): (c: seq<bv16>)
    requires |v| == 81
    ensures |c| == 81
  {
    seq(81, i requires 0 <= i < 81 => Widen(v[i]))
  }

  /** The cells `c` up to `k`, the rest still empty: a constructor's progress. */
  function Filled(c: seq<bv16>, k: int): (f: seq<bv16>)
    requires |c| == 81
    ensures |f| == 81
  {
    seq(81, i requires 0 <= i < 81 => if i < k then c[i] else 0)
  }

  lemma FilledStep(c: seq<bv16>, k: int)
    requires |c| == 81 && 0 <= k < 81
    ensures Filled(c, k)[k] == 0 && Filled(c, k)[k := c[k]] == Filled(c, k + 1)
  {
  }

  lemma FilledAll(c: seq<bv16>, k: int)
    requires |c| == 81 && k >= 81
    ensures Filled(c, k) == c && Filled(c, 0) == seq(81, _ => 0)
  {
  }

  /** The nibbles of byte `k` are the cells `2k` and `2k + 1` of the packed input. */
  lemma PackedCells(v: seq<bv8>, k: int)
    requires |v| == 41 && 0 <= k < 41 && IsBoard(CellsOf(v))
    ensures v[k] & 0xF <= 9 && CellsOf(v)[2 * k] == Widen(v[k] & 0xF)
    ensures k != 40 ==> v[k] >> 4 <= 9 && CellsOf(v)[2 * k + 1] == Widen(v[k] >> 4)
  {
    CellAt(v, 2 * k);
    NarrowDigit(v[k] & 0xF, CellsOf(v)[2 * k]);
    if k != 40 {
      CellAt(v, 2 * k + 1);
      NarrowDigit(v[k] >> 4, CellsOf(v)[2 * k + 1]);
    }
  }

  /** The digit a character of `From<&str>`'s input stands for (`*v - '0' as u8`). */
  function CharDigit(ch: char): (d: bv8)
    requires '0' <= ch <= '9'
    ensures d <= 9 && d as int == ch as int - '0' as int
  {
    (ch as int - '0' as int) as bv8
  }

  /** The 81 cells `From<&str>` reads from `s`. */
  function StringCells(s: string): (c: seq<bv16>)
    requires |s| <= 81 && forall k :: 0 <= k < |s| ==> '0' <= s[k] <= '9'
    ensures |c| == 81
  {
    seq(81, i requires 0 <= i < 81 => if i < |s| then Widen(CharDigit(s[i])) else 0)
  }

  lemma StringRest(s: string)
    requires |s| <= 81 && forall k :: 0 <= k < |s| ==> '0' <= s[k] <= '9'
    ensures Filled(StringCells(s), |s|) == StringCells(s)
  {
  }

  /** The string `"0"` gives the empty board. */
  lemma ZeroStringIsEmpty()
    ensures StringCells("0") == seq(81, _ => 0)
  {
    assert CharDigit('0') == 0;
  }

  lemma DigitsGet(v: seq<bv8>, g: seq<bv8>)
    requires |v| == 81 && |g| == 41 && CellsOf(g) == DigitCells(v)
    ensures forall k :: 0 <= k < 81 ==> CellOf(g, k) == v[k]
  {
    forall k | 0 <= k < 81 ensures CellOf(g, k) == v[k] {
      CellAt(g, k);
      WidenInjective(CellOf(g, k), v[k]);
    }
  }

  lemma PackedGet(v: seq<bv8>, g: seq<bv8>)
    requires |v| == 41 && |g| == 41 && CellsOf(g) == CellsOf(v)
    ensures forall k :: 0 <= k < 41 ==> CellOf(g, 2 * k) == v[k] & 0xF
    ensures forall k :: 0 <= k < 40 ==> CellOf(g, 2 * k + 1) == v[k] >> 4
  {
    forall k | 0 <= k < 41 ensures CellOf(g, 2 * k) == v[k] & 0xF {
      CellAt(g, 2 * k);
      CellAt(v, 2 * k);
      WidenInjective(CellOf(g, 2 * k), CellOf(v, 2 * k));
    }
    forall k | 0 <= k < 40 ensures CellOf(g, 2 * k + 1) == v[k] >> 4 {
      CellAt(g, 2 * k + 1);
      CellAt(v, 2 * k + 1);
      WidenInjective(CellOf(g, 2 * k + 1), CellOf(v, 2 * k + 1));
    }
  }

  lemma StringGet(s: string, g: seq<bv8>)
    requires |s| <= 81 && forall k :: 0 <= k < |s| ==> '0' <= s[k] <= '9'
    requires |g| == 41 && CellsOf(g) == StringCells(s)
    ensures forall k :: 0 <= k < 81 ==> CellOf(g, k) as int == if k < |s| then s[k] as int - '0' as int else 0
  {
    forall k | 0 <= k < 81
      ensures CellOf(g, k) as int == if k < |s| then s[k] as int - '0' as int else 0
    {
      CellAt(g, k);
      if k < |s| {
        WidenInjective(CellOf(g, k), CharDigit(s[k]));
      } else {
        WidenInjective(CellOf(g, k), 0);
      }
    }
  }

  lemma WidenInjective(x: bv8, y: bv8)
    requires Widen(x) == Widen(y)
    ensures x == y
  {
  }

  /** Equal cells and a clear unused nibble leave no freedom in the bytes. */
  lemma SameCellsSameBytes(g: seq<bv8>, h: seq<bv8>)
    requires |g| == 41 && |h| == 41 && PadClear(g) && PadClear(h) && CellsOf(g) == CellsOf(h)
    ensures g == h
  {
    forall k | 0 <= k < 41 ensures g[k] == h[k] {
      CellAt(g, 2 * k);
      CellAt(h, 2 * k);
      WidenInjective(CellOf(g, 2 * k), CellOf(h, 2 * k));
      if k < 40 {
        CellAt(g, 2 * k + 1);
        CellAt(h, 2 * k + 1);
        WidenInjective(CellOf(g, 2 * k + 1), CellOf(h, 2 * k + 1));
      }
      NibblesDetermine(g[k], h[k]);
    }
  }

  lemma NibblesDetermine(a: bv8, b: bv8)
    requires a & 0xF == b & 0xF && a >> 4 == b >> 4
    ensures a == b
  {
  }

  /** The row that `is_valid` lists for `i` is row `i`, cell for cell. */
  lemma RowLine(c: seq<bv16>, i: int, line: seq<bv16>)
    requires |c| == 81 && 0 <= i < 9 && line == seq(9, j requires 0 <= j < 9 => c[i * 9 + j])
    ensures line == LineOf(c, RowUnit(i))
  {
  }

  /** The column that `is_valid` lists for `i` is column `i`. */
  lemma ColLine(c: seq<bv16>, i: int, line: seq<bv16>)
    requires |c| == 81 && 0 <= i < 9 && line == seq(9, j requires 0 <= j < 9 => c[i + 9 * j])
    ensures line == LineOf(c, ColUnit(i))
  {
  }

  /** The box that `is_valid` lists from its top-left cell `BoxStart(b)` is box `b`. */
  lemma BoxLine(c: seq<bv16>, b: int, line: seq<bv16>)
    requires |c| == 81 && 0 <= b < 9 && line == seq(9, j requires 0 <= j < 9 => c[BoxStart(b) + j / 3 * 9 + j % 3])
    ensures line == LineOf(c, BoxUnit(b))
  {
  }

  /** The box starts `0, 3, 6, 27, 30, 33, 54, 57, 60` that `is_valid` lists. */
  lemma BoxStarts(b: int, i: int)
    requires 0 <= b < 9 && i == [0, 3, 6, 27, 30, 33, 54, 57, 60][b]
    ensures i == BoxStart(b)
  {
  }

  /** All-zero bytes hold the empty board. */
  lemma ZeroBytes(g: seq<bv8>)
    requires |g| == 41 && forall k :: 0 <= k < 41 ==> g[k] == 0
    ensures CellsOf(g) == seq(81, _ => 0) && PadClear(g) && IsBoard(CellsOf(g))
  {
    forall i | 0 <= i < 81 ensures CellsOf(g)[i] == 0 {
      CellAt(g, i);
      ZeroNibble(g[i / 2], i % 2 == 1);
    }
  }

  lemma ZeroNibble(b: bv8, high: bool)
    requires b == 0
    ensures Widen(Nibble(b, high)) == 0
  {
  }
}
