# Sudoku engine: a verified Dafny model

This project models the single-threaded core of a 9×9 Sudoku solver written in
Rust (`rust_solution/src/main.rs`), together with the three row, column and
block helpers of the Python prototype (`main.py`).

The Rust engine works as follows:

- **Board storage.** A board stores its 81 cells as four-bit nibbles, packed
  two to a byte in 41 bytes.
- **Candidate masks.** The board also keeps one 16-bit candidate mask per row,
  per column and per 3×3 box. Bit `d-1` of a mask means digit `d` is still
  free in that unit.
- **Writing a cell.** The single write operation, `set`, stores the nibble. It
  then gives the old digit back to the cell's three masks and takes the new
  digit out of them.
- **Search.** The solver is an iterative depth-first search over an explicit
  stack of 81 candidate iterators, one per position of a visiting order.
  - Each iterator hands out the digits of its mask, lowest first.
  - `u16::MAX` marks the position of a cell the puzzle fills.
  - The search hands every full board it reaches to a callback until the
    callback accepts one, the stack is exhausted, or a cancellation check
    answers true. No board is handed over twice.
  - When it ends with the stack exhausted, every solution of the input has
    been handed to the callback exactly once.
  - The cancellation check is consulted once every 100001 steps.

## Modules

| file | module | what it holds |
|---|---|---|
| `wrappers.dfy` | `Wrappers` | `Option` |
| `candidates.dfy` | `Candidates` | the mask (`bv16`), its operators, `CandidateSetIterator` and what draining one yields |
| `rules.dfy` | `Rules` | cell, row, column and box numbering; the mask a unit should carry; the line check; validity versus "solved" |
| `sudoku.dfy` | `Board` | class `Sudoku` over `array<bv8>` (41 bytes) and three `array<bv16>` (9 masks each); `get`, `set`, the constructors, `is_valid` |
| `search.dfy` | `Search` | `solve_single_thread` as methods over the board and an `array` of 81 iterators, its invariant and its termination measure |
| `puzzle_helpers.dfy` | `PuzzleHelpers` | `get_column_values` (a loop), `get_row_values` and `get_block_values` (set comprehensions) and the three test puzzles |

### Modelling choices

- **Iterator.** `CandidateSetIterator` is a value: `Next()` returns the yielded
  digit together with the following iterator. The in-place `next` on a stack
  slot is the array write in `Search.Advance`.
- **`Sudoku::Cells()`** is the 81-cell view of the packed bytes. The class
  invariant `Valid()` states the shape of the storage, that the unused high
  nibble of byte 40 is zero, and that every cell holds 0..9. `Synced()` states
  that every mask equals the unit mask of its row, column or box: `FULL` with
  the digit of every filled cell struck out.
- **`stack_idx`** is an `int`. The Rust `usize::MAX` is written -1, so the
  source's `wrapping_add` and `wrapping_sub` become `+ 1` and `- 1`.
- **`index_mapper`** is a permutation `order` of 0..80 (`IsOrder`). The only
  mapper the solver is called with is the identity (`Search.IdentityIsOrder`).
- **`callback`** is a pure function of the 81 cells.
- **`is_cancelled`** is an oracle `cancelled: nat -> bool`, where
  `cancelled(i)` is its answer the `i`-th time it is consulted.
- **Ghost results.** `SolveSingleThread` returns ghost records, which carry its
  contract:
  - `reported`: the boards handed to the callback;
  - `written`: the cells `set` was called on;
  - `outcome`: accepted, exhausted or cancelled;
  - `pops`: the steps the throttle counted;
  - `tries`: the digits `pop_task` wrote;
  - `asked`: how often `is_cancelled` was consulted.
- **Proof helpers.** The closures `pop_task` and `push_tasks` are methods. Their
  loops and single steps are methods of their own (`Backtrack`, `Retreat`,
  `Throttle`, `TryNext`, `ScanFixed`, `OpenSlot`); each carries its own
  contract.
- **The loop.** `Start` builds the stack, and `FirstPush` makes the first
  `push_tasks` call.
  A turn of the loop (`Turn`) is `pop_task` with the ends it can cause
  (`Round`), then `push_tasks` (`Extend`). The predicate `Going` names what
  holds at the head of the loop, and `Final` what holds when it stops.
- **Completeness.** A completion of the input is a solved board that keeps
  the input's digits (`Completion`).
  - A completion is *ahead* of the search (`Ahead`) when the first slot where
    it leaves the board is at most the current slot, and that slot still has
    the completion's digit to yield.
  - `Covered` says that every completion has been reported or is ahead. It
    holds at the head of the loop.
  - Each step keeps it: backtracking (`CoverBack`), `next` (`CoverNext`) and
    `push_tasks` (`CoverPush`).
  - Below slot 0 nothing is ahead, so an exhausted search has reported every
    completion (`CoverEnd`).
- **Distinct reports.** The dual of completeness says that no board is
  reported twice.
  - A reported board is *behind* the search (`Behind`) when the first slot
    where it leaves the board is at most the current slot, and that slot no
    longer has the board's digit to yield.
  - `Spent` says that the digit in the cell of every open slot has left its
    iterator.
  - `Once` says that the reports are distinct, and that each one is behind or
    agrees with the board up to the current slot. It holds at the head of the
    loop.
  - Each step keeps it: backtracking (`OnceBack`), `next` (`OnceNext`) and
    `push_tasks` (`OncePush`).
  - After `next` every report is behind, so the full board `push_tasks`
    reports next is none of them.
- **Termination.** The search terminates because what is left to try decreases
  at every turn. The measure `Num(Rank(..))` reads the digits a slot still has
  to yield as one number in base 18, with the first slot most significant.

On two points the model follows the code:

- **Polling interval.** The counter is compared with `> 100000` and then reset
  to 0, so `is_cancelled` is consulted on every 100001st counted step
  (`Search.Throttle`, `Search.SolveSingleThread`: `asked == pops / 100001`).
  A step is counted for every digit written, and for the step whose
  consultation answered true.
- **Inconsistent input.** The engine does not require a consistent input, and
  neither does the model. Every run is safe: fixed cells are kept and the masks
  stay in sync. On a consistent input, every reported board is in addition
  solved and passes `is_valid`.

## Model

| member | source | states |
|---|---|---|
| Candidates.IntersectHas | rust_solution/src/main.rs:85-91 | the AND of two masks holds a digit exactly when both masks hold it |
| Candidates.InsertHas | rust_solution/src/main.rs:79-83 | OR-ing in the bit of `d` adds `d` and keeps every other digit as it was |
| Candidates.RemoveHas | rust_solution/src/main.rs:73-77 | AND-ing with the complement of `d`'s bit drops `d` and keeps every other digit as it was |
| Candidates.FullHas | rust_solution/src/main.rs:23-27 | `CandidateSet::new()` holds exactly the digits 1..9 |
| Candidates.Extensionality | rust_solution/src/main.rs:21-22 | two masks holding the same digits are the same mask |
| Candidates.ILog2 | rust_solution/src/main.rs:41 | `ilog2` of a nonzero value is the position of its highest set bit (at most 15) |
| Candidates.LowDigit | rust_solution/src/main.rs:39-41 | the digit `ilog2 + 1` of the isolated lowest bit lies in 1..16 |
| Candidates.LowDigitIsLowest | rust_solution/src/main.rs:39-41 | that digit is in the mask, and no smaller digit is |
| Candidates.CandidateSetIterator.Next | rust_solution/src/main.rs:35-43 | `next` answers `None` exactly on the exhausted iterator (bits 0), which it leaves as it is |
| Candidates.NextYieldsLowest | rust_solution/src/main.rs:35-43 | on a non-exhausted iterator, `next` yields the smallest digit of the mask |
| Candidates.NextRemovesDigit | rust_solution/src/main.rs:39-40 | the iterator left behind is the old mask with exactly the yielded digit removed |
| Candidates.NextShrinks | rust_solution/src/main.rs:40 | the mask left behind is strictly smaller, so iteration ends |
| Candidates.DrainYieldsDigitsInOrder | rust_solution/src/main.rs:32-44 | iterating a mask until `None` yields exactly its digits, each once, in strictly ascending order |
| Candidates.DrainLength | rust_solution/src/main.rs:64-71 | an iterator made from a mask yields at most sixteen digits |
| Rules.RowIndex | rust_solution/src/main.rs:169-171 | `row_index(i)` is in 0..8 and cell `i` lies in that row's nine cell numbers |
| Rules.ColIndex | rust_solution/src/main.rs:173-175 | `col_index(i)` is in 0..8 and `i == 9 * row_index(i) + col_index(i)` |
| Rules.GridIndex | rust_solution/src/main.rs:163-167 | `grid_index(i)` is in 0..8 and equals `row / 3 * 3 + col / 3` |
| Rules.RowUnitCells | rust_solution/src/main.rs:169-175 | the `j`-th cell of row `r` has row index `r` and column index `j` |
| Rules.ColUnitCells | rust_solution/src/main.rs:169-175 | the `j`-th cell of column `c` has column index `c` and row index `j` |
| Rules.BoxUnitCells | rust_solution/src/main.rs:163-167 | every cell of box `b`, listed from its top-left cell, has grid index `b` |
| Rules.CellInBox | rust_solution/src/main.rs:163-167 | every cell occurs in the box its grid index names |
| Rules.UnitMaskHas | rust_solution/src/main.rs:137-147 | the mask a unit should carry holds exactly the digits 1..9 that no cell of the unit holds |
| Rules.UnitMaskFrame | rust_solution/src/main.rs:125-127 | writing a cell outside a unit leaves that unit's mask unchanged |
| Rules.UnitMaskUpdate | rust_solution/src/main.rs:137-147 | writing `v` into a unit's cell whose old digit occurs nowhere else in the unit turns its mask into "old digit restored, `v` struck" |
| Rules.EmptySynced | rust_solution/src/main.rs:245-250 | the all-zero board with all masks `0b111111111` is in sync |
| Rules.SyncedAfterSet | rust_solution/src/main.rs:122-149 | `set`'s update of the cell's own row, column and box masks keeps all 27 masks in sync, provided the cell was empty or its digit occurs at no peer |
| Rules.RowsAfterSet | rust_solution/src/main.rs:125 | the same for the nine row masks alone |
| Rules.ColsAfterSet | rust_solution/src/main.rs:126 | the same for the nine column masks alone |
| Rules.BoxesAfterSet | rust_solution/src/main.rs:127 | the same for the nine box masks alone |
| Rules.CandidatesAllowed | rust_solution/src/main.rs:177-182 | with the masks in sync, the AND of a cell's three masks holds `d` exactly when `d` is 1..9 and no cell seen from that cell holds it |
| Rules.AbsentFromUnits | rust_solution/src/main.rs:177-182 | a digit absent from a cell's row, column and box is one that no cell seen from it holds, and conversely |
| Rules.IsValidLine | rust_solution/src/main.rs:8-19 | `[u8; 9]::is_valid` answers true exactly when the nine values are a permutation of 1..9 |
| Rules.PermutationIffDistinct | rust_solution/src/main.rs:9-18 | nine values in 1..9 hold every digit exactly when no value repeats |
| Rules.BoardValidIffSolved | rust_solution/src/main.rs:185-240 | all 27 lines holding the nine digits is the same as every cell filled and no two peers alike |
| Board.WriteCell | rust_solution/src/main.rs:129-135 | writing a digit into cell `i`'s nibble changes cell `i` and no other, and keeps the unused nibble clear |
| Board.Sudoku.Get | rust_solution/src/main.rs:109-116 | `get(i)` is the low nibble of byte `i >> 1` for even `i`, the high one for odd `i`: the cell's value |
| Board.Sudoku.IsMissing | rust_solution/src/main.rs:118-120 | `is_missing(i)` holds exactly when cell `i` is 0 |
| Board.Sudoku.CandidatesOfCell | rust_solution/src/main.rs:177-182 | on a board whose masks are in sync, `get_candidates(i)` holds `d` exactly when no cell seen from `i` holds `d` |
| Board.Sudoku.EqualsIffSameCells | rust_solution/src/main.rs:101-105 | `eq` on the packed grid holds exactly when the 81 cells agree; the masks play no part |
| Board.SameCellsSameBytes | rust_solution/src/main.rs:101-105 | equal cells with the unused nibble clear mean equal bytes |
| Board.Sudoku.IsValid | rust_solution/src/main.rs:185-240 | `is_valid` answers true exactly when every row, column and box holds the nine digits |
| Board.RowLine | rust_solution/src/main.rs:188-198 | the nine values listed for row `i`, `get(i * 9)` to `get(i * 9 + 8)`, are the cells of row `i` in order |
| Board.ColLine | rust_solution/src/main.rs:204-214 | the nine values listed for column `i`, `get(i)` to `get(i + 9 * 8)`, are the cells of column `i` in order |
| Board.BoxLine | rust_solution/src/main.rs:222-232 | the nine values listed from a box start, `get(i)` to `get(i + 20)`, are the cells of that box in order |
| Board.BoxStarts | rust_solution/src/main.rs:221 | the box starts `0, 3, 6, 27, 30, 33, 54, 57, 60` are the top-left cells of boxes 0..8 |
| Board.Sudoku.Set | rust_solution/src/main.rs:122-149 | `set(i, v)` makes cell `i` hold `v` and changes no other cell; it changes only the masks of `i`'s row, column and box, restoring a nonzero old digit and striking a nonzero new one; sync is kept when the cell was empty or its digit unique |
| Board.Sudoku.WriteNibble | rust_solution/src/main.rs:123-135 | the nibble write returns the cell's old value and changes only that cell |
| Board.Sudoku.SetInSync | rust_solution/src/main.rs:122-149 | `set` on an empty cell or a cell whose digit is unique keeps the board valid and in sync |
| Board.Sudoku.SetNonzero | rust_solution/src/main.rs:251-255 | `if v != 0 { set(k, v) }` extends the board built so far by cell `k` |
| Board.Sudoku.FromDigits | rust_solution/src/main.rs:243-258 | from 81 digits: the board is in sync and `get(k)` is digit `k` for every `k` |
| Board.Sudoku.FromPacked | rust_solution/src/main.rs:260-280 | from 41 bytes: low nibble of byte `k` in cell `2k`, high nibble in cell `2k + 1` except for byte 40; in sync |
| Board.PackedCells | rust_solution/src/main.rs:268-276 | the two nibbles of byte `k` are cells `2k` and `2k + 1` of the packed input |
| Board.CharDigit | rust_solution/src/main.rs:291 | the digit of a character is its code minus that of `'0'` |
| Board.Sudoku.FromString | rust_solution/src/main.rs:282-298 | from a string of at most 81 digit characters: `get(k)` is character `k`'s digit, and 0 past the end of the string; in sync |
| Board.ZeroStringIsEmpty | rust_solution/src/main.rs:282-298 | the string `"0"` gives the empty board |
| Search.IdentityIsOrder | rust_solution/src/main.rs:440 | the identity mapper the solver is called with is a permutation of the 81 cells |
| Search.NewStack | rust_solution/src/main.rs:558-565 | a slot is marked fixed exactly when its cell is filled; every other slot is an empty iterator |
| Search.AllFixedIffFull | rust_solution/src/main.rs:561-565 | every slot is fixed exactly when the input fills every cell |
| Search.InitialInv | rust_solution/src/main.rs:558-565 | the initial stack, with `stack_idx` at `usize::MAX`, satisfies the search invariant |
| Search.Advance | rust_solution/src/main.rs:586 | `stack[k].next()` yields what `Next` yields, replaces slot `k` with the rest and leaves the other slots alone |
| Search.BacktrackStep | rust_solution/src/main.rs:569-573 | an exhausted slot's cell was empty in the input and may be cleared with the masks staying in sync; the slot below becomes current |
| Search.Backtrack | rust_solution/src/main.rs:569-574 | the loop of `pop_task` ends at -1 or at a slot with digits left, clears only cells the input left empty, and keeps the invariant, every completion reported or ahead, and every report behind or agreeing |
| Search.Throttle | rust_solution/src/main.rs:579-585 | the counter goes up by one and, once it passes 100000, is reset to 0 while `is_cancelled` is consulted; it stops exactly when that consultation answers true |
| Search.CounterSplit | rust_solution/src/main.rs:579-585 | the number of consultations is the number of counted steps divided by 100001 |
| Search.NextStep | rust_solution/src/main.rs:586 | the digit `next().unwrap()` yields is 1..9, may stand in the cell, and writing it keeps the invariant |
| Search.TryNext | rust_solution/src/main.rs:586 | writing the next digit of the current slot keeps the board in sync and the invariant; the slot's iterator moves on by one `next`; a completion that waited at the slot now agrees with the board up to it or still waits; every report is now behind |
| Search.SearchCellUnique | rust_solution/src/main.rs:571 | the digit the search put in a cell occurs at no peer, so clearing or rewriting it keeps the masks in sync |
| Search.ClampInv | rust_solution/src/main.rs:568 | `min(80)` after the last slot keeps the invariant |
| Search.StackExhausted | rust_solution/src/main.rs:575-577 | when the stack is exhausted, every cell the search wrote has been reset: the board is the input again |
| Search.PopTask | rust_solution/src/main.rs:567-592 | `pop_task`: true with a digit written, the measure decreased and every report behind; false when the stack is exhausted (no cancellation consulted then) or when `is_cancelled` answered true; when the stack is exhausted, every completion has been reported |
| Search.ScanFixed | rust_solution/src/main.rs:595-598 | the scan of `push_tasks` stops at the first slot after `stack_idx` that is not fixed, or at 81 |
| Search.SkipFixed | rust_solution/src/main.rs:595-598 | stepping over fixed slots keeps the invariant |
| Search.PushStep | rust_solution/src/main.rs:604 | opening a slot with the candidates of its cell keeps the invariant with that slot current |
| Search.OpenSlot | rust_solution/src/main.rs:604 | `stack[t] = get_candidates(..).into_iter()` changes slot `t` alone, fills it with exactly the digits the cell may take, and keeps the invariant |
| Search.FullBoard | rust_solution/src/main.rs:599-602 | past the last slot every cell is filled and the input's digits are kept; on a consistent input the board is solved |
| Search.PushTasks | rust_solution/src/main.rs:594-607 | the callback runs exactly when no slot after `stack_idx` is left open, on a full board that keeps the input and, on a consistent input, passes `is_valid`; false exactly when the callback accepts; the board is not changed; afterwards every completion is reported or ahead, and the reports, the new one included, are distinct |
| Search.NumLess | rust_solution/src/main.rs:610 | the termination measure: a smaller digit after an equal prefix gives a smaller number |
| Search.PopRank | rust_solution/src/main.rs:586 | taking a digit from the current slot decreases the measure |
| Search.PushRank | rust_solution/src/main.rs:604 | opening the next slot decreases the measure; reaching the end leaves it unchanged |
| Search.Start | rust_solution/src/main.rs:558-609 | after the stack is built and the first `push_tasks` runs, the invariant holds, every completion is ahead or reported, and the reports are distinct; the input itself is reported exactly when it is full, and nothing otherwise |
| Search.FirstPush | rust_solution/src/main.rs:609 | the first `push_tasks` on the stack as built: the board is unchanged, the invariant holds, every completion is ahead or reported, the reports are distinct, and the input is reported exactly when it is full |
| Search.Retreat | rust_solution/src/main.rs:569-573 | one step of the loop of `pop_task`: an exhausted slot's cell is set to 0 and a fixed one left alone; the invariant, the coverage of completions and the distinctness of reports move to the slot below |
| Search.CoverBack | rust_solution/src/main.rs:569-573 | backtracking over an exhausted or fixed slot drops no completion: none can be waiting at such a slot |
| Search.CoverNext | rust_solution/src/main.rs:586 | after `next` writes a digit, a completion that waited at the current slot either agrees with the board up to it or still waits for a digit the slot has left |
| Search.NextOne | rust_solution/src/main.rs:586 | the same for one completion |
| Search.CoverPush | rust_solution/src/main.rs:595-605 | after `push_tasks`, every completion that agreed with the board up to the written slot is the reported full board, or waits for a candidate of the slot opened |
| Search.PushAgreeing | rust_solution/src/main.rs:599-604 | a completion that agrees with the board up to the written slot is the full board past the last slot, or its digit is a candidate of the slot opened |
| Search.WaitingStays | rust_solution/src/main.rs:604 | opening a later slot leaves waiting completions waiting |
| Search.AgreesWithBoard | rust_solution/src/main.rs:604 | a completion that agrees with the board up to the written slot agrees with every digit on the board |
| Search.CompletionAllowed | rust_solution/src/main.rs:604 | a solved board that agrees with every digit on the board may fill any of its empty cells, so `get_candidates` offers its digit |
| Search.CoverClamp | rust_solution/src/main.rs:568 | `min(80)` after the last slot keeps every completion reported or ahead |
| Search.CoverEnd | rust_solution/src/main.rs:575-577 | with the stack exhausted, nothing is ahead: every completion has been reported |
| Search.FirstPushed | rust_solution/src/main.rs:609 | what the first `push_tasks` leaves, restated on the input board: the invariant, the coverage, distinct reports, and the input reported exactly when it is full |
| Search.OnceStart | rust_solution/src/main.rs:609 | before the first `push_tasks` nothing is reported, so the reports are trivially distinct and behind |
| Search.OnceBack | rust_solution/src/main.rs:569-573 | backtracking over an exhausted or fixed slot keeps every report behind the search or agreeing with the board below it |
| Search.BackOne | rust_solution/src/main.rs:569-573 | the same for one report, whatever the slot's cell becomes |
| Search.OnceClamp | rust_solution/src/main.rs:568 | `min(80)` after the last slot keeps every report behind or agreeing |
| Search.OnceNext | rust_solution/src/main.rs:586 | `next` writes a digit the slot has not yielded before and removes it from the iterator, so afterwards every report is behind the search |
| Search.NextBehind | rust_solution/src/main.rs:586 | the same for one full report |
| Search.OncePush | rust_solution/src/main.rs:595-605 | `push_tasks` keeps every report behind; the full board it reports past the last slot is none of the earlier reports, so the reports stay distinct |
| Search.StillBehind | rust_solution/src/main.rs:595-604 | opening a later slot leaves a report behind, and a report behind the search differs from the board |
| Search.Found | rust_solution/src/main.rs:813-842 | unless cancelled, a search of an input with a valid completion reports some board, and reports a completion that is the only board the callback accepts |
| Search.Round | rust_solution/src/main.rs:567-592 | `pop_task` in the loop: either a digit is written, one step and one digit more are counted and the measure is strictly smaller; or the search ends exhausted (board back to the input, every completion reported, no step counted) or cancelled (one step counted, the last consultation true), with nothing new reported and the reports distinct |
| Search.Stopped | rust_solution/src/main.rs:575-585 | an end caused by `pop_task` leaves every report rejected by the callback, the reports distinct and, when exhausted, every completion reported |
| Search.Extend | rust_solution/src/main.rs:594-607 | `push_tasks` in the loop: either the search goes on with the invariant kept, every completion reported or ahead, the reports distinct, every report rejected and the measure no larger, or it ends accepted with the board the last report and no report repeated |
| Search.Turn | rust_solution/src/main.rs:610 | one turn of the loop: the search goes on with the measure strictly smaller, or it ends with the facts of `Final`; counted steps and digits tried grow together, except for the step that finds the search cancelled |
| Search.Explore | rust_solution/src/main.rs:609-610 | the loop `while pop_task(..) && push_tasks(..) {}` ends, with the facts of `SolveSingleThread`, distinct reports among them |
| Search.SolveSingleThread | rust_solution/src/main.rs:557-611 | see the list below this table |
| PuzzleHelpers.GetColumnValues | main.py:42-49 | the loop collects exactly the strings other than "0" at position `index[1]` of every row |
| PuzzleHelpers.ColumnValuesStep | main.py:45-48 | one more row adds that row's entry in the column, if any |
| PuzzleHelpers.ColumnValuesExact | main.py:42-49 | a string is a column value exactly when it is not "0" and some row holds it at position `j` |
| PuzzleHelpers.ColumnAsSeq | main.py:42-49 | with every row long enough, the column value set is the non-"0" strings of the column read top to bottom |
| PuzzleHelpers.RowValuesExact | main.py:52-53 | a string is a row value exactly when it is not "0" and occurs in row `index[0]` |
| PuzzleHelpers.RowValuesIgnoreColumn | main.py:52-53 | the row values do not depend on `index[1]` |
| PuzzleHelpers.BlockValuesExact | main.py:56-64 | a string is a block value exactly when it is not "0" and sits at one of the nine positions of the block starting at `(i // 3 * 3, j // 3 * 3)` |
| PuzzleHelpers.BlockValuesPerBlock | main.py:57-58 | every index of the same block gives the same block values |
| PuzzleHelpers.BlockAsSeq | main.py:56-64 | the block value set is the non-"0" strings among its nine entries, read row by row |
| PuzzleHelpers.HelpersAvoidEmpty | main.py:42-64 | none of the three helpers returns "0", and each returns only strings the puzzle holds |
| PuzzleHelpers.SampleColumn | test.py:32-47 | for the sample puzzle, column 0 (index `(0, 0)`) holds all nine digits |
| PuzzleHelpers.SampleRow | test.py:50-65 | for the sample puzzle, row 0 holds all nine digits |
| PuzzleHelpers.SampleBlock | test.py:68-84 | for the sample puzzle, the block of index `(7, 6)` holds all nine digits |

`Search.SolveSingleThread` states the following for a board that is valid and
in sync and any visiting order:

- Fixed cells keep the input's digits. `set` is only ever called on cells the
  input leaves empty.
- Every board handed to the callback is full and keeps the input's digits. On a
  consistent input it is also solved and passes `is_valid`.
- Every reported board except the last was rejected by the callback. If the
  run does not end accepted and the input is not full, every reported board
  was rejected.
- **Accepted:** the board holds the last reported board, and the callback
  accepted it.
- No board is reported twice.
- **Exhausted:** the board is the input again, and every board that passes
  `is_valid` and keeps the input's digits has been reported, so exactly once.
- Unless the search is cancelled, an input with such a board gets at least one
  board reported. A board that passes `is_valid`, keeps the input's digits
  and is the only board the callback accepts is then among the reported ones.
- **Cancelled:** the last consultation of `is_cancelled` answered true and
  every earlier one false. Otherwise every consultation answered false.
- The number of consultations is the number of counted steps divided by 100001.
  The counted steps are the digits tried, plus one when the search ends
  cancelled.
- A fully filled input is reported exactly once, no cell is written, and the
  search ends exhausted.

The predicates `IsFixed` and `IsEmpty`, the constants `EMPTY_ITERATOR` and
`FIXED_ITERATOR` (`empty()` and `fixed()`), and `IntoIter` (main.rs:46-71)
are modelled one to one. They carry no contract of their own and are used by
the contracts above. The same holds for `Intersect`, `Insert`, `Remove` and
`GetCandidates`, the operators and the query whose meaning `IntersectHas`,
`InsertHas`, `RemoveHas` and `CandidatesOfCell` state. It also holds for
`PuzzleHelpers.GetRowValues` and `PuzzleHelpers.GetBlockValues`, whose meaning
`RowValuesExact` and `BlockValuesExact` state, and for `Board.Sudoku.Equals`
(`eq`), whose meaning `EqualsIffSameCells` states.

## Left out

- The multithreaded coordinator (`SharedContext`, `Solver`, the thread helpers,
  the commented-out parallel solver) is not modelled. It is concurrency, mutexes
  and thread scheduling.
- `Display`, `SingleLineDisplayAdaptor` and every `println!` are not modelled.
  With them goes the `DEBUG` branch of `pop_task`: it is output only.
- The Rust `tests` module and `main` are not modelled. They are the test
  harness and the entry point, with file I/O. `Search.SolveSingleThread`
  states what their assertions check of a single-threaded search:
  - on a consistent input, reported boards pass `is_valid`;
  - unless cancelled, an input with a solution gets a board reported, which
    `test_helper` asserts (main.rs:824);
  - unless cancelled, the expected answer, the only board the callback
    accepts, is reported, which `test_helper_with_answer` asserts
    (main.rs:842).
- The tests themselves run through the multithreaded `Solver`, which is not
  modelled. That their puzzles have solutions is not stated.
- `main.py`'s `solve` and `main`, and `test.py`'s CSV reading, are not
  modelled. `solve` is a stub returning a constant grid; the others are I/O.
- Search.SolveSingleThread: `callback` is a pure function and `is_cancelled`
  an oracle indexed by consultation. Neither can observe or change the board,
  and side effects of either are not modelled.
- Board.Sudoku.Set: requires `val <= 9`, which the class invariant asks of
  every cell.
  - Values 10..15 fit the nibble and the shift. They would leave a cell the
    invariant rules out, and would clear or restore mask bits 9..14.
  - Value 16 overflows the nibble. On an odd cell `val << 4` drops it; on an
    even cell it spills into the neighbouring cell.
  - Values 17 and above also overflow the 16-bit shift `1 << (val - 1)`.
  - The search only writes 0..9. `From<[u8; 81]>`, `From<[u8; 41]>` and
    `From<&str>` pass whatever their input holds.
- Board.Sudoku.FromDigits: requires digits `<= 9`, for the reasons given for
  `Set`.
- Board.Sudoku.FromPacked: requires every nibble of cells 0..80 to be `<= 9`.
  A nibble holds at most 15, so this leaves out the values 10..15.
- Board.Sudoku.FromString: requires at most 81 characters, all `'0'..'9'`.
  - A byte below `'0'` underflows `*v - '0'`.
  - The characters `':'` to `'?'` give 10..15, `'@'` gives 16, and later
    characters give 17 and more. What `Set` then does is described above.
  - Past position 80, a `'0'` is skipped by `if digit != 0`.
  - A nonzero digit at positions 81 to 255 makes `set` index past the masks
    or the grid, and panics.
  - From position 256 on, `k as u8` wraps, so the digit lands on cell `k - 256`.
- Rules.IsValidLine: requires values `<= 9`. A larger value would index past
  `occurance`, and board cells never hold one.
- The iterator's in-place `next` is modelled as the value function
  `CandidateSetIterator.Next` plus the array write `Search.Advance`.
  `Board.Sudoku.IsValid` reads the cells through `Cells()`, which `Get` is
  proved equal to, rather than calling `get` 27 × 9 times.
- PuzzleHelpers.GetRowValues: requires `0 <= index[0] < len(puzzle)`. Python's
  negative indices, which count from the end, are not modelled.
- PuzzleHelpers.GetBlockValues: requires a non-negative index whose 3×3 block
  lies inside the puzzle (`BlockInside`). Negative indices and ragged or
  too-small puzzles, where Python would wrap around or fail, are not modelled.
- PuzzleHelpers.SAMPLE: entries are Python strings; only their equality
  with `"0"` matters to the helpers.
