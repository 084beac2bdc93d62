/**
 * `solve_single_thread`: depth-first search over an explicit stack of
 * candidate iterators, one slot per cell.  Slot `k` works on cell
 * `order[k]` (`index_mapper`), slots of cells the input fills are marked
 * fixed, and `stack_idx` is the current slot, with `usize::MAX` written -1.
 */
module Search {
  import opened Wrappers
  import opened Candidates
  import opened Rules
  import opened Board

  /** `index_mapper`: every slot names a cell and every cell has exactly one slot. */
  ghost predicate IsOrder(order: seq<int>)
  {
    |order| == 81 &&
    (forall k :: 0 <= k < 81 ==> 0 <= order[k] < 81) &&
    (forall k, k' :: 0 <= k < k' < 81 ==> order[k] != order[k']) &&
    (forall j :: 0 <= j < 81 ==> j in order)
  }

  /** `|x| x as u8`, the mapper the solver is called with. */
  lemma IdentityIsOrder()
    ensures IsOrder(seq(81, k => k))
  {
    var order := seq(81, k => k);
    forall j | 0 <= j < 81 ensures j in order {
      assert order[j] == j;
    }
  }

  /** A slot is marked fixed exactly when the input fills its cell. */
  ghost predicate FixedSlots(c0: seq<bv16>, st: seq<CandidateSetIterator>, order: seq<int>)
    requires IsOrder(order) && |c0| == 81
  {
    |st| == 81 && forall k :: 0 <= k < 81 ==> (st[k].IsFixed() <==> c0[order[k]] != 0)
  }

  /** The cells the input fills still hold the input's digits. */
  ghost predicate Kept(c0: seq<bv16>, c: seq<bv16>)
    requires |c0| == 81 && |c| == 81
  {
    forall j :: 0 <= j < 81 && c0[j] != 0 ==> c[j] == c0[j]
  }

  /**
   * Digit `d` can stand in the cell of slot `k` as far as the input cells
   * and the cells of the earlier slots are concerned.
   */
  ghost predicate FitsBelow(c: seq<bv16>, st: seq<CandidateSetIterator>, order: seq<int>, k: int, d: bv16)
    requires IsOrder(order) && |c| == 81 && |st| == 81 && 0 <= k < 81
  {
    1 <= d <= 9 &&
    forall k' :: 0 <= k' < 81 && (k' < k || st[k'].IsFixed()) && Peers(order[k], order[k']) ==> c[order[k']] != d
  }

  /** Slot `k`'s digit and the digits it has left all fit below it. */
  ghost predicate SlotSafe(c: seq<bv16>, st: seq<CandidateSetIterator>, order: seq<int>, k: int)
    requires IsOrder(order) && |c| == 81 && |st| == 81 && 0 <= k < 81
  {
    (c[order[k]] != 0 ==> FitsBelow(c, st, order, k, c[order[k]])) &&
    forall d: bv16 :: 1 <= d <= 16 && Has(st[k].bits, d) ==> FitsBelow(c, st, order, k, d)
  }

  /** The slots above the current one are exhausted and their cells empty. */
  ghost predicate AboveEmpty(c: seq<bv16>, st: seq<CandidateSetIterator>, order: seq<int>, idx: int)
    requires IsOrder(order) && |c| == 81 && |st| == 81
  {
    forall k :: 0 <= k < 81 && idx < k && !st[k].IsFixed() ==> st[k] == EMPTY_ITERATOR && c[order[k]] == 0
  }

  /** The search has a digit in every cell below the current slot. */
  ghost predicate FilledBelow(c: seq<bv16>, st: seq<CandidateSetIterator>, order: seq<int>, idx: int)
    requires IsOrder(order) && |c| == 81 && |st| == 81
  {
    forall k :: 0 <= k < 81 && k < idx && !st[k].IsFixed() ==> c[order[k]] != 0
  }

  /** Every slot up to the current one is safe. */
  ghost predicate SafeUpTo(c: seq<bv16>, st: seq<CandidateSetIterator>, order: seq<int>, idx: int)
    requires IsOrder(order) && |c| == 81 && |st| == 81
  {
    forall k :: 0 <= k < 81 && k <= idx && !st[k].IsFixed() ==> SlotSafe(c, st, order, k)
  }

  /** The search invariant: board `c`, stack `st` and slot `idx`, from input `c0`. */
  ghost predicate Inv(c0: seq<bv16>, c: seq<bv16>, st: seq<CandidateSetIterator>, order: seq<int>, idx: int)
    requires IsOrder(order) && |c0| == 81 && |c| == 81
  {
    FixedSlots(c0, st, order) && -1 <= idx <= 81 && Kept(c0, c) &&
    AboveEmpty(c, st, order, idx) && FilledBelow(c, st, order, idx) && SafeUpTo(c, st, order, idx)
  }

  /** Slot `idx` is fixed or holds a digit: what `push_tasks` starts from. */
  ghost predicate TopFilled(c: seq<bv16>, st: seq<CandidateSetIterator>, order: seq<int>, idx: int)
    requires IsOrder(order) && |c| == 81 && |st| == 81
  {
    idx == -1 || (0 <= idx < 81 && (st[idx].IsFixed() || c[order[idx]] != 0))
  }

  /**
   * Every board handed to the callback is full and keeps the input's
   * digits, and on a consistent input it is solved and passes `is_valid`.
   */
  ghost predicate GoodReports(c0: seq<bv16>, reported: seq<seq<bv16>>)
    requires IsBoard(c0)
  {
    forall i :: 0 <= i < |reported| ==>
      IsBoard(reported[i]) && (forall j :: 0 <= j < 81 ==> reported[i][j] != 0) && Kept(c0, reported[i]) &&
      (NoConflicts(c0) ==> Solved(reported[i]) && BoardValid(reported[i]))
  }

  /** Every cell in `written` is one the input leaves empty. */
  ghost predicate Untouched(c0: seq<bv16>, written: set<int>)
    requires |c0| == 81
  {
    forall j :: j in written ==> 0 <= j < 81 && c0[j] == 0
  }

  /** The first `n` consultations of `is_cancelled` answered false. */
  ghost predicate NoneCancelled(cancelled: nat -> bool, n: nat)
  {
    forall i :: 0 <= i < n ==> !cancelled(i)
  }

  /** The callback turned down every board in `reported`. */
  ghost predicate Rejected(callback: seq<bv16> -> bool, reported: seq<seq<bv16>>)
  {
    forall i :: 0 <= i < |reported| ==> !callback(reported[i])
  }

  // Completeness: every completion of the input is reported before the stack runs out.

  /** A completion of the input: a solved board that keeps the input's digits. */
  ghost predicate Completion(c0: seq<bv16>, s: seq<bv16>)
    requires IsBoard(c0)
  {
    IsBoard(s) && Solved(s) && Kept(c0, s)
  }

  /** Slot `k` is the first slot, in the order of the search, where boards `s` and `c` differ. */
  ghost predicate FirstDiff(s: seq<bv16>, c: seq<bv16>, order: seq<int>, k: int)
    requires IsOrder(order) && |s| == 81 && |c| == 81 && 0 <= k < 81
  {
    s[order[k]] != c[order[k]] && forall k' :: 0 <= k' < k ==> s[order[k']] == c[order[k']]
  }

  /** Boards `s` and `c` agree on the slots up to `j`. */
  ghost predicate SameUpTo(s: seq<bv16>, c: seq<bv16>, order: seq<int>, j: int)
    requires IsOrder(order) && |s| == 81 && |c| == 81
  {
    forall k :: 0 <= k <= j && k < 81 ==> s[order[k]] == c[order[k]]
  }

  /**
   * The search has still to try board `s`: the first slot where `s` leaves
   * the board is at most the current one, and has `s`'s digit left.
   */
  ghost predicate Ahead(s: seq<bv16>, c: seq<bv16>, st: seq<CandidateSetIterator>, order: seq<int>, idx: int)
    requires IsOrder(order) && IsBoard(s) && |c| == 81 && |st| == 81
  {
    exists k :: 0 <= k <= idx && k < 81 && FirstDiff(s, c, order, k) && s[order[k]] != 0 && Has(st[k].bits, s[order[k]])
  }

  /** Every completion of the input has been reported or is still ahead of the search. */
  ghost predicate Covered(c0: seq<bv16>, c: seq<bv16>, st: seq<CandidateSetIterator>, order: seq<int>, idx: int,
                          reported: seq<seq<bv16>>)
    requires IsOrder(order) && IsBoard(c0) && |c| == 81 && |st| == 81
  {
    forall s :: Completion(c0, s) ==> s in reported || Ahead(s, c, st, order, idx)
  }

  /**
   * Right after `pop_task` wrote slot `j`: a completion may also be one
   * that agrees with the board up to `j`, and which `push_tasks` goes on with.
   */
  ghost predicate CoveredAt(c0: seq<bv16>, c: seq<bv16>, st: seq<CandidateSetIterator>, order: seq<int>, j: int,
                            reported: seq<seq<bv16>>)
    requires IsOrder(order) && IsBoard(c0) && |c| == 81 && |st| == 81
  {
    forall s :: Completion(c0, s) ==> s in reported || Ahead(s, c, st, order, j) || SameUpTo(s, c, order, j)
  }

  // Reports are distinct: every reported board lies behind the search.

  /**
   * Board `r` lies behind the search: it leaves the board at a slot up to
   * `idx` whose iterator no longer holds `r`'s digit.
   */
  ghost predicate Behind(r: seq<bv16>, c: seq<bv16>, st: seq<CandidateSetIterator>, order: seq<int>, idx: int)
    requires IsOrder(order) && |r| == 81 && |c| == 81 && |st| == 81
  {
    exists k :: 0 <= k <= idx && k < 81 && FirstDiff(r, c, order, k) && 1 <= r[order[k]] <= 16 && !Has(st[k].bits, r[order[k]])
  }

  /** The digit in the cell of every open slot up to `idx` has left its iterator. */
  ghost predicate Spent(c: seq<bv16>, st: seq<CandidateSetIterator>, order: seq<int>, idx: int)
    requires IsOrder(order) && |c| == 81 && |st| == 81
  {
    forall k :: 0 <= k <= idx && k < 81 && !st[k].IsFixed() && 1 <= c[order[k]] <= 16 ==> !Has(st[k].bits, c[order[k]])
  }

  /** No board occurs twice. */
  ghost predicate NoRepeats(reported: seq<seq<bv16>>)
  {
    forall i, j :: 0 <= i < j < |reported| ==> reported[i] != reported[j]
  }

  /**
   * The reports are distinct, and each lies behind the search or agrees
   * with the board up to `idx`.
   */
  ghost predicate Once(c: seq<bv16>, st: seq<CandidateSetIterator>, order: seq<int>, idx: int, reported: seq<seq<bv16>>)
    requires IsOrder(order) && |c| == 81 && |st| == 81
  {
    Spent(c, st, order, idx) && NoRepeats(reported) &&
    forall i :: 0 <= i < |reported| ==>
      |reported[i]| == 81 && (Behind(reported[i], c, st, order, idx) || SameUpTo(reported[i], c, order, idx))
  }

  /** Right after `pop_task` wrote slot `j`: every report lies behind the search. */
  ghost predicate OnceAt(c: seq<bv16>, st: seq<CandidateSetIterator>, order: seq<int>, j: int, reported: seq<seq<bv16>>)
    requires IsOrder(order) && |c| == 81 && |st| == 81
  {
    Spent(c, st, order, j) && NoRepeats(reported) &&
    forall i :: 0 <= i < |reported| ==> |reported[i]| == 81 && Behind(reported[i], c, st, order, j)
  }

  /** Every completion of the input is among the reported boards. */
  ghost predicate AllReported(c0: seq<bv16>, reported: seq<seq<bv16>>)
    requires IsBoard(c0)
  {
    forall s :: Completion(c0, s) ==> s in reported
  }

  /**
   * What holds at the head of the search loop: the stack invariant at `idx`,
   * no cancellation so far, and every board reported so far turned down.
   */
  ghost predicate Going(c0: seq<bv16>, c: seq<bv16>, st: seq<CandidateSetIterator>, order: seq<int>,
                        callback: seq<bv16> -> bool, cancelled: nat -> bool, allFixed: bool,
                        idx: int, asked: nat, written: set<int>, reported: seq<seq<bv16>>)
    requires IsOrder(order) && IsBoard(c0) && |c| == 81
  {
    0 <= idx <= 81 && Inv(c0, c, st, order, idx) && NoneCancelled(cancelled, asked) &&
    Untouched(c0, written) && GoodReports(c0, reported) &&
    (!allFixed ==> Rejected(callback, reported)) &&
    (allFixed ==> reported == [c0] && written == {}) &&
    Covered(c0, c, st, order, idx, reported) && Once(c, st, order, idx, reported)
  }

  /**
   * What holds when the search stops with `outcome`: the accepted board is
   * the last one reported and all before it were turned down; an exhausted
   * search leaves the board as it found it; a cancelled one stops at the
   * first consultation that answered true.
   */
  ghost predicate Final(c0: seq<bv16>, c: seq<bv16>, callback: seq<bv16> -> bool, cancelled: nat -> bool,
                        allFixed: bool, outcome: Outcome, asked: nat, written: set<int>, reported: seq<seq<bv16>>)
    requires IsBoard(c0) && |c| == 81
  {
    Kept(c0, c) && Untouched(c0, written) && GoodReports(c0, reported) && NoRepeats(reported) &&
    (|reported| > 0 ==> Rejected(callback, reported[..|reported| - 1])) &&
    (outcome == Accepted ==> |reported| > 0 && c == reported[|reported| - 1] && callback(c)) &&
    (outcome != Accepted && !allFixed ==> Rejected(callback, reported)) &&
    (outcome == Exhausted ==> c == c0 && AllReported(c0, reported)) &&
    (outcome == Cancelled ==> asked > 0 && cancelled(asked - 1) && NoneCancelled(cancelled, asked - 1)) &&
    (outcome != Cancelled ==> NoneCancelled(cancelled, asked)) &&
    (allFixed ==> outcome == Exhausted && reported == [c0] && written == {})
  }

  /** Every slot is fixed exactly when the input fills every cell. */
  lemma AllFixedIffFull(c0: seq<bv16>, st: seq<CandidateSetIterator>, order: seq<int>)
    requires IsOrder(order) && |c0| == 81 && FixedSlots(c0, st, order)
    ensures (forall k :: 0 <= k < 81 ==> st[k].IsFixed()) <==> forall j :: 0 <= j < 81 ==> c0[j] != 0
  {
    if forall k :: 0 <= k < 81 ==> st[k].IsFixed() {
      forall j | 0 <= j < 81 ensures c0[j] != 0 {
        assert j in order;
        var k :| 0 <= k < 81 && order[k] == j;
      }
    }
  }

  /** The stack as the solver sets it up: fixed slots for the input's digits, the rest empty. */
  lemma InitialInv(c0: seq<bv16>, st: seq<CandidateSetIterator>, order: seq<int>)
    requires IsOrder(order) && |c0| == 81 && FixedSlots(c0, st, order)
    requires forall k :: 0 <= k < 81 && !st[k].IsFixed() ==> st[k] == EMPTY_ITERATOR
    ensures Inv(c0, c0, st, order, -1) && TopFilled(c0, st, order, -1)
  {
  }

  /** Only the cells of earlier slots and of fixed slots matter to `FitsBelow`. */
  lemma FitsBelowFrame(c: seq<bv16>, st: seq<CandidateSetIterator>, c': seq<bv16>, st': seq<CandidateSetIterator>,
                       order: seq<int>, k: int, d: bv16)
    requires IsOrder(order) && |c| == 81 && |st| == 81 && |c'| == 81 && |st'| == 81 && 0 <= k < 81
    requires forall k' :: 0 <= k' < 81 ==> (st[k'].IsFixed() <==> st'[k'].IsFixed())
    requires forall k' :: 0 <= k' < 81 && (k' < k || st[k'].IsFixed()) ==> c'[order[k']] == c[order[k']]
    requires FitsBelow(c, st, order, k, d)
    ensures FitsBelow(c', st', order, k, d)
  {
  }

  /**
   * A slot's safety survives changes to the cells and iterators of later
   * slots.
   */
  lemma SlotSafeFrame(c: seq<bv16>, st: seq<CandidateSetIterator>, c': seq<bv16>, st': seq<CandidateSetIterator>,
                      order: seq<int>, k: int)
    requires IsOrder(order) && |c| == 81 && |st| == 81 && |c'| == 81 && |st'| == 81 && 0 <= k < 81
    requires forall k' :: 0 <= k' < 81 ==> (st[k'].IsFixed() <==> st'[k'].IsFixed())
    requires forall k' :: 0 <= k' < 81 && (k' <= k || st[k'].IsFixed()) ==> c'[order[k']] == c[order[k']]
    requires st'[k] == st[k]
    requires SlotSafe(c, st, order, k)
    ensures SlotSafe(c', st', order, k)
  {
    if c'[order[k]] != 0 {
      FitsBelowFrame(c, st, c', st', order, k, c[order[k]]);
    }
    forall d: bv16 | 1 <= d <= 16 && Has(st'[k].bits, d) ensures FitsBelow(c', st', order, k, d) {
      FitsBelowFrame(c, st, c', st', order, k, d);
    }
  }

  /**
   * The digit the search put in a slot's cell occurs at no peer: earlier and
   * fixed peers by the slot's own safety, later ones by theirs.
   */
  lemma SearchCellUnique(c0: seq<bv16>, c: seq<bv16>, st: seq<CandidateSetIterator>, order: seq<int>, idx: int, k: int)
    requires IsOrder(order) && |c0| == 81 && |c| == 81 && Inv(c0, c, st, order, idx)
    requires 0 <= k < 81 && k <= idx && !st[k].IsFixed() && c[order[k]] != 0
    ensures UniqueAt(c, order[k])
  {
    var p := order[k];
    forall j | 0 <= j < 81 && Peers(p, j) ensures c[j] != c[p] {
      assert j in order;
      var k'' :| 0 <= k'' < 81 && order[k''] == j;
      if k'' > k && !st[k''].IsFixed() && c[j] != 0 {
        assert k'' <= idx;
        assert SlotSafe(c, st, order, k'');
        assert Peers(j, p);
      } else if k'' < k || st[k''].IsFixed() {
        assert SlotSafe(c, st, order, k);
      }
    }
  }

  /** The cells outside slot `idx` are those of other slots. */
  lemma OtherSlot(order: seq<int>, idx: int, k: int)
    requires IsOrder(order) && 0 <= idx < 81 && 0 <= k < 81 && k != idx
    ensures order[k] != order[idx]
  {
  }

  /**
   * Backtracking over an exhausted slot: `set(.., 0)` may empty its cell
   * (the masks stay in sync) and the slot below becomes the current one.
   */
  lemma BacktrackStep(c0: seq<bv16>, c: seq<bv16>, st: seq<CandidateSetIterator>, order: seq<int>, idx: int)
    requires IsOrder(order) && |c0| == 81 && |c| == 81 && Inv(c0, c, st, order, idx)
    requires 0 <= idx <= 80 && (st[idx].IsEmpty() || st[idx].IsFixed())
    ensures st[idx].IsFixed() ==> Inv(c0, c, st, order, idx - 1)
    ensures !st[idx].IsFixed() ==> c0[order[idx]] == 0 && (c[order[idx]] == 0 || UniqueAt(c, order[idx]))
    ensures !st[idx].IsFixed() ==> Inv(c0, c[order[idx] := 0], st, order, idx - 1)
  {
    if !st[idx].IsFixed() {
      var p := order[idx];
      var c' := c[p := 0];
      if c[p] != 0 {
        SearchCellUnique(c0, c, st, order, idx, idx);
      }
      forall k | 0 <= k < 81 && k <= idx - 1 && !st[k].IsFixed() ensures SlotSafe(c', st, order, k) {
        forall k' | 0 <= k' < 81 && (k' <= k || st[k'].IsFixed()) ensures c'[order[k']] == c[order[k']] {
          OtherSlot(order, idx, k');
        }
        SlotSafeFrame(c, st, c', st, order, k);
      }
      forall k | 0 <= k < 81 && k != idx ensures c'[order[k]] == c[order[k]] {
        OtherSlot(order, idx, k);
      }
    }
  }

  /**
   * `stack[idx].next()` on a current slot with digits left: the digit is
   * 1..9, the cell may take it, and the invariant holds with it written.
   */
  lemma NextStep(c0: seq<bv16>, c: seq<bv16>, st: seq<CandidateSetIterator>, order: seq<int>, idx: int)
    requires IsOrder(order) && |c0| == 81 && |c| == 81 && Inv(c0, c, st, order, idx)
    requires 0 <= idx <= 80 && !st[idx].IsEmpty() && !st[idx].IsFixed()
    ensures var (d, it) := st[idx].Next();
      d.Some? && 1 <= d.value <= 9 && !it.IsFixed() && it.bits < st[idx].bits &&
      c0[order[idx]] == 0 && (c[order[idx]] == 0 || UniqueAt(c, order[idx])) &&
      Inv(c0, c[order[idx] := d.value], st[idx := it], order, idx)
  {
    var (d, it) := st[idx].Next();
    var p := order[idx];
    var c', st' := c[p := d.value], st[idx := it];
    NextYieldsLowest(st[idx]);
    NextRemovesDigit(st[idx]);
    NextShrinks(st[idx]);
    RemoveHas(st[idx].bits, d.value);
    if c[p] != 0 {
      SearchCellUnique(c0, c, st, order, idx, idx);
    }
    assert SlotSafe(c, st, order, idx);
    assert FitsBelow(c, st, order, idx, d.value);
    forall k | 0 <= k < 81 && k != idx ensures c'[order[k]] == c[order[k]] && st'[k] == st[k] {
      OtherSlot(order, idx, k);
    }
    forall k | 0 <= k < 81 && k <= idx && !st'[k].IsFixed() ensures SlotSafe(c', st', order, k) {
      if k < idx {
        SlotSafeFrame(c, st, c', st', order, k);
      } else {
        FitsBelowFrame(c, st, c', st', order, idx, d.value);
        forall e: bv16 | 1 <= e <= 16 && Has(it.bits, e) ensures FitsBelow(c', st', order, idx, e) {
          FitsBelowFrame(c, st, c', st', order, idx, e);
        }
      }
    }
  }

  /** `push_tasks` steps over fixed slots only, so the slot it stops before is filled. */
  lemma SkipFixed(c0: seq<bv16>, c: seq<bv16>, st: seq<CandidateSetIterator>, order: seq<int>, idx: int, t: int)
    requires IsOrder(order) && |c0| == 81 && |c| == 81 && Inv(c0, c, st, order, idx) && TopFilled(c, st, order, idx)
    requires -1 <= idx < t <= 81 && forall k :: idx < k < t ==> st[k].IsFixed()
    ensures Inv(c0, c, st, order, t - 1) && TopFilled(c, st, order, t - 1)
    ensures t == 81 ==> Inv(c0, c, st, order, 81)
  {
  }

  /**
   * `push_tasks` opens slot `t` with the candidates of its cell: the
   * invariant holds with `t` as the current slot.
   */
  lemma PushStep(c0: seq<bv16>, c: seq<bv16>, st: seq<CandidateSetIterator>, order: seq<int>, t: int, cand: CandidateSet)
    requires IsOrder(order) && |c0| == 81 && |c| == 81
    requires Inv(c0, c, st, order, t - 1) && TopFilled(c, st, order, t - 1)
    requires 0 <= t <= 80 && !st[t].IsFixed()
    requires forall d: bv16 :: 1 <= d <= 16 ==> (Has(cand, d) <==> Allowed(c, order[t], d))
    ensures !IntoIter(cand).IsFixed()
    ensures Inv(c0, c, st[t := IntoIter(cand)], order, t)
  {
    var st' := st[t := IntoIter(cand)];
    assert !Has(cand, 16);
    assert Has(0xFFFF, 16);
    forall k | 0 <= k < 81 && k != t ensures st'[k] == st[k] {
    }
    forall k | 0 <= k < 81 && k <= t && !st'[k].IsFixed() ensures SlotSafe(c, st', order, k) {
      if k < t {
        SlotSafeFrame(c, st, c, st', order, k);
      } else {
        assert c[order[t]] == 0;
        forall d: bv16 | 1 <= d <= 16 && Has(st'[t].bits, d) ensures FitsBelow(c, st', order, t, d) {
          assert Allowed(c, order[t], d);
        }
      }
    }
  }

  /**
   * Past the last slot the board is full and keeps the input's digits; on a
   * consistent input it is solved.
   */
  lemma FullBoard(c0: seq<bv16>, c: seq<bv16>, st: seq<CandidateSetIterator>, order: seq<int>)
    requires IsOrder(order) && IsBoard(c0) && IsBoard(c) && Inv(c0, c, st, order, 81)
    ensures forall j :: 0 <= j < 81 ==> c[j] != 0
    ensures NoConflicts(c0) ==> Solved(c)
  {
    forall j | 0 <= j < 81 ensures c[j] != 0 {
      assert j in order;
      var k :| 0 <= k < 81 && order[k] == j;
    }
    if NoConflicts(c0) {
      forall i | 0 <= i < 81 && c[i] != 0 ensures UniqueAt(c, i) {
        assert i in order;
        var k :| 0 <= k < 81 && order[k] == i;
        if !st[k].IsFixed() {
          SearchCellUnique(c0, c, st, order, 81, k);
        } else {
          forall j | 0 <= j < 81 && Peers(i, j) ensures c[j] != c[i] {
            assert j in order;
            var k' :| 0 <= k' < 81 && order[k'] == j;
            if !st[k'].IsFixed() {
              SearchCellUnique(c0, c, st, order, 81, k');
              assert Peers(j, i);
            } else {
              assert UniqueAt(c0, i);
            }
          }
        }
      }
    }
  }

  /** With the stack exhausted, the board is the input again. */
  lemma StackExhausted(c0: seq<bv16>, c: seq<bv16>, st: seq<CandidateSetIterator>, order: seq<int>)
    requires IsOrder(order) && |c0| == 81 && |c| == 81 && Inv(c0, c, st, order, -1)
    ensures c == c0
  {
    forall j | 0 <= j < 81 ensures c[j] == c0[j] {
      assert j in order;
      var k :| 0 <= k < 81 && order[k] == j;
    }
  }

  // Completeness, step by step: no completion of the input is skipped.

  /** Before the first `push_tasks` no slot is decided, so every completion agrees up to slot -1. */
  lemma CoverStart(c0: seq<bv16>, c: seq<bv16>, st: seq<CandidateSetIterator>, order: seq<int>)
    requires IsOrder(order) && IsBoard(c0) && |c| == 81 && |st| == 81
    ensures CoveredAt(c0, c, st, order, -1, [])
  {
  }

  /**
   * A completion that agrees with the board up to slot `j` agrees with every
   * digit on it: the input's cells it keeps, and above `j` the cells are empty.
   */
  lemma AgreesWithBoard(c0: seq<bv16>, c: seq<bv16>, st: seq<CandidateSetIterator>, order: seq<int>, j: int,
                        s: seq<bv16>)
    requires IsOrder(order) && IsBoard(c0) && |c| == 81 && Inv(c0, c, st, order, j)
    requires Completion(c0, s) && SameUpTo(s, c, order, j)
    ensures forall i :: 0 <= i < 81 && c[i] != 0 ==> c[i] == s[i]
  {
    forall i | 0 <= i < 81 && c[i] != 0 ensures c[i] == s[i] {
      assert i in order;
      var k :| 0 <= k < 81 && order[k] == i;
      if k > j && st[k].IsFixed() {
        assert c0[i] != 0;
      }
    }
  }

  /** A solved board that agrees with every digit on the board may fill any empty cell of it. */
  lemma CompletionAllowed(c: seq<bv16>, s: seq<bv16>, p: int)
    requires |c| == 81 && IsBoard(s) && Solved(s) && 0 <= p < 81 && c[p] == 0
    requires forall i :: 0 <= i < 81 && c[i] != 0 ==> c[i] == s[i]
    ensures Allowed(c, p, s[p])
  {
    forall j | 0 <= j < 81 && Sees(p, j) ensures c[j] != s[p] {
      if j != p && c[j] != 0 {
        assert Peers(p, j);
        assert UniqueAt(s, p);
      }
    }
  }

  /**
   * `push_tasks` from slot `j`: a completion that agrees with the board up
   * to `j` is the full board reported past the last slot, or has its digit
   * among the candidates of the slot opened.
   */
  lemma CoverPush(c0: seq<bv16>, c: seq<bv16>, st: seq<CandidateSetIterator>, order: seq<int>, j: int, t: int,
                  it: CandidateSetIterator, reported: seq<seq<bv16>>)
    requires IsOrder(order) && IsBoard(c0) && |c| == 81 && Inv(c0, c, st, order, j)
    requires -1 <= j < t <= 81 && forall k :: j < k < t ==> st[k].IsFixed()
    requires CoveredAt(c0, c, st, order, j, reported)
    requires t <= 80 ==> !st[t].IsFixed() && forall d: bv16 :: 1 <= d <= 9 && Allowed(c, order[t], d) ==> Has(it.bits, d)
    ensures t <= 80 ==> Covered(c0, c, st[t := it], order, t, reported)
    ensures t == 81 ==> Covered(c0, c, st, order, 81, reported + [c])
  {
    var st' := if t <= 80 then st[t := it] else st;
    var r' := if t <= 80 then reported else reported + [c];
    forall s | Completion(c0, s) ensures s in r' || Ahead(s, c, st', order, t) {
      if s in reported {
      } else if Ahead(s, c, st, order, j) {
        WaitingStays(c, st, order, j, t, st', s);
      } else {
        PushAgreeing(c0, c, st, order, j, t, it, s);
      }
    }
  }

  /** A completion waiting at a slot up to `j` still waits there when only later slots change. */
  lemma WaitingStays(c: seq<bv16>, st: seq<CandidateSetIterator>, order: seq<int>, j: int, t: int,
                     st': seq<CandidateSetIterator>, s: seq<bv16>)
    requires IsOrder(order) && |c| == 81 && |st| == 81 && |st'| == 81 && IsBoard(s) && j < t
    requires forall k :: 0 <= k <= j && k < 81 ==> st'[k] == st[k]
    requires Ahead(s, c, st, order, j)
    ensures Ahead(s, c, st', order, t)
  {
    var k :| 0 <= k <= j && k < 81 && FirstDiff(s, c, order, k) && s[order[k]] != 0 && Has(st[k].bits, s[order[k]]);
    assert st'[k] == st[k];
  }

  /** The case of `CoverPush` for a completion that agrees with the board up to `j`. */
  lemma PushAgreeing(c0: seq<bv16>, c: seq<bv16>, st: seq<CandidateSetIterator>, order: seq<int>, j: int, t: int,
                     it: CandidateSetIterator, s: seq<bv16>)
    requires IsOrder(order) && IsBoard(c0) && |c| == 81 && Inv(c0, c, st, order, j)
    requires -1 <= j < t <= 81 && forall k :: j < k < t ==> st[k].IsFixed()
    requires Completion(c0, s) && SameUpTo(s, c, order, j)
    requires t <= 80 ==> !st[t].IsFixed() && forall d: bv16 :: 1 <= d <= 9 && Allowed(c, order[t], d) ==> Has(it.bits, d)
    ensures t <= 80 ==> Ahead(s, c, st[t := it], order, t)
    ensures t == 81 ==> s == c
  {
    forall k | j < k < t ensures s[order[k]] == c[order[k]] {
      assert c0[order[k]] != 0;
    }
    if t <= 80 {
      var p := order[t];
      AgreesWithBoard(c0, c, st, order, j, s);
      CompletionAllowed(c, s, p);
      assert FirstDiff(s, c, order, t);
      assert Has(st[t := it][t].bits, s[p]);
    } else {
      forall i | 0 <= i < 81 ensures s[i] == c[i] {
        assert i in order;
        var k :| 0 <= k < 81 && order[k] == i;
      }
    }
  }

  /** Backtracking over an exhausted or a fixed slot loses no completion: none can wait there. */
  lemma CoverBack(c0: seq<bv16>, c: seq<bv16>, st: seq<CandidateSetIterator>, order: seq<int>, idx: int,
                  reported: seq<seq<bv16>>)
    requires IsOrder(order) && IsBoard(c0) && |c| == 81 && Inv(c0, c, st, order, idx)
    requires 0 <= idx <= 80 && (st[idx].IsEmpty() || st[idx].IsFixed())
    requires Covered(c0, c, st, order, idx, reported)
    ensures st[idx].IsFixed() ==> Covered(c0, c, st, order, idx - 1, reported)
    ensures !st[idx].IsFixed() ==> Covered(c0, c[order[idx] := 0], st, order, idx - 1, reported)
  {
    var c' := if st[idx].IsFixed() then c else c[order[idx] := 0];
    forall s | Completion(c0, s) && s !in reported ensures Ahead(s, c', st, order, idx - 1) {
      var k :| 0 <= k <= idx && k < 81 && FirstDiff(s, c, order, k) && s[order[k]] != 0 && Has(st[k].bits, s[order[k]]);
      assert k != idx;
      forall k' | 0 <= k' <= k ensures c'[order[k']] == c[order[k']] {
        OtherSlot(order, idx, k');
      }
      assert FirstDiff(s, c', order, k);
    }
  }

  /**
   * `next` on the current slot: a completion waiting there takes the digit
   * just written, or still waits for one of the digits left.
   */
  lemma CoverNext(c0: seq<bv16>, c: seq<bv16>, st: seq<CandidateSetIterator>, order: seq<int>, idx: int,
                  reported: seq<seq<bv16>>)
    requires IsOrder(order) && IsBoard(c0) && |c| == 81 && |st| == 81
    requires 0 <= idx <= 80 && !st[idx].IsEmpty()
    requires Covered(c0, c, st, order, idx, reported)
    ensures var (d, it) := st[idx].Next();
      CoveredAt(c0, c[order[idx] := d.value], st[idx := it], order, idx, reported)
  {
    var (d, it) := st[idx].Next();
    var c', st' := c[order[idx] := d.value], st[idx := it];
    NextYieldsLowest(st[idx]);
    NextRemovesDigit(st[idx]);
    RemoveHas(st[idx].bits, d.value);
    forall s | Completion(c0, s) && s !in reported ensures Ahead(s, c', st', order, idx) || SameUpTo(s, c', order, idx) {
      NextOne(c, st, order, idx, s);
    }
  }

  /** The case of `CoverNext` for one completion waiting at or below the current slot. */
  lemma NextOne(c: seq<bv16>, st: seq<CandidateSetIterator>, order: seq<int>, idx: int, s: seq<bv16>)
    requires IsOrder(order) && |c| == 81 && |st| == 81 && IsBoard(s)
    requires 0 <= idx <= 80 && !st[idx].IsEmpty() && Ahead(s, c, st, order, idx)
    requires forall e: bv16 :: 1 <= e <= 16 ==>
      (Has(st[idx].Next().1.bits, e) <==> Has(st[idx].bits, e) && e != st[idx].Next().0.value)
    ensures var (d, it) := st[idx].Next();
      Ahead(s, c[order[idx] := d.value], st[idx := it], order, idx) || SameUpTo(s, c[order[idx] := d.value], order, idx)
  {
    var (d, it) := st[idx].Next();
    var p := order[idx];
    var c', st' := c[p := d.value], st[idx := it];
    var k :| 0 <= k <= idx && k < 81 && FirstDiff(s, c, order, k) && s[order[k]] != 0 && Has(st[k].bits, s[order[k]]);
    forall k' | 0 <= k' < 81 && k' != idx ensures c'[order[k']] == c[order[k']] && st'[k'] == st[k'] {
      OtherSlot(order, idx, k');
    }
    if k == idx && s[p] == d.value {
      assert SameUpTo(s, c', order, idx);
    } else {
      assert FirstDiff(s, c', order, k);
      assert Has(st'[k].bits, s[order[k]]);
    }
  }

  /** `min(80)` after the last slot: the slots that matter stay the same. */
  lemma CoverClamp(c0: seq<bv16>, c: seq<bv16>, st: seq<CandidateSetIterator>, order: seq<int>,
                   reported: seq<seq<bv16>>)
    requires IsOrder(order) && IsBoard(c0) && |c| == 81 && |st| == 81
    requires Covered(c0, c, st, order, 81, reported)
    ensures Covered(c0, c, st, order, 80, reported)
  {
    forall s | Completion(c0, s) && s !in reported ensures Ahead(s, c, st, order, 80) {
      var k :| 0 <= k <= 81 && k < 81 && FirstDiff(s, c, order, k) && s[order[k]] != 0 && Has(st[k].bits, s[order[k]]);
    }
  }

  /** Below the first slot nothing waits: every completion has been reported. */
  lemma CoverEnd(c0: seq<bv16>, c: seq<bv16>, st: seq<CandidateSetIterator>, order: seq<int>,
                 reported: seq<seq<bv16>>)
    requires IsOrder(order) && IsBoard(c0) && |c| == 81 && |st| == 81
    requires Covered(c0, c, st, order, -1, reported)
    ensures AllReported(c0, reported)
  {
  }

  // Distinct reports, step by step: no board is reached twice.

  /** Before the first `push_tasks` nothing is reported. */
  lemma OnceStart(c: seq<bv16>, st: seq<CandidateSetIterator>, order: seq<int>)
    requires IsOrder(order) && |c| == 81 && |st| == 81
    ensures OnceAt(c, st, order, -1, [])
  {
  }

  /** Backtracking over slot `idx`: whatever its cell becomes, the reports stay behind or agree below it. */
  lemma OnceBack(c: seq<bv16>, st: seq<CandidateSetIterator>, order: seq<int>, idx: int, reported: seq<seq<bv16>>)
    requires IsOrder(order) && |c| == 81 && |st| == 81 && 0 <= idx <= 80
    requires Once(c, st, order, idx, reported)
    ensures Once(c, st, order, idx - 1, reported)
    ensures Once(c[order[idx] := 0], st, order, idx - 1, reported)
  {
    var c' := c[order[idx] := 0];
    forall k | 0 <= k < 81 && k != idx ensures c'[order[k]] == c[order[k]] {
      OtherSlot(order, idx, k);
    }
    forall i | 0 <= i < |reported|
      ensures Behind(reported[i], c, st, order, idx - 1) || SameUpTo(reported[i], c, order, idx - 1)
      ensures Behind(reported[i], c', st, order, idx - 1) || SameUpTo(reported[i], c', order, idx - 1)
    {
      BackOne(c, c', st, order, idx, reported[i]);
      BackOne(c, c, st, order, idx, reported[i]);
    }
  }

  /** The case of `OnceBack` for one report, with the cell of slot `idx` changed in `c'` at most. */
  lemma BackOne(c: seq<bv16>, c': seq<bv16>, st: seq<CandidateSetIterator>, order: seq<int>, idx: int, r: seq<bv16>)
    requires IsOrder(order) && |c| == 81 && |c'| == 81 && |st| == 81 && |r| == 81 && 0 <= idx <= 80
    requires forall k :: 0 <= k < 81 && k != idx ==> c'[order[k]] == c[order[k]]
    requires Behind(r, c, st, order, idx) || SameUpTo(r, c, order, idx)
    ensures Behind(r, c', st, order, idx - 1) || SameUpTo(r, c', order, idx - 1)
  {
    if Behind(r, c, st, order, idx) {
      var k :| 0 <= k <= idx && k < 81 && FirstDiff(r, c, order, k) && 1 <= r[order[k]] <= 16 && !Has(st[k].bits, r[order[k]]);
      if k < idx {
        assert FirstDiff(r, c', order, k);
      }
    }
  }

  /** `min(80)` after the last slot keeps the reports behind or agreeing. */
  lemma OnceClamp(c: seq<bv16>, st: seq<CandidateSetIterator>, order: seq<int>, reported: seq<seq<bv16>>)
    requires IsOrder(order) && |c| == 81 && |st| == 81
    requires Once(c, st, order, 81, reported)
    ensures Once(c, st, order, 80, reported)
  {
    forall i | 0 <= i < |reported| ensures Behind(reported[i], c, st, order, 80) || SameUpTo(reported[i], c, order, 80) {
      var r := reported[i];
      if Behind(r, c, st, order, 81) {
        var k :| 0 <= k <= 81 && k < 81 && FirstDiff(r, c, order, k) && 1 <= r[order[k]] <= 16 && !Has(st[k].bits, r[order[k]]);
      }
    }
  }

  /**
   * `next` on the current slot writes a digit the slot had not yielded
   * before, so every report now lies behind the search.
   */
  lemma OnceNext(c0: seq<bv16>, c: seq<bv16>, st: seq<CandidateSetIterator>, order: seq<int>, idx: int,
                 reported: seq<seq<bv16>>)
    requires IsOrder(order) && IsBoard(c0) && |c| == 81 && |st| == 81 && GoodReports(c0, reported)
    requires 0 <= idx <= 80 && !st[idx].IsEmpty() && !st[idx].IsFixed()
    requires Once(c, st, order, idx, reported)
    ensures var (d, it) := st[idx].Next();
      OnceAt(c[order[idx] := d.value], st[idx := it], order, idx, reported)
  {
    var (d, it) := st[idx].Next();
    var c', st' := c[order[idx] := d.value], st[idx := it];
    NextYieldsLowest(st[idx]);
    NextRemovesDigit(st[idx]);
    RemoveHas(st[idx].bits, d.value);
    forall k | 0 <= k < 81 && k != idx ensures c'[order[k]] == c[order[k]] && st'[k] == st[k] {
      OtherSlot(order, idx, k);
    }
    forall i | 0 <= i < |reported| ensures Behind(reported[i], c', st', order, idx) {
      assert reported[i][order[idx]] != 0;
      NextBehind(c, st, order, idx, reported[i]);
    }
  }

  /** The case of `OnceNext` for one full report. */
  lemma NextBehind(c: seq<bv16>, st: seq<CandidateSetIterator>, order: seq<int>, idx: int, r: seq<bv16>)
    requires IsOrder(order) && |c| == 81 && |st| == 81 && IsBoard(r) && 0 <= idx <= 80
    requires !st[idx].IsEmpty() && !st[idx].IsFixed() && r[order[idx]] != 0
    requires Spent(c, st, order, idx)
    requires forall e: bv16 :: 1 <= e <= 16 ==>
      (Has(st[idx].Next().1.bits, e) <==> Has(st[idx].bits, e) && e != st[idx].Next().0.value)
    requires Has(st[idx].bits, st[idx].Next().0.value)
    requires Behind(r, c, st, order, idx) || SameUpTo(r, c, order, idx)
    ensures var (d, it) := st[idx].Next();
      Behind(r, c[order[idx] := d.value], st[idx := it], order, idx)
  {
    var (d, it) := st[idx].Next();
    var p := order[idx];
    var c', st' := c[p := d.value], st[idx := it];
    forall k' | 0 <= k' < 81 && k' != idx ensures c'[order[k']] == c[order[k']] && st'[k'] == st[k'] {
      OtherSlot(order, idx, k');
    }
    if SameUpTo(r, c, order, idx) {
      assert r[p] == c[p];
      assert FirstDiff(r, c', order, idx);
    } else {
      var k :| 0 <= k <= idx && k < 81 && FirstDiff(r, c, order, k) && 1 <= r[order[k]] <= 16 && !Has(st[k].bits, r[order[k]]);
      assert FirstDiff(r, c', order, k);
      assert !Has(st'[k].bits, r[order[k]]);
    }
  }

  /**
   * `push_tasks` from slot `j`: the reports stay behind the search, so the
   * full board it reports past the last slot is none of them.
   */
  lemma OncePush(c: seq<bv16>, st: seq<CandidateSetIterator>, order: seq<int>, j: int, t: int,
                 it: CandidateSetIterator, reported: seq<seq<bv16>>)
    requires IsOrder(order) && |c| == 81 && |st| == 81
    requires -1 <= j < t <= 81 && forall k :: j < k < t ==> st[k].IsFixed()
    requires t <= 80 ==> c[order[t]] == 0
    requires OnceAt(c, st, order, j, reported)
    ensures t <= 80 ==> Once(c, st[t := it], order, t, reported)
    ensures t == 81 ==> c !in reported && Once(c, st, order, 81, reported + [c])
  {
    var st' := if t <= 80 then st[t := it] else st;
    forall i | 0 <= i < |reported| ensures Behind(reported[i], c, st', order, t) && reported[i] != c {
      StillBehind(c, st, st', order, j, t, reported[i]);
    }
    if t == 81 {
      var r' := reported + [c];
      forall i | 0 <= i < |r'| ensures Behind(r'[i], c, st, order, 81) || SameUpTo(r'[i], c, order, 81) {
        if i < |reported| {
          assert r'[i] == reported[i];
        }
      }
    }
  }

  /** A report behind the search at a slot up to `j` stays behind when only later slots change, and is not the board. */
  lemma StillBehind(c: seq<bv16>, st: seq<CandidateSetIterator>, st': seq<CandidateSetIterator>, order: seq<int>,
                    j: int, t: int, r: seq<bv16>)
    requires IsOrder(order) && |c| == 81 && |st| == 81 && |st'| == 81 && |r| == 81 && j < t
    requires forall k :: 0 <= k <= j && k < 81 ==> st'[k] == st[k]
    requires Behind(r, c, st, order, j)
    ensures Behind(r, c, st', order, t) && r != c
  {
    var k :| 0 <= k <= j && k < 81 && FirstDiff(r, c, order, k) && 1 <= r[order[k]] <= 16 && !Has(st[k].bits, r[order[k]]);
    assert st'[k] == st[k];
  }

  // The search ends: a lexicographic rank over the slots, encoded as a number.

  const BASE: nat := 18

  /** The entries of `s` as the digits of a number in base `BASE`, most significant first. */
  function Num(s: seq<nat>): nat
  {
    if |s| == 0 then 0 else Num(s[..|s| - 1]) * BASE + s[|s| - 1]
  }

  /** How many digits an iterator has still to yield. */
  ghost function Left(it: CandidateSetIterator): (n: nat)
    ensures n <= 16
  {
    DrainLength(it);
    |Drain(it)|
  }

  /**
   * What is left to try in each slot: nothing in a fixed slot, the
   * remaining digits up to the current slot, more than any mask holds above it.
   */
  ghost function Rank(st: seq<CandidateSetIterator>, idx: int): (r: seq<nat>)
    requires |st| == 81
    ensures |r| == 81
  {
    seq(81, k requires 0 <= k < 81 => if st[k].IsFixed() then 0 else if k <= idx then Left(st[k]) else 17)
  }

  /** Every entry of a rank is a digit in base `BASE`. */
  lemma RankDigits(st: seq<CandidateSetIterator>, idx: int)
    requires |st| == 81
    ensures forall k :: 0 <= k < 81 ==> Rank(st, idx)[k] < BASE
  {
  }

  // Two facts of multiplication for the proof below, the solver's nonlinear arithmetic being weak.
  lemma MulSucc(a: nat, p: nat)
    ensures (a + 1) * p == a * p + p
  {
  }

  lemma MulMono(a: nat, b: nat, p: nat)
    requires a <= b
    ensures a * p <= b * p
  {
  }

  /** A smaller entry after an equal prefix gives a smaller number. */
  lemma {:induction false} NumLess(s: seq<nat>, t: seq<nat>, k: int)
    requires |s| == |t| && 0 <= k < |s|
    requires forall i :: 0 <= i < |s| ==> s[i] < BASE && t[i] < BASE
    requires forall i :: 0 <= i < k ==> s[i] == t[i]
    requires s[k] < t[k]
    ensures Num(s) < Num(t)
    decreases |s|
  {
    var n := |s|;
    var ps, pt := s[..n - 1], t[..n - 1];
    if k == n - 1 {
      assert ps == pt;
    } else {
      NumLess(ps, pt, k);
      MulSucc(Num(ps), BASE);
      MulMono(Num(ps) + 1, Num(pt), BASE);
    }
  }

  /** `pop_task`: the slot it steps had digits left, and the slots below it are untouched. */
  lemma PopRank(st: seq<CandidateSetIterator>, idx: int, top: int, it: CandidateSetIterator)
    requires |st| == 81 && 0 <= top <= 80 && top <= idx
    requires !st[top].IsFixed() && !st[top].IsEmpty() && it == st[top].Next().1 && !it.IsFixed()
    ensures Num(Rank(st[top := it], top)) < Num(Rank(st, idx))
  {
    var r, r' := Rank(st, idx), Rank(st[top := it], top);
    forall i | 0 <= i < top ensures r'[i] == r[i] {
    }
    assert Drain(st[top]) == [st[top].Next().0.value] + Drain(it);
    assert r'[top] == Left(it) < Left(st[top]) == r[top];
    RankDigits(st, idx);
    RankDigits(st[top := it], top);
    NumLess(r', r, top);
  }

  /** `push_tasks`: the slot it opens had everything left; past the last slot nothing changes. */
  lemma PushRank(st: seq<CandidateSetIterator>, idx: int, t: int, it: CandidateSetIterator)
    requires |st| == 81 && -1 <= idx < t <= 81
    requires forall k :: idx < k < t ==> st[k].IsFixed()
    requires t <= 80 ==> !st[t].IsFixed() && !it.IsFixed()
    ensures t <= 80 ==> Num(Rank(st[t := it], t)) < Num(Rank(st, idx))
    ensures t == 81 ==> Rank(st, t) == Rank(st, idx)
  {
    if t <= 80 {
      RankDigits(st, idx);
      RankDigits(st[t := it], t);
      NumLess(Rank(st[t := it], t), Rank(st, idx), t);
    }
  }

  /** `*stack_idx = (*stack_idx).min(80)` after `push_tasks` went past the last slot. */
  lemma ClampInv(c0: seq<bv16>, c: seq<bv16>, st: seq<CandidateSetIterator>, order: seq<int>)
    requires IsOrder(order) && |c0| == 81 && |c| == 81 && Inv(c0, c, st, order, 81)
    ensures Inv(c0, c, st, order, 80)
  {
  }

  /** The probe counter: `pops` counted steps, `asked` consultations, `counter` the steps since. */
  lemma CounterSplit(pops: nat, asked: nat, counter: int)
    requires pops == asked * 100001 + counter && 0 <= counter <= 100000
    ensures asked == pops / 100001
  {
  }

  // Casts between `bv16` and `bv8` for digits, spelled out for the bit-vector solver.
  lemma NarrowDigit16(d: bv16)
    requires d <= 9
    ensures d as bv8 <= 9 && Widen(d as bv8) == d
  {
  }

  /** How the search ended. */
  datatype Outcome = Accepted | Exhausted | Cancelled

  /** `stack[k].next()`: step the iterator of slot `k` in place and return what it yields. */
  method Advance(stack: array<CandidateSetIterator>, k: int) returns (d: Option<bv16>)
    requires 0 <= k < stack.Length
    modifies stack
    ensures (d, stack[k]) == old(stack[k]).Next()
    ensures stack[..] == old(stack[..])[k := stack[k]]
  {
    var r := stack[k].Next();
    d := r.0;
    stack[k] := r.1;
  }

  /**
   * The loop of `pop_task`: back out of exhausted and fixed slots, emptying
   * the cells of the exhausted ones, until a slot with digits left is current
   * or the stack is used up (-1).
   */
  method Backtrack(sudoku: Sudoku, stack: array<CandidateSetIterator>, order: seq<int>,
                   ghost c0: seq<bv16>, idx: int, ghost written: set<int>, ghost reported: seq<seq<bv16>>)
    returns (idx': int, ghost written': set<int>)
    requires sudoku.Valid() && sudoku.Synced() && IsOrder(order) && IsBoard(c0) && stack.Length == 81
    requires 0 <= idx <= 80 && Inv(c0, sudoku.Cells(), stack[..], order, idx)
    requires Untouched(c0, written) && Covered(c0, sudoku.Cells(), stack[..], order, idx, reported)
    requires Once(sudoku.Cells(), stack[..], order, idx, reported)
    modifies sudoku.grid, sudoku.rowCandidates, sudoku.colCandidates, sudoku.gridCandidates
    ensures sudoku.Valid() && sudoku.Synced()
    ensures -1 <= idx' <= idx && Inv(c0, sudoku.Cells(), stack[..], order, idx')
    ensures idx' >= 0 ==> !stack[idx'].IsEmpty() && !stack[idx'].IsFixed()
    ensures Untouched(c0, written') && Covered(c0, sudoku.Cells(), stack[..], order, idx', reported)
    ensures Once(sudoku.Cells(), stack[..], order, idx', reported)
    ensures (forall k :: 0 <= k < 81 ==> stack[k].IsFixed()) ==> idx' == -1 && written' == written
  {
    idx', written' := idx, written;
    while 0 <= idx' <= 80 && (stack[idx'].IsEmpty() || stack[idx'].IsFixed())
      invariant -1 <= idx' <= idx
      invariant sudoku.Valid() && sudoku.Synced()
      invariant Inv(c0, sudoku.Cells(), stack[..], order, idx')
      invariant Untouched(c0, written') && Covered(c0, sudoku.Cells(), stack[..], order, idx', reported)
      invariant Once(sudoku.Cells(), stack[..], order, idx', reported)
      invariant (forall k :: 0 <= k < 81 ==> stack[k].IsFixed()) ==> written' == written
      decreases idx' + 1
    {
      written' := Retreat(sudoku, stack, order, c0, idx', written', reported);
      // `wrapping_sub(1)`: below slot 0 is `usize::MAX`
      idx' := idx' - 1;
    }
  }

  /** One step of the loop of `pop_task`: `set(.., 0)` on an exhausted slot, nothing on a fixed one. */
  method Retreat(sudoku: Sudoku, stack: array<CandidateSetIterator>, order: seq<int>,
                 ghost c0: seq<bv16>, idx: int, ghost written: set<int>, ghost reported: seq<seq<bv16>>)
    returns (ghost written': set<int>)
    requires sudoku.Valid() && sudoku.Synced() && IsOrder(order) && IsBoard(c0) && stack.Length == 81
    requires 0 <= idx <= 80 && (stack[idx].IsEmpty() || stack[idx].IsFixed())
    requires Inv(c0, sudoku.Cells(), stack[..], order, idx)
    requires Untouched(c0, written) && Covered(c0, sudoku.Cells(), stack[..], order, idx, reported)
    requires Once(sudoku.Cells(), stack[..], order, idx, reported)
    modifies sudoku.grid, sudoku.rowCandidates, sudoku.colCandidates, sudoku.gridCandidates
    ensures sudoku.Valid() && sudoku.Synced()
    ensures Inv(c0, sudoku.Cells(), stack[..], order, idx - 1)
    ensures Untouched(c0, written') && Covered(c0, sudoku.Cells(), stack[..], order, idx - 1, reported)
    ensures Once(sudoku.Cells(), stack[..], order, idx - 1, reported)
    ensures stack[idx].IsFixed() ==> written' == written
  {
    BacktrackStep(c0, sudoku.Cells(), stack[..], order, idx);
    CoverBack(c0, sudoku.Cells(), stack[..], order, idx, reported);
    OnceBack(sudoku.Cells(), stack[..], order, idx, reported);
    written' := written;
    if !stack[idx].IsFixed() {
      sudoku.SetInSync(order[idx], 0);
      written' := written + {order[idx]};
    }
  }

  /**
   * `pop_task`: backtrack, then count the step, consult `cancelled` once
   * the counter passes 100000, and write the next digit of the current slot.
   * `false` when the stack ran out or the search was cancelled.
   */
  method PopTask(sudoku: Sudoku, stack: array<CandidateSetIterator>, order: seq<int>, cancelled: nat -> bool,
                 ghost c0: seq<bv16>, idx: int, counter: int, asked: nat, ghost pops: nat, ghost written: set<int>,
                 ghost reported: seq<seq<bv16>>)
    returns (more: bool, idx': int, counter': int, asked': nat, ghost pops': nat, ghost written': set<int>)
    requires sudoku.Valid() && sudoku.Synced() && IsOrder(order) && IsBoard(c0) && stack.Length == 81
    requires 0 <= idx <= 81 && Inv(c0, sudoku.Cells(), stack[..], order, idx)
    requires Covered(c0, sudoku.Cells(), stack[..], order, idx, reported)
    requires GoodReports(c0, reported) && Once(sudoku.Cells(), stack[..], order, idx, reported)
    requires pops == asked * 100001 + counter && 0 <= counter <= 100000
    requires NoneCancelled(cancelled, asked)
    requires Untouched(c0, written)
    modifies sudoku.grid, sudoku.rowCandidates, sudoku.colCandidates, sudoku.gridCandidates, stack
    ensures sudoku.Valid() && sudoku.Synced()
    ensures -1 <= idx' <= 80 && Inv(c0, sudoku.Cells(), stack[..], order, idx')
    ensures pops' == asked' * 100001 + counter' && 0 <= counter' <= 100000
    ensures Untouched(c0, written')
    ensures more ==> 0 <= idx' && TopFilled(sudoku.Cells(), stack[..], order, idx')
    ensures more ==> Num(Rank(stack[..], idx')) < Num(Rank(old(stack[..]), idx))
    ensures more ==> CoveredAt(c0, sudoku.Cells(), stack[..], order, idx', reported)
    ensures more ==> OnceAt(sudoku.Cells(), stack[..], order, idx', reported)
    ensures !more ==> NoRepeats(reported)
    ensures idx' == -1 ==> AllReported(c0, reported)
    ensures more || idx' == -1 ==> NoneCancelled(cancelled, asked')
    ensures !more && idx' != -1 ==> asked' == asked + 1 && cancelled(asked)
    ensures idx' == -1 ==> counter' == counter && asked' == asked && pops' == pops
    ensures idx' != -1 ==> pops' == pops + 1
    ensures (forall k :: 0 <= k < 81 ==> old(stack[k]).IsFixed()) ==> !more && idx' == -1 && written' == written
  {
    ghost var st := stack[..];
    // `(*stack_idx).min(80)`
    var top := if idx > 80 then 80 else idx;
    if idx > 80 {
      ClampInv(c0, sudoku.Cells(), st, order);
      CoverClamp(c0, sudoku.Cells(), st, order, reported);
      OnceClamp(sudoku.Cells(), st, order, reported);
    }
    idx', written' := Backtrack(sudoku, stack, order, c0, top, written, reported);
    counter', asked', pops' := counter, asked, pops;
    if idx' < 0 {
      CoverEnd(c0, sudoku.Cells(), stack[..], order, reported);
      // the stack is exhausted
      return false, idx', counter', asked', pops', written';
    }
    var stop;
    stop, counter', asked', pops' := Throttle(cancelled, counter, asked, pops);
    if stop {
      return false, idx', counter', asked', pops', written';
    }
    written' := TryNext(sudoku, stack, order, c0, idx', written', reported);
    PopRank(st, idx, idx', stack[idx']);
    more := true;
  }

  /**
   * The throttle of `pop_task`: count one step and, once the counter passes
   * 100000, reset it and consult `cancelled` with the number of earlier
   * consultations.  `stop` when that consultation answers true.
   */
  method Throttle(cancelled: nat -> bool, counter: int, asked: nat, ghost pops: nat)
    returns (stop: bool, counter': int, asked': nat, ghost pops': nat)
    requires pops == asked * 100001 + counter && 0 <= counter <= 100000
    requires NoneCancelled(cancelled, asked)
    ensures pops' == pops + 1 && pops' == asked' * 100001 + counter' && 0 <= counter' <= 100000
    ensures counter' == if counter < 100000 then counter + 1 else 0
    ensures asked' == if counter < 100000 then asked else asked + 1
    ensures stop <==> asked' == asked + 1 && cancelled(asked)
    ensures !stop ==> NoneCancelled(cancelled, asked')
  {
    counter', asked', pops' := counter + 1, asked, pops + 1;
    stop := false;
    if counter' > 100000 {
      counter' := 0;
      asked' := asked' + 1;
      stop := cancelled(asked);
    }
  }

  /** `sudoku.set(index_mapper(*stack_idx), stack[*stack_idx].next().unwrap())` */
  method TryNext(sudoku: Sudoku, stack: array<CandidateSetIterator>, order: seq<int>,
                 ghost c0: seq<bv16>, idx: int, ghost written: set<int>, ghost reported: seq<seq<bv16>>)
    returns (ghost written': set<int>)
    requires sudoku.Valid() && sudoku.Synced() && IsOrder(order) && IsBoard(c0) && stack.Length == 81
    requires 0 <= idx <= 80 && Inv(c0, sudoku.Cells(), stack[..], order, idx)
    requires !stack[idx].IsEmpty() && !stack[idx].IsFixed()
    requires Untouched(c0, written) && Covered(c0, sudoku.Cells(), stack[..], order, idx, reported)
    requires GoodReports(c0, reported) && Once(sudoku.Cells(), stack[..], order, idx, reported)
    modifies sudoku.grid, sudoku.rowCandidates, sudoku.colCandidates, sudoku.gridCandidates, stack
    ensures sudoku.Valid() && sudoku.Synced()
    ensures Inv(c0, sudoku.Cells(), stack[..], order, idx) && TopFilled(sudoku.Cells(), stack[..], order, idx)
    ensures stack[..] == old(stack[..])[idx := stack[idx]]
    ensures stack[idx] == old(stack[idx]).Next().1 && !stack[idx].IsFixed()
    ensures Untouched(c0, written') && CoveredAt(c0, sudoku.Cells(), stack[..], order, idx, reported)
    ensures OnceAt(sudoku.Cells(), stack[..], order, idx, reported)
  {
    ghost var c, st := sudoku.Cells(), stack[..];
    NextStep(c0, c, st, order, idx);
    CoverNext(c0, c, st, order, idx, reported);
    OnceNext(c0, c, st, order, idx, reported);
    var d := Advance(stack, idx);
    NarrowDigit16(d.value);
    sudoku.SetInSync(order[idx], d.value as bv8);
    written' := written + {order[idx]};
  }

  /** The scan of `push_tasks`: from the slot after `idx`, step over fixed slots. */
  method ScanFixed(stack: array<CandidateSetIterator>, idx: int) returns (t: int)
    requires stack.Length == 81 && -1 <= idx <= 80
    ensures idx < t <= 81
    ensures forall k :: idx < k < t ==> stack[k].IsFixed()
    ensures t <= 80 ==> !stack[t].IsFixed()
  {
    // `wrapping_add(1)`: after `usize::MAX` comes slot 0
    t := idx + 1;
    while t <= 80 && stack[t].IsFixed()
      invariant idx < t <= 81
      invariant forall k :: idx < k < t ==> stack[k].IsFixed()
    {
      t := t + 1;
    }
  }

  /**
   * `push_tasks`: move to the next slot that is not fixed and fill it with
   * the candidates of its cell; past the last slot, hand the full board to
   * `callback` instead.  `false` when the callback accepts the board.
   */
  method PushTasks(sudoku: Sudoku, stack: array<CandidateSetIterator>, order: seq<int>, callback: seq<bv16> -> bool,
                   ghost c0: seq<bv16>, idx: int, ghost reported: seq<seq<bv16>>)
    returns (more: bool, idx': int, ghost reported': seq<seq<bv16>>)
    requires sudoku.Valid() && sudoku.Synced() && IsOrder(order) && IsBoard(c0) && stack.Length == 81
    requires -1 <= idx <= 80 && Inv(c0, sudoku.Cells(), stack[..], order, idx)
    requires TopFilled(sudoku.Cells(), stack[..], order, idx)
    requires GoodReports(c0, reported) && CoveredAt(c0, sudoku.Cells(), stack[..], order, idx, reported)
    requires OnceAt(sudoku.Cells(), stack[..], order, idx, reported)
    modifies stack
    ensures sudoku.Cells() == old(sudoku.Cells())
    ensures 0 <= idx' <= 81 && Inv(c0, sudoku.Cells(), stack[..], order, idx')
    ensures Num(Rank(stack[..], idx')) <= Num(Rank(old(stack[..]), idx))
    ensures idx' == 81 <==> forall k :: idx < k < 81 ==> old(stack[k]).IsFixed()
    ensures reported' == if idx' == 81 then reported + [sudoku.Cells()] else reported
    ensures GoodReports(c0, reported') && Covered(c0, sudoku.Cells(), stack[..], order, idx', reported')
    ensures Once(sudoku.Cells(), stack[..], order, idx', reported')
    ensures more && Rejected(callback, reported) ==> Rejected(callback, reported')
    ensures idx' == 81 ==> (forall j :: 0 <= j < 81 ==> sudoku.Cells()[j] != 0) &&
                           (NoConflicts(c0) ==> Solved(sudoku.Cells()) && BoardValid(sudoku.Cells()))
    ensures !more <==> idx' == 81 && callback(sudoku.Cells())
  {
    ghost var c, st := sudoku.Cells(), stack[..];
    idx' := ScanFixed(stack, idx);
    SkipFixed(c0, c, st, order, idx, idx');
    reported' := reported;
    if idx' > 80 {
      PushRank(st, idx, 81, EMPTY_ITERATOR);
      CoverPush(c0, c, st, order, idx, 81, EMPTY_ITERATOR, reported);
      OncePush(c, st, order, idx, 81, EMPTY_ITERATOR, reported);
      FullBoard(c0, c, st, order);
      BoardValidIffSolved(c);
      reported' := reported + [c];
      if callback(sudoku.Cells()) {
        return false, idx', reported';
      }
    } else {
      OpenSlot(sudoku, stack, order, c0, idx');
      PushRank(st, idx, idx', stack[idx']);
      CoverPush(c0, c, st, order, idx, idx', stack[idx'], reported);
      OncePush(c, st, order, idx, idx', stack[idx'], reported);
    }
    more := true;
  }

  /** `stack[*stack_idx] = sudoku.get_candidates(index_mapper(*stack_idx)).into_iter()` */
  method OpenSlot(sudoku: Sudoku, stack: array<CandidateSetIterator>, order: seq<int>, ghost c0: seq<bv16>, t: int)
    requires sudoku.Valid() && sudoku.Synced() && IsOrder(order) && |c0| == 81 && stack.Length == 81
    requires 0 <= t <= 80 && !stack[t].IsFixed()
    requires Inv(c0, sudoku.Cells(), stack[..], order, t - 1) && TopFilled(sudoku.Cells(), stack[..], order, t - 1)
    modifies stack
    ensures stack[..] == old(stack[..])[t := stack[t]] && !stack[t].IsFixed()
    ensures forall d: bv16 :: 1 <= d <= 16 ==> (Has(stack[t].bits, d) <==> Allowed(sudoku.Cells(), order[t], d))
    ensures Inv(c0, sudoku.Cells(), stack[..], order, t)
  {
    ghost var c, st := sudoku.Cells(), stack[..];
    var cand := sudoku.GetCandidates(order[t]);
    forall d: bv16 | 1 <= d <= 16 ensures Has(cand, d) <==> Allowed(c, order[t], d) {
      sudoku.CandidatesOfCell(order[t], d);
    }
    PushStep(c0, c, st, order, t, cand);
    stack[t] := IntoIter(cand);
    assert stack[..] == st[t := IntoIter(cand)];
  }

  /** The stack `solve_single_thread` starts from: fixed slots for the filled cells, the rest empty. */
  method NewStack(sudoku: Sudoku, order: seq<int>) returns (stack: array<CandidateSetIterator>)
    requires sudoku.Valid() && IsOrder(order)
    ensures fresh(stack) && stack.Length == 81
    ensures FixedSlots(sudoku.Cells(), stack[..], order)
    ensures forall k :: 0 <= k < 81 && !stack[k].IsFixed() ==> stack[k] == EMPTY_ITERATOR
  {
    stack := new CandidateSetIterator[81](_ => EMPTY_ITERATOR);
    for k := 0 to 81
      invariant forall k' :: 0 <= k' < k ==> (stack[k'].IsFixed() <==> sudoku.Cells()[order[k']] != 0)
      invariant forall k' :: 0 <= k' < 81 && !stack[k'].IsFixed() ==> stack[k'] == EMPTY_ITERATOR
      invariant forall k' :: k <= k' < 81 ==> stack[k'] == EMPTY_ITERATOR
    {
      if !sudoku.IsMissing(order[k]) {
        stack[k] := FIXED_ITERATOR;
      }
    }
  }

  /**
   * `solve_single_thread`: search the completions of the board in the order
   * `order` gives, handing every full board to `callback`, none twice, until
   * it accepts one, the stack runs out, or `cancelled` answers true.  When
   * the stack runs out, every valid board that keeps the input's digits has
   * been handed over.  `cancelled(i)` is the answer of `is_cancelled` the `i`-th
   * time it is consulted.
   *
   * Ghost results: `reported` lists the boards passed to `callback`,
   * `written` the cells `set` was called on, `pops` the steps the throttle
   * counted, `tries` the digits `pop_task` wrote, and `asked` is how often
   * `is_cancelled` was consulted.
   */
  method SolveSingleThread(sudoku: Sudoku, callback: seq<bv16> -> bool, cancelled: nat -> bool, order: seq<int>)
    returns (ghost outcome: Outcome, ghost reported: seq<seq<bv16>>, ghost written: set<int>, ghost asked: nat,
             ghost pops: nat, ghost tries: nat)
    requires sudoku.Valid() && sudoku.Synced() && IsOrder(order)
    modifies sudoku.grid, sudoku.rowCandidates, sudoku.colCandidates, sudoku.gridCandidates
    ensures sudoku.Valid() && sudoku.Synced()
    ensures Kept(old(sudoku.Cells()), sudoku.Cells())
    ensures Untouched(old(sudoku.Cells()), written)
    ensures GoodReports(old(sudoku.Cells()), reported)
    ensures forall i, j :: 0 <= i < j < |reported| ==> reported[i] != reported[j]
    ensures |reported| > 0 ==> Rejected(callback, reported[..|reported| - 1])
    ensures outcome == Accepted ==> |reported| > 0 && sudoku.Cells() == reported[|reported| - 1] && callback(sudoku.Cells())
    ensures outcome != Accepted && !(forall j :: 0 <= j < 81 ==> old(sudoku.Cells())[j] != 0) ==> Rejected(callback, reported)
    ensures outcome == Exhausted ==> sudoku.Cells() == old(sudoku.Cells())
    ensures outcome == Exhausted ==>
              forall s :: IsBoard(s) && BoardValid(s) && Kept(old(sudoku.Cells()), s) ==> s in reported
    ensures outcome != Cancelled ==>
              forall s :: IsBoard(s) && BoardValid(s) && Kept(old(sudoku.Cells()), s) ==> |reported| > 0
    ensures outcome != Cancelled ==>
              forall s :: IsBoard(s) && BoardValid(s) && Kept(old(sudoku.Cells()), s) && (forall b :: callback(b) ==> b == s) ==>
                s in reported
    ensures outcome == Cancelled ==> asked > 0 && cancelled(asked - 1) && NoneCancelled(cancelled, asked - 1)
    ensures outcome != Cancelled ==> NoneCancelled(cancelled, asked)
    ensures asked == pops / 100001 && pops == tries + (if outcome == Cancelled then 1 else 0)
    ensures (forall j :: 0 <= j < 81 ==> old(sudoku.Cells())[j] != 0) ==>
              outcome == Exhausted && reported == [old(sudoku.Cells())] && written == {}
  {
    ghost var c0 := sudoku.Cells();
    ghost var full := forall j :: 0 <= j < 81 ==> c0[j] != 0;
    var stack, idx, first := Start(sudoku, callback, order);
    assert sudoku.Cells() == c0;
    outcome, reported, written, asked, pops, tries := Explore(sudoku, stack, order, callback, cancelled, c0, idx, full, first);
    Found(c0, sudoku.Cells(), callback, outcome, reported);
  }

  /**
   * What the tests count on: unless cancelled, a search of an input with a
   * valid completion reports a board, and it reports the completion the
   * callback waits for.
   */
  lemma Found(c0: seq<bv16>, c: seq<bv16>, callback: seq<bv16> -> bool, outcome: Outcome, reported: seq<seq<bv16>>)
    requires IsBoard(c0) && |c| == 81
    requires outcome == Exhausted ==> AllReported(c0, reported)
    requires outcome == Accepted ==> |reported| > 0 && c == reported[|reported| - 1] && callback(c)
    ensures outcome == Exhausted ==> forall s :: IsBoard(s) && BoardValid(s) && Kept(c0, s) ==> s in reported
    ensures outcome != Cancelled ==> forall s :: IsBoard(s) && BoardValid(s) && Kept(c0, s) ==> |reported| > 0
    ensures outcome != Cancelled ==>
              forall s :: IsBoard(s) && BoardValid(s) && Kept(c0, s) && (forall b :: callback(b) ==> b == s) ==> s in reported
  {
    forall s | IsBoard(s) && BoardValid(s) && Kept(c0, s) ensures outcome == Exhausted ==> s in reported {
      BoardValidIffSolved(s);
      assert Completion(c0, s);
    }
  }

  /** The set-up of `solve_single_thread`: the stack of candidates and the first `push_tasks`. */
  method Start(sudoku: Sudoku, callback: seq<bv16> -> bool, order: seq<int>)
    returns (stack: array<CandidateSetIterator>, idx: int, ghost first: seq<seq<bv16>>)
    requires sudoku.Valid() && sudoku.Synced() && IsOrder(order)
    ensures fresh(stack) && stack.Length == 81
    ensures 0 <= idx <= 81 && Inv(sudoku.Cells(), sudoku.Cells(), stack[..], order, idx)
    ensures GoodReports(sudoku.Cells(), first) && Covered(sudoku.Cells(), sudoku.Cells(), stack[..], order, idx, first)
    ensures Once(sudoku.Cells(), stack[..], order, idx, first)
    ensures (forall j :: 0 <= j < 81 ==> sudoku.Cells()[j] != 0) ==> first == [sudoku.Cells()]
    ensures !(forall j :: 0 <= j < 81 ==> sudoku.Cells()[j] != 0) ==> first == []
  {
    stack := NewStack(sudoku, order);
    ghost var c0 := sudoku.Cells();
    idx, first := FirstPush(sudoku, stack, order, callback, c0);
  }

  /** The first `push_tasks`, on the stack as `solve_single_thread` sets it up. */
  method FirstPush(sudoku: Sudoku, stack: array<CandidateSetIterator>, order: seq<int>, callback: seq<bv16> -> bool,
                   ghost c0: seq<bv16>)
    returns (idx: int, ghost first: seq<seq<bv16>>)
    requires sudoku.Valid() && sudoku.Synced() && IsOrder(order) && stack.Length == 81 && c0 == sudoku.Cells()
    requires FixedSlots(c0, stack[..], order)
    requires forall k :: 0 <= k < 81 && !stack[k].IsFixed() ==> stack[k] == EMPTY_ITERATOR
    modifies stack
    ensures sudoku.Cells() == c0
    ensures 0 <= idx <= 81 && Inv(c0, c0, stack[..], order, idx)
    ensures GoodReports(c0, first) && Covered(c0, c0, stack[..], order, idx, first)
    ensures Once(c0, stack[..], order, idx, first)
    ensures (forall j :: 0 <= j < 81 ==> c0[j] != 0) ==> first == [c0]
    ensures !(forall j :: 0 <= j < 81 ==> c0[j] != 0) ==> first == []
  {
    InitialInv(c0, stack[..], order);
    AllFixedIffFull(c0, stack[..], order);
    assert (forall k :: -1 < k < 81 ==> stack[k].IsFixed()) <==> forall j :: 0 <= j < 81 ==> c0[j] != 0;
    CoverStart(c0, c0, stack[..], order);
    OnceStart(c0, stack[..], order);
    // the solver does not look at the answer
    var _, idx', first' := PushTasks(sudoku, stack, order, callback, c0, -1, []);
    FirstPushed(c0, sudoku.Cells(), stack[..], order, idx', first');
    idx, first := idx', first';
  }

  /** What the first `push_tasks` leaves, on the board it started from. */
  lemma FirstPushed(c0: seq<bv16>, c: seq<bv16>, st: seq<CandidateSetIterator>, order: seq<int>, idx: int,
                    first: seq<seq<bv16>>)
    requires IsOrder(order) && IsBoard(c0) && |st| == 81 && c == c0
    requires 0 <= idx <= 81 && Inv(c0, c, st, order, idx)
    requires (idx == 81) <==> forall j :: 0 <= j < 81 ==> c0[j] != 0
    requires first == if idx == 81 then [] + [c] else []
    requires GoodReports(c0, first) && Covered(c0, c, st, order, idx, first) && Once(c, st, order, idx, first)
    ensures Inv(c0, c0, st, order, idx) && Covered(c0, c0, st, order, idx, first) && Once(c0, st, order, idx, first)
    ensures (forall j :: 0 <= j < 81 ==> c0[j] != 0) ==> first == [c0]
    ensures !(forall j :: 0 <= j < 81 ==> c0[j] != 0) ==> first == []
  {
  }

  /**
   * The loop of `solve_single_thread`: `pop_task`, then `push_tasks`, until
   * one of them answers false.
   */
  method Explore(sudoku: Sudoku, stack: array<CandidateSetIterator>, order: seq<int>,
                 callback: seq<bv16> -> bool, cancelled: nat -> bool,
                 ghost c0: seq<bv16>, idx0: int, ghost allFixed: bool, ghost first: seq<seq<bv16>>)
    returns (ghost outcome: Outcome, ghost reported: seq<seq<bv16>>, ghost written: set<int>, asked: nat,
             ghost pops: nat, ghost tries: nat)
    requires sudoku.Valid() && sudoku.Synced() && IsOrder(order) && IsBoard(c0) && stack.Length == 81
    requires 0 <= idx0 <= 81 && Inv(c0, sudoku.Cells(), stack[..], order, idx0)
    requires allFixed <==> forall j :: 0 <= j < 81 ==> c0[j] != 0
    requires GoodReports(c0, first) && Covered(c0, sudoku.Cells(), stack[..], order, idx0, first)
    requires Once(sudoku.Cells(), stack[..], order, idx0, first)
    requires !allFixed ==> Rejected(callback, first)
    requires allFixed ==> first == [c0]
    modifies sudoku.grid, sudoku.rowCandidates, sudoku.colCandidates, sudoku.gridCandidates, stack
    ensures sudoku.Valid() && sudoku.Synced()
    ensures Kept(c0, sudoku.Cells()) && Untouched(c0, written) && GoodReports(c0, reported)
    ensures NoRepeats(reported)
    ensures |reported| > 0 ==> Rejected(callback, reported[..|reported| - 1])
    ensures outcome == Accepted ==> |reported| > 0 && sudoku.Cells() == reported[|reported| - 1] && callback(sudoku.Cells())
    ensures outcome != Accepted && !allFixed ==> Rejected(callback, reported)
    ensures outcome == Exhausted ==> sudoku.Cells() == c0 && AllReported(c0, reported)
    ensures outcome == Cancelled ==> asked > 0 && cancelled(asked - 1) && NoneCancelled(cancelled, asked - 1)
    ensures outcome != Cancelled ==> NoneCancelled(cancelled, asked)
    ensures asked == pops / 100001 && pops == tries + (if outcome == Cancelled then 1 else 0)
    ensures allFixed ==> outcome == Exhausted && reported == [c0] && written == {}
  {
    var idx, counter, go := idx0, 0, true;
    asked, pops, tries, written, reported := 0, 0, 0, {}, first;
    while true
      invariant sudoku.Valid() && sudoku.Synced()
      invariant pops == asked * 100001 + counter && 0 <= counter <= 100000 && pops == tries
      invariant Going(c0, sudoku.Cells(), stack[..], order, callback, cancelled, allFixed, idx, asked, written, reported)
      decreases Num(Rank(stack[..], idx))
    {
      go, outcome, idx, counter, asked, pops, tries, written, reported :=
        Turn(sudoku, stack, order, callback, cancelled, c0, allFixed, idx, counter, asked, pops, tries, written, reported);
      if !go {
        CounterSplit(pops, asked, counter);
        return;
      }
    }
  }

  /** One turn of the loop: `pop_task`, and `push_tasks` when it answers true. */
  method Turn(sudoku: Sudoku, stack: array<CandidateSetIterator>, order: seq<int>,
              callback: seq<bv16> -> bool, cancelled: nat -> bool, ghost c0: seq<bv16>, ghost allFixed: bool,
              idx: int, counter: int, asked: nat, ghost pops: nat, ghost tries: nat,
              ghost written: set<int>, ghost reported: seq<seq<bv16>>)
    returns (go: bool, ghost outcome: Outcome, idx': int, counter': int, asked': nat, ghost pops': nat, ghost tries': nat,
             ghost written': set<int>, ghost reported': seq<seq<bv16>>)
    requires sudoku.Valid() && sudoku.Synced() && IsOrder(order) && IsBoard(c0) && stack.Length == 81
    requires allFixed <==> forall j :: 0 <= j < 81 ==> c0[j] != 0
    requires pops == asked * 100001 + counter && 0 <= counter <= 100000
    requires Going(c0, sudoku.Cells(), stack[..], order, callback, cancelled, allFixed, idx, asked, written, reported)
    modifies sudoku.grid, sudoku.rowCandidates, sudoku.colCandidates, sudoku.gridCandidates, stack
    ensures sudoku.Valid() && sudoku.Synced()
    ensures pops' == asked' * 100001 + counter' && 0 <= counter' <= 100000
    ensures pops' - tries' == pops - tries + (if !go && outcome == Cancelled then 1 else 0)
    ensures go ==> Going(c0, sudoku.Cells(), stack[..], order, callback, cancelled, allFixed, idx', asked', written', reported')
    ensures go ==> Num(Rank(stack[..], idx')) < Num(Rank(old(stack[..]), idx))
    ensures !go ==> Final(c0, sudoku.Cells(), callback, cancelled, allFixed, outcome, asked', written', reported')
  {
    go, outcome, idx', counter', asked', pops', tries', written' :=
      Round(sudoku, stack, order, callback, cancelled, c0, allFixed, idx, counter, asked, pops, tries, written, reported);
    reported' := reported;
    if go {
      go, idx', reported' := Extend(sudoku, stack, order, callback, cancelled, c0, idx', asked', written', reported);
      if !go {
        outcome := Accepted;
      }
    }
  }

  /**
   * The first half of a turn of the loop: `pop_task`, and the end of the
   * search when it answers false.
   */
  method Round(sudoku: Sudoku, stack: array<CandidateSetIterator>, order: seq<int>,
               callback: seq<bv16> -> bool, cancelled: nat -> bool, ghost c0: seq<bv16>, ghost allFixed: bool,
               idx: int, counter: int, asked: nat, ghost pops: nat, ghost tries: nat, ghost written: set<int>,
               ghost reported: seq<seq<bv16>>)
    returns (go: bool, ghost outcome: Outcome, idx': int, counter': int, asked': nat, ghost pops': nat,
             ghost tries': nat, ghost written': set<int>)
    requires sudoku.Valid() && sudoku.Synced() && IsOrder(order) && IsBoard(c0) && stack.Length == 81
    requires allFixed <==> forall j :: 0 <= j < 81 ==> c0[j] != 0
    requires pops == asked * 100001 + counter && 0 <= counter <= 100000
    requires Going(c0, sudoku.Cells(), stack[..], order, callback, cancelled, allFixed, idx, asked, written, reported)
    modifies sudoku.grid, sudoku.rowCandidates, sudoku.colCandidates, sudoku.gridCandidates, stack
    ensures sudoku.Valid() && sudoku.Synced()
    ensures pops' == asked' * 100001 + counter' && 0 <= counter' <= 100000
    ensures tries' == tries + (if go then 1 else 0)
    ensures pops' == pops + (if !go && outcome == Exhausted then 0 else 1)
    ensures go ==> 0 <= idx' <= 80 && Inv(c0, sudoku.Cells(), stack[..], order, idx')
    ensures go ==> TopFilled(sudoku.Cells(), stack[..], order, idx')
    ensures go ==> NoneCancelled(cancelled, asked') && Untouched(c0, written')
    ensures go ==> CoveredAt(c0, sudoku.Cells(), stack[..], order, idx', reported)
    ensures go ==> OnceAt(sudoku.Cells(), stack[..], order, idx', reported)
    ensures go ==> !allFixed && Num(Rank(stack[..], idx')) < Num(Rank(old(stack[..]), idx))
    ensures !go ==> outcome != Accepted
    ensures !go ==> Final(c0, sudoku.Cells(), callback, cancelled, allFixed, outcome, asked', written', reported)
  {
    AllFixedIffFull(c0, stack[..], order);
    go, idx', counter', asked', pops', written' := PopTask(sudoku, stack, order, cancelled, c0, idx, counter, asked, pops, written, reported);
    if go {
      tries', outcome := tries + 1, Accepted;
    } else {
      tries' := tries;
      if idx' == -1 {
        StackExhausted(c0, sudoku.Cells(), stack[..], order);
        outcome := Exhausted;
      } else {
        outcome := Cancelled;
      }
      Stopped(c0, sudoku.Cells(), callback, cancelled, allFixed, outcome, asked', written', reported);
    }
  }

  /** The end of the search by `pop_task`: nothing new was reported. */
  lemma Stopped(c0: seq<bv16>, c: seq<bv16>, callback: seq<bv16> -> bool, cancelled: nat -> bool,
                allFixed: bool, outcome: Outcome, asked: nat, written: set<int>, reported: seq<seq<bv16>>)
    requires IsBoard(c0) && |c| == 81 && outcome != Accepted
    requires Kept(c0, c) && Untouched(c0, written) && GoodReports(c0, reported) && NoRepeats(reported)
    requires !allFixed ==> Rejected(callback, reported)
    requires allFixed ==> outcome == Exhausted && reported == [c0] && written == {}
    requires outcome == Exhausted ==> c == c0 && AllReported(c0, reported)
    requires outcome == Cancelled ==> asked > 0 && cancelled(asked - 1) && NoneCancelled(cancelled, asked - 1)
    requires outcome != Cancelled ==> NoneCancelled(cancelled, asked)
    ensures Final(c0, c, callback, cancelled, allFixed, outcome, asked, written, reported)
  {
    if allFixed {
      assert reported[..|reported| - 1] == [];
    }
  }

  /** The second half of a turn: `push_tasks` after `pop_task` wrote a digit. */
  method Extend(sudoku: Sudoku, stack: array<CandidateSetIterator>, order: seq<int>,
                callback: seq<bv16> -> bool, cancelled: nat -> bool, ghost c0: seq<bv16>,
                idx: int, ghost asked: nat, ghost written: set<int>, ghost reported: seq<seq<bv16>>)
    returns (go: bool, idx': int, ghost reported': seq<seq<bv16>>)
    requires sudoku.Valid() && sudoku.Synced() && IsOrder(order) && IsBoard(c0) && stack.Length == 81
    requires 0 <= idx <= 80 && Inv(c0, sudoku.Cells(), stack[..], order, idx)
    requires TopFilled(sudoku.Cells(), stack[..], order, idx)
    requires NoneCancelled(cancelled, asked) && Untouched(c0, written)
    requires GoodReports(c0, reported) && Rejected(callback, reported)
    requires CoveredAt(c0, sudoku.Cells(), stack[..], order, idx, reported)
    requires OnceAt(sudoku.Cells(), stack[..], order, idx, reported)
    modifies stack
    ensures go ==> Going(c0, sudoku.Cells(), stack[..], order, callback, cancelled, false, idx', asked, written, reported')
    ensures go ==> Num(Rank(stack[..], idx')) <= Num(Rank(old(stack[..]), idx))
    ensures !go ==> Final(c0, sudoku.Cells(), callback, cancelled, false, Accepted, asked, written, reported')
  {
    go, idx', reported' := PushTasks(sudoku, stack, order, callback, c0, idx, reported);
    if !go {
      assert reported'[..|reported'| - 1] == reported;
    }
  }
}
