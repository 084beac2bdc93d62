/**
 * The candidate bitmask of one row, column or box, and the iterator that
 * walks its digits in ascending order by repeatedly isolating the lowest
 * set bit. Bit d-1 stands for digit d.
 */
module Candidates {
  import opened Wrappers

  type CandidateSet = bv16

  /** `CandidateSet::new`: digits 1..9 all allowed. */
  const FULL: CandidateSet := 0x1FF

  /** The single bit `1 << (d - 1)` that stands for digit `d`. */
  function Bit(d: bv16): bv16
    requires 1 <= d <= 16
  {
    1 << (d - 1)
  }

  /** Digit `d` is in the mask. */
  predicate Has(m: bv16, d: bv16)
    requires 1 <= d <= 16
  {
    m & Bit(d) != 0
  }

  /** `d` is the smallest digit of `m`. */
  ghost predicate IsLowest(m: bv16, d: bv16)
  {
    1 <= d <= 16 && Has(m, d) && forall e: bv16 :: 1 <= e < d ==> !Has(m, e)
  }

  /** `BitAnd`: the intersection of two candidate sets. */
  function Intersect(a: CandidateSet, b: CandidateSet): CandidateSet
  {
    a & b
  }

  /** `|= 1 << (d - 1)`: digit `d` becomes allowed again. */
  function Insert(m: CandidateSet, d: bv16): CandidateSet
    requires 1 <= d <= 16
  {
    m | Bit(d)
  }

  /** `&= !(1 << (d - 1))`: digit `d` is no longer allowed. */
  function Remove(m: CandidateSet, d: bv16): CandidateSet
    requires 1 <= d <= 16
  {
    m & !Bit(d)
  }

  /** The intersection holds the digits both sets hold. */
  lemma IntersectHas(a: CandidateSet, b: CandidateSet)
    ensures forall d: bv16 :: 1 <= d <= 16 ==> (Has(Intersect(a, b), d) <==> Has(a, d) && Has(b, d))
  {
    forall d: bv16 | 1 <= d <= 16 ensures Has(a & b, d) <==> Has(a, d) && Has(b, d) {
      AndOne(a, b, d);
    }
  }

  /** Inserting `d` adds `d` and keeps every other digit as it was. */
  lemma InsertHas(m: CandidateSet, d: bv16)
    requires 1 <= d <= 16
    ensures forall e: bv16 :: 1 <= e <= 16 ==> (Has(Insert(m, d), e) <==> Has(m, e) || e == d)
  {
    forall e: bv16 | 1 <= e <= 16 ensures Has(m | Bit(d), e) <==> Has(m, e) || e == d {
      InsertOne(m, d, e);
    }
  }

  /** Removing `d` drops `d` and keeps every other digit as it was. */
  lemma RemoveHas(m: CandidateSet, d: bv16)
    requires 1 <= d <= 16
    ensures forall e: bv16 :: 1 <= e <= 16 ==> (Has(Remove(m, d), e) <==> Has(m, e) && e != d)
  {
    forall e: bv16 | 1 <= e <= 16 ensures Has(m & !Bit(d), e) <==> Has(m, e) && e != d {
      RemoveOne(m, d, e);
    }
  }

  /** The full mask holds exactly the digits 1..9. */
  lemma FullHas()
    ensures forall d: bv16 :: 1 <= d <= 16 ==> (Has(FULL, d) <==> d <= 9)
  {
    forall d: bv16 | 1 <= d <= 16 ensures Has(FULL, d) <==> d <= 9 {
      FullBit(d);
    }
  }

  /** Two masks with the same digits are the same mask. */
  lemma Extensionality(a: CandidateSet, b: CandidateSet)
    requires forall d: bv16 :: 1 <= d <= 16 ==> (Has(a, d) <==> Has(b, d))
    ensures a == b
  {
    if a != b {
      // the lowest digit of `a ^ b` is in one mask and not in the other
      LowDigitHas(a ^ b);
      XorBitDiffers(a, b, LowDigit(a ^ b));
    }
  }

  /**
   * `ilog2`: the index of the highest set bit, found by halving the width
   * that is searched.
   */
  function ILog2(x: bv16): (r: bv16)
    requires x != 0
    ensures r <= 15 && x >> r == 1
  {
    if x >> 8 != 0 then 8 + Log8(x >> 8) else Log8(x)
  }

  function Log8(y: bv16): bv16
  {
    if y >> 4 != 0 then 4 + Log4(y >> 4) else Log4(y)
  }

  function Log4(y: bv16): bv16
  {
    if y >> 2 != 0 then 2 + Log2(y >> 2) else Log2(y)
  }

  function Log2(y: bv16): bv16
  {
    if y >> 1 != 0 then 1 else 0
  }

  /** `set_flag.ilog2() + 1` for `set_flag = m.isolate_least_significant_one()`. */
  function LowDigit(m: bv16): (d: bv16)
    requires m != 0
    ensures 1 <= d <= 16
  {
    ILog2(m & (0 - m)) + 1
  }

  /**
   * `x & x.wrapping_neg()` keeps exactly the lowest set bit of `x`, so its
   * digit is the smallest digit of `x`.
   */
  lemma LowDigitIsLowest(m: bv16)
    requires m != 0
    ensures IsLowest(m, LowDigit(m))
  {
    LowDigitHas(m);
    forall e: bv16 | 1 <= e < LowDigit(m) ensures !Has(m, e) {
      BelowLowDigit(m, e);
    }
  }

  datatype CandidateSetIterator = CandidateSetIterator(bits: bv16)
  {
    /** `u16::MAX` marks the frame of a pre-filled cell. */
    predicate IsFixed() { bits == 0xFFFF }

    predicate IsEmpty() { bits == 0 }

    /**
     * `Iterator::next`: `None` once the mask is exhausted, and otherwise the
     * digit of the lowest set bit, with that bit xor-ed away; the lemmas
     * below say what that digit and the remaining iterator are.
     */
    function Next(): (r: (Option<bv16>, CandidateSetIterator))
      ensures IsEmpty() <==> r.0.None?
      ensures IsEmpty() ==> r.1 == this
    {
      if bits == 0 then (None, this)
      else (Some(LowDigit(bits)), CandidateSetIterator(bits ^ (bits & (0 - bits))))
    }
  }

  /** `next` yields the smallest digit of the mask. */
  lemma NextYieldsLowest(it: CandidateSetIterator)
    requires !it.IsEmpty()
    ensures IsLowest(it.bits, it.Next().0.value)
  {
    LowDigitIsLowest(it.bits);
  }

  /** `next` removes exactly the digit it yields. */
  lemma NextRemovesDigit(it: CandidateSetIterator)
    requires !it.IsEmpty()
    ensures it.Next().1.bits == Remove(it.bits, it.Next().0.value)
  {
    XorLowDigit(it.bits);
  }

  /** `next` leaves a strictly smaller mask, so iteration ends. */
  lemma NextShrinks(it: CandidateSetIterator)
    requires !it.IsEmpty()
    ensures it.Next().1.bits < it.bits
  {
    XorSmaller(it.bits);
  }

  const EMPTY_ITERATOR := CandidateSetIterator(0)
  const FIXED_ITERATOR := CandidateSetIterator(0xFFFF)

  /** `IntoIterator for CandidateSet`: the iterator starts from the whole mask. */
  function IntoIter(m: CandidateSet): CandidateSetIterator
  {
    CandidateSetIterator(m)
  }

  /** The digits an iterator yields, in order, until `next` returns `None`. */
  ghost function Drain(it: CandidateSetIterator): seq<bv16>
    decreases it.bits
  {
    match it.Next()
    case (None, _) => []
    case (Some(d), rest) => NextShrinks(it); [d] + Drain(rest)
  }

  ghost predicate StrictlyAscending(s: seq<bv16>)
  {
    forall i, j :: 0 <= i < j < |s| ==> s[i] < s[j]
  }

  /**
   * Draining an iterator yields exactly the digits of its mask, each once,
   * in strictly ascending order.
   */
  lemma {:induction false} DrainYieldsDigitsInOrder(it: CandidateSetIterator)
    ensures StrictlyAscending(Drain(it))
    ensures forall d: bv16 :: d in Drain(it) <==> 1 <= d <= 16 && Has(it.bits, d)
    decreases it.bits
  {
    if it.IsEmpty() {
    } else {
      var (od, rest) := it.Next();
      NextShrinks(it);
      NextYieldsLowest(it);
      NextRemovesDigit(it);
      RemoveHas(it.bits, od.value);
      DrainYieldsDigitsInOrder(rest);
      AscendingCons(od.value, Drain(rest), it.bits, rest.bits);
    }
  }

  /** Putting the lowest digit in front of the drain of the rest. */
  lemma AscendingCons(d: bv16, s: seq<bv16>, m: bv16, rest: bv16)
    requires IsLowest(m, d)
    requires forall e: bv16 :: 1 <= e <= 16 ==> (Has(rest, e) <==> Has(m, e) && e != d)
    requires StrictlyAscending(s)
    requires forall e: bv16 :: e in s <==> 1 <= e <= 16 && Has(rest, e)
    ensures StrictlyAscending([d] + s)
    ensures forall e: bv16 :: e in [d] + s <==> 1 <= e <= 16 && Has(m, e)
  {
    forall j | 0 <= j < |s| ensures d < s[j] {
      assert s[j] in s;
      assert Has(m, s[j]) && s[j] != d;
    }
    var t := [d] + s;
    forall i, j | 0 <= i < j < |t| ensures t[i] < t[j] {
      if i > 0 {
        assert t[i] == s[i - 1] && t[j] == s[j - 1];
      }
    }
  }

  /** A mask never yields more than sixteen digits. */
  lemma DrainLength(it: CandidateSetIterator)
    ensures |Drain(it)| <= 16
  {
    DrainYieldsDigitsInOrder(it);
    var s := Drain(it);
    forall i | 0 <= i < |s| ensures 1 <= s[i] <= 16 {
      assert s[i] in s;
    }
    AscendingWithin(s, 1);
  }

  lemma {:induction false} AscendingWithin(s: seq<bv16>, lo: bv16)
    requires 1 <= lo <= 17
    requires StrictlyAscending(s)
    requires forall i :: 0 <= i < |s| ==> lo <= s[i] <= 16
    ensures |s| <= 17 - lo as int
  {
    if |s| > 0 {
      AscendingWithin(s[1..], s[0] + 1);
      NextUp(s[0]);
    }
  }

  // An arithmetic step for the proof above: `+ 1` on a small `bv16` does not wrap.
  lemma NextUp(a: bv16)
    requires a <= 16
    ensures (a + 1) as int == a as int + 1
  {
  }

  // Facts about single bits, one per lemma, each left to the bit-vector solver.

  lemma AndOne(a: bv16, b: bv16, e: bv16)
    requires 1 <= e <= 16
    ensures Has(a & b, e) <==> Has(a, e) && Has(b, e)
  {
    AndLeft(a, b, e);
    AndRight(a, b, e);
    if Has(a, e) && Has(b, e) {
      AndBoth(a, b, e);
    }
  }

  lemma AndLeft(a: bv16, b: bv16, e: bv16)
    requires 1 <= e <= 16
    ensures Has(a & b, e) ==> Has(a, e)
  {
  }

  lemma AndRight(a: bv16, b: bv16, e: bv16)
    requires 1 <= e <= 16
    ensures Has(a & b, e) ==> Has(b, e)
  {
  }

  lemma AndBoth(a: bv16, b: bv16, e: bv16)
    requires 1 <= e <= 16 && Has(a, e) && Has(b, e)
    ensures Has(a & b, e)
  {
  }

  lemma InsertOne(m: bv16, d: bv16, e: bv16)
    requires 1 <= d <= 16 && 1 <= e <= 16
    ensures Has(m | Bit(d), e) <==> Has(m, e) || e == d
  {
    if d == e {
      OrSame(m, d);
    } else {
      OrOther(m, d, e);
    }
  }

  lemma OrSame(m: bv16, d: bv16)
    requires 1 <= d <= 16
    ensures Has(m | Bit(d), d)
  {
  }

  lemma OrOther(m: bv16, d: bv16, e: bv16)
    requires 1 <= d <= 16 && 1 <= e <= 16 && d != e
    ensures Has(m | Bit(d), e) == Has(m, e)
  {
  }

  lemma RemoveOne(m: bv16, d: bv16, e: bv16)
    requires 1 <= d <= 16 && 1 <= e <= 16
    ensures Has(m & !Bit(d), e) <==> Has(m, e) && e != d
  {
    if d == e {
      AndNotSame(m, d);
    } else {
      AndNotOther(m, d, e);
    }
  }

  lemma AndNotSame(m: bv16, d: bv16)
    requires 1 <= d <= 16
    ensures !Has(m & !Bit(d), d)
  {
  }

  lemma AndNotOther(m: bv16, d: bv16, e: bv16)
    requires 1 <= d <= 16 && 1 <= e <= 16 && d != e
    ensures Has(m & !Bit(d), e) == Has(m, e)
  {
  }

  lemma XorBitDiffers(a: bv16, b: bv16, d: bv16)
    requires 1 <= d <= 16 && Has(a ^ b, d)
    ensures Has(a, d) != Has(b, d)
  {
  }

  lemma FullBit(d: bv16)
    requires 1 <= d <= 16
    ensures Has(FULL, d) <==> d <= 9
  {
  }

  lemma LowDigitHas(m: bv16)
    requires m != 0
    ensures Has(m, LowDigit(m))
  {
  }

  lemma BelowLowDigit(m: bv16, e: bv16)
    requires m != 0 && 1 <= e < LowDigit(m)
    ensures !Has(m, e)
  {
  }

  lemma XorLowDigit(m: bv16)
    requires m != 0
    ensures m ^ (m & (0 - m)) == m & !Bit(LowDigit(m))
  {
  }

  lemma XorSmaller(m: bv16)
    requires m != 0
    ensures m ^ (m & (0 - m)) < m
  {
  }
}
