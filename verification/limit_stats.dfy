/**
 * Statistics of the LIMIT executor: a `size_t` full count with increments,
 * copies, moves that zero their source, and an additive merge into another
 * LimitStats and into the query-wide ExecutionStats.
 */
module LimitStatistics {

  /** `size_t` arithmetic wraps around modulo 2^64. */
  const SizeTModulus: nat := 0x1_0000_0000_0000_0000

  type SizeT = x: nat | x < SizeTModulus

  /** Addition of two `size_t` values. */
  function AddSizeT(a: SizeT, b: SizeT): (r: SizeT)
    ensures a + b < SizeTModulus ==> r == a + b
    ensures a + b >= SizeTModulus ==> r == a + b - SizeTModulus
  {
    (a + b) % SizeTModulus
  }

  class LimitStats {
    var fullCount: SizeT

    constructor ()
      ensures fullCount == 0
    {
      fullCount := 0;
    }

    /** Copy construction. */
    constructor Copy(other: LimitStats)
      ensures fullCount == other.fullCount
    {
      fullCount := other.fullCount;
    }

    /** Copy assignment: the source is left as it was. */
    method CopyAssign(other: LimitStats)
      modifies this
      ensures fullCount == old(other.fullCount)
      ensures other.fullCount == old(other.fullCount)
    {
      fullCount := other.fullCount;
    }

    /** Move construction: the count is taken over and the source is zeroed. */
    constructor Move(other: LimitStats)
      modifies other
      ensures fullCount == old(other.fullCount)
      ensures other.fullCount == 0
    {
      fullCount := other.fullCount;
      other.fullCount := 0;
    }

    /** Move assignment. The source is zeroed after its count was copied, so
        moving an object into itself leaves it at zero. */
    method MoveAssign(other: LimitStats)
      modifies this, other
      ensures other.fullCount == 0
      ensures other != this ==> fullCount == old(other.fullCount)
    {
      fullCount := other.fullCount;
      other.fullCount := 0;
    }

    method IncrFullCount()
      modifies this
      ensures fullCount == AddSizeT(old(fullCount), 1)
    {
      fullCount := AddSizeT(fullCount, 1);
    }

    method IncrFullCountBy(amount: SizeT)
      modifies this
      ensures fullCount == AddSizeT(old(fullCount), amount)
    {
      fullCount := AddSizeT(fullCount, amount);
    }

    function GetFullCount(): (count: SizeT)
      reads this
      ensures count == fullCount
    {
      fullCount
    }

    /** `*this += other`: the other count is read first, so `a += a` doubles. */
    method MergeFrom(other: LimitStats)
      modifies this
      ensures fullCount == AddSizeT(old(fullCount), old(other.fullCount))
      ensures other != this ==> other.fullCount == old(other.fullCount)
    {
      IncrFullCountBy(other.GetFullCount());
    }
  }

  /** The query-wide statistics. Only `fullCount` is touched by this model;
      the other counters stand for the rest of the record. */
  class ExecutionStats {
    var writesExecuted: int
    var writesIgnored: int
    var scannedFull: int
    var scannedIndex: int
    var filtered: int
    var fullCount: int

    constructor ()
      ensures writesExecuted == 0 && writesIgnored == 0 && scannedFull == 0
      ensures scannedIndex == 0 && filtered == 0 && fullCount == 0
    {
      writesExecuted, writesIgnored, scannedFull := 0, 0, 0;
      scannedIndex, filtered, fullCount := 0, 0, 0;
    }
  }

  /** `executionStats += limitStats`. */
  method AddToExecutionStats(executionStats: ExecutionStats, limitStats: LimitStats)
    modifies executionStats`fullCount
    ensures executionStats.fullCount == old(executionStats.fullCount) + limitStats.fullCount
    ensures limitStats.fullCount == old(limitStats.fullCount)
    ensures executionStats.writesExecuted == old(executionStats.writesExecuted)
    ensures executionStats.writesIgnored == old(executionStats.writesIgnored)
    ensures executionStats.scannedFull == old(executionStats.scannedFull)
    ensures executionStats.scannedIndex == old(executionStats.scannedIndex)
    ensures executionStats.filtered == old(executionStats.filtered)
  {
    executionStats.fullCount := executionStats.fullCount + limitStats.GetFullCount();
  }

  // ---------------------------------------------------------------------------
  // The merge is a commutative monoid on full counts with a fresh LimitStats
  // (count 0) as identity, so per-block statistics can be combined in any
  // grouping and order.

  lemma MergeIdentity(a: SizeT)
    ensures AddSizeT(a, 0) == a && AddSizeT(0, a) == a
  {
  }

  lemma MergeCommutative(a: SizeT, b: SizeT)
    ensures AddSizeT(a, b) == AddSizeT(b, a)
  {
  }

  lemma MergeAssociative(a: SizeT, b: SizeT, c: SizeT)
    ensures AddSizeT(AddSizeT(a, b), c) == AddSizeT(a, AddSizeT(b, c))
  {
  }

  /** Merging a run of counts, left to right, into a fresh LimitStats. */
  function MergeAll(counts: seq<SizeT>): SizeT {
    if counts == [] then 0 else AddSizeT(MergeAll(counts[..|counts| - 1]), counts[|counts| - 1])
  }

  function Sum(counts: seq<SizeT>): nat {
    if counts == [] then 0 else Sum(counts[..|counts| - 1]) + counts[|counts| - 1]
  }

  /** Merging many counts gives their exact sum, reduced modulo 2^64. */
  lemma {:induction false} MergeAllIsSumModulo(counts: seq<SizeT>)
    ensures MergeAll(counts) == Sum(counts) % SizeTModulus
  {
    if counts != [] {
      var init := counts[..|counts| - 1];
      var last := counts[|counts| - 1];
      MergeAllIsSumModulo(init);
      ModAddLeft(Sum(init), last);
    }
  }

  /** Reducing the left summand first does not change the sum's residue. */
  lemma ModAddLeft(x: nat, y: nat)
    ensures (x % SizeTModulus + y) % SizeTModulus == (x + y) % SizeTModulus
  {
    var q := x / SizeTModulus;
    assert x == q * SizeTModulus + x % SizeTModulus;
    ModShift(x % SizeTModulus + y, q);
  }

  /** Adding a multiple of the modulus does not change the residue. */
  lemma {:induction false} ModShift(z: nat, q: nat)
    ensures (z + q * SizeTModulus) % SizeTModulus == z % SizeTModulus
  {
    if q > 0 {
      ModShift(z, q - 1);
      assert z + q * SizeTModulus == (z + (q - 1) * SizeTModulus) + SizeTModulus;
    }
  }

  /** The order in which per-block statistics are merged does not matter. */
  lemma {:induction false} MergeAllSwap(counts: seq<SizeT>, i: nat)
    requires i + 1 < |counts|
    ensures MergeAll(counts[i := counts[i + 1]][i + 1 := counts[i]]) == MergeAll(counts)
  {
    var swapped := counts[i := counts[i + 1]][i + 1 := counts[i]];
    MergeAllIsSumModulo(counts);
    MergeAllIsSumModulo(swapped);
    SumSwap(counts, i);
  }

  lemma {:induction false} SumSwap(counts: seq<SizeT>, i: nat)
    requires i + 1 < |counts|
    ensures Sum(counts[i := counts[i + 1]][i + 1 := counts[i]]) == Sum(counts)
  {
    var swapped := counts[i := counts[i + 1]][i + 1 := counts[i]];
    if i + 2 == |counts| {
      var pre := counts[..i];
      assert swapped[..|swapped| - 1] == pre + [counts[i + 1]];
      assert counts[..|counts| - 1] == pre + [counts[i]];
      assert (pre + [counts[i + 1]])[..i] == pre;
      assert (pre + [counts[i]])[..i] == pre;
    } else {
      var init := counts[..|counts| - 1];
      assert swapped[..|swapped| - 1] == init[i := init[i + 1]][i + 1 := init[i]];
      SumSwap(init, i);
    }
  }
}
