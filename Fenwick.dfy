/**
 * A Fenwick tree over integers (the additive group standing in for the generic group): entry
 * i of `tree` holds the sum of the elements from getSegmentStart(i) = i and (i + 1) up to i,
 * so a prefix sum walks down through segment starts and a point update walks up through
 * getSegmentEnd(i) = i or (i + 1).
 */
module Fenwick {
  import opened Bits

  /** getSegmentStart: i with its trailing one bits cleared. */
  function SegmentStart(i: nat): nat {
    BitAnd(i, i + 1)
  }

  /** getSegmentEnd: i with its lowest zero bit set. */
  function SegmentEnd(i: nat): nat {
    BitOr(i, i + 1)
  }

  /** Clearing the trailing ones: an even index is its own start, an odd one doubles the start of its half. */
  lemma StartHalves(i: nat)
    ensures SegmentStart(i) == if i % 2 == 0 then i else 2 * SegmentStart(i / 2)
  {
    if i % 2 == 0 && i > 0 {
      BitAndSelf(i / 2);
      assert (i + 1) / 2 == i / 2;
    }
  }

  /** Setting the lowest zero: an even index ends one further, an odd one doubles the end of its half, plus one. */
  lemma EndHalves(i: nat)
    ensures SegmentEnd(i) == if i % 2 == 0 then i + 1 else 2 * SegmentEnd(i / 2) + 1
  {
    if i % 2 == 0 && i > 0 {
      BitOrSelf(i / 2);
      assert (i + 1) / 2 == i / 2;
    }
  }

  /** Every segment ends at its index and the next segment up lies beyond: the loops of prefixQuery and update terminate. */
  lemma SegmentBounds(i: nat)
    ensures SegmentStart(i) <= i < SegmentEnd(i)
  {
    EndHalves(i);
  }

  /** The segment of getSegmentEnd(i) contains the segment of i. */
  lemma {:induction false} EndContains(i: nat)
    ensures SegmentStart(SegmentEnd(i)) <= SegmentStart(i)
  {
    EndHalves(i);
    StartHalves(i);
    var e := SegmentEnd(i);
    StartHalves(e);
    if i % 2 == 0 {
      assert e / 2 == i / 2;
      StartHalves(i / 2);
      SegmentBounds(i / 2);
    } else {
      assert e / 2 == SegmentEnd(i / 2);
      EndContains(i / 2);
    }
  }

  /** The indices strictly between i and getSegmentEnd(i) have segments that start above i: an update skips them rightly. */
  lemma {:induction false} BetweenStartsAbove(i: nat, j: nat)
    requires i < j < SegmentEnd(i)
    ensures SegmentStart(j) > i
  {
    EndHalves(i);
    StartHalves(j);
    if i % 2 == 1 && j % 2 == 1 {
      BetweenStartsAbove(i / 2, j / 2);
    }
  }

  // ---------------------------------------------------------------------------
  // Range sums

  /** The sum of s[lo..hi]. */
  ghost function RangeSum(s: seq<int>, lo: int, hi: int): int
    requires 0 <= lo <= hi <= |s|
    decreases hi - lo
  {
    if lo == hi then 0 else RangeSum(s, lo, hi - 1) + s[hi - 1]
  }

  lemma {:induction false} RangeSumSplit(s: seq<int>, lo: int, mid: int, hi: int)
    requires 0 <= lo <= mid <= hi <= |s|
    ensures RangeSum(s, lo, hi) == RangeSum(s, lo, mid) + RangeSum(s, mid, hi)
    decreases hi - mid
  {
    if mid < hi {
      RangeSumSplit(s, lo, mid, hi - 1);
    }
  }

  /** Adding delta to element k adds delta to exactly the range sums that contain k. */
  lemma {:induction false} RangeSumPoint(s: seq<int>, k: int, delta: int, lo: int, hi: int)
    requires 0 <= k < |s| && 0 <= lo <= hi <= |s|
    ensures RangeSum(s[k := s[k] + delta], lo, hi) == RangeSum(s, lo, hi) + (if lo <= k < hi then delta else 0)
    decreases hi - lo
  {
    if lo < hi {
      RangeSumPoint(s, k, delta, lo, hi - 1);
    }
  }

  /** Doubling every element doubles every range sum. */
  lemma {:induction false} RangeSumDoubled(s: seq<int>, lo: int, hi: int)
    requires 0 <= lo <= hi <= |s|
    ensures RangeSum(seq(|s|, i requires 0 <= i < |s| => 2 * s[i]), lo, hi) == 2 * RangeSum(s, lo, hi)
    decreases hi - lo
  {
    if lo < hi {
      RangeSumDoubled(s, lo, hi - 1);
    }
  }

  /** What prefixQuery(end) computes: the sum of data[0..end], or 0 when end is not an index. */
  ghost function PrefixSum(data: seq<int>, end: int): int {
    if 0 <= end < |data| then RangeSum(data, 0, end + 1) else 0
  }

  /** Entry j of the tree holds the sum of its segment of data. */
  ghost predicate Covers(tree: seq<int>, data: seq<int>, j: int)
    requires |tree| == |data|
  {
    0 <= j < |tree| && tree[j] == RangeSum(data, SegmentStart(j), j + 1)
  }

  class FenwickTree {
    /** the segment sums, one per element */
    var tree: seq<int>
    /** the elements the tree stands for */
    ghost var data: seq<int>

    ghost predicate Valid()
      reads this
    {
      |tree| == |data| && forall j :: 0 <= j < |tree| ==> Covers(tree, data, j)
    }

    /** An all-zero tree, then an update per element. */
    constructor (elements: seq<int>)
      ensures Valid() && data == elements
    {
      tree := seq(|elements|, _ => 0);
      data := seq(|elements|, _ => 0);
      new;
      ZeroCovers(tree);
      var idx := 0;
      while idx < |elements|
        invariant 0 <= idx <= |elements|
        invariant Valid() && data == elements[..idx] + seq(|elements| - idx, _ => 0)
      {
        Update(idx, elements[idx]);
        assert data == elements[..idx + 1] + seq(|elements| - (idx + 1), _ => 0);
        idx := idx + 1;
      }
      assert elements[..idx] == elements;
    }

    /** The sum of data[first..last], as the difference of two prefix sums. */
    method Query(first: int, last: int) returns (r: int)
      requires Valid()
      ensures r == PrefixSum(data, last) - PrefixSum(data, first - 1)
      ensures 0 <= first <= last + 1 <= |data| ==> r == RangeSum(data, first, last + 1)
    {
      var upper := PrefixQuery(last);
      var lower := PrefixQuery(first - 1);
      r := upper - lower;
      if 0 <= first <= last + 1 <= |data| && 0 < first {
        RangeSumSplit(data, 0, first, last + 1);
      }
    }

    /** The element at idx. */
    method QueryAt(idx: int) returns (r: int)
      requires Valid()
      ensures 0 <= idx < |data| ==> r == data[idx]
    {
      r := Query(idx, idx);
    }

    /** prefixQuery: accumulates segment sums walking down from end through the segment starts. */
    method PrefixQuery(end: int) returns (ret: int)
      requires Valid()
      ensures ret == PrefixSum(data, end)
    {
      var i := end;
      ret := 0;
      while 0 <= i < |tree|
        invariant if 0 <= end < |tree|
          then -1 <= i <= end && ret + PrefixSum(data, i) == RangeSum(data, 0, end + 1)
          else i == end && ret == 0
        decreases i + 1
      {
        assert Covers(tree, data, i);
        SegmentBounds(i);
        RangeSumSplit(data, 0, SegmentStart(i), i + 1);
        ret := ret + tree[i];
        i := SegmentStart(i) - 1;
      }
    }

    /** update: adds delta to element idx, walking up through the segment ends; an index outside the tree changes nothing. */
    method Update(idx: int, delta: int)
      requires Valid()
      modifies this
      ensures Valid()
      ensures data == if 0 <= idx < |old(data)| then old(data)[idx := old(data)[idx] + delta] else old(data)
    {
      ghost var target := if 0 <= idx < |data| then data[idx := data[idx] + delta] else data;
      if 0 <= idx < |data| {
        forall j | 0 <= j < idx
          ensures Covers(tree, target, j)
        {
          assert Covers(tree, data, j);
          SegmentBounds(j);
          RangeSumPoint(data, idx, delta, SegmentStart(j), j + 1);
        }
      }
      var i := idx;
      while 0 <= i < |tree|
        invariant data == old(data) && |tree| == |data| == |target|
        invariant idx < 0 ==> i == idx
        invariant idx >= 0 ==> idx <= i
        invariant 0 <= i < |tree| ==> SegmentStart(i) <= idx
        invariant forall j :: 0 <= j < |tree| && j < i ==> Covers(tree, target, j)
        invariant forall j :: 0 <= j < |tree| && i <= j ==> Covers(tree, data, j)
        decreases |tree| - i
      {
        ghost var tree' := tree[i := tree[i] + delta];
        UpdateStep(tree, tree', data, target, idx, delta, i);
        SegmentBounds(i);
        tree := tree[i := tree[i] + delta];
        i := SegmentEnd(i);
      }
      if idx >= 0 {
        assert forall j :: 0 <= j < |tree| ==> Covers(tree, target, j);
      }
      data := target;
    }
  }

  /** The all-zero tree stands for all-zero data. */
  lemma ZeroCovers(zeros: seq<int>)
    requires forall k :: 0 <= k < |zeros| ==> zeros[k] == 0
    ensures forall j :: 0 <= j < |zeros| ==> Covers(zeros, zeros, j)
  {
    forall j | 0 <= j < |zeros|
      ensures Covers(zeros, zeros, j)
    {
      SegmentBounds(j);
      ZeroSum(zeros, SegmentStart(j), j + 1);
    }
  }

  lemma {:induction false} ZeroSum(s: seq<int>, lo: int, hi: int)
    requires 0 <= lo <= hi <= |s| && forall k :: 0 <= k < |s| ==> s[k] == 0
    ensures RangeSum(s, lo, hi) == 0
    decreases hi - lo
  {
    if lo < hi {
      ZeroSum(s, lo, hi - 1);
    }
  }

  /**
   * One step of update at index i, whose segment holds idx: after adding delta to entry i,
   * every entry below getSegmentEnd(i) covers the updated data, and the entries from there
   * on still cover the old data.
   */
  lemma UpdateStep(tree: seq<int>, tree': seq<int>, data: seq<int>, target: seq<int>, idx: int, delta: int, i: int)
    requires |tree| == |data| && 0 <= i < |tree| && SegmentStart(i) <= idx <= i
    requires tree' == tree[i := tree[i] + delta]
    requires target == data[idx := data[idx] + delta]
    requires forall j :: 0 <= j < |tree| && j < i ==> Covers(tree, target, j)
    requires forall j :: 0 <= j < |tree| && i <= j ==> Covers(tree, data, j)
    ensures forall j :: 0 <= j < |tree| && j < SegmentEnd(i) ==> Covers(tree', target, j)
    ensures forall j :: 0 <= j < |tree| && SegmentEnd(i) <= j ==> Covers(tree', data, j)
    ensures SegmentEnd(i) < |tree| ==> SegmentStart(SegmentEnd(i)) <= idx
  {
    SegmentBounds(i);
    EndContains(i);
    forall j | 0 <= j < |tree| && j < SegmentEnd(i)
      ensures Covers(tree', target, j)
    {
      SegmentBounds(j);
      RangeSumPoint(data, idx, delta, SegmentStart(j), j + 1);
      if j > i {
        BetweenStartsAbove(i, j);
        assert Covers(tree, data, j);
      } else if j == i {
        assert Covers(tree, data, j);
      } else {
        assert Covers(tree, target, j);
      }
    }
    forall j | 0 <= j < |tree| && SegmentEnd(i) <= j
      ensures Covers(tree', data, j)
    {
      assert Covers(tree, data, j);
    }
  }
}
