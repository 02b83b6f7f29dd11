/**
 * A binary min-heap stored level by level in a vector: the children of node i are 2i+1 and
 * 2i+2. Elements are integers compared with `<` (the default comparator, std::less).
 */
module BinaryHeap {
  import opened Wrappers

  // ---------------------------------------------------------------------------
  // Index helpers: -1 stands for "no such node"

  /** valid_: index addresses one of the first `size` cells. */
  predicate ValidIndex(index: int, size: int) {
    0 <= index < size
  }

  /** parent_: ((index + 1) / 2) - 1, or -1 for the root and for an invalid index. */
  function Parent(index: int, size: int): (r: int)
    ensures r == -1 <==> !(0 < index < size)
    ensures r != -1 ==> 0 <= r < index && 2 * r + 1 <= index <= 2 * r + 2
  {
    if !ValidIndex(index, size) || index <= 0 then -1 else ((index + 1) / 2) - 1
  }

  /** leftSon_: 2 * index + 1, or -1 when that cell (or index itself) is outside the heap. */
  function LeftSon(index: int, size: int): (r: int)
    ensures r != -1 ==> ValidIndex(r, size) && r == 2 * index + 1
    ensures r == -1 <==> !(0 <= index && 2 * index + 1 < size)
  {
    if !ValidIndex(index, size) then -1
    else
      var child := (index + 1) * 2 - 1;
      if ValidIndex(child, size) then child else -1
  }

  /** rightSon_: 2 * index + 2, or -1 when that cell (or index itself) is outside the heap. */
  function RightSon(index: int, size: int): (r: int)
    ensures r != -1 ==> ValidIndex(r, size) && r == 2 * index + 2
    ensures r == -1 <==> !(0 <= index && 2 * index + 2 < size)
  {
    if !ValidIndex(index, size) then -1
    else
      var child := (index + 1) * 2;
      if ValidIndex(child, size) then child else -1
  }

  /** The sons of a node are exactly the nodes whose parent it is. */
  lemma SonsOfParent(index: int, size: int)
    requires ValidIndex(index, size)
    ensures LeftSon(index, size) != -1 ==> Parent(LeftSon(index, size), size) == index
    ensures RightSon(index, size) != -1 ==> Parent(RightSon(index, size), size) == index
    ensures forall k :: Parent(k, size) == index ==> k == LeftSon(index, size) || k == RightSon(index, size)
  {
  }

  /** minElement_: index1 if valid, replaced by index2 when that one holds a strictly smaller value. */
  function MinElement(v: seq<int>, size: int, index1: int, index2: int): (r: int)
    requires size <= |v|
  {
    var descendant := if ValidIndex(index1, size) then index1 else -1;
    if ValidIndex(descendant, size) && ValidIndex(index2, size) && v[index2] < v[descendant] then index2
    else descendant
  }

  /** minSon_: the son with the smaller value, the left one on a tie, or -1 for a leaf. */
  function MinSon(v: seq<int>, size: int, index: int): (r: int)
    requires ValidIndex(index, size) && size <= |v|
    ensures r == -1 <==> 2 * index + 1 >= size
    ensures r != -1 ==> ValidIndex(r, size) && Parent(r, size) == index
  {
    MinElement(v, size, LeftSon(index, size), RightSon(index, size))
  }

  /** The son minSon_ picks is at most every son. */
  lemma MinSonLeast(v: seq<int>, size: int, index: int)
    requires ValidIndex(index, size) && size <= |v|
    ensures var r := MinSon(v, size, index); r != -1 ==> forall k :: Parent(k, size) == index ==> v[r] <= v[k]
  {
  }

  // ---------------------------------------------------------------------------
  // Heap order

  /** Every edge whose parent is at position lo or beyond is ordered. */
  ghost predicate HeapFrom(a: seq<int>, lo: int) {
    forall k :: 0 < k < |a| && lo <= Parent(k, |a|) ==> a[Parent(k, |a|)] <= a[k]
  }

  /** No child compares less than its parent. */
  ghost predicate IsHeap(a: seq<int>) {
    HeapFrom(a, 0)
  }

  /** Every ancestor of k is at most a[k]; in particular the root. */
  lemma {:induction false} RootBelow(a: seq<int>, k: nat)
    requires IsHeap(a) && k < |a|
    ensures a[0] <= a[k]
    decreases k
  {
    if k > 0 {
      RootBelow(a, Parent(k, |a|));
    }
  }

  /** The root of a heap is its minimum. */
  lemma RootIsMin(a: seq<int>)
    requires IsHeap(a) && |a| > 0
    ensures forall x :: x in a ==> a[0] <= x
  {
    forall x | x in a
      ensures a[0] <= x
    {
      var k :| 0 <= k < |a| && a[k] == x;
      RootBelow(a, k);
    }
  }

  /** Every cell of the first `size` has its parent's edge ordered except possibly the one into `hole`. */
  ghost predicate OrderedExceptInto(a: seq<int>, hole: int) {
    forall k :: 0 < k < |a| && k != hole ==> a[Parent(k, |a|)] <= a[k]
  }

  /** Every edge is ordered except possibly those out of `hole`, among the edges whose parent is at lo or beyond. */
  ghost predicate OrderedExceptOutOf(a: seq<int>, lo: int, hole: int) {
    forall k :: 0 < k < |a| && lo <= Parent(k, |a|) && Parent(k, |a|) != hole ==> a[Parent(k, |a|)] <= a[k]
  }

  /** The grandparent bridge: the parent of `hole` is at most every son of `hole`. */
  ghost predicate Bridged(a: seq<int>, hole: int) {
    0 < hole < |a| ==> forall k :: 0 < k < |a| && Parent(k, |a|) == hole ==> a[Parent(hole, |a|)] <= a[k]
  }

  /** The sift-up hole at `cur` holding `val` aside: all is ordered but the edge into the hole. */
  ghost predicate UpHole(a: seq<int>, cur: int, val: int) {
    0 <= cur < |a| && OrderedExceptInto(a, cur) && Bridged(a, cur)
    && forall k :: 0 < k < |a| && Parent(k, |a|) == cur ==> val <= a[k]
  }

  /** Moving the hole up past a larger parent keeps the sift-up hole. */
  lemma UpStep(a: seq<int>, cur: int, val: int)
    requires UpHole(a, cur, val) && cur > 0 && val < a[Parent(cur, |a|)]
    ensures UpHole(a[cur := a[Parent(cur, |a|)]], Parent(cur, |a|), val)
  {
  }

  /** Writing the value into the hole once the parent is not larger restores heap order. */
  lemma UpDone(a: seq<int>, cur: int, val: int)
    requires UpHole(a, cur, val) && (cur == 0 || a[Parent(cur, |a|)] <= val)
    ensures IsHeap(a[cur := val])
  {
  }

  /** A new last leaf breaks at most the edge into it. */
  lemma AppendLeaf(a: seq<int>, x: int)
    requires IsHeap(a)
    ensures OrderedExceptInto(a + [x], |a|) && Bridged(a + [x], |a|)
  {
    var b := a + [x];
    forall k | 0 < k < |b| && k != |a|
      ensures b[Parent(k, |b|)] <= b[k]
    {
      assert Parent(k, |b|) == Parent(k, |a|);
    }
  }

  /** The sift-down hole at `cur` holding `val` aside, for a sift that started at lo. */
  ghost predicate DownHole(a: seq<int>, lo: int, cur: int, val: int) {
    0 <= lo <= cur < |a| && OrderedExceptOutOf(a, lo, cur)
    && (cur != lo ==> Bridged(a, cur) && a[Parent(cur, |a|)] <= val)
  }

  /** A sift-down starting at lo, over a heap ordered from lo + 1 on, starts with a hole at lo. */
  lemma DownStart(a: seq<int>, lo: int)
    requires 0 <= lo < |a| && HeapFrom(a, lo + 1)
    ensures DownHole(a, lo, lo, a[lo])
  {
  }

  /** Moving the hole down past its strictly smaller least son keeps the sift-down hole. */
  lemma DownStep(a: seq<int>, lo: int, cur: int, val: int, child: int)
    requires DownHole(a, lo, cur, val) && (cur == lo ==> a[cur] == val)
    requires child == MinSon(a, |a|, cur) && child != -1 && a[child] < val
    ensures DownHole(a[cur := a[child]], lo, child, val)
  {
    MinSonLeast(a, |a|, cur);
  }

  /** Writing the value into the hole once no son is smaller restores order from lo on. */
  lemma DownDone(a: seq<int>, lo: int, cur: int, val: int)
    requires DownHole(a, lo, cur, val) && (cur == lo ==> a[cur] == val)
    requires MinSon(a, |a|, cur) == -1 || val <= a[MinSon(a, |a|, cur)]
    ensures HeapFrom(a[cur := val], lo)
  {
    MinSonLeast(a, |a|, cur);
  }

  /** The last leaf moved to the root leaves every edge below the root ordered. */
  lemma LastToRoot(a: seq<int>)
    requires IsHeap(a) && |a| >= 2
    ensures HeapFrom(a[0 := a[|a| - 1]][..|a| - 1], 1)
  {
    var b := a[0 := a[|a| - 1]][..|a| - 1];
    forall k | 0 < k < |b| && 1 <= Parent(k, |b|)
      ensures b[Parent(k, |b|)] <= b[k]
    {
      assert Parent(k, |b|) == Parent(k, |a|);
    }
  }

  /** The last leaf overwriting the root, then dropped from the end: the root's value is gone. */
  lemma LastToRootMultiset(a: seq<int>)
    requires |a| >= 1
    ensures multiset(a[0 := a[|a| - 1]][..|a| - 1]) == multiset(a) - multiset{a[0]}
  {
    var n := |a|;
    var b := a[0 := a[n - 1]][..n - 1];
    if n == 1 {
      assert b == [];
      assert a == [a[0]];
    } else {
      assert b == [a[n - 1]] + a[1..n - 1];
      assert a == [a[0]] + a[1..n - 1] + [a[n - 1]];
    }
  }

  /** Moving a value into the hole and the hole elsewhere keeps the multiset with the held value. */
  lemma MoveHole(a: seq<int>, cur: int, next: int, val: int)
    requires 0 <= cur < |a| && 0 <= next < |a|
    ensures multiset(a[cur := a[next]][next := val]) == multiset(a[cur := val])
  {
  }

  /** lvl_ specified: the number of times n can be halved before it reaches 1, -1 for n = 0. */
  function FloorLog2(n: nat): int
  {
    if n == 0 then -1 else 1 + FloorLog2(n / 2)
  }

  function Pow2(e: nat): nat
  {
    if e == 0 then 1 else 2 * Pow2(e - 1)
  }

  /** FloorLog2 is the base-2 logarithm rounded down. */
  lemma {:induction false} FloorLog2Bounds(n: nat)
    requires n >= 1
    ensures FloorLog2(n) >= 0
    ensures Pow2(FloorLog2(n)) <= n < Pow2(FloorLog2(n) + 1)
  {
    if n >= 2 {
      FloorLog2Bounds(n / 2);
    }
  }

  /** lvl_(0) = 0, lvl_(1) = lvl_(2) = 1, lvl_(3) = 2. */
  lemma LevelsOfTop()
    ensures FloorLog2(0 + 1) == 0 && FloorLog2(1 + 1) == 1 && FloorLog2(2 + 1) == 1 && FloorLog2(3 + 1) == 2
  {
    assert FloorLog2(1) == 0;
    assert FloorLog2(2) == 1;
    assert FloorLog2(3) == 1;
    assert FloorLog2(4) == 2;
  }

  /** A son is one level below its parent. */
  lemma LevelOfParent(index: int, size: int)
    requires 0 < index < size
    ensures FloorLog2(Parent(index, size) + 1) + 1 == FloorLog2(index + 1)
  {
    assert Parent(index, size) + 1 == (index + 1) / 2;
  }

  /** lvl_: the level of a node, counted from 0 at the root, by shifting index + 1 right. */
  method Level(index: int) returns (p: int)
    // Below -1 the source's shift loop never reaches 0; its only caller passes index >= -1.
    requires index >= -1
    ensures p == FloorLog2(index + 1)
  {
    p := -1;
    var n := index + 1;
    while n != 0
      invariant n >= 0
      invariant p + 1 + FloorLog2(n) == FloorLog2(index + 1)
      decreases n
    {
      p := p + 1;
      n := n / 2;
    }
  }

  // ---------------------------------------------------------------------------
  // The heap

  class Heap {
    /** V_: the elements, level by level */
    var v: seq<int>
    /** size_ */
    var size: int

    ghost predicate Valid()
      reads this
    {
      size == |v| && IsHeap(v)
    }

    /** Heap(): empty. */
    constructor ()
      ensures Valid() && v == []
    {
      v := [];
      size := 0;
    }

    /** Heap(val): the vector is copied and heapified, sifting down from size / 2 to the root. */
    constructor FromVector(val: seq<int>)
      requires |val| >= 1
      ensures Valid() && multiset(v) == multiset(val)
    {
      v := val;
      size := |val|;
      new;
      var i := size / 2;
      while i >= 0
        invariant -1 <= i <= size / 2 && size == |v| && size == |val|
        invariant HeapFrom(v, i + 1) && multiset(v) == multiset(val)
      {
        BubbleDown(i);
        i := i - 1;
      }
    }

    function IsEmpty(): (r: bool)
      reads this
      requires Valid()
      ensures r <==> |v| == 0
    {
      size == 0
    }

    function Size(): (r: int)
      reads this
      requires Valid()
      ensures r == |v|
    {
      size
    }

    /** getMin: the root, which is the least element; None where the source throws on an empty heap. */
    function GetMin(): (r: Option<int>)
      reads this
      requires Valid()
      ensures r.None? <==> |v| == 0
      ensures r.Some? ==> r.value in v && forall x :: x in v ==> r.value <= x
    {
      if size == 0 then None
      else
        RootIsMin(v);
        Some(v[0])
    }

    /** getContainer: the underlying vector, which is in heap order. */
    function GetContainer(): (r: seq<int>)
      reads this
      requires Valid()
      ensures r == v && |r| == size && IsHeap(r)
    {
      v
    }

    /**
     * bubbleUp_: the value at `index` is held aside while every larger ancestor moves one
     * level down into the hole; it is written where the hole stops.
     */
    method BubbleUp(index: int)
      requires size == |v| && ValidIndex(index, size)
      requires OrderedExceptInto(v, index) && Bridged(v, index)
      modifies this
      ensures size == old(size) && |v| == |old(v)| && IsHeap(v)
      ensures multiset(v) == multiset(old(v))
    {
      var a, n := v, size;
      var currentNode := index;
      var parent := Parent(currentNode, n);
      if !ValidIndex(parent, n) {
        assert HeapFrom(a, 0);
        return;
      }
      var val := a[currentNode];
      assert UpHole(a, currentNode, val);
      while ValidIndex(parent, n) && val < a[parent]
        invariant unchanged(this)
        invariant n == |a| == |v| && 0 <= currentNode <= index
        invariant parent == Parent(currentNode, n)
        invariant multiset(a[currentNode := val]) == multiset(v)
        invariant UpHole(a, currentNode, val)
        invariant currentNode == index ==> a[currentNode] == val
        decreases currentNode
      {
        UpStep(a, currentNode, val);
        MoveHole(a, currentNode, parent, val);
        a := a[currentNode := a[parent]];
        currentNode := parent;
        parent := Parent(currentNode, n);
      }
      UpDone(a, currentNode, val);
      v := a[currentNode := val];
    }

    /**
     * bubbleDown_: the value at `index` is held aside while the smaller son moves one level up
     * into the hole, as long as that son is strictly smaller; it is written where the hole stops.
     */
    method BubbleDown(index: int)
      requires size == |v| && ValidIndex(index, size) && HeapFrom(v, index + 1)
      modifies this
      ensures size == old(size) && |v| == |old(v)| && HeapFrom(v, index)
      ensures multiset(v) == multiset(old(v))
    {
      var a, n := v, size;
      var currentNode := index;
      var child := MinSon(a, n, currentNode);
      DownStart(a, index);
      if !ValidIndex(child, n) {
        DownDone(a, index, index, a[index]);
        assert a[index := a[index]] == a;
        return;
      }
      var val := a[currentNode];
      while ValidIndex(child, n) && a[child] < val
        invariant unchanged(this)
        invariant n == |a| == |v| && index <= currentNode < n
        invariant child == MinSon(a, n, currentNode)
        invariant multiset(a[currentNode := val]) == multiset(v)
        invariant DownHole(a, index, currentNode, val)
        invariant currentNode == index ==> a[currentNode] == val
        decreases n - currentNode
      {
        DownStep(a, index, currentNode, val, child);
        MoveHole(a, currentNode, child, val);
        a := a[currentNode := a[child]];
        currentNode := child;
        child := MinSon(a, n, currentNode);
      }
      DownDone(a, index, currentNode, val);
      v := a[currentNode := val];
    }

    /** insert: appended as the last leaf and bubbled up. */
    method Insert(val: int)
      requires Valid()
      modifies this
      ensures Valid() && size == old(size) + 1
      ensures multiset(v) == multiset(old(v)) + multiset{val}
    {
      AppendLeaf(v, val);
      v := v + [val];
      size := size + 1;
      BubbleUp(size - 1);
    }

    /** deleteMin: the last leaf replaces the root and is bubbled down; false where the source throws. */
    method DeleteMin() returns (deleted: bool)
      requires Valid()
      modifies this
      ensures Valid() && deleted == (old(size) > 0)
      ensures deleted ==> size == old(size) - 1 && multiset(v) == multiset(old(v)) - multiset{old(v)[0]}
      ensures !deleted ==> v == old(v) && size == old(size)
    {
      if size == 0 {
        return false;
      }
      ghost var before := v;
      LastToRootMultiset(before);
      if size >= 2 {
        LastToRoot(before);
      }
      v := v[0 := v[|v| - 1]];
      v := v[..|v| - 1];
      assert v == before[0 := before[|before| - 1]][..|before| - 1];
      size := size - 1;
      if size != 0 {
        BubbleDown(0);
      }
      deleted := true;
    }

    /** extractMin: getMin followed by deleteMin; None where the source throws. */
    method ExtractMin() returns (r: Option<int>)
      requires Valid()
      modifies this
      ensures Valid() && r == old(GetMin())
      ensures r.Some? ==> size == old(size) - 1 && multiset(v) == multiset(old(v)) - multiset{r.value}
      ensures r.None? ==> v == old(v) && size == old(size)
    {
      if size == 0 {
        return None;
      }
      var x := GetMin();
      var _ := DeleteMin();
      r := x;
    }

    /** clear */
    method Clear()
      modifies this
      ensures Valid() && v == [] && size == 0
    {
      v := [];
      size := 0;
    }
  }
}
