/**
 * A leftist heap as a persistent tree: every node stores its key and the length h of its
 * right spine; join merges along the right spines and swaps children to keep the longer
 * spine on the left. insert and deleteMin are joins.
 */
module LeftistHeap {
  import opened Wrappers
  import opened Bits

  /** Tree(L, key, h, R), with Nil for the null tree. */
  datatype Tree = Nil | Node(left: Tree, key: int, h: int, right: Tree)

  /** h: the stored spine length, 0 for the null tree. */
  function H(t: Tree): int {
    if t.Nil? then 0 else t.h
  }

  /** key: the root key, or None standing for +Infinity for the null tree. */
  function Key(t: Tree): (r: Option<int>)
    ensures r.None? <==> t.Nil?
    ensures r.Some? ==> r.value in Keys(t)
  {
    if t.Nil? then None else Some(t.key)
  }

  /** The keys stored in a tree. */
  function Keys(t: Tree): multiset<int> {
    if t.Nil? then multiset{} else Keys(t.left) + multiset{t.key} + Keys(t.right)
  }

  /** The number of nodes. */
  function Size(t: Tree): nat {
    if t.Nil? then 0 else Size(t.left) + 1 + Size(t.right)
  }

  /** The root of t, if any, is not below x. */
  predicate RootAbove(t: Tree, x: int) {
    t.Nil? || x <= t.key
  }

  /** Heap order: no child's key is below its parent's. */
  ghost predicate IsHeap(t: Tree) {
    t.Nil? || (
      RootAbove(t.left, t.key) && RootAbove(t.right, t.key)
      && IsHeap(t.left) && IsHeap(t.right))
  }

  /** The leftist invariant: the stored h is one more than the right child's, and is at most the left child's plus one. */
  ghost predicate Leftist(t: Tree) {
    t.Nil? || (
      H(t.left) >= H(t.right) && t.h == H(t.right) + 1
      && Leftist(t.left) && Leftist(t.right))
  }

  /** A valid leftist heap. */
  ghost predicate Valid(t: Tree) {
    IsHeap(t) && Leftist(t)
  }

  /**
   * join: merges two heaps. The result has as many nodes as both, and its root is one of the
   * two roots (JoinKeys, JoinHeap and JoinLeftist show that it keeps the keys and both
   * invariants).
   */
  function Join(t1: Tree, t2: Tree): (r: Tree)
    ensures Size(r) == Size(t1) + Size(t2)
    ensures r.Nil? || (t1.Node? && r.key == t1.key) || (t2.Node? && r.key == t2.key)
    decreases Size(t1) + Size(t2), if t1.Node? && t2.Node? && t1.key > t2.key then 1 else 0
  {
    if t1.Nil? then t2
    else if t2.Nil? then t1
    else if t1.key > t2.key then Join(t2, t1)
    else
      var tl, tr := t1.left, Join(t1.right, t2);
      if H(tl) < H(tr) then Node(tr, t1.key, H(tl) + 1, tl)
      else Node(tl, t1.key, H(tr) + 1, tr)
  }

  /** The smaller of the two root keys (any bound when both trees are null). */
  function Min(t1: Tree, t2: Tree): int {
    if t1.Nil? && t2.Nil? then 0
    else if t1.Nil? then t2.key
    else if t2.Nil? then t1.key
    else if t1.key <= t2.key then t1.key else t2.key
  }

  /** join keeps exactly the keys of both trees. */
  lemma {:induction false} JoinKeys(t1: Tree, t2: Tree)
    ensures Keys(Join(t1, t2)) == Keys(t1) + Keys(t2)
    decreases Size(t1) + Size(t2), if t1.Node? && t2.Node? && t1.key > t2.key then 1 else 0
  {
    if t1.Node? && t2.Node? {
      if t1.key > t2.key {
        JoinKeys(t2, t1);
        assert Join(t1, t2) == Join(t2, t1);
        Regroup(Keys(t2), Keys(t1), Keys(t1), Keys(t1));
      } else {
        JoinKeys(t1.right, t2);
        var tl, tr := t1.left, Join(t1.right, t2);
        var k, a, b, c := t1.key, Keys(t1.left), Keys(t1.right), Keys(t2);
        Regroup(a, b, c, multiset{k});
        if H(tl) < H(tr) {
          assert Join(t1, t2) == Node(tr, k, H(tl) + 1, tl);
        } else {
          assert Join(t1, t2) == Node(tl, k, H(tr) + 1, tr);
        }
      }
    }
  }

  /** The multiset sums in JoinKeys, regrouped. */
  lemma Regroup<T>(a: multiset<T>, b: multiset<T>, c: multiset<T>, k: multiset<T>)
    ensures (b + c) + k + a == a + k + b + c
    ensures a + k + (b + c) == a + k + b + c
    ensures a + k == k + a
  {
  }

  /** join of two heaps is a heap. */
  lemma {:induction false} JoinHeap(t1: Tree, t2: Tree)
    ensures IsHeap(t1) && IsHeap(t2) ==> IsHeap(Join(t1, t2))
    decreases Size(t1) + Size(t2), if t1.Node? && t2.Node? && t1.key > t2.key then 1 else 0
  {
    if t1.Node? && t2.Node? {
      if t1.key > t2.key {
        JoinHeap(t2, t1);
      } else {
        JoinHeap(t1.right, t2);
        var tl, tr := t1.left, Join(t1.right, t2);
        if IsHeap(t1) && IsHeap(t2) {
          assert RootAbove(tr, t1.key);
        }
        assert Join(t1, t2) == if H(tl) < H(tr) then Node(tr, t1.key, H(tl) + 1, tl) else Node(tl, t1.key, H(tr) + 1, tr);
      }
    }
  }

  /** join of two leftist trees is leftist. */
  lemma {:induction false} JoinLeftist(t1: Tree, t2: Tree)
    ensures Leftist(t1) && Leftist(t2) ==> Leftist(Join(t1, t2))
    decreases Size(t1) + Size(t2), if t1.Node? && t2.Node? && t1.key > t2.key then 1 else 0
  {
    if t1.Node? && t2.Node? {
      if t1.key > t2.key {
        JoinLeftist(t2, t1);
      } else {
        JoinLeftist(t1.right, t2);
      }
    }
  }

  /** join(null, T) = T and join(T, null) = T. */
  lemma JoinIdentity(t: Tree)
    ensures Join(Nil, t) == t && Join(t, Nil) == t
  {
  }

  /** In a heap the root key is the least key of the tree. */
  lemma {:induction false} RootIsLeast(t: Tree)
    requires t.Node?
    ensures IsHeap(t) ==> forall k :: k in Keys(t) ==> t.key <= k
  {
    if t.left.Node? {
      RootIsLeast(t.left);
    }
    if t.right.Node? {
      RootIsLeast(t.right);
    }
  }

  /** insert: the join with a one-node tree. */
  function Insert(t: Tree, k: int): (r: Tree)
    ensures Keys(r) == Keys(t) + multiset{k}
    ensures Valid(t) ==> Valid(r)
  {
    var unit := Node(Nil, k, 1, Nil);
    assert Keys(unit) == multiset{k};
    assert Valid(unit);
    JoinKeys(t, unit);
    JoinHeap(t, unit);
    JoinLeftist(t, unit);
    Join(t, unit)
  }

  /** deleteMin: the root key and the join of the two subtrees; None where the source throws on the null tree. */
  function DeleteMin(t: Tree): (r: Option<(int, Tree)>)
    ensures r.None? <==> t.Nil?
    ensures r.Some? ==> Keys(r.value.1) + multiset{r.value.0} == Keys(t) && Size(r.value.1) == Size(t) - 1
    ensures r.Some? && IsHeap(t) ==> forall k :: k in Keys(t) ==> r.value.0 <= k
    ensures r.Some? && Valid(t) ==> Valid(r.value.1)
  {
    if t.Nil? then None
    else
      RootIsLeast(t);
      JoinKeys(t.left, t.right);
      JoinHeap(t.left, t.right);
      JoinLeftist(t.left, t.right);
      Some((t.key, Join(t.left, t.right)))
  }

  /** The length of the right spine, which is what h counts. */
  function RightSpine(t: Tree): nat {
    if t.Nil? then 0 else RightSpine(t.right) + 1
  }

  /** The stored h is the right spine length, and a leftist tree with spine h holds at least 2^h - 1 keys. */
  lemma {:induction false} SpineIsLogarithmic(t: Tree)
    requires Leftist(t)
    ensures H(t) == RightSpine(t)
    ensures Pow2(H(t)) <= |Keys(t)| + 1
  {
    if t.Node? {
      SpineIsLogarithmic(t.left);
      SpineIsLogarithmic(t.right);
      PowMonotone(H(t.right), H(t.left));
      assert |Keys(t)| == |Keys(t.left)| + 1 + |Keys(t.right)|;
      assert Pow2(H(t)) == 2 * Pow2(H(t.right));
    }
  }

  // ---------------------------------------------------------------------------
  // Heap sort: inserts, then repeated deleteMin

  /** The heap after inserting xs one by one. */
  function InsertAll(t: Tree, xs: seq<int>): (r: Tree)
    ensures Keys(r) == Keys(t) + multiset(xs)
    ensures Valid(t) ==> Valid(r)
    decreases |xs|
  {
    if |xs| == 0 then t
    else
      assert xs == [xs[0]] + xs[1..];
      InsertAll(Insert(t, xs[0]), xs[1..])
  }

  /** The keys returned by deleteMin until the heap is empty. */
  function Drain(t: Tree): (r: seq<int>)
    ensures |r| == Size(t)
    decreases Size(t)
  {
    match DeleteMin(t)
    case None => []
    case Some((k, rest)) => [k] + Drain(rest)
  }

  ghost predicate Sorted(s: seq<int>) {
    forall i, j :: 0 <= i < j < |s| ==> s[i] <= s[j]
  }

  /** Draining a tree yields exactly its keys. */
  lemma {:induction false} DrainKeys(t: Tree)
    ensures multiset(Drain(t)) == Keys(t)
    decreases Size(t)
  {
    if t.Node? {
      var rest := Join(t.left, t.right);
      JoinKeys(t.left, t.right);
      DrainKeys(rest);
      assert Drain(t) == [t.key] + Drain(rest);
    }
  }

  /** Draining a heap yields its keys in ascending order. */
  lemma {:induction false} DrainSorted(t: Tree)
    requires IsHeap(t)
    ensures Sorted(Drain(t))
    decreases Size(t)
  {
    if t.Node? {
      var rest := Join(t.left, t.right);
      JoinKeys(t.left, t.right);
      JoinHeap(t.left, t.right);
      DrainSorted(rest);
      DrainKeys(rest);
      var tail := Drain(rest);
      assert Drain(t) == [t.key] + tail;
      RootIsLeast(t);
      LeastFirst(t.key, tail);
    }
  }

  /** A key below every element of a sorted sequence can go in front of it. */
  lemma LeastFirst(k: int, tail: seq<int>)
    requires Sorted(tail) && forall x :: x in multiset(tail) ==> k <= x
    ensures Sorted([k] + tail)
  {
    forall j | 0 <= j < |tail|
      ensures k <= tail[j]
    {
      assert tail[j] in multiset(tail);
    }
  }

  /** Inserting a sequence into the empty heap and deleting the minimum until it is empty sorts the sequence. */
  lemma HeapSort(xs: seq<int>)
    ensures Sorted(Drain(InsertAll(Nil, xs))) && multiset(Drain(InsertAll(Nil, xs))) == multiset(xs)
  {
    DrainSorted(InsertAll(Nil, xs));
    DrainKeys(InsertAll(Nil, xs));
  }
}
