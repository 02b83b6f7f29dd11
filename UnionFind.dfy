/**
 * Union-find over a table in which a non-negative entry is the parent of an element and a
 * negative entry marks a representative, its negation being the size of the set. Find
 * compresses paths; union hangs the smaller tree under the larger one.
 */
module UnionFind {

  /** The roots after a union: every element of the set represented by `from` now has root `to`. */
  function Relabel(s: seq<int>, from: int, to: int): (r: seq<int>)
    ensures |r| == |s|
    ensures forall i :: 0 <= i < |s| ==> r[i] == (if s[i] == from then to else s[i])
  {
    if |s| == 0 then [] else Relabel(s[..|s| - 1], from, to) + [if s[|s| - 1] == from then to else s[|s| - 1]]
  }

  /** The distance bound after a union: the elements of the set hung below another root are one step further. */
  function Deepen(dist: seq<nat>, root: seq<int>, from: int): (r: seq<nat>)
    requires |dist| == |root|
    ensures |r| == |dist|
    ensures forall i :: 0 <= i < |dist| ==> r[i] == (if root[i] == from then dist[i] + 1 else dist[i])
  {
    seq(|dist|, i requires 0 <= i < |dist| => if root[i] == from then dist[i] + 1 else dist[i])
  }

  /**
   * What the table `t` says about element i: its recorded representative is a root; a root
   * is its own representative, at distance 0, and its entry is minus the number of elements
   * it represents; any other element's parent has the same representative and a smaller
   * distance (so find terminates).
   */
  ghost predicate Node(t: seq<int>, root: seq<int>, dist: seq<nat>, i: int)
    requires |t| == |root| == |dist| && 0 <= i < |t|
  {
    0 <= root[i] < |t| && t[root[i]] < 0
    && (t[i] < 0 ==> root[i] == i && dist[i] == 0 && -t[i] == multiset(root)[i])
    && (t[i] >= 0 ==> t[i] < |t| && root[t[i]] == root[i] && dist[t[i]] < dist[i])
  }

  /** The table is a forest whose roots `root` records. */
  ghost predicate Forest(t: seq<int>, root: seq<int>, dist: seq<nat>) {
    |t| == |root| == |dist| && forall i :: 0 <= i < |t| ==> Node(t, root, dist, i)
  }

  /** Each element alone: root itself, one member. */
  lemma {:induction false} SingletonCounts(n: nat, r: int)
    requires 0 <= r < n
    ensures multiset(seq(n, i => i))[r] == 1
  {
    assert seq(n, i => i) == seq(n - 1, i => i) + [n - 1];
    if n - 1 == r {
      NotBelow(n - 1, r);
    } else {
      SingletonCounts(n - 1, r);
    }
  }

  lemma {:induction false} NotBelow(n: nat, r: int)
    requires r >= n
    ensures multiset(seq(n, i => i))[r] == 0
  {
    if n > 0 {
      assert seq(n, i => i) == seq(n - 1, i => i) + [n - 1];
      NotBelow(n - 1, r);
    }
  }

  lemma InitialForest(n: nat)
    ensures Forest(seq(n, i => -1), seq(n, i => i), seq(n, i => 0))
  {
    var t, root, dist: seq<nat> := seq(n, i => -1), seq(n, i => i), seq(n, i => 0);
    forall i | 0 <= i < n
      ensures Node(t, root, dist, i)
    {
      SingletonCounts(n, i);
    }
  }

  /** Relabelling moves the whole count of `from` onto `to` ... */
  lemma {:induction false} RelabelCountTo(s: seq<int>, from: int, to: int)
    requires from != to
    ensures multiset(Relabel(s, from, to))[to] == multiset(s)[to] + multiset(s)[from]
  {
    if |s| > 0 {
      var init, last := s[..|s| - 1], s[|s| - 1];
      assert s == init + [last];
      RelabelLast(s, from, to);
      RelabelCountTo(init, from, to);
      CountAppend(init, last, to);
      CountAppend(Relabel(init, from, to), if last == from then to else last, to);
      CountAppend(init, last, from);
    }
  }

  /** ... leaves none with `from` ... */
  lemma {:induction false} RelabelCountFrom(s: seq<int>, from: int, to: int)
    requires from != to
    ensures multiset(Relabel(s, from, to))[from] == 0
  {
    if |s| > 0 {
      var init, last := s[..|s| - 1], s[|s| - 1];
      assert s == init + [last];
      RelabelLast(s, from, to);
      RelabelCountFrom(init, from, to);
      CountAppend(init, last, from);
      CountAppend(Relabel(init, from, to), if last == from then to else last, from);
    }
  }

  /** ... and leaves every other count alone. */
  lemma {:induction false} RelabelCountOther(s: seq<int>, from: int, to: int, x: int)
    requires x != from && x != to
    ensures multiset(Relabel(s, from, to))[x] == multiset(s)[x]
  {
    if |s| > 0 {
      var init, last := s[..|s| - 1], s[|s| - 1];
      assert s == init + [last];
      RelabelLast(s, from, to);
      RelabelCountOther(init, from, to, x);
      CountAppend(init, last, x);
      CountAppend(Relabel(init, from, to), if last == from then to else last, x);
    }
  }

  /** Relabel works element by element, from the front. */
  lemma RelabelLast(s: seq<int>, from: int, to: int)
    requires |s| > 0
    ensures Relabel(s, from, to) == Relabel(s[..|s| - 1], from, to) + [if s[|s| - 1] == from then to else s[|s| - 1]]
  {
  }

  /** Appending v adds one to the count of v and to no other count. */
  lemma CountAppend(a: seq<int>, v: int, x: int)
    ensures multiset(a + [v])[x] == multiset(a)[x] + (if v == x then 1 else 0)
  {
    assert multiset(a + [v]) == multiset(a) + multiset{v};
  }

  /** After a union, two elements share a root exactly when they did, or each was in one of the two joined sets. */
  lemma RelabelJoins(s: seq<int>, from: int, to: int, x: int, y: int)
    requires 0 <= x < |s| && 0 <= y < |s|
    ensures var r := Relabel(s, from, to);
      r[x] == r[y] <==> s[x] == s[y] || ((s[x] == from || s[x] == to) && (s[y] == from || s[y] == to))
  {
  }

  /** Path compression: pointing a non-root element straight at its root keeps the forest and its roots. */
  lemma Compress(t: seq<int>, root: seq<int>, dist: seq<nat>, v: int)
    requires Forest(t, root, dist) && 0 <= v < |t| && t[v] >= 0
    ensures Forest(t[v := root[v]], root, dist)
  {
    var t' := t[v := root[v]];
    assert Node(t, root, dist, v);
    assert Node(t, root, dist, root[v]);
    forall i | 0 <= i < |t'|
      ensures Node(t', root, dist, i)
    {
      assert Node(t, root, dist, i);
      if t[i] >= 0 && i != v {
        assert Node(t, root, dist, t[i]);
      }
    }
  }

  /** Hanging root `b` below root `a`, with a's entry taking the sum of both sizes. */
  lemma Link(t: seq<int>, root: seq<int>, dist: seq<nat>, a: int, b: int)
    requires Forest(t, root, dist) && 0 <= a < |t| && 0 <= b < |t| && a != b && t[a] < 0 && t[b] < 0
    ensures Forest(t[a := t[a] + t[b]][b := a], Relabel(root, b, a), Deepen(dist, root, b))
    ensures t[a] + t[b] < 0 && -(t[a] + t[b]) == multiset(root)[a] + multiset(root)[b]
  {
    var t' := t[a := t[a] + t[b]][b := a];
    var root' := Relabel(root, b, a);
    var dist' := Deepen(dist, root, b);
    assert Node(t, root, dist, a) && Node(t, root, dist, b);
    forall i | 0 <= i < |t'|
      ensures Node(t', root', dist', i)
    {
      assert Node(t, root, dist, i);
      if i == a {
        RelabelCountTo(root, b, a);
      } else if i != b {
        RelabelCountOther(root, b, a, i);
      }
      if t[i] >= 0 {
        assert Node(t, root, dist, t[i]);
      }
    }
  }

  class UnionFind {
    /** UF: parent, or minus the set size at a representative */
    var table: array<int>
    /** the representative of every element */
    ghost var root: seq<int>
    /** a bound on the distance of every element to its representative */
    ghost var dist: seq<nat>

    ghost predicate Valid()
      reads this, table
    {
      table.Length == |root| && Forest(table[..], root, dist)
    }

    /** UF(n, -1): every element is its own representative, of a set of size 1. */
    constructor (n: nat)
      ensures Valid() && table.Length == n
      ensures forall i :: 0 <= i < n ==> root[i] == i && table[i] == -1 && Rank(i) == 1
    {
      table := new int[n](i => -1);
      root := seq(n, i => i);
      dist := seq(n, i => 0);
      new;
      assert table[..] == seq(n, i => -1);
      InitialForest(n);
    }

    /** UF_rank: the size of the set a representative stands for. */
    function Rank(x: int): (r: int)
      reads this, table
      requires Valid() && 0 <= x < table.Length && table[x] < 0
      ensures r >= 1 && r == multiset(root)[x]
    {
      assert Node(table[..], root, dist, x);
      -table[x]
    }

    /** UF_find: the representative of v; every entry on the way is pointed straight at it. */
    method Find(v: int) returns (r: int)
      requires Valid() && 0 <= v < table.Length
      modifies table
      ensures Valid() && r == root[v] && 0 <= r < table.Length && table[r] < 0
      ensures forall i :: 0 <= i < table.Length ==>
        (old(table[i]) < 0 ==> table[i] == old(table[i])) && (old(table[i]) >= 0 ==> table[i] >= 0)
      decreases dist[v]
    {
      assert Node(table[..], root, dist, v);
      if table[v] < 0 {
        return v;
      }
      r := Find(table[v]);
      Compress(table[..], root, dist, v);
      ghost var t := table[..];
      table[v] := r;
      assert table[..] == t[v := root[v]];
    }

    /**
     * UF_union: the representatives of a and b; when they differ, the one of the smaller set
     * (b's on a tie) is hung under the other, whose size becomes the sum. The surviving
     * representative is returned.
     */
    method Union(a: int, b: int) returns (r: int)
      requires Valid() && 0 <= a < table.Length && 0 <= b < table.Length
      modifies this, table
      ensures table == old(table)
      ensures Valid() && 0 <= r < table.Length && table[r] < 0 && r == root[a] && r == root[b]
      ensures old(root[a]) == old(root[b]) ==> root == old(root) && r == old(root[a])
      ensures old(root[a]) != old(root[b]) ==>
        var ra, rb := old(root[a]), old(root[b]);
        var sa, sb := old(multiset(root)[ra]), old(multiset(root)[rb]);
        var winner, loser := (if sa < sb then rb else ra), (if sa < sb then ra else rb);
        r == winner && root == Relabel(old(root), loser, winner) && Rank(r) == sa + sb
    {
      var ra := Find(a);
      var rb := Find(b);
      if ra == rb {
        return ra;
      }
      if Rank(ra) < Rank(rb) {
        ra, rb := rb, ra;
      }
      Hang(ra, rb);
      r := ra;
    }

    /** The last two steps of UF_union: the winner's entry takes the sum of both sizes and the loser points at it. */
    method Hang(winner: int, loser: int)
      requires Valid() && 0 <= winner < table.Length && 0 <= loser < table.Length && winner != loser
      requires table[winner] < 0 && table[loser] < 0
      modifies this, table
      ensures table == old(table) && Valid()
      ensures root == Relabel(old(root), loser, winner)
      ensures table[winner] < 0 && -table[winner] == old(multiset(root)[winner] + multiset(root)[loser])
    {
      ghost var t := table[..];
      Link(t, root, dist, winner, loser);
      table[winner] := table[winner] + table[loser];
      table[loser] := winner;
      assert table[..] == t[winner := t[winner] + t[loser]][loser := winner];
      dist := Deepen(dist, root, loser);
      root := Relabel(root, loser, winner);
    }
  }
}
