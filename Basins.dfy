/**
 * The pieces of the basin computation that are not floating-point work: the letter suffixes
 * of basin ids, the bucket queue that hands out tiles deepest first, and the tile and
 * diagonal-step tests used while flooding a basin.
 */
module Basins {
  import opened Wrappers
  import opened Terrain

  // ---------------------------------------------------------------------------
  // Basin-id letters: A, B, ..., Z, AA, AB, ...

  /** The remainder of JavaScript's %, which takes the sign of the dividend. */
  function Rem26(a: int): (r: int)
    ensures -26 < r < 26
    ensures a >= 0 ==> r == a % 26
    ensures a < 0 ==> r <= 0
  {
    if a >= 0 then a % 26 else -((-a) % 26)
  }

  /** String.fromCharCode(65 + r). */
  function Letter(r: int): char
    requires -26 < r < 26
  {
    (65 + r) as char
  }

  /** The letters of index n in bijective base 26: the last letter is n % 26, the rest are the letters of n / 26 - 1. */
  function Letters(n: nat): (s: string)
    ensures |s| > 0 && forall i :: 0 <= i < |s| ==> 'A' <= s[i] <= 'Z'
    ensures |s| == 1 <==> n < 26
    decreases n
  {
    if n < 26 then [Letter(n)]
    else Letters(n / 26 - 1) + [Letter(n % 26)]
  }

  /**
   * generateLetterSequence: a do-while that prepends the letter of num % 26 and continues
   * with floor(num / 26) - 1 while that is not negative. A negative index runs the body once,
   * giving the character 65 + (index % 26) under JavaScript's remainder.
   */
  method GenerateLetterSequence(index: int) returns (result: string)
    ensures index >= 0 ==> result == Letters(index)
    ensures index < 0 ==> result == [Letter(Rem26(index))]
  {
    result := "";
    var num := index;
    var more := true;
    while more
      invariant more && index >= 0 ==> num >= 0
      invariant index >= 0 ==> Letters(index) == (if more then Letters(num) else "") + result
      invariant index < 0 && more ==> num == index && result == ""
      invariant index < 0 && !more ==> result == [Letter(Rem26(index))]
      decreases if more && num >= 0 then num + 2 else if more then 1 else 0
    {
      ghost var before := result;
      result := [Letter(Rem26(num))] + result;
      if num >= 0 {
        LastLetter(num, before, result);
      }
      num := num / 26 - 1;
      more := num >= 0;
    }
  }

  /** One round of the loop: the last letter of num, and what comes before it. */
  lemma LastLetter(num: nat, before: string, after: string)
    requires after == [Letter(Rem26(num))] + before
    ensures Letters(num) + before == (if num / 26 - 1 < 0 then "" else Letters(num / 26 - 1)) + after
  {
  }

  /** The value of an upper-case letter. */
  function Digit(c: char): int {
    c as int - 65
  }

  /** The index whose letters are s: the inverse of Letters. */
  function FromLetters(s: string): (n: nat)
    requires |s| > 0 && forall i :: 0 <= i < |s| ==> 'A' <= s[i] <= 'Z'
    decreases |s|
  {
    if |s| == 1 then Digit(s[0])
    else (FromLetters(s[..|s| - 1]) + 1) * 26 + Digit(s[|s| - 1])
  }

  /** Decoding the letters of n gives back n, so no two indices share their letters. */
  lemma {:induction false} FromLettersLetters(n: nat)
    ensures FromLetters(Letters(n)) == n
    decreases n
  {
    var s := Letters(n);
    if n >= 26 {
      FromLettersLetters(n / 26 - 1);
      assert s[..|s| - 1] == Letters(n / 26 - 1);
    }
  }

  /** Every non-empty upper-case string is the letters of some index: the map is onto. */
  lemma {:induction false} LettersFromLetters(s: string)
    requires |s| > 0 && forall i :: 0 <= i < |s| ==> 'A' <= s[i] <= 'Z'
    ensures Letters(FromLetters(s)) == s
    decreases |s|
  {
    if |s| > 1 {
      var p, c := s[..|s| - 1], s[|s| - 1];
      var n := FromLetters(s);
      assert n == (FromLetters(p) + 1) * 26 + Digit(c);
      PlaceValue(FromLetters(p), Digit(c), n);
      calc {
        Letters(n);
        Letters(FromLetters(p)) + [Letter(Digit(c))];
        { LettersFromLetters(p); }
        p + [c];
        s;
      }
    }
  }

  /** Splitting (m + 1) * 26 + d back into m and the digit d. */
  lemma PlaceValue(m: nat, d: int, n: int)
    requires 0 <= d < 26 && n == (m + 1) * 26 + d
    ensures n >= 26 && n / 26 - 1 == m && n % 26 == d
  {
  }

  /** Different indices get different letters. */
  lemma LettersInjective(a: nat, b: nat)
    ensures Letters(a) == Letters(b) ==> a == b
  {
    FromLettersLetters(a);
    FromLettersLetters(b);
  }

  /** The first ids of a depth group. */
  lemma LettersExamples()
    ensures Letters(0) == "A" && Letters(25) == "Z" && Letters(26) == "AA" && Letters(27) == "AB"
    ensures Letters(701) == "ZZ" && Letters(702) == "AAA"
  {
    assert Letters(26) == Letters(0) + "A";
    assert Letters(27) == Letters(0) + "B";
    assert Letters(701) == Letters(25) + "Z";
    assert Letters(702) == Letters(26) + "A";
  }

  // ---------------------------------------------------------------------------
  // The depth bucket queue

  /** A queued tile and its depth. */
  datatype Item = Item(x: int, y: int, depth: int)

  /** A non-empty set has an element. */
  lemma NonEmpty(s: set<int>)
    requires s != {}
    ensures exists x :: x in s
  {
    if forall x :: x !in s {
      assert false;
    }
  }

  /** Some element of a non-empty set. */
  ghost function Pick(s: set<int>): (r: int)
    requires s != {}
    ensures r in s
  {
    NonEmpty(s);
    var x :| x in s;
    x
  }

  /** The number of items in all buckets of m. */
  ghost function Total(m: map<int, seq<Item>>): nat
    decreases |m.Keys|
  {
    if m.Keys == {} then 0
    else
      var k := Pick(m.Keys);
      assert (m - {k}).Keys < m.Keys;
      |m[k]| + Total(m - {k})
  }

  /** Any bucket can be counted first. */
  lemma {:induction false} TotalRemove(m: map<int, seq<Item>>, k: int)
    requires k in m
    ensures Total(m) == |m[k]| + Total(m - {k})
    decreases |m.Keys|
  {
    var j := Pick(m.Keys);
    if j != k {
      Shrinks(m, j);
      Shrinks(m, k);
      TotalRemove(m - {j}, k);
      TotalRemove(m - {k}, j);
      RemoveSwap(m, j, k);
    }
  }

  /** Removing a key makes the key set smaller. */
  lemma Shrinks(m: map<int, seq<Item>>, k: int)
    requires k in m
    ensures |(m - {k}).Keys| < |m.Keys|
  {
    assert (m - {k}).Keys < m.Keys;
  }

  /** Two keys can be removed in either order. */
  lemma RemoveSwap(m: map<int, seq<Item>>, j: int, k: int)
    ensures m - {j} - {k} == m - {k} - {j}
  {
  }

  /** Replacing (or adding) one bucket changes the total by the difference in its length. */
  lemma TotalUpdate(m: map<int, seq<Item>>, k: int, s: seq<Item>)
    ensures Total(m[k := s]) == Total(m) - (if k in m then |m[k]| else 0) + |s|
  {
    TotalRemove(m[k := s], k);
    if k in m {
      TotalRemove(m, k);
      assert m[k := s] - {k} == m - {k};
    } else {
      assert m[k := s] - {k} == m;
    }
  }

  function Max(a: int, b: int): int {
    if a >= b then a else b
  }

  /**
   * DepthPriorityQueue: a map from depth to a stack of items, and maxDepth, the highest
   * depth that may still hold items. pop scans down from maxDepth and never looks at
   * negative depths.
   */
  class DepthPriorityQueue {
    var buckets: map<int, seq<Item>>
    var maxDepth: int

    /** Each bucket holds items of its own depth, and every bucket above maxDepth is empty. */
    ghost predicate Valid()
      reads this
    {
      maxDepth >= -1
      && (forall d :: d in buckets ==> forall i :: 0 <= i < |buckets[d]| ==> buckets[d][i].depth == d)
      && (forall d :: d in buckets && d > maxDepth ==> |buckets[d]| == 0)
    }

    /** The number of queued items. */
    ghost function Count(): nat
      reads this
    {
      Total(buckets)
    }

    constructor ()
      ensures Valid() && buckets == map[] && maxDepth == -1
    {
      buckets := map[];
      maxDepth := -1;
    }

    /** push: appends the item to the bucket of its depth and raises maxDepth to it. */
    method Push(item: Item)
      requires Valid()
      modifies this
      ensures Valid()
      ensures buckets == old(buckets)[item.depth := (if item.depth in old(buckets) then old(buckets)[item.depth] else []) + [item]]
      ensures maxDepth == Max(old(maxDepth), item.depth)
      ensures Count() == old(Count()) + 1
    {
      var d := item.depth;
      if d !in buckets {
        buckets := buckets[d := []];
      }
      TotalUpdate(old(buckets), d, buckets[d] + [item]);
      buckets := buckets[d := buckets[d] + [item]];
      maxDepth := Max(maxDepth, d);
    }

    /**
     * pop: the last item pushed at the greatest depth that has items, or None when no
     * bucket of depth 0 or more holds one. Items of negative depth are never handed out.
     */
    method Pop() returns (r: Option<Item>)
      requires Valid()
      modifies this
      ensures Valid()
      ensures r.None? <==> forall d :: d in old(buckets) && d >= 0 ==> |old(buckets)[d]| == 0
      ensures r.None? ==> buckets == old(buckets) && maxDepth == -1
      ensures r.Some? ==>
        var d := r.value.depth;
        d >= 0 && d in old(buckets) &&
        var b := old(buckets)[d];
        |b| > 0 && r.value == b[|b| - 1]
        && (forall e :: e in old(buckets) && |old(buckets)[e]| > 0 ==> e <= d)
        && buckets == old(buckets)[d := b[..|b| - 1]]
        && Count() == old(Count()) - 1
    {
      while maxDepth >= 0
        invariant Valid() && buckets == old(buckets)
        invariant forall d :: d in buckets && d >= 0 && d > maxDepth ==> |buckets[d]| == 0
        decreases maxDepth
      {
        if maxDepth in buckets && |buckets[maxDepth]| > 0 {
          var b := buckets[maxDepth];
          r := Some(b[|b| - 1]);
          TotalUpdate(buckets, maxDepth, b[..|b| - 1]);
          buckets := buckets[maxDepth := b[..|b| - 1]];
          return;
        }
        maxDepth := maxDepth - 1;
      }
      r := None;
    }

    /** length: the sum of the bucket lengths. */
    method Length() returns (n: nat)
      ensures n == Count()
    {
      n := 0;
      var rest := buckets;
      while rest.Keys != {}
        invariant n + Total(rest) == Total(buckets)
        decreases |rest.Keys|
      {
        NonEmpty(rest.Keys);
        var k :| k in rest;
        TotalRemove(rest, k);
        n := n + |rest[k]|;
        assert (rest - {k}).Keys < rest.Keys;
        rest := rest - {k};
      }
    }
  }

  // ---------------------------------------------------------------------------
  // Tile and step tests

  /** isValidTile: inside the world. */
  predicate IsValidTile(x: int, y: int) {
    x >= 0 && y >= 0 && x < WorldW && y < WorldH
  }

  /** On the world's height grid, the valid tiles are exactly the cells that can be indexed. */
  lemma ValidTileIndexes(heights: seq<seq<int>>, x: int, y: int)
    requires IsGrid(heights, WorldW, WorldH)
    ensures IsValidTile(x, y) <==> 0 <= y < |heights| && 0 <= x < |heights[y]|
  {
  }

  function Abs(a: int): nat {
    if a < 0 then -a else a
  }

  /**
   * isDiagonalValid: a step whose |dx| + |dy| is 2 is blocked when the two tiles it cuts
   * between, (x1 + dx, y1) and (x1, y1 + dy), are both in the world and both land (height 0).
   */
  function IsDiagonalValid(x1: int, y1: int, x2: int, y2: int, heights: seq<seq<int>>): bool
    requires IsGrid(heights, WorldW, WorldH)
  {
    var dx, dy := x2 - x1, y2 - y1;
    if Abs(dx) + Abs(dy) != 2 then true
    else
      var c1x, c1y, c2x, c2y := x1 + dx, y1, x1, y1 + dy;
      if IsValidTile(c1x, c1y) && IsValidTile(c2x, c2y) then
        !(heights[c1y][c1x] == 0 && heights[c2y][c2x] == 0)
      else true
  }

  /** A step to one of the four side neighbours (or no step) is never blocked. */
  lemma OrthogonalStepValid(heights: seq<seq<int>>, x: int, y: int, dx: int, dy: int)
    requires IsGrid(heights, WorldW, WorldH)
    requires -1 <= dx <= 1 && -1 <= dy <= 1 && (dx == 0 || dy == 0)
    ensures IsDiagonalValid(x, y, x + dx, y + dy, heights)
  {
  }

  /** A diagonal step is blocked exactly when both corner tiles are in the world and are land. */
  lemma DiagonalBlocked(heights: seq<seq<int>>, x1: int, y1: int, x2: int, y2: int)
    requires IsGrid(heights, WorldW, WorldH)
    requires Abs(x2 - x1) == 1 && Abs(y2 - y1) == 1
    ensures !IsDiagonalValid(x1, y1, x2, y2, heights) <==>
      IsValidTile(x2, y1) && IsValidTile(x1, y2) && heights[y1][x2] == 0 && heights[y2][x1] == 0
  {
  }

  /** A step is allowed in one direction exactly when it is allowed in the other. */
  lemma DiagonalSymmetric(heights: seq<seq<int>>, x1: int, y1: int, x2: int, y2: int)
    requires IsGrid(heights, WorldW, WorldH)
    ensures IsDiagonalValid(x1, y1, x2, y2, heights) == IsDiagonalValid(x2, y2, x1, y1, heights)
  {
  }

  /** Any step with |dx| + |dy| = 2 counts as diagonal, including a straight step of two tiles, whose "corners" are the target and the start. */
  lemma StraightTwoStep(heights: seq<seq<int>>, x: int, y: int)
    requires IsGrid(heights, WorldW, WorldH)
    requires IsValidTile(x, y) && IsValidTile(x + 2, y)
    ensures !IsDiagonalValid(x, y, x + 2, y, heights) <==> heights[y][x + 2] == 0 && heights[y][x] == 0
  {
  }
}
