/**
 * Knuth-Morris-Pratt string search: the prefix function of a pattern, and the scan of a text
 * that uses it to report every position where the pattern occurs.
 */
module Kmp {

  /** A UTF-16 code unit: Kotlin's Char, the unit in which a String's length and indices count. */
  newtype CodeUnit = x: int | 0 <= x < 0x1_0000

  /** A Kotlin String as the sequence of its UTF-16 code units. */
  type Utf16 = seq<CodeUnit>

  // ---------------------------------------------------------------------------
  // Borders

  /** The first k characters of pat equal the last k of its first n: a proper border of that prefix. */
  ghost predicate Border(pat: Utf16, n: int, k: int) {
    0 <= k < n <= |pat| && forall t :: 0 <= t < k ==> pat[t] == pat[n - k + t]
  }

  /** No proper border of the first n characters is longer than lo. */
  ghost predicate NoBorderAbove(pat: Utf16, n: int, lo: int) {
    forall m :: lo < m < n ==> !Border(pat, n, m)
  }

  /** k is the length of the longest proper border of the first n characters. */
  ghost predicate Longest(pat: Utf16, n: int, k: int) {
    Border(pat, n, k) && NoBorderAbove(pat, n, k)
  }

  /** A border followed by the character after the prefix is a border one longer. */
  lemma BorderExtend(pat: Utf16, i: int, j: int)
    requires Border(pat, i, j) && i < |pat| && pat[i] == pat[j]
    ensures Border(pat, i + 1, j + 1)
  {
    forall t | 0 <= t < j + 1
      ensures pat[t] == pat[i + 1 - (j + 1) + t]
    {
      if t < j {
        assert pat[t] == pat[i - j + t];
      }
    }
  }

  /** A non-empty border of the first i + 1 characters is a border of the first i, extended by pat[i]. */
  lemma BorderShrink(pat: Utf16, i: int, k: int)
    requires Border(pat, i + 1, k) && k > 0 && i >= 1
    ensures Border(pat, i, k - 1) && pat[k - 1] == pat[i]
  {
    forall t | 0 <= t < k - 1
      ensures pat[t] == pat[i - (k - 1) + t]
    {
      assert pat[t] == pat[i + 1 - k + t];
    }
    assert pat[k - 1] == pat[i + 1 - k + (k - 1)];
  }

  /** A border shorter than another border is a border of that border. */
  lemma BorderOfBorder(pat: Utf16, n: int, j: int, m: int)
    requires Border(pat, n, j) && Border(pat, n, m) && m < j
    ensures Border(pat, j, m)
  {
    forall t | 0 <= t < m
      ensures pat[t] == pat[j - m + t]
    {
      assert pat[t] == pat[n - m + t];
      assert pat[j - m + t] == pat[n - j + (j - m + t)];
    }
  }

  /** A border of a border is a border. */
  lemma BorderTransitive(pat: Utf16, n: int, j: int, m: int)
    requires Border(pat, n, j) && Border(pat, j, m)
    ensures Border(pat, n, m)
  {
    forall t | 0 <= t < m
      ensures pat[t] == pat[n - m + t]
    {
      assert pat[t] == pat[j - m + t];
      assert pat[j - m + t] == pat[n - j + (j - m + t)];
    }
  }

  /** The inner loop of pi: after a mismatch the next candidate is the longest border of the current one. */
  lemma Fallback(pat: Utf16, i: int, j: int, next: int)
    requires 1 <= i < |pat| && Border(pat, i, j) && j > 0 && pat[i] != pat[j]
    requires NoBorderAbove(pat, i + 1, j + 1)
    requires Longest(pat, j, next)
    ensures Border(pat, i, next)
    ensures NoBorderAbove(pat, i + 1, next + 1)
  {
    BorderTransitive(pat, i, j, next);
    var n := i + 1;
    forall k | next + 1 < k < n
      ensures !Border(pat, n, k)
    {
      if Border(pat, i + 1, k) {
        BorderShrink(pat, i, k);
        if k - 1 < j {
          BorderOfBorder(pat, i, j, k - 1);
        }
      }
    }
  }

  /** Where the inner loop of pi stops, the prefix function value is fixed. */
  lemma Settle(pat: Utf16, i: int, j: int)
    requires 1 <= i < |pat| && Border(pat, i, j)
    requires NoBorderAbove(pat, i + 1, j + 1)
    requires j == 0 || pat[i] == pat[j]
    ensures Longest(pat, i + 1, if pat[i] == pat[j] then j + 1 else j)
  {
    if pat[i] == pat[j] {
      BorderExtend(pat, i, j);
    } else {
      var n := i + 1;
      forall k | 0 < k < n
        ensures !Border(pat, n, k)
      {
        if Border(pat, i + 1, k) {
          BorderShrink(pat, i, k);
        }
      }
    }
  }

  /** pi: pi[i] is the length of the longest proper border of pat[0..i]. */
  method Pi(pat: Utf16) returns (pi: array<int>)
    ensures pi.Length == |pat|
    ensures forall i :: 0 <= i < |pat| ==> Longest(pat, i + 1, pi[i])
  {
    pi := new int[|pat|](_ => 0);
    if |pat| == 0 {
      return;
    }
    var i := 1;
    while i < |pat|
      invariant 1 <= i <= |pat|
      invariant forall k :: 0 <= k < i ==> Longest(pat, k + 1, pi[k])
    {
      var j := pi[i - 1];
      Shifted(pat, i, i - 1, j);
      Start(pat, i, j);
      while j > 0 && pat[i] != pat[j]
        invariant 0 <= j < i && Border(pat, i, j)
        invariant NoBorderAbove(pat, i + 1, j + 1)
        invariant forall k :: 0 <= k < i ==> Longest(pat, k + 1, pi[k])
        decreases j
      {
        Shifted(pat, j, j - 1, pi[j - 1]);
        Fallback(pat, i, j, pi[j - 1]);
        j := pi[j - 1];
      }
      Settle(pat, i, j);
      if pat[i] == pat[j] {
        j := j + 1;
      }
      pi[i] := j;
      i := i + 1;
    }
  }

  /** Restates the prefix function entry at k = n - 1 in terms of n. */
  lemma Shifted(pat: Utf16, n: int, k: int, v: int)
    requires n == k + 1 && Longest(pat, k + 1, v)
    ensures Longest(pat, n, v)
  {
  }

  /** The first candidate of the inner loop of pi: the longest border of the first i characters. */
  lemma Start(pat: Utf16, i: int, j: int)
    requires 1 <= i < |pat| && Longest(pat, i, j)
    ensures NoBorderAbove(pat, i + 1, j + 1)
  {
    var n := i + 1;
    forall k | j + 1 < k < n
      ensures !Border(pat, n, k)
    {
      if Border(pat, i + 1, k) {
        BorderShrink(pat, i, k);
      }
    }
  }

  /** In a pattern of distinct code units no prefix has a non-empty border, so pi is all zeros. */
  lemma DistinctHasNoBorder(pat: Utf16, n: int, k: int)
    requires forall a, b :: 0 <= a < b < |pat| ==> pat[a] != pat[b]
    requires Longest(pat, n, k)
    ensures k == 0
  {
    BorderEnds(pat, n, k);
  }

  /** A non-empty border starts with the character at n - k. */
  lemma BorderEnds(pat: Utf16, n: int, k: int)
    requires Border(pat, n, k)
    ensures k > 0 ==> pat[0] == pat[n - k]
  {
    if k > 0 {
      assert pat[0] == pat[n - k + 0];
    }
  }

  /** In a pattern of one repeated code unit the longest proper border of n characters has n - 1. */
  lemma RepeatedHasLongBorder(pat: Utf16, n: int)
    requires forall a :: 0 <= a < |pat| ==> pat[a] == pat[0]
    requires 1 <= n <= |pat|
    ensures Longest(pat, n, n - 1)
  {
  }

  // ---------------------------------------------------------------------------
  // Occurrences

  /** The pattern occurs in the text starting at s. */
  ghost predicate MatchAt(text: Utf16, pat: Utf16, s: int) {
    0 <= s && s + |pat| <= |text| && forall t :: 0 <= t < |pat| ==> text[s + t] == pat[t]
  }

  /** The starts below b at which the pattern occurs, ascending. */
  ghost function MatchesBelow(text: Utf16, pat: Utf16, b: nat): seq<int>
  {
    if b == 0 then [] else MatchesBelow(text, pat, b - 1) + (if MatchAt(text, pat, b - 1) then [b - 1] else [])
  }

  /** MatchesBelow lists exactly the occurrences below b ... */
  lemma {:induction false} MatchesBelowMembers(text: Utf16, pat: Utf16, b: nat)
    ensures forall s :: s in MatchesBelow(text, pat, b) <==> 0 <= s < b && MatchAt(text, pat, s)
  {
    if b > 0 {
      MatchesBelowMembers(text, pat, b - 1);
    }
  }

  /** ... in strictly increasing order. */
  lemma {:induction false} MatchesBelowIncreasing(text: Utf16, pat: Utf16, b: nat)
    ensures forall x, y :: 0 <= x < y < |MatchesBelow(text, pat, b)| ==>
      MatchesBelow(text, pat, b)[x] < MatchesBelow(text, pat, b)[y]
  {
    if b > 0 {
      MatchesBelowIncreasing(text, pat, b - 1);
      MatchesBelowMembers(text, pat, b - 1);
      var prev := MatchesBelow(text, pat, b - 1);
      assert forall x :: 0 <= x < |prev| ==> prev[x] in prev;
    }
  }

  /** Without occurrences between a and b, the lists below a and below b agree. */
  lemma {:induction false} NoMatchesBetween(text: Utf16, pat: Utf16, a: nat, b: nat)
    requires a <= b && forall s :: a <= s < b ==> !MatchAt(text, pat, s)
    ensures MatchesBelow(text, pat, b) == MatchesBelow(text, pat, a)
    decreases b - a
  {
    if a < b {
      NoMatchesBetween(text, pat, a, b - 1);
    }
  }

  /**
   * The scan keeps j characters of the text before i equal to the first j of the pattern.
   * When it falls back to the longest border `next` of those j, no occurrence can start
   * strictly between i - j and i - next.
   */
  lemma ShiftSkipsNothing(text: Utf16, pat: Utf16, i: int, j: int, next: int)
    requires 0 < j <= |pat| && j <= i <= |text|
    requires forall t :: 0 <= t < j ==> text[i - j + t] == pat[t]
    requires Longest(pat, j, next)
    ensures forall s :: i - j < s < i - next ==> !MatchAt(text, pat, s)
    ensures forall t :: 0 <= t < next ==> text[i - next + t] == pat[t]
  {
    forall t | 0 <= t < next
      ensures text[i - next + t] == pat[t]
    {
      assert pat[t] == pat[j - next + t];
      assert text[i - j + (j - next + t)] == pat[j - next + t];
    }
    forall s | i - j < s < i - next
      ensures !MatchAt(text, pat, s)
    {
      if MatchAt(text, pat, s) {
        var k := i - s;
        assert Border(pat, j, k) by {
          forall t | 0 <= t < k
            ensures pat[t] == pat[j - k + t]
          {
            assert text[s + t] == pat[t];
            assert text[i - j + (j - k + t)] == pat[j - k + t];
          }
        }
      }
    }
  }

  /**
   * kmp: the positions of the pattern in the text. For a non-empty pattern these are all its
   * occurrences in increasing order; for the empty pattern the scan reports every position
   * of the text but not the end of the text.
   */
  method Search(text: Utf16, pattern: Utf16) returns (positions: seq<int>)
    ensures |pattern| > 0 ==> positions == MatchesBelow(text, pattern, |text|)
    ensures |pattern| == 0 ==> positions == seq(|text|, k => k)
  {
    var pi := Pi(pattern);
    ghost var table := pi[..];
    var i, j := 0, 0;
    positions := [];
    while i < |text|
      invariant Scanned(text, pattern, i, j, positions)
      invariant pi[..] == table
      decreases |text| - i, j
    {
      ghost var i0, j0 := i, j;
      while i < |text| && j < |pattern| && text[i] == pattern[j]
        invariant i0 <= i <= |text| && j <= |pattern| && i - j == i0 - j0
        invariant forall t :: 0 <= t < j ==> text[i - j + t] == pattern[t]
      {
        i := i + 1;
        j := j + 1;
      }
      ScanStep(text, pattern, table, i, j, positions);
      if j == |pattern| {
        positions := positions + [i - j];
      }
      if j > 0 {
        j := pi[j - 1];
      } else {
        i := i + 1;
      }
    }
    ScanDone(text, pattern, i, j, positions);
  }

  /**
   * The state of the scan between rounds: the j characters before i match the start of the
   * pattern, and the list holds every occurrence that starts before i - j.
   */
  ghost predicate Scanned(text: Utf16, pat: Utf16, i: int, j: int, positions: seq<int>) {
    0 <= j <= i <= |text| && j <= |pat|
    && (forall t :: 0 <= t < j ==> text[i - j + t] == pat[t])
    && (|pat| > 0 ==> j < |pat| && positions == MatchesBelow(text, pat, i - j))
    && (|pat| == 0 ==> positions == seq(i, k => k))
  }

  /** One round of the scan, from where the inner loop stops, keeps the state of the scan. */
  lemma ScanStep(text: Utf16, pat: Utf16, pi: seq<int>, i: int, j: int, positions: seq<int>)
    requires |pi| == |pat| && forall k :: 0 <= k < |pat| ==> Longest(pat, k + 1, pi[k])
    requires 0 <= j <= i <= |text| && j <= |pat| && (j == 0 ==> i < |text|)
    requires forall t :: 0 <= t < j ==> text[i - j + t] == pat[t]
    requires !(i < |text| && j < |pat| && text[i] == pat[j])
    requires |pat| > 0 ==> positions == MatchesBelow(text, pat, i - j)
    requires |pat| == 0 ==> positions == seq(i, k => k)
    ensures j > 0 ==> 0 <= pi[j - 1] < j
    ensures var found := positions + (if j == |pat| then [i - j] else []);
      if j > 0 then Scanned(text, pat, i, pi[j - 1], found) else Scanned(text, pat, i + 1, 0, found)
  {
    var found := positions + (if j == |pat| then [i - j] else []);
    if |pat| == 0 {
      assert found == seq(i + 1, k => k);
    } else {
      Record(text, pat, i, j, positions);
      if j > 0 {
        Shifted(pat, j, j - 1, pi[j - 1]);
        Resume(text, pat, i, j, pi[j - 1], found);
      }
    }
  }

  /** When the scan ends, the list holds every occurrence in the text. */
  lemma ScanDone(text: Utf16, pat: Utf16, i: int, j: int, positions: seq<int>)
    requires Scanned(text, pat, i, j, positions) && i >= |text|
    ensures |pat| > 0 ==> positions == MatchesBelow(text, pat, |text|)
    ensures |pat| == 0 ==> positions == seq(|text|, k => k)
  {
    if |pat| > 0 {
      NoMatchesBetween(text, pat, i - j, i);
    }
  }

  /** Where the inner loop of the scan stops, the start i - j is an occurrence exactly when all of the pattern matched. */
  lemma Record(text: Utf16, pat: Utf16, i: int, j: int, positions: seq<int>)
    requires 0 <= j <= i <= |text| && j <= |pat| && |pat| > 0
    requires forall t :: 0 <= t < j ==> text[i - j + t] == pat[t]
    requires !(i < |text| && j < |pat| && text[i] == pat[j])
    requires positions == MatchesBelow(text, pat, i - j)
    ensures MatchAt(text, pat, i - j) <==> j == |pat|
    ensures MatchesBelow(text, pat, i - j + 1) == positions + (if j == |pat| then [i - j] else [])
  {
  }

  /** After falling back to the longest border `next` of the j matched characters, the list is still complete up to the new start. */
  lemma Resume(text: Utf16, pat: Utf16, i: int, j: int, next: int, positions: seq<int>)
    requires 0 < j <= |pat| && j <= i <= |text|
    requires forall t :: 0 <= t < j ==> text[i - j + t] == pat[t]
    requires Longest(pat, j, next)
    requires positions == MatchesBelow(text, pat, i - j + 1)
    ensures 0 <= next < j
    ensures positions == MatchesBelow(text, pat, i - next)
    ensures forall t :: 0 <= t < next ==> text[i - next + t] == pat[t]
  {
    ShiftSkipsNothing(text, pat, i, j, next);
    NoMatchesBetween(text, pat, i - j + 1, i - next);
  }

  // ---------------------------------------------------------------------------
  // The reference search: repeated indexOf

  /** String.indexOf(pat, from) for a non-empty pattern: the first occurrence at or after from, or -1. */
  ghost function IndexOf(text: Utf16, pat: Utf16, from: nat): (r: int)
    requires |pat| > 0
    ensures r == -1 || (from <= r && r + |pat| <= |text| && MatchAt(text, pat, r))
    decreases |text| - from
  {
    if from + |pat| > |text| then -1
    else if MatchAt(text, pat, from) then from
    else IndexOf(text, pat, from + 1)
  }

  /** The brute-force scan: indexOf from 0, then again from one past each hit. */
  ghost function BruteFind(text: Utf16, pat: Utf16, from: nat): seq<int>
    requires |pat| > 0
    decreases |text| - from
  {
    var found := IndexOf(text, pat, from);
    if found == -1 then []
    else (IndexOfBounds(text, pat, from); [found] + BruteFind(text, pat, found + 1))
  }

  lemma {:induction false} IndexOfBounds(text: Utf16, pat: Utf16, from: nat)
    requires |pat| > 0
    ensures var r := IndexOf(text, pat, from);
      r == -1 || (from <= r && MatchAt(text, pat, r) && forall s :: from <= s < r ==> !MatchAt(text, pat, s))
    ensures IndexOf(text, pat, from) == -1 ==> forall s :: from <= s ==> !MatchAt(text, pat, s)
    decreases |text| - from
  {
    if from + |pat| <= |text| && !MatchAt(text, pat, from) {
      IndexOfBounds(text, pat, from + 1);
    }
  }

  /** The occurrences at or beyond `from`, ascending. */
  ghost function MatchesFrom(text: Utf16, pat: Utf16, from: nat): seq<int>
    decreases |text| - from
  {
    if from >= |text| then []
    else (if MatchAt(text, pat, from) then [from] else []) + MatchesFrom(text, pat, from + 1)
  }

  lemma {:induction false} BruteFindIsMatchesFrom(text: Utf16, pat: Utf16, from: nat)
    requires |pat| > 0
    ensures BruteFind(text, pat, from) == MatchesFrom(text, pat, from)
    decreases |text| - from
  {
    var found := IndexOf(text, pat, from);
    if found == -1 {
      NotFound(text, pat, from);
    } else {
      Found(text, pat, from);
      BruteFindIsMatchesFrom(text, pat, found + 1);
    }
  }

  /** When indexOf finds nothing, no occurrence lies ahead. */
  lemma NotFound(text: Utf16, pat: Utf16, from: nat)
    requires |pat| > 0 && IndexOf(text, pat, from) == -1
    ensures MatchesFrom(text, pat, from) == []
  {
    IndexOfBounds(text, pat, from);
    NoneFrom(text, pat, from);
  }

  /** When indexOf finds a position, it is the first occurrence ahead. */
  lemma Found(text: Utf16, pat: Utf16, from: nat)
    requires |pat| > 0 && IndexOf(text, pat, from) != -1
    ensures from <= IndexOf(text, pat, from)
    ensures MatchesFrom(text, pat, from) == [IndexOf(text, pat, from)] + MatchesFrom(text, pat, IndexOf(text, pat, from) + 1)
  {
    IndexOfBounds(text, pat, from);
    SkipTo(text, pat, from, IndexOf(text, pat, from));
  }

  lemma {:induction false} NoneFrom(text: Utf16, pat: Utf16, from: nat)
    requires forall s :: from <= s ==> !MatchAt(text, pat, s)
    ensures MatchesFrom(text, pat, from) == []
    decreases |text| - from
  {
    if from < |text| {
      NoneFrom(text, pat, from + 1);
    }
  }

  lemma {:induction false} SkipTo(text: Utf16, pat: Utf16, from: nat, found: nat)
    requires |pat| > 0
    requires from <= found && MatchAt(text, pat, found)
    requires forall s :: from <= s < found ==> !MatchAt(text, pat, s)
    ensures MatchesFrom(text, pat, from) == [found] + MatchesFrom(text, pat, found + 1)
    decreases found - from
  {
    if from < found {
      SkipTo(text, pat, from + 1, found);
      assert MatchesFrom(text, pat, from) == [] + MatchesFrom(text, pat, from + 1);
    }
  }

  /** Splitting the occurrences at any point. */
  lemma {:induction false} MatchesSplit(text: Utf16, pat: Utf16, b: nat)
    requires b <= |text|
    ensures MatchesBelow(text, pat, b) + MatchesFrom(text, pat, b) == MatchesFrom(text, pat, 0)
    decreases b
  {
    if b > 0 {
      MatchesSplit(text, pat, b - 1);
      assert MatchesFrom(text, pat, b - 1)
        == (if MatchAt(text, pat, b - 1) then [b - 1] else []) + MatchesFrom(text, pat, b);
    }
  }

  /** kmp agrees with the brute-force indexOf scan for every non-empty pattern. */
  lemma SearchIsBruteForce(text: Utf16, pat: Utf16)
    requires |pat| > 0
    ensures MatchesBelow(text, pat, |text|) == BruteFind(text, pat, 0)
  {
    MatchesSplit(text, pat, |text|);
    assert MatchesFrom(text, pat, |text|) == [];
    BruteFindIsMatchesFrom(text, pat, 0);
  }
}
