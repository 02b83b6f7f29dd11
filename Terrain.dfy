/**
 * The terrain of the water-basins prototype: a WORLD_H x WORLD_W grid of depths 0..MAX_DEPTH + 1,
 * the editing operations on single tiles, and the two save formats for the grid (run-length
 * pairs, and two 4-bit depths packed per byte).
 */
module Terrain {
  import opened Wrappers

  const ChunkSize := 16
  const ChunksX := 10
  const ChunksY := 10
  const MaxDepth := 9
  const WorldW := ChunksX * ChunkSize
  const WorldH := ChunksY * ChunkSize

  // ---------------------------------------------------------------------------
  // Grids and their row-major flattening

  /** g has h rows of w cells each. */
  ghost predicate IsGrid(g: seq<seq<int>>, w: int, h: int) {
    |g| == h && forall y :: 0 <= y < h ==> |g[y]| == w
  }

  /** heights.flat(): the rows one after the other. */
  function Flatten(g: seq<seq<int>>): seq<int> {
    if |g| == 0 then [] else Flatten(g[..|g| - 1]) + g[|g| - 1]
  }

  /** Cell (x, y) of a w-wide grid is at y * w + x, below w * h. */
  lemma CellIndex(w: int, h: int, y: int, x: int)
    requires 0 <= y < h && 0 <= x < w
    ensures 0 <= y * w + x < h * w
    ensures y < h - 1 ==> y * w + x < (h - 1) * w
  {
    assert (y + 1) * w <= h * w;
    if y < h - 1 {
      assert (y + 1) * w <= (h - 1) * w;
    }
  }

  /** Flattening a w x h grid gives w * h cells, with cell (x, y) at y * w + x. */
  lemma {:induction false} FlattenIndex(g: seq<seq<int>>, w: nat, h: nat)
    requires IsGrid(g, w, h)
    ensures |Flatten(g)| == h * w
    ensures forall y, x :: 0 <= y < h && 0 <= x < w ==> Flatten(g)[y * w + x] == g[y][x]
  {
    if h > 0 {
      var init := g[..h - 1];
      FlattenIndex(init, w, h - 1);
      assert Flatten(g) == Flatten(init) + g[h - 1];
      forall y, x | 0 <= y < h && 0 <= x < w
        ensures Flatten(g)[y * w + x] == g[y][x]
      {
        CellIndex(w, h, y, x);
        if y < h - 1 {
          assert Flatten(g)[y * w + x] == Flatten(init)[y * w + x];
        } else {
          assert y * w + x == (h - 1) * w + x;
        }
      }
    }
  }

  // ---------------------------------------------------------------------------
  // Run-length format

  /** One [value, count] pair of the run-length format. */
  datatype Run = Run(value: int, count: int)

  /**
   * runLengthEncode on the flattened grid: the run of the first cell, then each further cell
   * either lengthens the last run (same value) or starts a new run of one.
   */
  function RunLengthEncode(f: seq<int>): (r: seq<Run>)
    requires |f| > 0
    ensures |r| > 0 && r[|r| - 1].value == f[|f| - 1]
  {
    if |f| == 1 then [Run(f[0], 1)]
    else
      var prev := RunLengthEncode(f[..|f| - 1]);
      var last := prev[|prev| - 1];
      if f[|f| - 1] == last.value then prev[..|prev| - 1] + [Run(last.value, last.count + 1)]
      else prev + [Run(f[|f| - 1], 1)]
  }

  /** count copies of value; a count of zero or less gives none. */
  function Repeat(value: int, count: int): (r: seq<int>)
    ensures |r| == if count > 0 then count else 0
    ensures forall i :: 0 <= i < |r| ==> r[i] == value
  {
    if count <= 0 then [] else seq(count, _ => value)
  }

  /** The flattened cells that runLengthDecode rebuilds from the pairs. */
  function Expand(runs: seq<Run>): seq<int> {
    if |runs| == 0 then [] else Expand(runs[..|runs| - 1]) + Repeat(runs[|runs| - 1].value, runs[|runs| - 1].count)
  }

  /** The total of the counts. */
  function TotalCount(runs: seq<Run>): int {
    if |runs| == 0 then 0 else TotalCount(runs[..|runs| - 1]) + runs[|runs| - 1].count
  }

  /** Runs as the encoder writes them: each at least one long, neighbours of different value. */
  ghost predicate Canonical(runs: seq<Run>) {
    (forall i :: 0 <= i < |runs| ==> runs[i].count >= 1)
    && (forall i :: 0 < i < |runs| ==> runs[i - 1].value != runs[i].value)
  }

  /** The encoder writes canonical runs whose counts add up to the number of cells. */
  lemma {:induction false} EncodeCanonical(f: seq<int>)
    requires |f| > 0
    ensures Canonical(RunLengthEncode(f)) && TotalCount(RunLengthEncode(f)) == |f|
    decreases |f|
  {
    if |f| > 1 {
      var prev := RunLengthEncode(f[..|f| - 1]);
      EncodeCanonical(f[..|f| - 1]);
      var v := f[|f| - 1];
      if v == prev[|prev| - 1].value {
        LengthenCanonical(prev);
      } else {
        AppendCanonical(prev, v);
      }
    }
  }

  /** Lengthening the last run keeps the runs canonical and adds one to the total. */
  lemma LengthenCanonical(prev: seq<Run>)
    requires |prev| > 0 && Canonical(prev)
    ensures var last := prev[|prev| - 1];
      var r := prev[..|prev| - 1] + [Run(last.value, last.count + 1)];
      Canonical(r) && TotalCount(r) == TotalCount(prev) + 1
  {
    var last := prev[|prev| - 1];
    var r := prev[..|prev| - 1] + [Run(last.value, last.count + 1)];
    assert r[..|r| - 1] == prev[..|prev| - 1];
  }

  /** A new run of one with a different value keeps the runs canonical and adds one to the total. */
  lemma AppendCanonical(prev: seq<Run>, v: int)
    requires |prev| > 0 && Canonical(prev) && prev[|prev| - 1].value != v
    ensures var r := prev + [Run(v, 1)];
      Canonical(r) && TotalCount(r) == TotalCount(prev) + 1
  {
    var r := prev + [Run(v, 1)];
    assert r[..|r| - 1] == prev;
  }

  /** Expanding the encoder's runs gives back the cells. */
  lemma {:induction false} ExpandEncode(f: seq<int>)
    requires |f| > 0
    ensures Expand(RunLengthEncode(f)) == f
    decreases |f|
  {
    if |f| > 1 {
      var init := f[..|f| - 1];
      var prev := RunLengthEncode(init);
      ExpandEncode(init);
      EncodeCanonical(init);
      var v := f[|f| - 1];
      if v == prev[|prev| - 1].value {
        LengthenExpand(prev);
      } else {
        AppendExpand(prev, v);
      }
      assert f == init + [v];
    }
  }

  /** Lengthening the last run adds one more copy of its value at the end. */
  lemma LengthenExpand(prev: seq<Run>)
    requires |prev| > 0 && prev[|prev| - 1].count >= 0
    ensures var last := prev[|prev| - 1];
      Expand(prev[..|prev| - 1] + [Run(last.value, last.count + 1)]) == Expand(prev) + [last.value]
  {
    var last := prev[|prev| - 1];
    var r := prev[..|prev| - 1] + [Run(last.value, last.count + 1)];
    assert r[..|r| - 1] == prev[..|prev| - 1];
    RepeatOneMore(last.value, last.count);
  }

  lemma RepeatOneMore(value: int, count: int)
    requires count >= 0
    ensures Repeat(value, count + 1) == Repeat(value, count) + [value]
  {
  }

  /** A new run of one adds its value at the end. */
  lemma AppendExpand(prev: seq<Run>, v: int)
    ensures Expand(prev + [Run(v, 1)]) == Expand(prev) + [v]
  {
    var r := prev + [Run(v, 1)];
    assert r[..|r| - 1] == prev;
  }

  /** A w x h grid read row by row out of flattened cells, which must hold at least w * h of them. */
  function Unflatten(flat: seq<int>, w: nat, h: nat): (g: seq<seq<int>>)
    requires h * w <= |flat|
    ensures IsGrid(g, w, h)
  {
    seq(h, y requires 0 <= y < h =>
      seq(w, x requires 0 <= x < w => CellIndex(w, h, y, x); flat[y * w + x]))
  }

  /** Cell (x, y) of the unflattened grid is flattened cell y * w + x. */
  lemma UnflattenCell(flat: seq<int>, w: nat, h: nat, y: int, x: int)
    requires h * w <= |flat| && 0 <= y < h && 0 <= x < w
    ensures 0 <= y * w + x < |flat| && Unflatten(flat, w, h)[y][x] == flat[y * w + x]
  {
    CellIndex(w, h, y, x);
  }

  /**
   * runLengthDecode: the cells of the pairs, read into a height x width grid. None where the
   * pairs hold fewer cells than the grid, so that some cell would be undefined.
   */
  function RunLengthDecode(runs: seq<Run>, width: int, height: int): (r: Option<seq<seq<int>>>)
    ensures r.Some? ==> IsGrid(r.value, if width > 0 then width else 0, if height > 0 then height else 0)
  {
    var flat := Expand(runs);
    var w: nat := if width > 0 then width else 0;
    var h: nat := if height > 0 then height else 0;
    if h * w > |flat| then None else Some(Unflatten(flat, w, h))
  }

  /** Two grids of the same shape agreeing on every cell are equal. */
  lemma GridsEqual(a: seq<seq<int>>, b: seq<seq<int>>, w: nat, h: nat)
    requires IsGrid(a, w, h) && IsGrid(b, w, h)
    requires forall y, x :: 0 <= y < h && 0 <= x < w ==> a[y][x] == b[y][x]
    ensures a == b
  {
    forall y | 0 <= y < h
      ensures a[y] == b[y]
    {
      assert forall x :: 0 <= x < w ==> a[y][x] == b[y][x];
    }
  }

  /** Run-length encoding round-trips every non-empty grid. */
  lemma RunLengthRoundTrip(g: seq<seq<int>>, w: nat, h: nat)
    requires IsGrid(g, w, h) && w >= 1 && h >= 1
    ensures |Flatten(g)| > 0
    ensures RunLengthDecode(RunLengthEncode(Flatten(g)), w, h) == Some(g)
  {
    UnflattenFlatten(g, w, h);
    CellIndex(w, h, 0, 0);
    ExpandEncode(Flatten(g));
  }

  /** Reading the flattened cells of a grid back row by row gives the grid. */
  lemma UnflattenFlatten(g: seq<seq<int>>, w: nat, h: nat)
    requires IsGrid(g, w, h)
    ensures |Flatten(g)| == h * w && Unflatten(Flatten(g), w, h) == g
  {
    FlattenIndex(g, w, h);
    var f := Flatten(g);
    var u := Unflatten(f, w, h);
    forall y, x | 0 <= y < h && 0 <= x < w
      ensures u[y][x] == g[y][x]
    {
      UnflattenCell(f, w, h, y, x);
    }
    GridsEqual(u, g, w, h);
  }

  // ---------------------------------------------------------------------------
  // Packed format: two depths per byte

  /** A depth that fits in four bits. */
  predicate IsNibble(v: int) {
    0 <= v < 16
  }

  /** (val1 << 4) | val2 */
  function PackPair(v1: int, v2: int): bv8
    requires IsNibble(v1) && IsNibble(v2)
  {
    ((v1 as bv8) << 4) | (v2 as bv8)
  }

  /** (byte >> 4) & 0xF */
  function High(b: bv8): int {
    ((b >> 4) & 0xF) as int
  }

  /** byte & 0xF */
  function Low(b: bv8): int {
    (b & 0xF) as int
  }

  /** The bytes base64Encode packs before the base64 text: cells two by two, an odd last cell paired with 0. */
  function Pack(f: seq<int>): (r: seq<bv8>)
    requires forall i :: 0 <= i < |f| ==> IsNibble(f[i])
    ensures |r| == (|f| + 1) / 2
  {
    if |f| == 0 then []
    else if |f| == 1 then [PackPair(f[0], 0)]
    else [PackPair(f[0], f[1])] + Pack(f[2..])
  }

  /** base64Decode's flattening: the high then the low nibble of every byte. */
  function Unpack(bytes: seq<bv8>): (r: seq<int>)
    ensures |r| == 2 * |bytes|
  {
    if |bytes| == 0 then [] else [High(bytes[0]), Low(bytes[0])] + Unpack(bytes[1..])
  }

  /** Packing a pair and reading it back gives the pair. */
  lemma PairRoundTrip(v1: int, v2: int)
    requires IsNibble(v1) && IsNibble(v2)
    ensures High(PackPair(v1, v2)) == v1 && Low(PackPair(v1, v2)) == v2
  {
    var a, b := v1 as bv8, v2 as bv8;
    assert a < 16 && b < 16;
    assert ((a << 4) | b) >> 4 == a;
    assert ((a << 4) | b) & 0xF == b;
  }

  /** Unpacking the packed cells gives them back, with a 0 after an odd count. */
  lemma {:induction false} UnpackPack(f: seq<int>)
    requires forall i :: 0 <= i < |f| ==> IsNibble(f[i])
    ensures Unpack(Pack(f)) == f + (if |f| % 2 == 1 then [0] else [])
  {
    if |f| == 1 {
      PairRoundTrip(f[0], 0);
    } else if |f| > 1 {
      PairRoundTrip(f[0], f[1]);
      UnpackPack(f[2..]);
      assert Pack(f)[1..] == Pack(f[2..]);
      assert f == [f[0], f[1]] + f[2..];
    }
  }

  /** base64Decode after the base64 text: a height x width grid of the unpacked cells, 0 past their end. */
  function PackedDecode(bytes: seq<bv8>, width: int, height: int): (g: seq<seq<int>>)
    ensures IsGrid(g, if width > 0 then width else 0, if height > 0 then height else 0)
  {
    var flat := Unpack(bytes);
    var w: nat := if width > 0 then width else 0;
    var h: nat := if height > 0 then height else 0;
    seq(h, y requires 0 <= y < h =>
      seq(w, x requires 0 <= x < w => if y * w + x < |flat| then flat[y * w + x] else 0))
  }

  /** Cell (x, y) of the decoded grid is unpacked cell y * w + x, or 0 past the end. */
  lemma PackedDecodeCell(bytes: seq<bv8>, w: nat, h: nat, y: int, x: int)
    requires 0 <= y < h && 0 <= x < w
    ensures PackedDecode(bytes, w, h)[y][x] == if y * w + x < 2 * |bytes| then Unpack(bytes)[y * w + x] else 0
  {
  }

  /** Every flattened cell of a grid of nibbles is a nibble. */
  lemma {:induction false} FlattenNibbles(g: seq<seq<int>>)
    requires forall y, x :: 0 <= y < |g| && 0 <= x < |g[y]| ==> IsNibble(g[y][x])
    ensures forall i :: 0 <= i < |Flatten(g)| ==> IsNibble(Flatten(g)[i])
  {
    if |g| > 0 {
      FlattenNibbles(g[..|g| - 1]);
      var last := g[|g| - 1];
      assert forall x :: 0 <= x < |last| ==> IsNibble(last[x]);
    }
  }

  /** The cells past the packed data decode as 0. */
  lemma PackedDecodeZeroFill(bytes: seq<bv8>, w: nat, h: nat, y: int, x: int)
    requires 0 <= y < h && 0 <= x < w && y * w + x >= 2 * |bytes|
    ensures PackedDecode(bytes, w, h)[y][x] == 0
  {
  }

  /** The packed format round-trips every grid of depths that fit in four bits. */
  lemma PackedRoundTrip(g: seq<seq<int>>, w: nat, h: nat)
    requires IsGrid(g, w, h)
    requires forall y, x :: 0 <= y < |g| && 0 <= x < |g[y]| ==> IsNibble(g[y][x])
    ensures forall i :: 0 <= i < |Flatten(g)| ==> IsNibble(Flatten(g)[i])
    ensures PackedDecode(Pack(Flatten(g)), w, h) == g
  {
    FlattenIndex(g, w, h);
    FlattenNibbles(g);
    var f := Flatten(g);
    UnpackPack(f);
    var d := PackedDecode(Pack(f), w, h);
    forall y, x | 0 <= y < h && 0 <= x < w
      ensures d[y][x] == g[y][x]
    {
      CellIndex(w, h, y, x);
      PackedDecodeCell(Pack(f), w, h, y, x);
    }
    GridsEqual(d, g, w, h);
  }

  // ---------------------------------------------------------------------------
  // Editing the terrain

  /** A depth forced into [0, MAX_DEPTH]. */
  function Clamp(depth: int): (r: int)
    ensures 0 <= r <= MaxDepth
    ensures 0 <= depth <= MaxDepth ==> r == depth
    ensures depth < 0 ==> r == 0
    ensures depth > MaxDepth ==> r == MaxDepth
  {
    if depth < 0 then 0 else if depth > MaxDepth then MaxDepth else depth
  }

  /** The bounds test of every editing operation. */
  predicate InWorld(x: int, y: int) {
    x >= 0 && y >= 0 && x < WorldW && y < WorldH
  }

  /** The grid with cell (x, y) set to v. */
  function SetCell(g: seq<seq<int>>, x: int, y: int, v: int): (r: seq<seq<int>>)
    requires 0 <= y < |g| && 0 <= x < |g[y]|
    ensures |r| == |g| && forall j :: 0 <= j < |g| ==> |r[j]| == |g[j]|
    ensures forall j, i :: 0 <= j < |g| && 0 <= i < |g[j]| ==> r[j][i] == if j == y && i == x then v else g[j][i]
  {
    g[y := g[y][x := v]]
  }

  /** The four tiles next to (x, y), in the order the source visits them. */
  function Neighbours(x: int, y: int): seq<(int, int)> {
    [(x - 1, y), (x + 1, y), (x, y - 1), (x, y + 1)]
  }

  /**
   * The last step of the terrain generator for one tile: the noise value plus the offset slider,
   * mapped from [-1, 1] onto [0, 1], clamped, and scaled by MAX_DEPTH + 1. A clamped value of
   * exactly 1 gives MAX_DEPTH + 1, so the generated grid can hold a depth one past MAX_DEPTH.
   */
  function GeneratedDepth(value: real, offset: real): (r: int)
    ensures 0 <= r <= MaxDepth + 1
    ensures r == MaxDepth + 1 <==> value + offset >= 1.0
  {
    var v := (value + offset) * 0.5 + 0.5;
    var clamped := if 1.0 < v then 1.0 else if v < 0.0 then 0.0 else v;
    (clamped * (MaxDepth + 1) as real).Floor
  }

  class GameState {
    /** heights[y][x]: the depth of every tile */
    var heights: seq<seq<int>>

    /**
     * A full grid of depths within [0, MAX_DEPTH + 1]: the editing operations write depths up to
     * MAX_DEPTH, and the generator can also produce MAX_DEPTH + 1.
     */
    ghost predicate Valid()
      reads this
    {
      IsGrid(heights, WorldW, WorldH)
      && forall y, x :: 0 <= y < WorldH && 0 <= x < WorldW ==> 0 <= heights[y][x] <= MaxDepth + 1
    }

    /**
     * The state with freshly generated terrain: noise[y][x] is the generator's noise value of tile
     * (x, y) before the final scaling (how the noise is computed is not modelled).
     */
    constructor (noise: seq<seq<real>>, offset: real)
      requires |noise| == WorldH && forall y :: 0 <= y < WorldH ==> |noise[y]| == WorldW
      ensures Valid()
      ensures forall y, x :: 0 <= y < WorldH && 0 <= x < WorldW ==> heights[y][x] == GeneratedDepth(noise[y][x], offset)
    {
      heights := seq(WorldH, y requires 0 <= y < WorldH =>
        seq(WorldW, x requires 0 <= x < WorldW => GeneratedDepth(noise[y][x], offset)));
    }

    /** setDepthAtBatch: a tile in the world takes the depth clamped to [0, MAX_DEPTH]; any other input changes nothing. */
    method SetDepthAtBatch(x: int, y: int, depth: int)
      requires Valid()
      modifies this
      ensures Valid()
      ensures heights == if InWorld(x, y) then SetCell(old(heights), x, y, Clamp(depth)) else old(heights)
      ensures InWorld(x, y) ==> 0 <= heights[y][x] <= MaxDepth
    {
      if x >= 0 && y >= 0 && x < WorldW && y < WorldH {
        heights := heights[y := heights[y][x := Clamp(depth)]];
      }
    }

    /**
     * increaseDepthAt: one deeper, but not past MAX_DEPTH, so a generated MAX_DEPTH + 1 comes
     * back to MAX_DEPTH (the basin recomputation that follows is not modelled).
     */
    method IncreaseDepthAt(x: int, y: int)
      requires Valid()
      modifies this
      ensures Valid()
      ensures heights == if InWorld(x, y)
        then SetCell(old(heights), x, y, if old(heights[y][x]) < MaxDepth then old(heights[y][x]) + 1 else MaxDepth)
        else old(heights)
      ensures InWorld(x, y) ==> 0 <= heights[y][x] <= MaxDepth
    {
      if x >= 0 && y >= 0 && x < WorldW && y < WorldH {
        var deeper := if MaxDepth < heights[y][x] + 1 then MaxDepth else heights[y][x] + 1;
        heights := heights[y := heights[y][x := deeper]];
      }
    }

    /** decreaseDepthAt: one shallower, but not below 0 (the basin recomputation that follows is not modelled). */
    method DecreaseDepthAt(x: int, y: int)
      requires Valid()
      modifies this
      ensures Valid()
      ensures heights == if InWorld(x, y)
        then SetCell(old(heights), x, y, if old(heights[y][x]) > 0 then old(heights[y][x]) - 1 else 0)
        else old(heights)
      ensures InWorld(x, y) ==> 0 <= heights[y][x] <= MaxDepth
    {
      if x >= 0 && y >= 0 && x < WorldW && y < WorldH {
        var shallower := if 0 > heights[y][x] - 1 then 0 else heights[y][x] - 1;
        heights := heights[y := heights[y][x := shallower]];
      }
    }

    /** The depth of a tile in the world. */
    function Depth(p: (int, int)): int
      reads this
      requires Valid() && InWorld(p.0, p.1)
    {
      heights[p.1][p.0]
    }

    /**
     * getMinNeighborHeight: the least depth among the neighbours inside the world, as long as one
     * of them is at most MAX_DEPTH. Otherwise the running minimum stays at its start value
     * MAX_DEPTH + 1 and the tile's own depth is returned instead: when the tile has no neighbour
     * in the world, and also when every such neighbour is at the generated depth MAX_DEPTH + 1
     * (None where the tile is outside the world too, and the source reads an undefined cell).
     */
    method GetMinNeighborHeight(x: int, y: int) returns (r: Option<int>)
      requires Valid()
      ensures (exists i :: 0 <= i < 4 && InWorld(Neighbours(x, y)[i].0, Neighbours(x, y)[i].1) && Depth(Neighbours(x, y)[i]) <= MaxDepth) ==>
        && r.Some?
        && (forall i :: 0 <= i < 4 && InWorld(Neighbours(x, y)[i].0, Neighbours(x, y)[i].1) ==> r.value <= Depth(Neighbours(x, y)[i]))
        && (exists i :: 0 <= i < 4 && InWorld(Neighbours(x, y)[i].0, Neighbours(x, y)[i].1) && r.value == Depth(Neighbours(x, y)[i]))
      ensures (forall i :: 0 <= i < 4 && InWorld(Neighbours(x, y)[i].0, Neighbours(x, y)[i].1) ==> Depth(Neighbours(x, y)[i]) > MaxDepth) ==>
        r == if InWorld(x, y) then Some(heights[y][x]) else None
    {
      var minHeight := MaxDepth + 1;
      var neighbours := Neighbours(x, y);
      var k := 0;
      while k < 4
        invariant 0 <= k <= 4
        invariant minHeight <= MaxDepth + 1
        invariant forall i :: 0 <= i < k && InWorld(neighbours[i].0, neighbours[i].1) ==> minHeight <= Depth(neighbours[i])
        invariant minHeight <= MaxDepth <==>
          exists i :: 0 <= i < k && InWorld(neighbours[i].0, neighbours[i].1) && Depth(neighbours[i]) <= MaxDepth
        invariant minHeight <= MaxDepth ==>
          exists i :: 0 <= i < k && InWorld(neighbours[i].0, neighbours[i].1) && minHeight == Depth(neighbours[i])
      {
        var (nx, ny) := neighbours[k];
        if nx >= 0 && ny >= 0 && nx < WorldW && ny < WorldH {
          minHeight := if heights[ny][nx] < minHeight then heights[ny][nx] else minHeight;
        }
        k := k + 1;
      }
      if minHeight <= MaxDepth {
        r := Some(minHeight);
      } else if InWorld(x, y) {
        r := Some(heights[y][x]);
      } else {
        r := None;
      }
    }
  }
}
