/** Stitching the predicted tiles back into one full-size probability map:
    every tile is added into its window of an accumulator, a second array
    counts how many tiles covered each pixel, and the accumulator is then
    divided by that count (0 where no tile reached) and clipped to [0, 1]. */
module Stitching {
  import opened Offsets
  import opened Patches

  /** A predicted tile: `patchSize` rows of `patchSize` probabilities. */
  type Tile = seq<seq<real>>

  predicate IsTile(t: Tile, patchSize: nat)
  {
    |t| == patchSize && forall i :: 0 <= i < patchSize ==> |t[i]| == patchSize
  }

  predicate AllTiles(tiles: seq<Tile>, patchSize: nat)
  {
    forall k :: 0 <= k < |tiles| ==> IsTile(tiles[k], patchSize)
  }

  /** The window of the tile at `o` contains pixel `(r, c)`. */
  predicate Covers(o: Origin, patchSize: nat, r: int, c: int)
  {
    o.y <= r < o.y + patchSize && o.x <= c < o.x + patchSize
  }

  /** What the tile `t` at `o` adds to pixel `(r, c)` of the accumulator. */
  function Contribution(o: Origin, t: Tile, patchSize: nat, r: int, c: int): real
    requires IsTile(t, patchSize)
  {
    if Covers(o, patchSize, r, c) then t[r - o.y][c - o.x] else 0.0
  }

  /** The number of origins whose window contains pixel `(r, c)`. */
  function CoverCount(coords: seq<Origin>, patchSize: nat, r: int, c: int): nat
  {
    if coords == [] then 0
    else
      var n := |coords| - 1;
      CoverCount(coords[..n], patchSize, r, c) + (if Covers(coords[n], patchSize, r, c) then 1 else 0)
  }

  /** The sum, over the tiles whose window contains `(r, c)`, of each tile's
      value at that pixel. */
  function TileSum(coords: seq<Origin>, tiles: seq<Tile>, patchSize: nat, r: int, c: int): real
    requires |tiles| == |coords| && AllTiles(tiles, patchSize)
  {
    if coords == [] then 0.0
    else
      var n := |coords| - 1;
      TileSum(coords[..n], tiles[..n], patchSize, r, c) + Contribution(coords[n], tiles[n], patchSize, r, c)
  }

  /** Clamps a value to the unit interval. */
  function Clip(v: real): (r: real)
    ensures 0.0 <= r <= 1.0
    ensures 0.0 <= v <= 1.0 ==> r == v
    ensures v < 0.0 ==> r == 0.0
    ensures v > 1.0 ==> r == 1.0
  {
    if v < 0.0 then 0.0 else if v > 1.0 then 1.0 else v
  }

  /** Element-wise division that yields 0 where the count is 0. */
  function SafeDivide(sum: real, count: int): real
  {
    if count != 0 then sum / count as real else 0.0
  }

  /** The stitched probability at pixel `(r, c)`: the mean of the covering
      tiles' values, 0 for an uncovered pixel, clamped to [0, 1]. */
  function Stitched(coords: seq<Origin>, tiles: seq<Tile>, patchSize: nat, r: int, c: int): real
    requires |tiles| == |coords| && AllTiles(tiles, patchSize)
  {
    Clip(SafeDivide(TileSum(coords, tiles, patchSize, r, c), CoverCount(coords, patchSize, r, c)))
  }

  /** The prediction of every tile, in tile order. */
  function Predictions(patches: seq<Patch>, predict: Patch -> Tile): (tiles: seq<Tile>)
    ensures |tiles| == |patches|
  {
    seq(|patches|, k requires 0 <= k < |patches| => predict(patches[k]))
  }

  // ---------------------------------------------------------------------------
  // Properties of the stitched map

  /** A pixel has count 0 exactly when no window contains it. */
  lemma {:induction false} UncoveredIff(coords: seq<Origin>, patchSize: nat, r: int, c: int)
    ensures CoverCount(coords, patchSize, r, c) == 0 <==>
            forall k :: 0 <= k < |coords| ==> !Covers(coords[k], patchSize, r, c)
  {
    if coords != [] {
      var n := |coords| - 1;
      UncoveredIff(coords[..n], patchSize, r, c);
      assert forall k :: 0 <= k < n ==> coords[..n][k] == coords[k];
    }
  }

  /** A pixel that no window contains keeps 0 in both the count and the
      accumulator, and ends up 0 in the stitched map. */
  lemma {:induction false} UncoveredPixelIsZero(coords: seq<Origin>, tiles: seq<Tile>, patchSize: nat, r: int, c: int)
    requires |tiles| == |coords| && AllTiles(tiles, patchSize)
    requires forall k :: 0 <= k < |coords| ==> !Covers(coords[k], patchSize, r, c)
    ensures CoverCount(coords, patchSize, r, c) == 0
    ensures TileSum(coords, tiles, patchSize, r, c) == 0.0
    ensures Stitched(coords, tiles, patchSize, r, c) == 0.0
  {
    if coords != [] {
      var n := |coords| - 1;
      assert forall k :: 0 <= k < n ==> coords[..n][k] == coords[k];
      UncoveredPixelIsZero(coords[..n], tiles[..n], patchSize, r, c);
    }
  }

  /** Where exactly one tile covers a pixel, the stitched value is that tile's
      own value at the pixel, only clamped: averaging does not distort it. */
  lemma {:induction false} SingleCoverage(coords: seq<Origin>, tiles: seq<Tile>, patchSize: nat, r: int, c: int, k: int)
    requires |tiles| == |coords| && AllTiles(tiles, patchSize)
    requires 0 <= k < |coords| && Covers(coords[k], patchSize, r, c)
    requires CoverCount(coords, patchSize, r, c) == 1
    ensures TileSum(coords, tiles, patchSize, r, c) == tiles[k][r - coords[k].y][c - coords[k].x]
    ensures Stitched(coords, tiles, patchSize, r, c) == Clip(tiles[k][r - coords[k].y][c - coords[k].x])
  {
    var n := |coords| - 1;
    var init := coords[..n];
    UncoveredIff(init, patchSize, r, c);
    if Covers(coords[n], patchSize, r, c) {
      assert k == n;
      UncoveredPixelIsZero(init, tiles[..n], patchSize, r, c);
    } else {
      assert init[k] == coords[k] && tiles[..n][k] == tiles[k];
      SingleCoverage(init, tiles[..n], patchSize, r, c, k);
    }
  }

  /** Every value the model can predict is a probability. */
  predicate Probabilities(tiles: seq<Tile>)
  {
    forall k, i, j :: 0 <= k < |tiles| && 0 <= i < |tiles[k]| && 0 <= j < |tiles[k][i]| ==>
      0.0 <= tiles[k][i][j] <= 1.0
  }

  /** When every tile holds probabilities, the accumulated sum at a pixel lies
      between 0 and the number of tiles covering it. */
  lemma {:induction false} TileSumBounds(coords: seq<Origin>, tiles: seq<Tile>, patchSize: nat, r: int, c: int)
    requires |tiles| == |coords| && AllTiles(tiles, patchSize) && Probabilities(tiles)
    ensures 0.0 <= TileSum(coords, tiles, patchSize, r, c) <= CoverCount(coords, patchSize, r, c) as real
  {
    if coords != [] {
      var n := |coords| - 1;
      assert Probabilities(tiles[..n]) by {
        assert forall k :: 0 <= k < n ==> tiles[..n][k] == tiles[k];
      }
      TileSumBounds(coords[..n], tiles[..n], patchSize, r, c);
    }
  }

  /** Averaging overlapping probabilities yields a probability, so the final
      clamp changes nothing: the stitched value is exactly the mean. */
  lemma AverageNeedsNoClipping(coords: seq<Origin>, tiles: seq<Tile>, patchSize: nat, r: int, c: int)
    requires |tiles| == |coords| && AllTiles(tiles, patchSize) && Probabilities(tiles)
    requires CoverCount(coords, patchSize, r, c) > 0
    ensures Stitched(coords, tiles, patchSize, r, c) ==
            TileSum(coords, tiles, patchSize, r, c) / CoverCount(coords, patchSize, r, c) as real
  {
    var s := TileSum(coords, tiles, patchSize, r, c);
    var n := CoverCount(coords, patchSize, r, c) as real;
    TileSumBounds(coords, tiles, patchSize, r, c);
    assert (s / n) * n == s;
  }

  // ---------------------------------------------------------------------------
  // Coverage counts of the tile grid

  /** The number of offsets whose span `[y, y + patchSize)` contains `r`. */
  function AxisCount(starts: seq<int>, patchSize: nat, r: int): nat
  {
    if starts == [] then 0
    else
      var n := |starts| - 1;
      AxisCount(starts[..n], patchSize, r) + (if starts[n] <= r < starts[n] + patchSize then 1 else 0)
  }

  lemma {:induction false} CoverCountAppend(a: seq<Origin>, b: seq<Origin>, patchSize: nat, r: int, c: int)
    ensures CoverCount(a + b, patchSize, r, c) == CoverCount(a, patchSize, r, c) + CoverCount(b, patchSize, r, c)
  {
    if b != [] {
      var n := |b| - 1;
      assert (a + b)[..|a + b| - 1] == a + b[..n];
      CoverCountAppend(a, b[..n], patchSize, r, c);
    } else {
      assert a + b == a;
    }
  }

  lemma {:induction false} RowCoverCount(y: int, xs: seq<int>, patchSize: nat, r: int, c: int)
    ensures CoverCount(Row(y, xs), patchSize, r, c) ==
            if y <= r < y + patchSize then AxisCount(xs, patchSize, c) else 0
  {
    if xs != [] {
      var n := |xs| - 1;
      assert Row(y, xs)[..n] == Row(y, xs[..n]);
      RowCoverCount(y, xs[..n], patchSize, r, c);
    }
  }

  /** The coverage count of a grid of origins factors into the row coverage
      times the column coverage. */
  lemma {:induction false} GridCoverCount(ys: seq<int>, xs: seq<int>, patchSize: nat, r: int, c: int)
    ensures CoverCount(Grid(ys, xs), patchSize, r, c) ==
            AxisCount(ys, patchSize, r) * AxisCount(xs, patchSize, c)
  {
    if ys != [] {
      var n := |ys| - 1;
      assert Grid(ys, xs) == Grid(ys[..n], xs) + Row(ys[n], xs);
      GridCoverCount(ys[..n], xs, patchSize, r, c);
      CoverCountAppend(Grid(ys[..n], xs), Row(ys[n], xs), patchSize, r, c);
      RowCoverCount(ys[n], xs, patchSize, r, c);
      var a := AxisCount(ys[..n], patchSize, r);
      var b := if ys[n] <= r < ys[n] + patchSize then 1 else 0;
      assert AxisCount(ys, patchSize, r) == a + b;
      assert (a + b) * AxisCount(xs, patchSize, c) ==
             a * AxisCount(xs, patchSize, c) + b * AxisCount(xs, patchSize, c);
    }
  }

  /** With a stride no larger than the tile and an image at least one tile
      large, every pixel is covered by at least one tile of the grid. */
  lemma GridCoversEveryPixel(height: nat, width: nat, patchSize: nat, stride: nat, r: int, c: int)
    requires 0 < stride <= patchSize && patchSize <= height && patchSize <= width
    requires 0 <= r < height && 0 <= c < width
    ensures CoverCount(Grid(AxisStarts(height, patchSize, stride), AxisStarts(width, patchSize, stride)),
                       patchSize, r, c) >= 1
  {
    var ys := AxisStarts(height, patchSize, stride);
    var xs := AxisStarts(width, patchSize, stride);
    var ky := AxisCoverage(height, patchSize, stride, r);
    var kx := AxisCoverage(width, patchSize, stride, c);
    GridAt(ys, xs);
    RowMajorBound(ky, kx, |ys|, |xs|);
    var g := Grid(ys, xs);
    assert Covers(g[ky * |xs| + kx], patchSize, r, c);
    UncoveredIff(g, patchSize, r, c);
  }

  /** In the pipeline's 512 x 512 setting, a corner pixel is covered by one
      tile, and pixel (200, 300) lies where two tiles overlap on each axis
      (rows 0-255 and 128-383, columns 128-383 and 256-511): four tiles. */
  lemma PipelineSettingCounts()
    ensures CoverCount(Grid([0, 128, 256], [0, 128, 256]), 256, 0, 0) == 1
    ensures CoverCount(Grid([0, 128, 256], [0, 128, 256]), 256, 200, 300) == 4
  {
    var xs := [0, 128, 256];
    assert xs[..2] == [0, 128] && xs[..2][..1] == [0] && xs[..2][..1][..0] == [];
    assert AxisCount([0], 256, 0) == 1 && AxisCount([0, 128], 256, 0) == 1 && AxisCount(xs, 256, 0) == 1;
    assert AxisCount([0], 256, 200) == 1 && AxisCount([0, 128], 256, 200) == 2 && AxisCount(xs, 256, 200) == 2;
    assert AxisCount([0], 256, 300) == 0 && AxisCount([0, 128], 256, 300) == 1 && AxisCount(xs, 256, 300) == 2;
    GridCoverCount(xs, xs, 256, 0, 0);
    GridCoverCount(xs, xs, 256, 200, 300);
  }

  // ---------------------------------------------------------------------------
  // The in-place stitching loop

  /** Adds `tile` into the window at `o` of the accumulator. */
  method AddTileToWindow(acc: array2<real>, o: Origin, patchSize: nat, tile: Tile)
    requires Fits(o, patchSize, acc.Length0, acc.Length1) && IsTile(tile, patchSize)
    modifies acc
    ensures forall r, c :: 0 <= r < acc.Length0 && 0 <= c < acc.Length1 ==>
              acc[r, c] == old(acc[r, c]) + Contribution(o, tile, patchSize, r, c)
  {
    var i := 0;
    while i < patchSize
      invariant 0 <= i <= patchSize
      invariant forall r, c :: 0 <= r < acc.Length0 && 0 <= c < acc.Length1 ==>
                  acc[r, c] == old(acc[r, c]) + (if r < o.y + i then Contribution(o, tile, patchSize, r, c) else 0.0)
    {
      var j := 0;
      while j < patchSize
        invariant 0 <= j <= patchSize
        invariant forall r, c :: 0 <= r < acc.Length0 && 0 <= c < acc.Length1 ==>
                    acc[r, c] == old(acc[r, c]) +
                      (if r < o.y + i || (r == o.y + i && c < o.x + j) then Contribution(o, tile, patchSize, r, c) else 0.0)
      {
        acc[o.y + i, o.x + j] := acc[o.y + i, o.x + j] + tile[i][j];
        j := j + 1;
      }
      i := i + 1;
    }
  }

  /** Adds 1 to the count of every pixel in the window at `o`. */
  method IncrementWindow(count: array2<int>, o: Origin, patchSize: nat)
    requires Fits(o, patchSize, count.Length0, count.Length1)
    modifies count
    ensures forall r, c :: 0 <= r < count.Length0 && 0 <= c < count.Length1 ==>
              count[r, c] == old(count[r, c]) + (if Covers(o, patchSize, r, c) then 1 else 0)
  {
    var i := 0;
    while i < patchSize
      invariant 0 <= i <= patchSize
      invariant forall r, c :: 0 <= r < count.Length0 && 0 <= c < count.Length1 ==>
                  count[r, c] == old(count[r, c]) + (if r < o.y + i && Covers(o, patchSize, r, c) then 1 else 0)
    {
      var j := 0;
      while j < patchSize
        invariant 0 <= j <= patchSize
        invariant forall r, c :: 0 <= r < count.Length0 && 0 <= c < count.Length1 ==>
                    count[r, c] == old(count[r, c]) +
                      (if (r < o.y + i || (r == o.y + i && c < o.x + j)) && Covers(o, patchSize, r, c) then 1 else 0)
      {
        count[o.y + i, o.x + j] := count[o.y + i, o.x + j] + 1;
        j := j + 1;
      }
      i := i + 1;
    }
  }

  /** Divides the accumulator by the count, pixel by pixel, leaving 0 where
      the count is 0. */
  method DivideByCount(acc: array2<real>, count: array2<int>)
    requires count.Length0 == acc.Length0 && count.Length1 == acc.Length1
    modifies acc
    ensures forall r, c :: 0 <= r < acc.Length0 && 0 <= c < acc.Length1 ==>
              acc[r, c] == SafeDivide(old(acc[r, c]), count[r, c])
  {
    var i := 0;
    while i < acc.Length0
      invariant 0 <= i <= acc.Length0
      invariant forall r, c :: 0 <= r < acc.Length0 && 0 <= c < acc.Length1 ==>
                  acc[r, c] == if r < i then SafeDivide(old(acc[r, c]), count[r, c]) else old(acc[r, c])
    {
      var j := 0;
      while j < acc.Length1
        invariant 0 <= j <= acc.Length1
        invariant forall r, c :: 0 <= r < acc.Length0 && 0 <= c < acc.Length1 ==>
                    acc[r, c] == if r < i || (r == i && c < j) then SafeDivide(old(acc[r, c]), count[r, c]) else old(acc[r, c])
      {
        acc[i, j] := if count[i, j] != 0 then acc[i, j] / count[i, j] as real else 0.0;
        j := j + 1;
      }
      i := i + 1;
    }
  }

  /** Clamps every element to [0, 1]. */
  method ClipInPlace(acc: array2<real>)
    modifies acc
    ensures forall r, c :: 0 <= r < acc.Length0 && 0 <= c < acc.Length1 ==>
              acc[r, c] == Clip(old(acc[r, c]))
  {
    var i := 0;
    while i < acc.Length0
      invariant 0 <= i <= acc.Length0
      invariant forall r, c :: 0 <= r < acc.Length0 && 0 <= c < acc.Length1 ==>
                  acc[r, c] == if r < i then Clip(old(acc[r, c])) else old(acc[r, c])
    {
      var j := 0;
      while j < acc.Length1
        invariant 0 <= j <= acc.Length1
        invariant forall r, c :: 0 <= r < acc.Length0 && 0 <= c < acc.Length1 ==>
                    acc[r, c] == if r < i || (r == i && c < j) then Clip(old(acc[r, c])) else old(acc[r, c])
      {
        acc[i, j] := if acc[i, j] < 0.0 then 0.0 else if acc[i, j] > 1.0 then 1.0 else acc[i, j];
        j := j + 1;
      }
      i := i + 1;
    }
  }

  /** One more tile extends the sum and the count by that tile's share. */
  lemma PrefixStep(coords: seq<Origin>, tiles: seq<Tile>, patchSize: nat, k: int, r: int, c: int)
    requires |tiles| == |coords| && AllTiles(tiles, patchSize) && 0 <= k < |coords|
    ensures TileSum(coords[..k + 1], tiles[..k + 1], patchSize, r, c) ==
            TileSum(coords[..k], tiles[..k], patchSize, r, c) + Contribution(coords[k], tiles[k], patchSize, r, c)
    ensures CoverCount(coords[..k + 1], patchSize, r, c) ==
            CoverCount(coords[..k], patchSize, r, c) + (if Covers(coords[k], patchSize, r, c) then 1 else 0)
  {
    assert coords[..k + 1][..k] == coords[..k];
    assert tiles[..k + 1][..k] == tiles[..k];
  }

  /** Predicts every tile and adds it, and 1, into its window of the
      accumulator and of the count (both start at 0). */
  method Accumulate(fullPred: array2<real>, count: array2<int>, patchSize: nat,
                    coords: seq<Origin>, patches: seq<Patch>, predict: Patch -> Tile)
    requires count.Length0 == fullPred.Length0 && count.Length1 == fullPred.Length1
    requires |patches| == |coords|
    requires forall k :: 0 <= k < |coords| ==> Fits(coords[k], patchSize, fullPred.Length0, fullPred.Length1)
    requires forall k :: 0 <= k < |patches| ==> IsTile(predict(patches[k]), patchSize)
    requires forall r, c :: 0 <= r < fullPred.Length0 && 0 <= c < fullPred.Length1 ==>
               fullPred[r, c] == 0.0 && count[r, c] == 0
    modifies fullPred, count
    ensures forall r, c :: 0 <= r < fullPred.Length0 && 0 <= c < fullPred.Length1 ==>
              fullPred[r, c] == TileSum(coords, Predictions(patches, predict), patchSize, r, c) &&
              count[r, c] == CoverCount(coords, patchSize, r, c)
  {
    ghost var tiles := Predictions(patches, predict);
    var k := 0;
    while k < |coords|
      invariant 0 <= k <= |coords|
      invariant forall r, c :: 0 <= r < fullPred.Length0 && 0 <= c < fullPred.Length1 ==>
                  fullPred[r, c] == TileSum(coords[..k], tiles[..k], patchSize, r, c) &&
                  count[r, c] == CoverCount(coords[..k], patchSize, r, c)
    {
      var pred := predict(patches[k]);
      AddTileToWindow(fullPred, coords[k], patchSize, pred);
      IncrementWindow(count, coords[k], patchSize);
      forall r, c | 0 <= r < fullPred.Length0 && 0 <= c < fullPred.Length1
        ensures fullPred[r, c] == TileSum(coords[..k + 1], tiles[..k + 1], patchSize, r, c)
        ensures count[r, c] == CoverCount(coords[..k + 1], patchSize, r, c)
      {
        PrefixStep(coords, tiles, patchSize, k, r, c);
      }
      k := k + 1;
    }
    assert coords[..k] == coords && tiles[..k] == tiles;
  }

  /** Predicts every tile, accumulates the predictions and the coverage
      counts over a `height x width` map, then normalises and clamps. On
      return `count` holds, for every pixel, the number of windows that
      contain it, and `fullPred` the stitched probability. */
  method Stitch(height: nat, width: nat, patchSize: nat, coords: seq<Origin>, patches: seq<Patch>,
                predict: Patch -> Tile)
    returns (fullPred: array2<real>, count: array2<int>)
    requires |patches| == |coords|
    requires forall k :: 0 <= k < |coords| ==> Fits(coords[k], patchSize, height, width)
    requires forall k :: 0 <= k < |patches| ==> IsTile(predict(patches[k]), patchSize)
    ensures fresh(fullPred) && fresh(count)
    ensures fullPred.Length0 == count.Length0 == height && fullPred.Length1 == count.Length1 == width
    ensures forall r, c :: 0 <= r < height && 0 <= c < width ==>
              count[r, c] == CoverCount(coords, patchSize, r, c)
    ensures forall r, c :: 0 <= r < height && 0 <= c < width ==>
              fullPred[r, c] == Stitched(coords, Predictions(patches, predict), patchSize, r, c)
  {
    fullPred := new real[height, width]((r, c) => 0.0);
    count := new int[height, width]((r, c) => 0);
    Accumulate(fullPred, count, patchSize, coords, patches, predict);
    DivideByCount(fullPred, count);
    ClipInPlace(fullPred);
  }

  // ---------------------------------------------------------------------------
  // The reconstruction step of the prediction pipeline

  /** The tile size the pipeline uses; its stride is half a tile. */
  const PipelinePatchSize: nat := 256

  /** Cuts `img` into 256-pixel tiles with stride 128, predicts each tile and
      stitches the predictions into one map of the image's size. Every value
      of the map is the clamped mean of the tiles covering the pixel, and when
      the image is at least one tile large every pixel is covered. */
  method ReconstructPrediction(img: Image, predict: Patch -> Tile)
    returns (fullPred: array2<real>, ghost coords: seq<Origin>, ghost patches: seq<Patch>)
    requires img.Valid()
    requires forall t :: IsTile(predict(t), PipelinePatchSize)
    ensures fresh(fullPred)
    ensures fullPred.Length0 == img.height && fullPred.Length1 == img.width
    ensures coords == Grid(AxisStarts(img.height, PipelinePatchSize, PipelinePatchSize / 2),
                           AxisStarts(img.width, PipelinePatchSize, PipelinePatchSize / 2))
    ensures |patches| == |coords|
    ensures forall k :: 0 <= k < |coords| ==>
              Fits(coords[k], PipelinePatchSize, img.height, img.width) &&
              patches[k] == PatchAt(img, coords[k], PipelinePatchSize)
    ensures forall r, c :: 0 <= r < img.height && 0 <= c < img.width ==>
              fullPred[r, c] == Stitched(coords, Predictions(patches, predict), PipelinePatchSize, r, c) &&
              0.0 <= fullPred[r, c] <= 1.0
    ensures img.height >= PipelinePatchSize && img.width >= PipelinePatchSize ==>
              forall r, c :: 0 <= r < img.height && 0 <= c < img.width ==>
                CoverCount(coords, PipelinePatchSize, r, c) >= 1
  {
    var patchSize := PipelinePatchSize;
    var stride := patchSize / 2;
    var ps, cs := GeneratePatches(img, patchSize, Some(stride));
    coords, patches := cs, ps;
    var count;
    fullPred, count := Stitch(img.height, img.width, patchSize, cs, ps, predict);
    if img.height >= patchSize && img.width >= patchSize {
      forall r, c | 0 <= r < img.height && 0 <= c < img.width
        ensures CoverCount(coords, patchSize, r, c) >= 1
      {
        GridCoversEveryPixel(img.height, img.width, patchSize, stride, r, c);
      }
    }
  }
}
