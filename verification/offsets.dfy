/** Start offsets of the tiles along one axis, and the row-major grid of tile
    origins built from the offsets of the two axes. */
module Offsets {

  /** An optional argument; `None` stands for an argument left at its default. */
  datatype Option<T> = None | Some(value: T)

  /** The stride actually used: when none is given, tiles do not overlap. */
  function EffectiveStride(patchSize: nat, stride: Option<nat>): nat
  {
    match stride
    case None => patchSize
    case Some(s) => s
  }

  /** `start, start + step, start + 2 * step, ...` as long as the value is at most
      `limit`: what `arange(start, limit + 1, step)` yields for a positive step. */
  function Steps(start: int, limit: int, step: nat): seq<int>
    requires step > 0
    decreases if start <= limit then limit - start + 1 else 0
  {
    if start > limit then [] else [start] + Steps(start + step, limit, step)
  }

  /** The tile start offsets along an axis of length `extent`: the regular
      offsets `0, stride, ...` up to `extent - patchSize`, followed by
      `extent - patchSize` itself when the last regular tile stops short of
      the trailing edge. */
  function AxisStarts(extent: nat, patchSize: nat, stride: nat): seq<int>
    requires stride > 0
  {
    var regular := Steps(0, extent - patchSize, stride);
    if |regular| > 0 && regular[|regular| - 1] + patchSize < extent
    then regular + [extent - patchSize]
    else regular
  }

  /** The top-left corner of a tile, row first. */
  datatype Origin = Origin(y: int, x: int)

  /** The `patchSize x patchSize` window at `o` lies inside a `height x width` image. */
  predicate Fits(o: Origin, patchSize: nat, height: nat, width: nat)
  {
    0 <= o.y && o.y + patchSize <= height && 0 <= o.x && o.x + patchSize <= width
  }

  /** The origins of one row of tiles, in column order. */
  function Row(y: int, xs: seq<int>): seq<Origin>
  {
    seq(|xs|, j requires 0 <= j < |xs| => Origin(y, xs[j]))
  }

  /** The row-major Cartesian product of the row offsets and the column offsets. */
  function Grid(ys: seq<int>, xs: seq<int>): seq<Origin>
  {
    if ys == [] then [] else Grid(ys[..|ys| - 1], xs) + Row(ys[|ys| - 1], xs)
  }

  // ---------------------------------------------------------------------------
  // Regular offsets

  lemma MulLess(a: int, b: int, s: int)
    requires a < b && s > 0
    ensures a * s < b * s
  {
    assert b * s - a * s == (b - a) * s;
  }

  lemma LessFromMul(a: int, b: int, s: int)
    requires s > 0 && a * s < b * s
    ensures a < b
  {
    assert (b - a) * s == b * s - a * s;
  }

  lemma DivBounds(r: int, s: int)
    requires r >= 0 && s > 0
    ensures (r / s) * s <= r < (r / s) * s + s
  {
    assert r == (r / s) * s + r % s;
  }

  /** Row-major indices of an `n x m` grid stay below `n * m`. */
  lemma RowMajorBound(i: int, j: int, n: int, m: int)
    requires 0 <= i < n && 0 <= j < m
    ensures i * m + j < n * m
  {
    assert (i + 1) * m == i * m + m;
    if i + 1 < n {
      MulLess(i + 1, n, m);
    }
  }

  /** The regular offsets are `start + k * step`, they exist exactly when
      `start <= limit`, and the last one is within one step of `limit`. */
  lemma {:induction false} StepsShape(start: int, limit: int, step: nat)
    requires step > 0
    decreases if start <= limit then limit - start + 1 else 0
    ensures |Steps(start, limit, step)| == 0 <==> start > limit
    ensures forall k :: 0 <= k < |Steps(start, limit, step)| ==>
              Steps(start, limit, step)[k] == start + k * step
    ensures forall k :: 0 <= k < |Steps(start, limit, step)| ==>
              start <= Steps(start, limit, step)[k] <= limit
    ensures var r := Steps(start, limit, step);
            |r| > 0 ==> r[|r| - 1] <= limit < r[|r| - 1] + step
  {
    if start <= limit {
      var rest := Steps(start + step, limit, step);
      StepsShape(start + step, limit, step);
      var r := Steps(start, limit, step);
      assert r == [start] + rest;
      forall k | 0 <= k < |r| ensures r[k] == start + k * step && start <= r[k] <= limit {
        if k > 0 {
          assert r[k] == rest[k - 1] == start + step + (k - 1) * step;
        }
      }
    }
  }

  // ---------------------------------------------------------------------------
  // Properties of the offsets along one axis

  /** Every offset leaves room for a whole tile: `0 <= y <= extent - patchSize`. */
  lemma AxisStartsBounds(extent: nat, patchSize: nat, stride: nat)
    requires stride > 0
    ensures forall k :: 0 <= k < |AxisStarts(extent, patchSize, stride)| ==>
              0 <= AxisStarts(extent, patchSize, stride)[k] <= extent - patchSize
  {
    var regular := Steps(0, extent - patchSize, stride);
    var ys := AxisStarts(extent, patchSize, stride);
    StepsShape(0, extent - patchSize, stride);
    forall k | 0 <= k < |ys| ensures 0 <= ys[k] <= extent - patchSize {
      if k < |regular| {
        assert ys[k] == regular[k];
      } else {
        assert ys[k] == extent - patchSize;
      }
    }
  }

  /** There is at least one offset exactly when the tile fits in the extent;
      an oversized tile yields no offsets at all (and no error). */
  lemma AxisStartsNonEmpty(extent: nat, patchSize: nat, stride: nat)
    requires stride > 0
    ensures |AxisStarts(extent, patchSize, stride)| > 0 <==> extent >= patchSize
  {
    StepsShape(0, extent - patchSize, stride);
  }

  /** The offsets are strictly increasing, so no tile is produced twice. */
  lemma AxisStartsIncreasing(extent: nat, patchSize: nat, stride: nat)
    requires stride > 0
    ensures forall i, j :: 0 <= i < j < |AxisStarts(extent, patchSize, stride)| ==>
              AxisStarts(extent, patchSize, stride)[i] < AxisStarts(extent, patchSize, stride)[j]
  {
    var regular := Steps(0, extent - patchSize, stride);
    var ys := AxisStarts(extent, patchSize, stride);
    StepsShape(0, extent - patchSize, stride);
    forall i, j | 0 <= i < j < |ys| ensures ys[i] < ys[j] {
      if j < |regular| {
        MulLess(i, j, stride);
      } else {
        // j is the appended trailing offset, beyond every regular one
        assert ys[i] == regular[i];
        if i < |regular| - 1 {
          MulLess(i, |regular| - 1, stride);
        }
      }
    }
  }

  /** The first offset is 0 and the last one is exactly `extent - patchSize`,
      either appended or already reached by the regular steps. */
  lemma AxisStartsEnds(extent: nat, patchSize: nat, stride: nat)
    requires stride > 0
    ensures var ys := AxisStarts(extent, patchSize, stride);
            |ys| > 0 ==> ys[0] == 0 && ys[|ys| - 1] == extent - patchSize
  {
    StepsShape(0, extent - patchSize, stride);
  }

  /** A position before `limit` lies in the step `[q * step, q * step + step)`
      of some regular offset `q`. */
  lemma RegularStepFor(limit: int, step: nat, r: int) returns (q: nat)
    requires step > 0 && 0 <= r < limit
    ensures q < |Steps(0, limit, step)|
    ensures Steps(0, limit, step)[q] == q * step <= r < q * step + step
  {
    var regular := Steps(0, limit, step);
    StepsShape(0, limit, step);
    var n := |regular|;
    assert regular[n - 1] == (n - 1) * step;
    assert limit < (n - 1) * step + step == n * step;
    q := r / step;
    DivBounds(r, step);
    LessFromMul(q, n, step);
    assert regular[q] == q * step;
  }

  /** With a stride no larger than the tile, every position `r` of the axis
      lies in the window `[ys[k], ys[k] + patchSize)` of some offset `k`. */
  lemma AxisCoverage(extent: nat, patchSize: nat, stride: nat, r: int) returns (k: nat)
    requires 0 < stride <= patchSize <= extent
    requires 0 <= r < extent
    ensures k < |AxisStarts(extent, patchSize, stride)|
    ensures AxisStarts(extent, patchSize, stride)[k] <= r < AxisStarts(extent, patchSize, stride)[k] + patchSize
  {
    var limit := extent - patchSize;
    var ys := AxisStarts(extent, patchSize, stride);
    AxisStartsEnds(extent, patchSize, stride);
    AxisStartsNonEmpty(extent, patchSize, stride);
    if r >= limit {
      k := |ys| - 1;
    } else {
      k := RegularStepFor(limit, stride, r);
      assert ys[k] == Steps(0, limit, stride)[k];
    }
  }

  // ---------------------------------------------------------------------------
  // Properties of the grid of origins

  /** The grid has `|ys| * |xs|` origins, and origin `i * |xs| + j` is `(ys[i], xs[j])`:
      the product is row-major. */
  lemma {:induction false} GridAt(ys: seq<int>, xs: seq<int>)
    ensures |Grid(ys, xs)| == |ys| * |xs|
    ensures forall i, j :: 0 <= i < |ys| && 0 <= j < |xs| ==>
              Grid(ys, xs)[i * |xs| + j] == Origin(ys[i], xs[j])
  {
    if ys != [] {
      var init := ys[..|ys| - 1];
      GridAt(init, xs);
      var g := Grid(ys, xs);
      assert g == Grid(init, xs) + Row(ys[|ys| - 1], xs);
      assert |ys| * |xs| == |init| * |xs| + |xs|;
      forall i, j | 0 <= i < |ys| && 0 <= j < |xs|
        ensures g[i * |xs| + j] == Origin(ys[i], xs[j])
      {
        if i < |init| {
          RowMajorBound(i, j, |init|, |xs|);
          assert ys[i] == init[i];
        } else {
          assert i * |xs| + j == |init| * |xs| + j;
        }
      }
    }
  }

  /** Every origin of the grid is built from one row offset and one column offset. */
  lemma {:induction false} GridMembers(ys: seq<int>, xs: seq<int>, k: int)
    requires 0 <= k < |Grid(ys, xs)|
    ensures Grid(ys, xs)[k].y in ys && Grid(ys, xs)[k].x in xs
  {
    var init := ys[..|ys| - 1];
    var g := Grid(ys, xs);
    assert g == Grid(init, xs) + Row(ys[|ys| - 1], xs);
    if k < |Grid(init, xs)| {
      GridMembers(init, xs, k);
      assert g[k] == Grid(init, xs)[k];
    } else {
      assert g[k] == Origin(ys[|ys| - 1], xs[k - |Grid(init, xs)|]);
    }
  }

  /** The setting the inference pipeline uses: a 512 x 512 image, 256-pixel
      tiles and stride 128 give offsets 0, 128, 256 on each axis and nine
      origins in row-major order. */
  lemma PipelineSettingExample()
    ensures AxisStarts(512, 256, 128) == [0, 128, 256]
    ensures Grid([0, 128, 256], [0, 128, 256]) ==
              [Origin(0, 0), Origin(0, 128), Origin(0, 256),
               Origin(128, 0), Origin(128, 128), Origin(128, 256),
               Origin(256, 0), Origin(256, 128), Origin(256, 256)]
  {
    assert Steps(0, 256, 128) == [0, 128, 256];
    var xs := [0, 128, 256];
    assert [0, 128, 256][..2] == [0, 128];
    assert [0, 128][..1] == [0];
    assert [0][..0] == [];
    assert Row(0, xs) == [Origin(0, 0), Origin(0, 128), Origin(0, 256)];
    assert Row(128, xs) == [Origin(128, 0), Origin(128, 128), Origin(128, 256)];
    assert Row(256, xs) == [Origin(256, 0), Origin(256, 128), Origin(256, 256)];
  }
}
