/** Cutting an image into square tiles, each extended with two positional
    channels that say where in the whole image each of its pixels lies. */
module Patches {
  import opened Offsets

  /** An image of `height` rows and `width` columns; each pixel holds
      `channels` samples. */
  datatype Image = Image(height: nat, width: nat, channels: nat, px: seq<seq<seq<real>>>)
  {
    predicate Valid()
    {
      && |px| == height
      && (forall r :: 0 <= r < height ==> |px[r]| == width)
      && (forall r, c :: 0 <= r < height && 0 <= c < width ==> |px[r][c]| == channels)
    }
  }

  /** A tile: `patchSize` rows of `patchSize` pixels of `channels + 2` samples. */
  type Patch = seq<seq<seq<real>>>

  /** `num` evenly spaced samples from `start` towards `stop`, `stop` itself
      excluded (linspace with `endpoint=False`). */
  function Linspace(start: real, stop: real, num: nat): (s: seq<real>)
    ensures |s| == num
  {
    seq(num, k requires 0 <= k < num => start + (k as real) * ((stop - start) / (num as real)))
  }

  /** The tile whose top-left corner is `o`: the image window
      `[o.y, o.y + patchSize) x [o.x, o.x + patchSize)` followed, per pixel, by
      the column fraction and then the row fraction, both sampled over the
      window's span relative to the whole image. */
  function PatchAt(img: Image, o: Origin, patchSize: nat): Patch
    requires img.Valid() && patchSize > 0
    requires Fits(o, patchSize, img.height, img.width)
  {
    var h := img.height as real;
    var w := img.width as real;
    var yy := Linspace(o.y as real / h, (o.y + patchSize) as real / h, patchSize);
    var xx := Linspace(o.x as real / w, (o.x + patchSize) as real / w, patchSize);
    seq(patchSize, i requires 0 <= i < patchSize =>
      seq(patchSize, j requires 0 <= j < patchSize =>
        img.px[o.y + i][o.x + j] + [xx[j], yy[i]]))
  }

  /** Sampling the span `[a, a + n)` of an axis of length `extent` at `n`
      points gives the fractions `(a + k) / extent`. */
  lemma LinspaceOfFractions(a: int, n: nat, extent: nat, k: nat)
    requires 0 < n && 0 < extent && k < n
    ensures Linspace(a as real / extent as real, (a + n) as real / extent as real, n)[k]
            == (a + k) as real / extent as real
  {
    var e := extent as real;
    assert (a + n) as real / e - a as real / e == n as real / e;
    assert (n as real / e) / n as real == 1.0 / e;
    assert a as real / e + k as real * (1.0 / e) == (a + k) as real / e;
  }

  lemma FractionInUnit(a: int, extent: nat)
    requires 0 <= a < extent
    ensures 0.0 <= a as real / extent as real < 1.0
  {
    var e := extent as real;
    assert (a as real / e) * e == a as real;
  }

  /** Pixel `(i, j)` of the tile at `o` is the image pixel `(o.y + i, o.x + j)`
      followed by `(o.x + j) / width` and then `(o.y + i) / height`; both
      positional values lie in `[0, 1)`. */
  lemma PatchContents(img: Image, o: Origin, patchSize: nat, i: int, j: int)
    requires img.Valid() && patchSize > 0
    requires Fits(o, patchSize, img.height, img.width)
    requires 0 <= i < patchSize && 0 <= j < patchSize
    ensures var t := PatchAt(img, o, patchSize);
            && |t| == patchSize && |t[i]| == patchSize
            && |t[i][j]| == img.channels + 2
            && t[i][j][..img.channels] == img.px[o.y + i][o.x + j]
            && t[i][j][img.channels] == (o.x + j) as real / img.width as real
            && t[i][j][img.channels + 1] == (o.y + i) as real / img.height as real
            && 0.0 <= t[i][j][img.channels] < 1.0
            && 0.0 <= t[i][j][img.channels + 1] < 1.0
  {
    var h := img.height as real;
    var w := img.width as real;
    var yy := Linspace(o.y as real / h, (o.y + patchSize) as real / h, patchSize);
    var xx := Linspace(o.x as real / w, (o.x + patchSize) as real / w, patchSize);
    LinspaceOfFractions(o.y, patchSize, img.height, i);
    LinspaceOfFractions(o.x, patchSize, img.width, j);
    FractionInUnit(o.y + i, img.height);
    FractionInUnit(o.x + j, img.width);
    var t := PatchAt(img, o, patchSize);
    var pixel := img.px[o.y + i][o.x + j];
    assert t[i][j] == pixel + [xx[j], yy[i]];
    assert t[i][j][..img.channels] == pixel;
  }

  /** Cuts `img` into tiles. The row and column offsets follow `AxisStarts`
      with the given stride, or with a stride of one tile when none is given;
      the origins come in row-major order and `patches[k]` is the tile at
      `coords[k]`. An image smaller than a tile yields no tiles. */
  method GeneratePatches(img: Image, patchSize: nat, stride: Option<nat>)
    returns (patches: seq<Patch>, coords: seq<Origin>)
    requires img.Valid() && patchSize > 0
    requires stride != Some(0)
    ensures var s := EffectiveStride(patchSize, stride);
            s > 0 && coords == Grid(AxisStarts(img.height, patchSize, s), AxisStarts(img.width, patchSize, s))
    ensures |patches| == |coords|
    ensures forall k :: 0 <= k < |coords| ==>
              Fits(coords[k], patchSize, img.height, img.width) &&
              patches[k] == PatchAt(img, coords[k], patchSize)
  {
    var s := EffectiveStride(patchSize, stride);
    var ys := AxisStarts(img.height, patchSize, s);
    var xs := AxisStarts(img.width, patchSize, s);
    AxisStartsBounds(img.height, patchSize, s);
    AxisStartsBounds(img.width, patchSize, s);
    patches, coords := [], [];
    var i := 0;
    while i < |ys|
      invariant 0 <= i <= |ys|
      invariant coords == Grid(ys[..i], xs)
      invariant |patches| == |coords|
      invariant forall k :: 0 <= k < |coords| ==>
                  Fits(coords[k], patchSize, img.height, img.width) &&
                  patches[k] == PatchAt(img, coords[k], patchSize)
    {
      var y := ys[i];
      var j := 0;
      while j < |xs|
        invariant 0 <= j <= |xs|
        invariant coords == Grid(ys[..i], xs) + Row(y, xs[..j])
        invariant |patches| == |coords|
        invariant forall k :: 0 <= k < |coords| ==>
                    Fits(coords[k], patchSize, img.height, img.width) &&
                    patches[k] == PatchAt(img, coords[k], patchSize)
      {
        var x := xs[j];
        assert Row(y, xs[..j + 1]) == Row(y, xs[..j]) + [Origin(y, x)];
        patches := patches + [PatchAt(img, Origin(y, x), patchSize)];
        coords := coords + [Origin(y, x)];
        j := j + 1;
      }
      assert xs[..j] == xs;
      assert ys[..i + 1][..i] == ys[..i];
      i := i + 1;
    }
    assert ys[..i] == ys;
  }

  /** A tile larger than the image in either direction gives no tiles and no
      origins. */
  lemma OversizedPatchGivesNothing(img: Image, patchSize: nat, stride: nat)
    requires stride > 0
    requires patchSize > img.height || patchSize > img.width
    ensures Grid(AxisStarts(img.height, patchSize, stride), AxisStarts(img.width, patchSize, stride)) == []
  {
    var ys := AxisStarts(img.height, patchSize, stride);
    var xs := AxisStarts(img.width, patchSize, stride);
    AxisStartsNonEmpty(img.height, patchSize, stride);
    AxisStartsNonEmpty(img.width, patchSize, stride);
    GridAt(ys, xs);
  }
}
