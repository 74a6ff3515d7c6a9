# Tiled inference: patch extraction and overlap stitching

This project models, in Dafny, the tiling core of the nitride-layer
segmentation service (`capa_nitrurada/testing_model.py`). An image larger
than the network's input is cut into square, overlapping tiles. Each tile
carries two extra positional channels. Each tile is predicted on its own.
The predictions are then stitched back into one probability map of the
image's size. Where tiles overlap they are averaged, using a per-pixel count
of covering tiles, and the result is clamped to [0, 1].

Three modules, one per stage:

- `offsets.dfy` (`Offsets`): the start offsets along one axis (`Steps`,
  `AxisStarts`), the default stride, and the row-major grid of tile origins
  (`Row`, `Grid`). These are pure functions, with lemmas for bounds,
  non-emptiness, strict increase, first and last offset, coverage of every
  position, and the grid's length and order.
- `patches.dfy` (`Patches`): the image, `Linspace`, the tile at an origin
  with its positional channels (`PatchAt`), and the nested loop that builds
  the tile list and the origin list (`GeneratePatches`).
- `stitching.dfy` (`Stitching`): the specification of the stitched map
  (`CoverCount`, `TileSum`, `Clip`, `Stitched`) and its lemmas. Then the
  in-place loops over `array2` that add a tile into its window, increment
  the count over a window, divide by the count, and clip. Last come the
  whole stitch (`Stitch`) and the reconstruction step of the pipeline
  (`ReconstructPrediction`: tile size 256, stride 128).

Modelling choices:

- Samples are `real`. Float32/float64 rounding is not modelled.
- The trained network's `predict` is a function parameter
  `predict: Patch -> Tile`. It is assumed to return a `patchSize x patchSize`
  tile. Taking channel 0 of the batch-of-one output is folded into it.
- The coverage count is an `array2<int>`. The source keeps it as a float
  array of whole numbers.
- The source divides into a fresh zero array (`out=np.zeros_like(...)`).
  The model divides the accumulator in place, with the same result.
- `Stitch` also returns the count array so that its final contents can be
  stated. In the source it is a local variable.
- `ReconstructPrediction` returns the origins and the tiles as ghost
  outputs, only so that its postcondition can name them.

Three behaviours of the code that the model keeps:

- A tile larger than the image does not raise an error. Both offset lists,
  or one of them, come out empty. The result is then no tiles, no origins,
  and an all-zero map.
- The positional channels come column fraction first, then row fraction.
- The default stride of the tiling function is one whole tile, so tiles do
  not overlap by default. Only the pipeline passes half a tile.

## Model

| member | source | states |
|---|---|---|
| `Offsets.EffectiveStride` | capa_nitrurada/testing_model.py:16-17 | The stride used when none is given is one whole tile. It has no contract of its own; `Patches.GeneratePatches` states how it chooses the offsets. |
| `Offsets.Steps` | capa_nitrurada/testing_model.py:19 | Models `arange(0, extent - patchSize + 1, stride)` (also line 24). It has no contract of its own; `Offsets.StepsShape` states its closed form, when it is empty, and where it ends. |
| `Offsets.AxisStarts` | capa_nitrurada/testing_model.py:19-27 | Models the offsets of one axis: the regular steps, plus `extent - patchSize` when the last step stops short of the edge. It has no contract of its own; `Offsets.AxisStartsBounds`, `Offsets.AxisStartsNonEmpty`, `Offsets.AxisStartsIncreasing`, `Offsets.AxisStartsEnds` and `Offsets.AxisCoverage` state its properties. |
| `Offsets.Grid` | capa_nitrurada/testing_model.py:29-31 | Models the order of the nested loop over row and column offsets. It has no contract of its own; `Offsets.GridAt` and `Offsets.GridMembers` state its length and row-major order. |
| `Patches.Linspace` | capa_nitrurada/testing_model.py:33-34 | Models `linspace(start, stop, num, endpoint=False)`: the result has `num` samples. `Patches.LinspaceOfFractions` states the sample values for the tile spans. |
| `Patches.PatchAt` | capa_nitrurada/testing_model.py:32-38 | Models the tile at one origin: the image window followed by the column fraction and the row fraction. It has no contract of its own; `Patches.PatchContents` states its shape and every sample. |
| `Stitching.SafeDivide` | capa_nitrurada/testing_model.py:114 | Models `np.divide(..., where=count != 0)` into zeros for one element. It has no contract of its own; `Stitching.DivideByCount`, `Stitching.UncoveredPixelIsZero` and `Stitching.AverageNeedsNoClipping` state its effect. |
| `Offsets.StepsShape` | capa_nitrurada/testing_model.py:19 | The regular offsets are `start + k * step`. They exist exactly when `start <= limit`. The last one is within one step of `limit`, as `arange(0, extent - patchSize + 1, stride)` yields them. |
| `Offsets.AxisStartsBounds` | capa_nitrurada/testing_model.py:19-27 | Every row (column) offset `y` satisfies `0 <= y <= extent - patchSize`, so every slice `[y, y + patchSize)` is a full window. |
| `Offsets.AxisStartsNonEmpty` | capa_nitrurada/testing_model.py:19-20 | The offset list is non-empty if and only if `extent >= patchSize`. |
| `Offsets.AxisStartsIncreasing` | capa_nitrurada/testing_model.py:19-21 | The offsets are strictly increasing, including the appended trailing offset. |
| `Offsets.AxisStartsEnds` | capa_nitrurada/testing_model.py:19-21 | A non-empty offset list starts at 0 and ends exactly at `extent - patchSize`. The end is reached either by the append or by the last regular step. |
| `Offsets.AxisCoverage` | capa_nitrurada/testing_model.py:19-26 | With `0 < stride <= patchSize <= extent`, every position `r` in `[0, extent)` lies in `[ys[k], ys[k] + patchSize)` for some offset index `k`. |
| `Offsets.GridAt` | capa_nitrurada/testing_model.py:29-31 | The origin list has `|ys| * |xs|` entries, and entry `i * |xs| + j` is `(ys[i], xs[j])`: the product is row-major. |
| `Offsets.GridMembers` | capa_nitrurada/testing_model.py:29-31 | Every origin's row comes from the row offsets and its column from the column offsets. |
| `Offsets.PipelineSettingExample` | capa_nitrurada/testing_model.py:100-102 | For 512 x 512, tile 256 and stride 128, the offsets are `[0, 128, 256]` on each axis and the nine origins come in row-major order. |
| `Patches.LinspaceOfFractions` | capa_nitrurada/testing_model.py:33-34 | `linspace(a/extent, (a+n)/extent, n, endpoint=False)[k]` equals `(a + k) / extent`. |
| `Patches.PatchContents` | capa_nitrurada/testing_model.py:32-38 | Tile pixel `(i, j)` has `channels + 2` samples. The first `channels` samples are image pixel `(y + i, x + j)`. Then come `(x + j) / width` and `(y + i) / height`, in that order, both relative to the whole image and both in `[0, 1)`. |
| `Patches.GeneratePatches` | capa_nitrurada/testing_model.py:13-42 | The origins equal `Grid` of the two axes' offsets, with the stride defaulting to one tile. There is one tile per origin, and `patches[k]` is the tile at `coords[k]`, whose window fits in the image. |
| `Patches.OversizedPatchGivesNothing` | capa_nitrurada/testing_model.py:19-20 | When the tile is taller or wider than the image, there are no origins, and so no tiles. This is not an error. |
| `Stitching.Clip` | capa_nitrurada/testing_model.py:115 | The result lies in `[0, 1]`. It equals the input when the input is already in `[0, 1]`, and 0 or 1 when the input is below or above. |
| `Stitching.UncoveredIff` | capa_nitrurada/testing_model.py:105-112 | A pixel's count is 0 if and only if no origin's window contains it. |
| `Stitching.UncoveredPixelIsZero` | capa_nitrurada/testing_model.py:105-114 | A pixel that no window contains stays 0 in both the count and the accumulator, and is 0 in the stitched map. |
| `Stitching.SingleCoverage` | capa_nitrurada/testing_model.py:111-115 | Where exactly one tile covers a pixel, the accumulated value is that tile's value at that offset, and the stitched value is that value, clamped. |
| `Stitching.TileSumBounds` | capa_nitrurada/testing_model.py:108-112 | When every prediction is a probability, the accumulated sum at a pixel lies between 0 and the pixel's count. |
| `Stitching.AverageNeedsNoClipping` | capa_nitrurada/testing_model.py:114-115 | For probability predictions and a covered pixel, the stitched value is exactly `sum / count`: the clamp changes nothing. |
| `Stitching.GridCoverCount` | capa_nitrurada/testing_model.py:29-31 | The count of a pixel under the grid equals the number of row offsets covering its row times the number of column offsets covering its column. |
| `Stitching.GridCoversEveryPixel` | capa_nitrurada/testing_model.py:19-31 | With `0 < stride <= patchSize <= height, width`, every pixel has count at least 1. |
| `Stitching.PipelineSettingCounts` | capa_nitrurada/testing_model.py:100-112 | In the 512 x 512 setting, pixel `(0, 0)` is covered once and pixel `(200, 300)` four times. |
| `Stitching.AddTileToWindow` | capa_nitrurada/testing_model.py:111 | Each accumulator element inside the window gains the tile's value at the matching offset. Every element outside the window is unchanged. |
| `Stitching.IncrementWindow` | capa_nitrurada/testing_model.py:112 | Each count inside the window gains 1. Every count outside is unchanged. |
| `Stitching.DivideByCount` | capa_nitrurada/testing_model.py:114 | Every element becomes `acc / count` where the count is not 0, and 0 where it is. |
| `Stitching.ClipInPlace` | capa_nitrurada/testing_model.py:115 | Every element becomes its clamp to `[0, 1]`. |
| `Stitching.Accumulate` | capa_nitrurada/testing_model.py:108-112 | Starting from zero arrays, after the loop every accumulator element is `TileSum` over all tiles and every count is `CoverCount` over all origins. |
| `Stitching.Stitch` | capa_nitrurada/testing_model.py:104-115 | The count array holds `CoverCount` and the result holds `Stitched`, the clamped mean of the covering predictions (0 if none), at every pixel of a fresh `height x width` map. |
| `Stitching.ReconstructPrediction` | capa_nitrurada/testing_model.py:100-115 | Tile size 256 and stride 128. Every map value is the clamped mean of the covering tiles' predictions and lies in `[0, 1]`. When the image is at least 256 x 256, every pixel is covered. |

## Left out

- Loss and metric functions (`dice_loss`, `focal_loss`, `iou_metric`, `gradient_loss`, `shape_aware_loss`): tensor arithmetic on floats, used only when the model is deserialized.
- `model.predict`: a call into the neural-network runtime. It is a function parameter assumed to return a tile of the right shape.
- `realce_asimetrico`: a logistic `exp` remap and min-max renormalisation, which is floating-point numerics.
- Loading and scaling the image, plotting, saving the figure and building the public URL: I/O.
- The HTTP view, model loading and record lookup (`modelos/views.py`) and the blog subsystem: request plumbing and storage, not part of the tiling core.
- Negative strides: the stride is a natural number, so the source's behaviour on a negative stride is not modelled. There the source returns no tiles when either extent is at least `patchSize - 1`, because that axis's `arange` is then empty. Otherwise both `arange`s count down from 0, and the first tile's clipped image window no longer matches its positional channels, so the `concatenate` at testing_model.py:38 raises. A stride of 0 is excluded, because `arange` raises on it.
- A tile size of 0: excluded (`patchSize > 0`). With the default stride it would make `arange` raise. The pipeline always uses 256.
- The default tile size of 256 in the tiling function's signature: the model always takes the tile size as an argument, and the pipeline passes 256 explicitly.
- The cast of the tile array to float32: rounding is not modelled.
- `Patches.GeneratePatches`: returns the tiles as a sequence of tiles, not one stacked 4-D array.
