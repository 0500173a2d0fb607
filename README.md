# Quadtree image compressor — a Dafny model

This project models the compression core of `Utility.java`, an adaptive quadtree image compressor:

- **Tiling.** An image given as a `[x][y][channel]` pixel array is packed into an RGB raster. The raster is cut into a 2 × 2 grid of tiles.
- **Per-tile quadtree.** For each tile, a quadtree is grown top-down. A node becomes a leaf when its depth reaches the cap or when the luma-weighted standard deviation of its pixels is at most 6.0. Otherwise it is split into four quarters.
- **Rendering.** Each tile is rendered at a depth derived from its size. Every collected node's box is painted in the node's rounded mean colour on a black canvas.
- **Recombination.** The rendered tiles are pasted back onto a canvas of the original size.

The modules follow the structure of the Java file:

- `Outcomes` (`outcomes.dfy`) holds the option and result types and the exceptions the code raises.
- `Raster` (`raster.dfy`) covers packed pixels, `getSubimage` windows, the `fillRect` and `drawImage` primitives, `convertPixelsToImage` and `ImageToPixels`.
- `Histogram` (`histogram.dfy`) covers class `ColorHistogram`: the histograms, the weighted average and deviation, and the colour estimate.
- `Region` (`region.dfy`) covers the boxes and the quadrant split of `QuadtreeNode.split`.
- `Quadtree` (`quadtree.dfy`) covers classes `Quadtree` and `QuadtreeNode`: construction, collection and rendering.
- `Compressor` (`tiling.dfy`) covers class `Utility`: `divideImage`, `combineParts`, `calculateMaxDepth` and `Compress`.

An image is an `array2<int>` indexed `[x, y]`, holding the 24 colour bits of each pixel. A `BufferedImage` returned by `getSubimage` is a `View`: a window onto a shared array. Java doubles are exact reals. `Math.sqrt` is a parameter `sqrt` of the members that use it.

Quadtree nodes are values. Java sets `isLeaf` and `children` on a node in place, while `BuildTree` returns the node as it leaves it. The `Quadtree` and `Utility` objects are classes, and their methods update the fields the Java methods update.

Two behaviours of the code are kept as written:

- **Zero-area node colour.** A node whose box holds no pixel keeps a null colour (`Utility.java:130-144`); the model's is `Option.None`.
- **Failed tiles.** A failed tile task is caught and its stack trace printed (`Utility.java:311-316`, `:328-330`), and no image is written. The model's `Compress` uses the corrected tile task, which cannot fail (see Findings).

## Model

| member | source | states |
|---|---|---|
| Raster.Pack | Utility.java:348 | `(r << 16) \| (g << 8) \| b` of three channels is a 24-bit value |
| Raster.UnpackPack | Utility.java:345-348 | Unpacking a packed pixel with `(rgb >> k) & 0xFF` gives back the red, green and blue it was packed from |
| Raster.PackUnpack | Utility.java:464-469 | Every 24-bit pixel is the packing of its own three extracted channels |
| Raster.Red | Utility.java:467 | `(rgb >> 16) & 0xFF` is a channel value in 0..255 for every int |
| Raster.Green | Utility.java:468 | `(rgb >> 8) & 0xFF` is a channel value in 0..255 for every int |
| Raster.Blue | Utility.java:469 | `rgb & 0xFF` is a channel value in 0..255 for every int |
| Raster.Subimage | Utility.java:131 | `getSubimage` fails exactly when the width or height is 0. Otherwise it is a valid window of the requested size whose pixel (i, j) is pixel (x+i, y+j) of the image |
| Raster.FillRect | Utility.java:85 | The rectangle, clipped to the canvas, takes the colour; every other pixel keeps its value |
| Raster.DrawImage | Utility.java:404 | Each pixel of the part lands at the offset (x, y), clipped to the canvas; every other pixel keeps its value |
| Raster.ConvertPixelsToImage | Utility.java:337-354 | Succeeds exactly when the array has a column, a row and three channels. It fails with `EmptyImage` exactly when there is no column or no row. The image has the array's width and height, and pixel (x, y) packs the channels at `[x][y]` |
| Raster.ImageToPixels | Utility.java:453-479 | A width × height × 3 array whose `[x][y]` holds the red, green and blue of pixel (x, y) |
| Histogram.CountsSnoc | Utility.java:186-195 | Counting one more pixel adds 1 to exactly the bucket of its channel value and leaves the others alone |
| Histogram.CountsTotal | Utility.java:184-197 | A channel's histogram counts every pixel exactly once: its buckets sum to the number of pixels |
| Histogram.CountsOfWindow | Utility.java:172-197 | Each channel's histogram of a w × h window has 256 buckets summing to w·h |
| Histogram.CreateColorHistogram | Utility.java:172-206 | The three histograms are the per-channel bucket counts of the window's pixels, each 256 long |
| Histogram.CountRow | Utility.java:185-196 | After the inner loop, the arrays count the pixels seen before plus row y |
| Histogram.CountPixel | Utility.java:186-195 | After the three increments, the arrays count the pixels seen before plus this pixel |
| Histogram.Hist | Utility.java:231-243 | The 768-entry list whose slices [0,256), [256,512) and [512,768) are the red, green and blue histograms |
| Histogram.GetWeightedAverage | Utility.java:246-273 | Value is Σ i·h[i] / Σ h[i] and error is sqrt(Σ h[i]·(value−i)² / Σ h[i]); both are 0 when the total is 0 |
| Histogram.MomentBounds | Utility.java:254-257 | With non-negative counts, 0 ≤ Σ i·h[i] ≤ (n−1)·Σ h[i] |
| Histogram.MeanInRange | Utility.java:253-258 | With non-negative counts the weighted mean lies in [0, n−1], so within [0, 255] for a 256-bucket histogram |
| Histogram.SpreadNonNegative | Utility.java:260-263 | With non-negative counts the sum of squared deviations is non-negative |
| Histogram.VarianceNonNegative | Utility.java:265-266 | The value passed to `Math.sqrt` is never negative |
| Histogram.SingleBucketSums | Utility.java:249-263 | With a single non-empty bucket k, the total is h[k], the moment is k·h[k] and the spread is h[k]·(m−k)² |
| Histogram.SingleBucketStatistics | Utility.java:246-273 | A histogram with a single non-empty bucket k has mean k and variance 0 |
| Histogram.ColourFromHistogram | Utility.java:208-228 | The colour is the rounded means of the three 256-entry slices, and the error is 0.2989·σR + 0.5870·σG + 0.1140·σB of their deviations |
| Histogram.RoundedMeanIsChannel | Utility.java:216-218 | `Math.round` of a 256-bucket weighted mean is a channel value |
| Histogram.RegionColourInGamut | Utility.java:133-139 | Every colour estimated for a window has its three channels in 0..255 |
| Histogram.UniformCounts | Utility.java:184-197 | When every pixel is p, each channel's histogram has the single non-empty bucket of p's channel value, holding the pixel count |
| Histogram.UniformEstimate | Utility.java:208-228 | Pixels that are all p are estimated as p's own colour with error 0 |
| Histogram.UniformRegionEstimate | Utility.java:131-139 | A non-empty uniform window gets its pixel's colour and error 0, which is at most the 6.0 threshold |
| Region.QuadrantsPartition | Utility.java:151-158 | The four boxes of `split` partition the parent: every pixel of the parent lies in exactly one of them, and no other pixel lies in any |
| Region.QuadrantsShape | Utility.java:152-158 | The quarters are well formed. The left and top ones take the floor of half the width and height; the right and bottom ones take the rest |
| Region.ThinBoxHasEmptyQuarters | Utility.java:152-155 | Splitting a box one pixel wide leaves its two left quarters with no pixel, and one pixel high its two top quarters; the other quarter holds a pixel exactly when the box is longer than one pixel |
| Quadtree.NewNode | Utility.java:118-145 | The node has the box and depth, is not a leaf and has no children. Its colour and error are those estimated from the box's pixels, or null and 0.0 when the box holds no pixel |
| Quadtree.EstimatedIsConstructed | Utility.java:129-144 | A constructed node has a colour, in 0..255, exactly when its box holds pixels, and error 0.0 when it holds none |
| Quadtree.QuartersInside | Utility.java:151-163 | The quarters of a box inside the image are inside the image, so their `getSubimage` calls are in bounds |
| Quadtree.Split | Utility.java:151-167 | The node gets four fresh children for the boxes tl, tr, bl, br of the quadrant split, one level deeper, and stays a non-leaf; nothing else changes |
| Quadtree.SplitNodeGrown | Utility.java:39-53 | A node above both the depth cap and the error threshold, whose four split children are built, is itself built |
| Quadtree.Quadtree.constructor | Utility.java:30-37 | The root covers the whole image at depth 0 with its estimated colour. The tree is grown with the given cap, and the recorded maximum depth is the deepest leaf's depth, the initial 1024 being overwritten |
| Quadtree.Quadtree.BuildTree | Utility.java:39-53 | A node is a leaf exactly when its depth reached the cap or its error is ≤ 6.0. Any other node has the four split children, built recursively. The recorded maximum depth becomes the larger of its old value and the deepest leaf |
| Quadtree.RunningMaxOfFour | Utility.java:50-52 | Updating the maximum over the four children in turn gives the maximum with the node's deepest leaf |
| Quadtree.Quadtree.GetLeafNodes | Utility.java:56-64 | Fails with `InvalidDepth` exactly when the depth exceeds the recorded maximum depth; otherwise returns the collected nodes in order |
| Quadtree.GetLeafNodesRecursion | Utility.java:67-75 | Appends to the list, in pre-order, every node that is a leaf or at the requested depth, without descending past one |
| Quadtree.CollectAllOfFour | Utility.java:70-73 | Collecting below the four children in turn is collecting below their node |
| Quadtree.Quadtree.CreateImageFromDepth | Utility.java:77-97 | Fails with `InvalidDepth` exactly when the depth exceeds the maximum, and with `NullColour` exactly when a collected node has no colour. Otherwise the canvas is width × height, and each pixel is the colour of the last collected node whose box holds it, or black. No other failure occurs |
| Quadtree.Quadtree.RenderAtDepth | Utility.java:99-106 | The same outcome as `CreateImageFromDepth`, with the depth checked first; no other failure occurs |
| Quadtree.Quadtree.RenderAtDepthSkippingEmpty | Utility.java:99-106 | Fails exactly when the depth exceeds the maximum. Otherwise the canvas is width × height, and each pixel is the colour of the collected node holding it |
| Quadtree.PaintNodes | Utility.java:88-95 | Paints all nodes exactly when all are coloured, and then leaves every pixel as the last coloured box over it says (black where none is) |
| Quadtree.PaintColouredNodes | Utility.java:88-95 | Painting only the coloured nodes leaves every pixel as the last coloured box over it says |
| Quadtree.DeepestLeafAtLeastDepth | Utility.java:39-53 | The deepest leaf below a node is at least its depth, and strictly deeper when the node was split |
| Quadtree.CollectedAreConstructed | Utility.java:67-75 | Every collected node is as its constructor made it, with colours in 0..255 |
| Quadtree.CollectPartition | Utility.java:67-75 | At any depth the collected nodes partition the root's box: every pixel of the box lies in exactly one, and no other pixel in any |
| Quadtree.CoveringOwner | Utility.java:88-94 | When exactly one collected node covers a pixel, it is identified and no other node covers the pixel |
| Quadtree.PaintedAtUncovered | Utility.java:84-85 | A pixel that no painted node covers stays black |
| Quadtree.PaintedAtOwner | Utility.java:88-95 | A pixel covered by exactly one node takes that node's colour, or stays black when the node has none |
| Quadtree.RenderedPixel | Utility.java:77-97 | Each pixel of the root's box lies in exactly one collected node, which is coloured, and the rendering gives the pixel that node's colour |
| Quadtree.RenderedOutside | Utility.java:81-85 | Rendering leaves every pixel outside the root's box black |
| Quadtree.RenderAtRootDepth | Utility.java:68-69 | Rendering at the root's own depth paints the whole image in the root's colour |
| Quadtree.CollectDepths | Utility.java:67-75 | Every collected node lies between the start depth and the requested depth d, and is a leaf or exactly at d |
| Quadtree.DeepestLeafBound | Utility.java:34-47 | No leaf is deeper than the cap, unless the root already is: the recorded maximum stays ≤ max(0, cap) |
| Quadtree.LeavesNoDeeper | Utility.java:40-46 | Every leaf is at most as deep as the deepest leaf |
| Quadtree.DeepestLeafAttained | Utility.java:40-46 | Some leaf lies exactly at the deepest leaf's depth |
| Quadtree.CollectAllLeaves | Utility.java:67-75 | For a depth at or beyond the deepest leaf, the collection is exactly the leaves |
| Quadtree.ThinSplitCollectsUncoloured | Utility.java:151-158 | A split node one pixel wide or high collects, first, a leaf with no colour at every depth other than its own |
| Quadtree.UniformTreeIsLeaf | Utility.java:40-46 | The tree of a uniform image is a single leaf at depth 0 |
| Compressor.FloorLog2 | Utility.java:417 | k satisfies 2^k ≤ n < 2^(k+1) |
| Compressor.CalculateMaxDepth | Utility.java:412-420 | The depth d with 2^d ≤ max(width, height) < 2^(d+1) |
| Compressor.TileDepth | Utility.java:299-301 | The render depth is min(8, calculateMaxDepth): never above either, and equal to one of them |
| Compressor.Utility.constructor | Utility.java:15-16 | Both recorded sizes start at 0 |
| Compressor.Utility.DivideImage | Utility.java:356-374 | Fails with `EmptySubimage` exactly when the image is narrower or lower than 2 pixels. Otherwise it returns four (w/2) × (h/2) windows on the image, row by row, where tile t shows the pixels from (col(t)·w/2, row(t)·h/2) on |
| Compressor.GridWindows | Utility.java:364-370 | The four windows built by the loops form the grid |
| Compressor.Utility.CombineParts | Utility.java:376-410 | Fails exactly when a recorded size is not positive. Otherwise a new canvas of the recorded size, where each pixel is that of the last part drawn over it, at its grid place times the widest/highest part, or black |
| Compressor.DrawPart | Utility.java:397-405 | Drawing part `index` at its grid place extends what the canvas shows from the first `index` parts to the first `index + 1` |
| Compressor.GridMaxSize | Utility.java:381-387 | The widest and highest parts of a grid are the tile width and height |
| Compressor.PastedOutsideGrid | Utility.java:395-407 | Pixels right of or below the 2 × 2 grid of tiles stay black |
| Compressor.PastedTile | Utility.java:395-407 | Inside the grid, a pixel takes the value of the one tile covering it |
| Compressor.BlackMargins | Utility.java:376-410 | After combining the four tiles, the odd last column or row is black |
| Compressor.TilingRoundTrip | Utility.java:356-410 | Combining the divided tiles gives the image back exactly on the grid area, and black on an odd last column or row |
| Compressor.Utility.CompressTile | Utility.java:299-304 | As written, the task fails with `InvalidDepth` exactly when the render depth exceeds the tree's maximum depth, and with `NullColour` exactly when a collected node has no colour. Otherwise it succeeds and returns the rendering of the tile's tree; no other failure occurs |
| Compressor.Utility.CompressTileCorrected | Utility.java:299-304 | The corrected task renders at min(render depth, tree's maximum depth), which never fails and collects the same nodes as the as-written depth; each pixel is the colour of the collected node holding it |
| Compressor.Utility.Compress | Utility.java:279-334 | With the corrected tile task, succeeds exactly when the pixel array is at least 2 × 2 with three channels. It records the original size, returns a canvas of that size, and leaves the odd last column or row black |
| Compressor.UniformTileRejected | Utility.java:299-303 | A uniform tile at least 2 pixels across grows a one-leaf tree of maximum depth 0, yet the render depth is at least 1 |
| Compressor.CorrectedDepthAccepted | Utility.java:299-303 | The corrected render depth is between 0 and the tree's maximum depth, so `renderAtDepth` accepts it, and it collects exactly the nodes the as-written depth names (the tree's leaves when the two differ) |

## Left out

- The thread pool, futures and the `ExecutionException` handling (`Utility.java:280`, `:292-317`, `:332`): the four tiles are processed one after the other.
- The object stream, the JPEG encoding, `Decompress` and `decodeImage`: these are file and codec I/O. `Compress` returns the combined image instead of writing it.
- `Compressor.Utility.Compress`: runs the corrected tile task (`CompressTileCorrected`) instead of the code at `Utility.java:299-303`, so it succeeds on inputs where the Java loses a tile and writes no image (see Findings).
- `Compressor.Utility.Compress`: does not state the pixels inside the tile grid. It states the size and the black margins; each tile's rendering is stated by `CompressTileCorrected` and the grid's pasting by `CombineParts` and `TilingRoundTrip`.
- Floating point: doubles are exact reals, and `Math.sqrt` is the parameter `sqrt`. Only `sqrt(0) = 0` is assumed where the uniform-region lemmas need it. The luma error of a particular non-uniform region is not evaluated, so the split of the second finding's input is taken from the arithmetic rather than derived in the model.
- `Compressor.FloorLog2`: is the exact floor of log₂. `(int) (Math.log(n) / Math.log(2))` may round differently for some large powers of two.
- The alpha byte of `getRGB`/`setRGB` (always 0xFF for `TYPE_INT_RGB`) is not modelled. Pixels hold the 24 colour bits.
- Java's 32-bit int overflow is not modelled. Sizes, counts and moments are unbounded, and channel values are required to lie in 0..255 (`ChannelsInRange`).
- Jagged pixel arrays are not modelled: the `[x][y][channel]` array is rectangular (`array3`).
- `Raster.DrawImage`: requires that the drawn part does not share the canvas's storage. Java's `drawImage` also handles that case.
- `OUTPUT_SCALE` and `PADDING` are the constants 1 and 0. `PaintNodes` and `PaintColouredNodes` require those values.
- The `IOException` catch in the `QuadtreeNode` constructor is left out, since nothing in the modelled code throws it.
- The histogram map keyed by "red"/"green"/"blue" is the record `Histograms`.
- Images with a zero width or height are excluded by `requires` from the quadtree members, because `BufferedImage` sizes are positive.
- `Compressor.Utility.CompressTileCorrected`: does not state that the returned canvas is freshly allocated.

## Findings

| source | as written | input that shows it | evidently intended | confidence | as-written member | corrected member |
|---|---|---|---|---|---|---|
| Utility.java:299-303 | Each tile is rendered at min(8, ⌊log₂ max(w, h)⌋), which can exceed the depth its tree reached, so `renderAtDepth` throws `IllegalArgumentException` and `Compress` writes no image | An 8 × 8 image of a single colour: each 4 × 4 tile grows one leaf, maximum depth 0, and is rendered at depth 2 | Render each tile at a depth its tree reached: min(8, ⌊log₂ max(w, h)⌋, tree's maximum depth) | not executed | Compressor.UniformTileRejected | Compressor.Utility.CompressTileCorrected, Compressor.CorrectedDepthAccepted |
| Utility.java:151-158 | Splitting a node one pixel wide or high makes a quarter with no pixel. The constructor leaves its colour null, and `createImageFromDepth` dereferences it at line 93 (`NullPointerException`) | A 2 × 4 image: each tile is 1 × 2. A tile with one black and one white pixel has error about 127.5 (above 6.0), so it splits; its empty top-left leaf is collected first at depth 1 | Skip (or never create) nodes whose box holds no pixel | not executed | Quadtree.ThinSplitCollectsUncoloured | Quadtree.Quadtree.RenderAtDepthSkippingEmpty |
