/**
 * The compression pipeline of class Utility: the image is cut into a 2 x 2
 * grid of tiles, each tile is compressed through its own quadtree rendered
 * at a depth derived from its size, and the compressed tiles are pasted back
 * onto a canvas of the original size.
 *
 * The four tiles run on a thread pool in Utility.java; here they run one
 * after the other. The JPEG encoding and the object stream that receive the
 * combined image are not modelled: Compress returns the combined image.
 */
module Compressor {
  import opened Outcomes
  import opened Raster
  import opened Histogram
  import opened Region
  import opened Quadtree

  const Rows := 2
  const Cols := 2

  /** The depth cap every tile's quadtree is built with. */
  const TreeCap := 1024

  /** The finest depth a tile is rendered at. */
  const DepthLimit := 8

  /* --- grid geometry --- */

  /** Column and row of tile t in the grid, in the order of divideImage's parts array. */
  function Col(t: nat): nat { t % Cols }

  function Row(t: nat): nat { t / Cols }

  /**
   * parts is the grid divideImage cuts from image: four tiles of
   * (width / 2) x (height / 2) pixels, tile t showing the pixels from column
   * Col(t) * (width / 2) and row Row(t) * (height / 2) on.
   */
  ghost predicate IsGrid(parts: seq<View>, image: View)
    reads image.data, set t | 0 <= t < |parts| :: parts[t].data
    requires image.Valid()
  {
    && |parts| == Rows * Cols
    && forall t :: 0 <= t < |parts| ==>
         && parts[t].Valid()
         && parts[t].width == image.width / Cols && parts[t].height == image.height / Rows
         && ShowsTile(parts[t], image, t)
  }

  /** Pixel (x, y) of part is pixel (x, y) of tile t of the image. */
  ghost predicate ShowsTile(part: View, image: View, t: nat)
    reads part.data, image.data
    requires part.Valid() && image.Valid() && t < Rows * Cols
    requires part.width == image.width / Cols && part.height == image.height / Rows
  {
    assert Col(t) * part.width + part.width <= image.width && Row(t) * part.height + part.height <= image.height by {
      assert Col(t) <= 1 && Row(t) <= 1;
    }
    forall x, y :: 0 <= x < part.width && 0 <= y < part.height ==>
      part.GetRGB(x, y) == image.GetRGB(Col(t) * part.width + x, Row(t) * part.height + y)
  }

  /** Tile t of a grid of pw x ph tiles over the image. */
  function TileOf(image: View, t: nat, pw: nat, ph: nat): View
  {
    View(image.data, image.left + Col(t) * pw, image.top + Row(t) * ph, pw, ph)
  }

  /** Every part is a valid window. */
  ghost predicate AllValid(parts: seq<View>)
    reads set t | 0 <= t < |parts| :: parts[t].data
  {
    forall t :: 0 <= t < |parts| ==> parts[t].Valid()
  }

  /** The widest of the parts, 0 for none. */
  function MaxWidth(parts: seq<View>): nat
  {
    if parts == [] then 0 else Max(MaxWidth(parts[..|parts| - 1]), parts[|parts| - 1].width)
  }

  /** The highest of the parts, 0 for none. */
  function MaxHeight(parts: seq<View>): nat
  {
    if parts == [] then 0 else Max(MaxHeight(parts[..|parts| - 1]), parts[|parts| - 1].height)
  }

  /**
   * The pixel (x, y) of a black canvas after the first n parts have been
   * drawn, part t with its top-left corner at (Col(t) * mw, Row(t) * mh):
   * the last part drawn over it decides.
   */
  function Pasted(parts: seq<View>, mw: int, mh: int, n: nat, x: int, y: int): int
    reads set t | 0 <= t < |parts| :: parts[t].data
    requires AllValid(parts) && n <= |parts|
  {
    if n == 0 then Black
    else
      var t := n - 1;
      var px, py := Col(t) * mw, Row(t) * mh;
      if InRect(x, y, px, py, parts[t].width, parts[t].height) then parts[t].GetRGB(x - px, y - py)
      else Pasted(parts, mw, mh, n - 1, x, y)
  }

  /** The canvas shows the first n parts pasted on black. */
  ghost predicate Shows(canvas: array2<int>, parts: seq<View>, mw: int, mh: int, n: nat)
    reads canvas, set t | 0 <= t < |parts| :: parts[t].data
    requires AllValid(parts) && n <= |parts|
  {
    forall x, y :: 0 <= x < canvas.Length0 && 0 <= y < canvas.Length1 ==> canvas[x, y] == Pasted(parts, mw, mh, n, x, y)
  }

  /** Java's (int) (Math.log(n) / Math.log(2)) for n >= 1, taken as the exact floor of the base-2 logarithm. */
  function FloorLog2(n: int): (k: nat)
    requires n >= 1
    ensures Pow2(k) <= n < 2 * Pow2(k)
  {
    if n < 2 then 0 else 1 + FloorLog2(n / 2)
  }

  function Pow2(k: nat): (p: int)
    ensures p >= 1
  {
    if k == 0 then 1 else 2 * Pow2(k - 1)
  }

  /** calculateMaxDepth: the base-2 logarithm of the larger side, rounded down. */
  function CalculateMaxDepth(image: View): (depth: nat)
    requires image.width >= 1 && image.height >= 1
    ensures Pow2(depth) <= Max(image.width, image.height) < 2 * Pow2(depth)
  {
    FloorLog2(Max(image.width, image.height))
  }

  /** The depth the compression task renders a tile at: calculateMaxDepth, at most 8. */
  function TileDepth(image: View): (depth: nat)
    requires image.width >= 1 && image.height >= 1
    ensures depth <= DepthLimit && depth <= CalculateMaxDepth(image)
    ensures depth == DepthLimit || depth == CalculateMaxDepth(image)
  {
    Min(DepthLimit, CalculateMaxDepth(image))
  }

  /** The top-level object: the size of the image last compressed, which combineParts gives the canvas. */
  class Utility {
    var originalImageHeight: int
    var originalImageWidth: int

    constructor ()
      ensures originalImageHeight == 0 && originalImageWidth == 0
    {
      originalImageHeight := 0;
      originalImageWidth := 0;
    }

    /**
     * divideImage: the 2 x 2 grid of (width / 2) x (height / 2) tiles, row by
     * row; getSubimage rejects the zero-sized tiles of an image narrower or
     * lower than two pixels. An odd last column or row is in no tile.
     */
    method DivideImage(image: View) returns (r: Result<seq<View>>)
      requires image.Valid()
      ensures r.Err? <==> image.width < Cols || image.height < Rows
      ensures r.Err? ==> r.failure == EmptySubimage
      ensures r.Ok? ==> IsGrid(r.value, image) && forall t :: 0 <= t < |r.value| ==> r.value[t].data == image.data
    {
      var partWidth := image.width / Cols;
      var partHeight := image.height / Rows;
      var parts: seq<View> := [];
      for i := 0 to Rows
        invariant |parts| == i * Cols
        invariant i > 0 ==> partWidth > 0 && partHeight > 0
        invariant forall t :: 0 <= t < |parts| ==> parts[t] == TileOf(image, t, partWidth, partHeight)
      {
        for j := 0 to Cols
          invariant |parts| == i * Cols + j
          invariant |parts| > 0 ==> partWidth > 0 && partHeight > 0
          invariant forall t :: 0 <= t < |parts| ==> parts[t] == TileOf(image, t, partWidth, partHeight)
        {
          var part := Subimage(image, j * partWidth, i * partHeight, partWidth, partHeight);
          if part.Err? {
            return Err(part.failure);
          }
          assert Col(i * Cols + j) == j && Row(i * Cols + j) == i;
          assert part.value == TileOf(image, i * Cols + j, partWidth, partHeight);
          parts := parts + [part.value];
        }
      }
      GridWindows(parts, image, partWidth, partHeight);
      return Ok(parts);
    }

    /**
     * combineParts: a black canvas of the original size on which part t is
     * drawn at column Col(t) times the widest part's width and row Row(t)
     * times the highest part's height, for the first four parts in order.
     * new BufferedImage rejects a size that is not positive.
     */
    method CombineParts(parts: seq<View>) returns (r: Result<array2<int>>)
      requires AllValid(parts) && |parts| <= Rows * Cols
      ensures r.Err? <==> originalImageWidth <= 0 || originalImageHeight <= 0
      ensures r.Err? ==> r.failure == EmptyImage
      ensures r.Ok? ==> fresh(r.value)
      ensures r.Ok? ==> r.value.Length0 == originalImageWidth && r.value.Length1 == originalImageHeight
      ensures r.Ok? ==> forall x, y :: 0 <= x < r.value.Length0 && 0 <= y < r.value.Length1 ==>
        r.value[x, y] == Pasted(parts, MaxWidth(parts), MaxHeight(parts), |parts|, x, y)
    {
      var maxPartWidth, maxPartHeight := 0, 0;
      for k := 0 to |parts|
        invariant maxPartWidth == MaxWidth(parts[..k]) && maxPartHeight == MaxHeight(parts[..k])
      {
        assert parts[..k + 1][..k] == parts[..k];
        maxPartWidth := Max(maxPartWidth, parts[k].width);
        maxPartHeight := Max(maxPartHeight, parts[k].height);
      }
      assert parts[..|parts|] == parts;
      var width, height := originalImageWidth, originalImageHeight;
      if width <= 0 || height <= 0 {
        return Err(EmptyImage);
      }
      var combined := new int[width, height]((x, y) => Black);
      for i := 0 to Rows
        invariant Shows(combined, parts, maxPartWidth, maxPartHeight, Min(i * Cols, |parts|))
      {
        for j := 0 to Cols
          invariant Shows(combined, parts, maxPartWidth, maxPartHeight, Min(i * Cols + j, |parts|))
        {
          var index := i * Cols + j;
          if index < |parts| {
            var x, y := j * maxPartWidth, i * maxPartHeight;
            assert Col(index) == j && Row(index) == i;
            DrawPart(combined, parts, index, x, y, maxPartWidth, maxPartHeight);
          }
        }
      }
      return Ok(combined);
    }

    /**
     * The compression task of one tile, as written: a quadtree with depth
     * cap 1024, rendered at TileDepth. It fails whenever TileDepth exceeds
     * the depth the tree reached, and whenever a collected node has no colour.
     */
    method CompressTile(part: View, sqrt: real -> real) returns (tree: Quadtree, r: Result<array2<int>>)
      requires part.Valid() && part.width > 0 && part.height > 0
      ensures fresh(tree) && tree.Valid() && tree.cap == TreeCap
      ensures tree.width == part.width && tree.height == part.height && Estimated(tree.root, part, sqrt)
      ensures r.Ok? || r == Err(InvalidDepth) || r == Err(NullColour)
      ensures r == Err(InvalidDepth) <==> TileDepth(part) > tree.maxDepth
      ensures r == Err(NullColour) <==> TileDepth(part) <= tree.maxDepth && !AllColoured(Collect(tree.root, TileDepth(part)))
      ensures r.Ok? ==> r.value.Length0 == part.width && r.value.Length1 == part.height
      ensures r.Ok? ==> ColoursInGamut(Collect(tree.root, TileDepth(part)))
      ensures r.Ok? ==> forall x, y :: 0 <= x < part.width && 0 <= y < part.height ==>
        r.value[x, y] == PaintedAt(Collect(tree.root, TileDepth(part)), x, y)
    {
      var maxDepth := CalculateMaxDepth(part);
      var depth := Min(DepthLimit, maxDepth);
      tree := new Quadtree(part, TreeCap, sqrt);
      r := tree.RenderAtDepth(depth);
    }

    /**
     * The compression task of one tile, corrected: rendered at TileDepth or
     * at the depth the tree reached, whichever is smaller, skipping nodes
     * without colour. It always succeeds.
     */
    method CompressTileCorrected(part: View, sqrt: real -> real) returns (tree: Quadtree, depth: int, rendered: array2<int>)
      requires part.Valid() && part.width > 0 && part.height > 0
      ensures fresh(tree) && tree.Valid() && tree.cap == TreeCap
      ensures tree.width == part.width && tree.height == part.height && Estimated(tree.root, part, sqrt)
      ensures depth == Min(TileDepth(part), tree.maxDepth) && 0 <= depth
      ensures Collect(tree.root, depth) == Collect(tree.root, TileDepth(part))
      ensures rendered.Length0 == part.width && rendered.Length1 == part.height
      ensures ColoursInGamut(Collect(tree.root, depth))
      ensures forall x, y :: 0 <= x < part.width && 0 <= y < part.height ==>
        rendered[x, y] == PaintedAt(Collect(tree.root, depth), x, y)
    {
      var maxDepth := CalculateMaxDepth(part);
      tree := new Quadtree(part, TreeCap, sqrt);
      CorrectedDepthAccepted(part, tree.root, tree.cap);
      depth := Min(Min(DepthLimit, maxDepth), tree.maxDepth);
      var r := tree.RenderAtDepthSkippingEmpty(depth);
      rendered := r.value;
    }

    /**
     * Compress with the corrected tile task, the tiles one after the other:
     * the pixels become an image, the image a grid of four tiles, each tile
     * its rendering, and the renderings are pasted back onto a canvas of the
     * original size.
     */
    method Compress(pixels: array3<int>, sqrt: real -> real) returns (r: Result<array2<int>>)
      requires ChannelsInRange(pixels)
      modifies this
      ensures r.Ok? <==> pixels.Length0 >= Cols && pixels.Length1 >= Rows && pixels.Length2 >= 3
      ensures r.Ok? ==> originalImageWidth == pixels.Length0 && originalImageHeight == pixels.Length1
      ensures r.Ok? ==> r.value.Length0 == pixels.Length0 && r.value.Length1 == pixels.Length1
      ensures r.Ok? ==> forall x, y | 0 <= x < r.value.Length0 && 0 <= y < r.value.Length1 ::
        x >= Cols * (pixels.Length0 / Cols) || y >= Rows * (pixels.Length1 / Rows) ==> r.value[x, y] == Black
    {
      var converted := ConvertPixelsToImage(pixels);
      if converted.Err? {
        return Err(converted.failure);
      }
      var image := converted.value;
      originalImageHeight := image.Length1;
      originalImageWidth := image.Length0;
      var divided := DivideImage(Whole(image));
      if divided.Err? {
        return Err(divided.failure);
      }
      var parts := divided.value;
      var compressedParts: seq<View> := [];
      for t := 0 to |parts|
        invariant |compressedParts| == t && AllValid(compressedParts)
        invariant forall k :: 0 <= k < t ==>
          compressedParts[k].width == image.Length0 / Cols && compressedParts[k].height == image.Length1 / Rows
        invariant originalImageWidth == image.Length0 && originalImageHeight == image.Length1
      {
        var tree, depth, rendered := CompressTileCorrected(parts[t], sqrt);
        compressedParts := compressedParts + [Whole(rendered)];
      }
      r := CombineParts(compressedParts);
      BlackMargins(compressedParts, image.Length0, image.Length1);
    }
  }

  /** One drawImage call of combineParts: part `index` goes at (x, y), its place in the grid. */
  method DrawPart(canvas: array2<int>, parts: seq<View>, index: nat, x: int, y: int, mw: int, mh: int)
    requires AllValid(parts) && index < |parts|
    requires forall t :: 0 <= t < |parts| ==> parts[t].data != canvas
    requires x == Col(index) * mw && y == Row(index) * mh
    requires Shows(canvas, parts, mw, mh, index)
    modifies canvas
    ensures Shows(canvas, parts, mw, mh, index + 1)
  {
    DrawImage(canvas, parts[index], x, y);
  }

  /* --- lemmas --- */

  lemma GridWindows(parts: seq<View>, image: View, pw: int, ph: int)
    requires image.Valid() && pw == image.width / Cols && ph == image.height / Rows && pw > 0 && ph > 0
    requires |parts| == Rows * Cols
    requires forall t :: 0 <= t < |parts| ==> parts[t] == TileOf(image, t, pw, ph)
    ensures IsGrid(parts, image)
  {
    forall t | 0 <= t < |parts|
      ensures parts[t].Valid() && ShowsTile(parts[t], image, t)
    {
      assert Col(t) <= 1 && Row(t) <= 1;
      assert Col(t) * pw + pw <= image.width && Row(t) * ph + ph <= image.height;
      forall x, y | 0 <= x < pw && 0 <= y < ph
        ensures parts[t].GetRGB(x, y) == image.GetRGB(Col(t) * pw + x, Row(t) * ph + y)
      {
      }
    }
  }

  /** The widest and highest parts of a grid are half the image's width and height. */
  lemma {:induction false} GridMaxSize(parts: seq<View>, w: nat, h: nat)
    requires forall t :: 0 <= t < |parts| ==> parts[t].width == w && parts[t].height == h
    ensures MaxWidth(parts) == (if parts == [] then 0 else w)
    ensures MaxHeight(parts) == (if parts == [] then 0 else h)
  {
    if parts != [] {
      GridMaxSize(parts[..|parts| - 1], w, h);
    }
  }

  /** Drawing parts of w x h pixels in the grid leaves the pixels right of or below the grid black. */
  lemma {:induction false} PastedOutsideGrid(parts: seq<View>, w: nat, h: nat, n: nat, x: int, y: int)
    requires AllValid(parts) && n <= |parts| <= Rows * Cols
    requires forall t :: 0 <= t < |parts| ==> parts[t].width == w && parts[t].height == h
    requires x >= Cols * w || y >= Rows * h
    ensures Pasted(parts, w, h, n, x, y) == Black
  {
    if n > 0 {
      PastedOutsideGrid(parts, w, h, n - 1, x, y);
    }
  }

  lemma BlackMargins(parts: seq<View>, width: nat, height: nat)
    requires AllValid(parts) && |parts| == Rows * Cols
    requires forall t :: 0 <= t < |parts| ==> parts[t].width == width / Cols && parts[t].height == height / Rows
    ensures forall x, y :: x >= Cols * (width / Cols) || y >= Rows * (height / Rows) ==>
      Pasted(parts, MaxWidth(parts), MaxHeight(parts), |parts|, x, y) == Black
  {
    var w, h := width / Cols, height / Rows;
    GridMaxSize(parts, w, h);
    forall x, y | x >= Cols * w || y >= Rows * h
      ensures Pasted(parts, MaxWidth(parts), MaxHeight(parts), |parts|, x, y) == Black
    {
      PastedOutsideGrid(parts, w, h, |parts|, x, y);
    }
  }

  /**
   * Dividing an image and pasting the tiles back gives the image again,
   * except for an odd last column or row, which no tile holds and which
   * stays black.
   */
  lemma TilingRoundTrip(parts: seq<View>, image: View, x: int, y: int)
    requires image.Valid() && image.width >= Cols && image.height >= Rows && IsGrid(parts, image)
    requires 0 <= x < image.width && 0 <= y < image.height
    ensures AllValid(parts)
    ensures Pasted(parts, MaxWidth(parts), MaxHeight(parts), |parts|, x, y) ==
      if x < Cols * (image.width / Cols) && y < Rows * (image.height / Rows) then image.GetRGB(x, y) else Black
  {
    var w, h := image.width / Cols, image.height / Rows;
    GridMaxSize(parts, w, h);
    if x < Cols * w && y < Rows * h {
      var t := (if y < h then 0 else 2) + (if x < w then 0 else 1);
      assert Col(t) * w <= x < Col(t) * w + w && Row(t) * h <= y < Row(t) * h + h;
      PastedTile(parts, w, h, |parts|, t, x, y);
      assert parts[t].GetRGB(x - Col(t) * w, y - Row(t) * h) == image.GetRGB(x, y);
    } else {
      PastedOutsideGrid(parts, w, h, |parts|, x, y);
    }
  }

  /** Over the tiles of a grid, the pixel drawn last is that of the one tile covering it. */
  lemma {:induction false} PastedTile(parts: seq<View>, w: nat, h: nat, n: nat, t: nat, x: int, y: int)
    requires AllValid(parts) && n <= |parts| <= Rows * Cols && t < n
    requires forall k :: 0 <= k < |parts| ==> parts[k].width == w && parts[k].height == h
    requires Col(t) * w <= x < Col(t) * w + w && Row(t) * h <= y < Row(t) * h + h
    ensures Pasted(parts, w, h, n, x, y) == parts[t].GetRGB(x - Col(t) * w, y - Row(t) * h)
  {
    if n - 1 != t {
      var k := n - 1;
      assert !InRect(x, y, Col(k) * w, Row(k) * h, w, h) by {
        assert Col(k) != Col(t) || Row(k) != Row(t);
      }
      PastedTile(parts, w, h, n - 1, t, x, y);
    }
  }

  /**
   * As written, a tile of at least two pixels across whose pixels are all
   * alike becomes a one-leaf tree of depth 0, while the task renders it at
   * depth at least 1: renderAtDepth throws for it.
   */
  lemma UniformTileRejected(part: View, p: int, sqrt: real -> real, root: Node, cap: int)
    requires part.Valid() && part.width > 0 && part.height > 0 && Max(part.width, part.height) >= 2
    requires Grown(root, cap) && Estimated(root, part, sqrt) && root.depth == 0
    requires root.box == Box(0, 0, part.width, part.height)
    requires Uniform(part, p) && sqrt(0.0) == 0.0
    ensures DeepestLeaf(root) == 0 < TileDepth(part)
  {
    UniformTreeIsLeaf(root, cap, part, p, sqrt);
  }

  /**
   * Corrected, the tile is rendered at a depth the tree reached, so
   * renderAtDepth accepts it, and that depth collects exactly the nodes the
   * as-written render depth names: when the two differ, both collect the
   * tree's leaves. The correction removes the rejection and paints the same nodes.
   */
  lemma CorrectedDepthAccepted(part: View, root: Node, cap: int)
    requires part.width > 0 && part.height > 0 && Grown(root, cap) && root.depth == 0
    ensures 0 <= Min(TileDepth(part), DeepestLeaf(root)) <= DeepestLeaf(root)
    ensures Collect(root, Min(TileDepth(part), DeepestLeaf(root))) == Collect(root, TileDepth(part))
  {
    DeepestLeafAtLeastDepth(root, cap);
    if TileDepth(part) > DeepestLeaf(root) {
      CollectAllLeaves(root, cap, DeepestLeaf(root));
      CollectAllLeaves(root, cap, TileDepth(part));
    }
  }
}
