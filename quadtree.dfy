/**
 * The quadtree (classes Quadtree and QuadtreeNode): nodes built top-down by
 * splitting every region whose error is above the threshold, the depth-bounded
 * collection of nodes, and the rendering of the collected nodes onto a canvas.
 *
 * Java updates a node's isLeaf and children fields in place; here a node is a
 * value and buildTree returns the node as it leaves it.
 */
module Quadtree {
  import opened Outcomes
  import opened Raster
  import opened Histogram
  import opened Region

  const ErrorThreshold: real := 6.0
  const OutputScale := 1
  const Padding := 0

  /** A QuadtreeNode: its box, depth, leaf flag, children, colour (null until computed) and error. */
  datatype Node = Node(box: Box, depth: int, isLeaf: bool, children: Children, color: Option<Rgb>, error: real)

  /** The children array: null, or the four children tl, tr, bl, br. */
  datatype Children = Absent | Four(tl: Node, tr: Node, bl: Node, br: Node)

  function ChildList(c: Children): seq<Node>
  {
    match c
    case Absent => []
    case Four(a, b, c, d) => [a, b, c, d]
  }

  /** The box lies within the image, as getSubimage demands. */
  predicate Inside(b: Box, image: View)
  {
    b.WellFormed() && 0 <= b.left && 0 <= b.top && b.right <= image.width && b.bottom <= image.height
  }

  /** The window getSubimage gives for a box of the image. */
  function Window(image: View, b: Box): (w: View)
    requires Inside(b, image)
    ensures w.data == image.data && w.width == b.Width() && w.height == b.Height()
    ensures image.Valid() ==> w.Valid()
  {
    View(image.data, image.left + b.left, image.top + b.top, b.Width(), b.Height())
  }

  /**
   * The colour and error of n are those the QuadtreeNode constructor
   * estimates from the pixels of its box: colour null and error 0.0 for a box
   * without pixels. The estimate is stated for every window equal to the
   * box's, so that it is only unfolded where an estimate is in play.
   */
  ghost predicate Estimates(n: Node, image: View, sqrt: real -> real)
    reads image.data
    requires image.Valid()
  {
    && Inside(n.box, image)
    && (n.box.Empty() ==> n.color == None && n.error == 0.0)
    && (!n.box.Empty() ==>
          forall w: View {:trigger RegionEstimate(w, sqrt)} :: w == Window(image, n.box) ==>
            n.color == Some(RegionEstimate(w, sqrt).color) && n.error == RegionEstimate(w, sqrt).error)
  }

  /** n is the node the QuadtreeNode constructor makes for a box at a depth: not a leaf, no children, its estimate. */
  ghost predicate IsFresh(n: Node, box: Box, depth: int, image: View, sqrt: real -> real)
    reads image.data
    requires image.Valid()
  {
    n.box == box && n.depth == depth && !n.isLeaf && n.children.Absent? && Estimates(n, image, sqrt)
  }

  /** The QuadtreeNode constructor. */
  method NewNode(image: View, box: Box, depth: int, sqrt: real -> real) returns (node: Node)
    requires image.Valid() && Inside(box, image)
    ensures IsFresh(node, box, depth, image, sqrt)
  {
    var width, height := box.Width(), box.Height();
    node := Node(box, depth, false, Absent, None, 0.0);
    if width > 0 && height > 0 {
      var subImage := Subimage(image, box.left, box.top, width, height).value;
      assert subImage == Window(image, box);
      var colorHistograms := CreateColorHistogram(subImage);
      var histogram := Hist(colorHistograms);
      assert histogram == colorHistograms.red + colorHistograms.green + colorHistograms.blue;
      var rgb, error := ColourFromHistogram(histogram, sqrt);
      node := node.(color := Some(rgb), error := error);
      assert Estimate(rgb, error) == RegionEstimate(subImage, sqrt);
    }
  }

  /** What the constructor guarantees of a node: a colour in gamut exactly when its box holds pixels, error 0.0 when it holds none. */
  predicate Constructed(n: Node)
  {
    && n.box.WellFormed()
    && (n.color.Some? <==> !n.box.Empty())
    && (n.color.Some? ==> InGamut(n.color.value))
    && (n.box.Empty() ==> n.error == 0.0)
  }

  lemma EstimatedIsConstructed(n: Node, image: View, sqrt: real -> real)
    requires image.Valid() && Estimates(n, image, sqrt)
    ensures Constructed(n)
  {
    if !n.box.Empty() {
      RegionColourInGamut(Window(image, n.box), sqrt);
    }
  }

  /** The quarters of a box inside the image lie inside the image. */
  lemma QuartersInside(b: Box, image: View)
    requires Inside(b, image)
    ensures var q := Quadrants(b); Inside(q.tl, image) && Inside(q.tr, image) && Inside(q.bl, image) && Inside(q.br, image)
  {
    QuadrantsShape(b);
  }

  /**
   * QuadtreeNode.split: four fresh children, one per quarter of the box and
   * one level deeper, in the order tl, tr, bl, br.
   */
  method Split(image: View, node: Node, sqrt: real -> real) returns (split: Node)
    requires image.Valid() && Inside(node.box, image)
    ensures split == node.(isLeaf := false, children := split.children) && split.children.Four?
    ensures var q, c := Quadrants(node.box), split.children;
      && IsFresh(c.tl, q.tl, node.depth + 1, image, sqrt) && IsFresh(c.tr, q.tr, node.depth + 1, image, sqrt)
      && IsFresh(c.bl, q.bl, node.depth + 1, image, sqrt) && IsFresh(c.br, q.br, node.depth + 1, image, sqrt)
  {
    var left, top, right, bottom := node.box.left, node.box.top, node.box.right, node.box.bottom;
    var lr := left + JavaDiv(right - left, 2);
    var tb := top + JavaDiv(bottom - top, 2);
    ghost var q := Quadrants(node.box);
    assert Box(left, top, lr, tb) == q.tl && Box(lr, top, right, tb) == q.tr;
    assert Box(left, tb, lr, bottom) == q.bl && Box(lr, tb, right, bottom) == q.br;
    QuartersInside(node.box, image);
    var tl := NewNode(image, Box(left, top, lr, tb), node.depth + 1, sqrt);
    var tr := NewNode(image, Box(lr, top, right, tb), node.depth + 1, sqrt);
    var bl := NewNode(image, Box(left, tb, lr, bottom), node.depth + 1, sqrt);
    var br := NewNode(image, Box(lr, tb, right, bottom), node.depth + 1, sqrt);
    split := node.(children := Four(tl, tr, bl, br), isLeaf := false);
  }

  /**
   * The tree buildTree leaves below n with depth cap `cap`: every node is as
   * its constructor made it; a node is a leaf exactly when its depth reached
   * the cap or its error is at most the threshold; a leaf has no children and
   * any other node has exactly the four children of its split, one level deeper.
   */
  ghost predicate Grown(n: Node, cap: int)
    decreases n, 1
  {
    && Constructed(n)
    && (n.isLeaf <==> n.depth >= cap || n.error <= ErrorThreshold)
    && (n.isLeaf <==> n.children.Absent?)
    && (n.children.Four? ==> ChildrenGrown(n, cap))
  }

  /** The children of a split node are its four quarters, one level deeper, each grown. */
  ghost predicate ChildrenGrown(n: Node, cap: int)
    requires n.children.Four?
    decreases n, 0
  {
    var q := Quadrants(n.box);
    var c := n.children;
    && c.tl.box == q.tl && c.tr.box == q.tr && c.bl.box == q.bl && c.br.box == q.br
    && c.tl.depth == c.tr.depth == c.bl.depth == c.br.depth == n.depth + 1
    && Grown(c.tl, cap) && Grown(c.tr, cap) && Grown(c.bl, cap) && Grown(c.br, cap)
  }

  /** Every node's colour and error are those estimated from its own box of the image. */
  ghost predicate Estimated(n: Node, image: View, sqrt: real -> real)
    reads image.data
    requires image.Valid()
  {
    && Estimates(n, image, sqrt)
    && (n.children.Four? ==>
          && Estimated(n.children.tl, image, sqrt) && Estimated(n.children.tr, image, sqrt)
          && Estimated(n.children.bl, image, sqrt) && Estimated(n.children.br, image, sqrt))
  }

  /** c is what buildTree makes of a fresh node for a box at a depth: grown, estimated, in that box and at that depth. */
  ghost predicate Built(c: Node, box: Box, depth: int, cap: int, image: View, sqrt: real -> real)
    reads image.data
    requires image.Valid()
  {
    Grown(c, cap) && Estimated(c, image, sqrt) && c.box == box && c.depth == depth
  }

  /** A node split because it is above the cap and the threshold, with its four quarters built, is grown and estimated. */
  lemma SplitNodeGrown(node: Node, built: Node, cap: int, image: View, sqrt: real -> real)
    requires image.Valid() && Estimates(node, image, sqrt) && Constructed(node)
    requires !(node.depth >= cap || node.error <= ErrorThreshold)
    requires built == node.(isLeaf := false, children := built.children) && built.children.Four?
    requires var q, c := Quadrants(node.box), built.children;
      && Built(c.tl, q.tl, node.depth + 1, cap, image, sqrt) && Built(c.tr, q.tr, node.depth + 1, cap, image, sqrt)
      && Built(c.bl, q.bl, node.depth + 1, cap, image, sqrt) && Built(c.br, q.br, node.depth + 1, cap, image, sqrt)
    ensures Grown(built, cap) && Estimated(built, image, sqrt)
  {
  }

  /** The greatest depth among the leaves below n. */
  function DeepestLeaf(n: Node): int
  {
    if n.isLeaf then n.depth
    else match n.children
      case Absent => n.depth
      case Four(a, b, c, d) => Max(Max(DeepestLeaf(a), DeepestLeaf(b)), Max(DeepestLeaf(c), DeepestLeaf(d)))
  }

  /** The value buildTree's running maximum reaches from m after the nodes ns. */
  function RunningMax(m: int, ns: seq<Node>): int
  {
    if ns == [] then m else Max(RunningMax(m, ns[..|ns| - 1]), DeepestLeaf(ns[|ns| - 1]))
  }

  /** The leaves below n, in the order tl, tr, bl, br. */
  function Leaves(n: Node): seq<Node>
  {
    if n.isLeaf then [n]
    else match n.children
      case Absent => []
      case Four(a, b, c, d) => Leaves(a) + Leaves(b) + Leaves(c) + Leaves(d)
  }

  /**
   * The nodes getLeafNodesRecursion collects below n for depth d, in order: a
   * node that is a leaf or lies at depth d, and otherwise what its children give.
   */
  function Collect(n: Node, d: int): seq<Node>
  {
    if n.isLeaf || n.depth == d then [n]
    else match n.children
      case Absent => []
      case Four(a, b, c, e) => Collect(a, d) + Collect(b, d) + Collect(c, d) + Collect(e, d)
  }

  function CollectAll(ns: seq<Node>, d: int): seq<Node>
  {
    if ns == [] then [] else CollectAll(ns[..|ns| - 1], d) + Collect(ns[|ns| - 1], d)
  }

  predicate AllColoured(ns: seq<Node>)
  {
    forall k :: 0 <= k < |ns| ==> ns[k].color.Some?
  }

  predicate ColoursInGamut(ns: seq<Node>)
  {
    forall k :: 0 <= k < |ns| && ns[k].color.Some? ==> InGamut(ns[k].color.value)
  }

  /** new Color(r, g, b).getRGB(), without the alpha bits. */
  function ColourValue(c: Rgb): int
    requires InGamut(c)
  {
    Pack(c.r, c.g, c.b)
  }

  /**
   * The pixel (x, y) after fillRect has painted each coloured node of ns in
   * turn onto a black canvas: the colour of the last one whose box holds it.
   */
  function PaintedAt(ns: seq<Node>, x: int, y: int): int
    requires ColoursInGamut(ns)
  {
    if ns == [] then Black
    else
      var n := ns[|ns| - 1];
      if n.color.Some? && n.box.Contains(x, y) then ColourValue(n.color.value)
      else PaintedAt(ns[..|ns| - 1], x, y)
  }

  /** A tree as the Quadtree constructor leaves it, recording its depth cap. */
  class Quadtree {
    var root: Node
    var width: int
    var height: int
    var maxDepth: int
    ghost var cap: int

    ghost predicate Valid()
      reads this
    {
      && width > 0 && height > 0
      && root.box == Box(0, 0, width, height) && root.depth == 0
      && Grown(root, cap)
      && maxDepth == DeepestLeaf(root)
    }

    /**
     * Quadtree(image, maxDepth): the root covers the whole image at depth 0,
     * the recorded maximum depth starts from 0 (overwriting the field's
     * initial 1024) and buildTree grows the tree with depth cap `cap`.
     */
    constructor (image: View, cap: int, sqrt: real -> real)
      requires image.Valid() && image.width > 0 && image.height > 0
      ensures Valid() && this.cap == cap
      ensures width == image.width && height == image.height
      ensures Estimated(root, image, sqrt)
    {
      var top := NewNode(image, Box(0, 0, image.width, image.height), 0, sqrt);
      root := top;
      width := image.width;
      height := image.height;
      maxDepth := 0;
      this.cap := cap;
      new;
      var built := BuildTree(image, top, cap, sqrt);
      root := built;
      DeepestLeafAtLeastDepth(built, cap);
    }

    /**
     * buildTree: a node whose depth reached the cap or whose error is at most
     * the threshold becomes a leaf and raises the recorded maximum depth to
     * its own; any other node is split and its four children are built in turn.
     */
    method BuildTree(image: View, node: Node, cap: int, sqrt: real -> real) returns (built: Node)
      requires image.Valid() && IsFresh(node, node.box, node.depth, image, sqrt)
      modifies this`maxDepth
      decreases cap - node.depth
      ensures Built(built, node.box, node.depth, cap, image, sqrt)
      ensures built.color == node.color && built.error == node.error
      ensures maxDepth == Max(old(maxDepth), DeepestLeaf(built))
    {
      EstimatedIsConstructed(node, image, sqrt);
      if node.depth >= cap || node.error <= ErrorThreshold {
        if node.depth > maxDepth {
          maxDepth := node.depth;
        }
        return node.(isLeaf := true);
      }
      var split := Split(image, node, sqrt);
      var children := ChildList(split.children);
      var grown: seq<Node> := [];
      for i := 0 to 4
        invariant |grown| == i
        invariant i > 0 ==> Built(grown[0], children[0].box, node.depth + 1, cap, image, sqrt)
        invariant i > 1 ==> Built(grown[1], children[1].box, node.depth + 1, cap, image, sqrt)
        invariant i > 2 ==> Built(grown[2], children[2].box, node.depth + 1, cap, image, sqrt)
        invariant i > 3 ==> Built(grown[3], children[3].box, node.depth + 1, cap, image, sqrt)
        invariant maxDepth == RunningMax(old(maxDepth), grown)
      {
        var child := BuildTree(image, children[i], cap, sqrt);
        assert (grown + [child])[..i] == grown;
        grown := grown + [child];
      }
      built := split.(children := Four(grown[0], grown[1], grown[2], grown[3]));
      SplitNodeGrown(node, built, cap, image, sqrt);
      RunningMaxOfFour(old(maxDepth), grown, built);
    }

    /**
     * getLeafNodes: a depth above the recorded maximum depth is rejected;
     * otherwise the collected nodes below the root, in order.
     */
    method GetLeafNodes(depth: int) returns (r: Result<seq<Node>>)
      ensures r.Err? <==> depth > maxDepth
      ensures r.Err? ==> r.failure == InvalidDepth
      ensures r.Ok? ==> r.value == Collect(root, depth)
    {
      if depth > maxDepth {
        return Err(InvalidDepth);
      }
      var leafNodes := GetLeafNodesRecursion(root, depth, []);
      return Ok(leafNodes);
    }

    /**
     * createImageFromDepth: a black width x height canvas on which the box of
     * every collected node is filled with the node's colour, in order. A node
     * whose colour is null makes new Color(...) throw.
     */
    method CreateImageFromDepth(depth: int) returns (r: Result<array2<int>>)
      requires Valid()
      ensures r.Ok? || r == Err(InvalidDepth) || r == Err(NullColour)
      ensures r == Err(InvalidDepth) <==> depth > maxDepth
      ensures r == Err(NullColour) <==> depth <= maxDepth && !AllColoured(Collect(root, depth))
      ensures r.Ok? ==> r.value.Length0 == width && r.value.Length1 == height
      ensures r.Ok? ==> ColoursInGamut(Collect(root, depth))
      ensures r.Ok? ==> forall x, y :: 0 <= x < width && 0 <= y < height ==>
        r.value[x, y] == PaintedAt(Collect(root, depth), x, y)
    {
      var m, dx, dy := OutputScale, Padding, Padding;
      var image := new int[width * m + dx, height * m + dy];
      FillRect(image, 0, 0, width * m + dx, height * m + dy, Black);
      var leaves := GetLeafNodes(depth);
      if leaves.Err? {
        return Err(leaves.failure);
      }
      var leafNodes := leaves.value;
      CollectedAreConstructed(root, cap, depth);
      var painted := PaintNodes(image, leafNodes, m, dx, dy);
      if !painted {
        return Err(NullColour);
      }
      return Ok(image);
    }

    /** renderAtDepth: rejects a depth above the recorded maximum, then createImageFromDepth. */
    method RenderAtDepth(depth: int) returns (r: Result<array2<int>>)
      requires Valid()
      ensures r.Ok? || r == Err(InvalidDepth) || r == Err(NullColour)
      ensures r == Err(InvalidDepth) <==> depth > maxDepth
      ensures r == Err(NullColour) <==> depth <= maxDepth && !AllColoured(Collect(root, depth))
      ensures r.Ok? ==> r.value.Length0 == width && r.value.Length1 == height
      ensures r.Ok? ==> ColoursInGamut(Collect(root, depth))
      ensures r.Ok? ==> forall x, y :: 0 <= x < width && 0 <= y < height ==>
        r.value[x, y] == PaintedAt(Collect(root, depth), x, y)
    {
      if depth > maxDepth {
        return Err(InvalidDepth);
      }
      r := CreateImageFromDepth(depth);
    }

    /**
     * renderAtDepth with createImageFromDepth skipping the nodes whose colour
     * is null (their boxes hold no pixel): it fails only for a depth above
     * the recorded maximum.
     */
    method RenderAtDepthSkippingEmpty(depth: int) returns (r: Result<array2<int>>)
      requires Valid()
      ensures r.Err? <==> depth > maxDepth
      ensures r.Err? ==> r.failure == InvalidDepth
      ensures r.Ok? ==> r.value.Length0 == width && r.value.Length1 == height
      ensures r.Ok? ==> ColoursInGamut(Collect(root, depth))
      ensures r.Ok? ==> forall x, y :: 0 <= x < width && 0 <= y < height ==>
        r.value[x, y] == PaintedAt(Collect(root, depth), x, y)
    {
      if depth > maxDepth {
        return Err(InvalidDepth);
      }
      var m, dx, dy := OutputScale, Padding, Padding;
      var image := new int[width * m + dx, height * m + dy];
      FillRect(image, 0, 0, width * m + dx, height * m + dy, Black);
      var leafNodes := GetLeafNodesRecursion(root, depth, []);
      assert leafNodes == Collect(root, depth);
      CollectedAreConstructed(root, cap, depth);
      PaintColouredNodes(image, leafNodes, m, dx, dy);
      return Ok(image);
    }
  }

  /**
   * The loop of createImageFromDepth: fills each node's box, scaled by m and
   * shifted by (dx, dy), with its colour, in order; it stops, failing, at the
   * first node whose colour is null. On a black canvas with the identity
   * scale, every pixel ends up as PaintedAt says.
   */
  method PaintNodes(image: array2<int>, nodes: seq<Node>, m: int, dx: int, dy: int) returns (painted: bool)
    requires ColoursInGamut(nodes) && m == 1 && dx == 0 && dy == 0
    requires forall x, y :: 0 <= x < image.Length0 && 0 <= y < image.Length1 ==> image[x, y] == Black
    modifies image
    ensures painted <==> AllColoured(nodes)
    ensures painted ==> forall x, y :: 0 <= x < image.Length0 && 0 <= y < image.Length1 ==> image[x, y] == PaintedAt(nodes, x, y)
  {
    for i := 0 to |nodes|
      invariant forall k :: 0 <= k < i ==> nodes[k].color.Some?
      invariant forall x, y :: 0 <= x < image.Length0 && 0 <= y < image.Length1 ==> image[x, y] == PaintedAt(nodes[..i], x, y)
    {
      var node := nodes[i];
      var x, y := node.box.left * m + dx, node.box.top * m + dy;
      var w, h := node.box.Width() * m, node.box.Height() * m;
      if node.color.None? {
        assert !AllColoured(nodes);
        return false;
      }
      FillRect(image, x, y, w, h, ColourValue(node.color.value));
      assert nodes[..i + 1][..i] == nodes[..i];
    }
    assert nodes[..|nodes|] == nodes;
    return true;
  }

  /** PaintNodes passing over the nodes whose colour is null instead of failing. */
  method PaintColouredNodes(image: array2<int>, nodes: seq<Node>, m: int, dx: int, dy: int)
    requires ColoursInGamut(nodes) && m == 1 && dx == 0 && dy == 0
    requires forall x, y :: 0 <= x < image.Length0 && 0 <= y < image.Length1 ==> image[x, y] == Black
    modifies image
    ensures forall x, y :: 0 <= x < image.Length0 && 0 <= y < image.Length1 ==> image[x, y] == PaintedAt(nodes, x, y)
  {
    for i := 0 to |nodes|
      invariant forall x, y :: 0 <= x < image.Length0 && 0 <= y < image.Length1 ==> image[x, y] == PaintedAt(nodes[..i], x, y)
    {
      var node := nodes[i];
      if node.color.Some? {
        var x, y := node.box.left * m + dx, node.box.top * m + dy;
        var w, h := node.box.Width() * m, node.box.Height() * m;
        FillRect(image, x, y, w, h, ColourValue(node.color.value));
      }
      assert nodes[..i + 1][..i] == nodes[..i];
    }
    assert nodes[..|nodes|] == nodes;
  }

  /**
   * getLeafNodesRecursion: appends to the list the node itself when it is a
   * leaf or lies at the requested depth, and otherwise what each child adds.
   */
  method GetLeafNodesRecursion(node: Node, depth: int, leafNodes: seq<Node>) returns (acc: seq<Node>)
    ensures acc == leafNodes + Collect(node, depth)
    decreases node
  {
    if node.isLeaf || node.depth == depth {
      return leafNodes + [node];
    }
    acc := leafNodes;
    if node.children.Four? {
      var children := ChildList(node.children);
      for i := 0 to 4
        invariant acc == leafNodes + CollectAll(children[..i], depth)
      {
        assert children[..i + 1][..i] == children[..i];
        acc := GetLeafNodesRecursion(children[i], depth, acc);
      }
      assert children[..4] == children;
      CollectAllOfFour(children, depth, node);
    }
  }

  /* --- the recorded maximum depth --- */

  /** The running maximum over four children is the maximum with their node's deepest leaf. */
  lemma RunningMaxOfFour(m: int, ns: seq<Node>, n: Node)
    requires |ns| == 4 && !n.isLeaf && n.children == Four(ns[0], ns[1], ns[2], ns[3])
    ensures RunningMax(m, ns) == Max(m, DeepestLeaf(n))
  {
    assert ns[..3][..2] == ns[..2] && ns[..2][..1] == ns[..1] && ns[..1][..0] == [];
    assert RunningMax(m, ns[..1]) == Max(m, DeepestLeaf(ns[0]));
    assert RunningMax(m, ns[..2]) == Max(RunningMax(m, ns[..1]), DeepestLeaf(ns[1]));
    assert RunningMax(m, ns[..3]) == Max(RunningMax(m, ns[..2]), DeepestLeaf(ns[2]));
  }

  /** Collecting below four children in turn is collecting below their node. */
  lemma CollectAllOfFour(ns: seq<Node>, d: int, n: Node)
    requires |ns| == 4 && !(n.isLeaf || n.depth == d) && n.children == Four(ns[0], ns[1], ns[2], ns[3])
    ensures CollectAll(ns, d) == Collect(n, d)
  {
    assert ns[..3][..2] == ns[..2] && ns[..2][..1] == ns[..1] && ns[..1][..0] == [];
    assert CollectAll(ns[..1], d) == Collect(ns[0], d);
    assert CollectAll(ns[..2], d) == CollectAll(ns[..1], d) + Collect(ns[1], d);
    assert CollectAll(ns[..3], d) == CollectAll(ns[..2], d) + Collect(ns[2], d);
  }

  /** In a grown tree no leaf lies above its root: the deepest leaf is at least the root's depth. */
  lemma {:induction false} DeepestLeafAtLeastDepth(n: Node, cap: int)
    requires Grown(n, cap)
    ensures DeepestLeaf(n) >= n.depth
    ensures !n.isLeaf ==> DeepestLeaf(n) > n.depth
  {
    if n.children.Four? {
      DeepestLeafAtLeastDepth(n.children.tl, cap);
    }
  }

  /** Every collected node of a grown tree is as its constructor made it. */
  lemma {:induction false} CollectedAreConstructed(n: Node, cap: int, d: int)
    requires Grown(n, cap)
    ensures ColoursInGamut(Collect(n, d))
    ensures forall k :: 0 <= k < |Collect(n, d)| ==> Constructed(Collect(n, d)[k])
  {
    if !(n.isLeaf || n.depth == d) {
      var c := n.children;
      CollectedAreConstructed(c.tl, cap, d);
      CollectedAreConstructed(c.tr, cap, d);
      CollectedAreConstructed(c.bl, cap, d);
      CollectedAreConstructed(c.br, cap, d);
    }
  }

  /* --- what the collected nodes cover --- */

  /** The number of nodes of ns whose box contains the pixel (x, y). */
  function Covering(ns: seq<Node>, x: int, y: int): nat
  {
    if ns == [] then 0 else Indicator(ns[0].box, x, y) + Covering(ns[1..], x, y)
  }

  lemma {:induction false} CoveringAppend(a: seq<Node>, b: seq<Node>, x: int, y: int)
    ensures Covering(a + b, x, y) == Covering(a, x, y) + Covering(b, x, y)
  {
    if a == [] {
      assert a + b == b;
    } else {
      assert (a + b)[1..] == a[1..] + b;
      CoveringAppend(a[1..], b, x, y);
    }
  }

  /**
   * The nodes collected below a grown node, for any depth, tile its box: every
   * pixel of the box lies in exactly one of them and no other pixel in any.
   */
  lemma {:induction false} CollectPartition(n: Node, cap: int, d: int, x: int, y: int)
    requires Grown(n, cap)
    ensures Covering(Collect(n, d), x, y) == Indicator(n.box, x, y)
  {
    if !(n.isLeaf || n.depth == d) {
      var c := n.children;
      CollectPartition(c.tl, cap, d, x, y);
      CollectPartition(c.tr, cap, d, x, y);
      CollectPartition(c.bl, cap, d, x, y);
      CollectPartition(c.br, cap, d, x, y);
      CoveringAppend(Collect(c.tl, d), Collect(c.tr, d), x, y);
      CoveringAppend(Collect(c.tl, d) + Collect(c.tr, d), Collect(c.bl, d), x, y);
      CoveringAppend(Collect(c.tl, d) + Collect(c.tr, d) + Collect(c.bl, d), Collect(c.br, d), x, y);
      QuadrantsPartition(n.box, x, y);
    }
  }

  lemma {:induction false} CoveringZero(ns: seq<Node>, x: int, y: int)
    requires Covering(ns, x, y) == 0
    ensures forall j :: 0 <= j < |ns| ==> !ns[j].box.Contains(x, y)
  {
    if ns != [] {
      CoveringZero(ns[1..], x, y);
      assert forall j :: 1 <= j < |ns| ==> ns[j] == ns[1..][j - 1];
    }
  }

  /** When exactly one node covers a pixel, its index. */
  lemma {:induction false} CoveringOwner(ns: seq<Node>, x: int, y: int) returns (k: nat)
    requires Covering(ns, x, y) == 1
    ensures k < |ns| && ns[k].box.Contains(x, y)
    ensures forall j :: 0 <= j < |ns| && j != k ==> !ns[j].box.Contains(x, y)
  {
    assert forall j :: 1 <= j < |ns| ==> ns[j] == ns[1..][j - 1];
    if ns[0].box.Contains(x, y) {
      CoveringZero(ns[1..], x, y);
      k := 0;
    } else {
      var k' := CoveringOwner(ns[1..], x, y);
      k := k' + 1;
    }
  }

  /** A pixel no painted node covers stays black. */
  lemma {:induction false} PaintedAtUncovered(ns: seq<Node>, x: int, y: int)
    requires ColoursInGamut(ns)
    requires forall j :: 0 <= j < |ns| ==> !ns[j].box.Contains(x, y)
    ensures PaintedAt(ns, x, y) == Black
  {
    if ns != [] {
      PaintedAtUncovered(ns[..|ns| - 1], x, y);
    }
  }

  /** A pixel covered by exactly one node takes that node's colour, or stays black when it has none. */
  lemma {:induction false} PaintedAtOwner(ns: seq<Node>, x: int, y: int, k: nat)
    requires ColoursInGamut(ns) && k < |ns| && ns[k].box.Contains(x, y)
    requires forall j :: 0 <= j < |ns| && j != k ==> !ns[j].box.Contains(x, y)
    ensures PaintedAt(ns, x, y) == if ns[k].color.Some? then ColourValue(ns[k].color.value) else Black
  {
    var n := |ns| - 1;
    if k == n {
      if ns[k].color.None? {
        PaintedAtUncovered(ns[..n], x, y);
      }
    } else {
      PaintedAtOwner(ns[..n], x, y, k);
    }
  }

  /**
   * Rendering a grown tree at any depth gives every pixel of the root's box
   * the colour of the single collected node whose box contains it.
   */
  lemma RenderedPixel(n: Node, cap: int, d: int, x: int, y: int) returns (k: nat)
    requires Grown(n, cap) && n.box.Contains(x, y)
    ensures var ns := Collect(n, d);
      && ColoursInGamut(ns)
      && k < |ns| && ns[k].box.Contains(x, y) && ns[k].color.Some?
      && (forall j :: 0 <= j < |ns| && j != k ==> !ns[j].box.Contains(x, y))
      && PaintedAt(ns, x, y) == ColourValue(ns[k].color.value)
  {
    var ns := Collect(n, d);
    CollectPartition(n, cap, d, x, y);
    k := CoveringOwner(ns, x, y);
    CollectedAreConstructed(n, cap, d);
    PaintedAtOwner(ns, x, y, k);
  }

  /** Rendering leaves every pixel outside the root's box black. */
  lemma RenderedOutside(n: Node, cap: int, d: int, x: int, y: int)
    requires Grown(n, cap) && !n.box.Contains(x, y)
    ensures ColoursInGamut(Collect(n, d)) && PaintedAt(Collect(n, d), x, y) == Black
  {
    CollectPartition(n, cap, d, x, y);
    CoveringZero(Collect(n, d), x, y);
    CollectedAreConstructed(n, cap, d);
    PaintedAtUncovered(Collect(n, d), x, y);
  }

  /** Rendering at the root's own depth paints the whole box in the root's colour. */
  lemma RenderAtRootDepth(n: Node, cap: int, x: int, y: int)
    requires Grown(n, cap) && n.box.Contains(x, y)
    ensures n.color.Some? && ColoursInGamut(Collect(n, n.depth))
    ensures PaintedAt(Collect(n, n.depth), x, y) == ColourValue(n.color.value)
  {
    var k := RenderedPixel(n, cap, n.depth, x, y);
  }

  /* --- depths --- */

  /**
   * From a node at depth at most d, every collected node lies between the
   * node's depth and d, and is a leaf or lies exactly at d.
   */
  lemma {:induction false} CollectDepths(n: Node, cap: int, d: int)
    requires Grown(n, cap) && n.depth <= d
    ensures forall m :: m in Collect(n, d) ==> n.depth <= m.depth <= d && (m.isLeaf || m.depth == d)
  {
    if !(n.isLeaf || n.depth == d) {
      var c := n.children;
      CollectDepths(c.tl, cap, d);
      CollectDepths(c.tr, cap, d);
      CollectDepths(c.bl, cap, d);
      CollectDepths(c.br, cap, d);
    }
  }

  /** No grown tree has a leaf deeper than the cap, unless its root already is. */
  lemma {:induction false} DeepestLeafBound(n: Node, cap: int)
    requires Grown(n, cap)
    ensures DeepestLeaf(n) <= Max(n.depth, cap)
  {
    if !n.isLeaf {
      var c := n.children;
      DeepestLeafBound(c.tl, cap);
      DeepestLeafBound(c.tr, cap);
      DeepestLeafBound(c.bl, cap);
      DeepestLeafBound(c.br, cap);
    }
  }

  /** Every leaf below n is at most DeepestLeaf(n) deep. */
  lemma {:induction false} LeavesNoDeeper(n: Node, cap: int)
    requires Grown(n, cap)
    ensures forall m :: m in Leaves(n) ==> m.isLeaf && m.depth <= DeepestLeaf(n)
  {
    if !n.isLeaf {
      var c := n.children;
      LeavesNoDeeper(c.tl, cap);
      LeavesNoDeeper(c.tr, cap);
      LeavesNoDeeper(c.bl, cap);
      LeavesNoDeeper(c.br, cap);
    }
  }

  /** Some leaf below n is exactly DeepestLeaf(n) deep. */
  lemma {:induction false} DeepestLeafAttained(n: Node, cap: int) returns (leaf: Node)
    requires Grown(n, cap)
    ensures leaf in Leaves(n) && leaf.depth == DeepestLeaf(n)
  {
    if n.isLeaf {
      leaf := n;
    } else {
      var c := n.children;
      var m := DeepestLeaf(n);
      if m == DeepestLeaf(c.tl) {
        leaf := DeepestLeafAttained(c.tl, cap);
      } else if m == DeepestLeaf(c.tr) {
        leaf := DeepestLeafAttained(c.tr, cap);
      } else if m == DeepestLeaf(c.bl) {
        leaf := DeepestLeafAttained(c.bl, cap);
      } else {
        leaf := DeepestLeafAttained(c.br, cap);
      }
    }
  }

  /**
   * Asked for a depth at or beyond the deepest leaf, or above the node's own
   * depth, the collection is exactly the leaves.
   */
  lemma {:induction false} CollectAllLeaves(n: Node, cap: int, d: int)
    requires Grown(n, cap) && (d >= DeepestLeaf(n) || d < n.depth)
    ensures Collect(n, d) == Leaves(n)
  {
    if !n.isLeaf {
      DeepestLeafAtLeastDepth(n, cap);
      var c := n.children;
      CollectAllLeaves(c.tl, cap, d);
      CollectAllLeaves(c.tr, cap, d);
      CollectAllLeaves(c.bl, cap, d);
      CollectAllLeaves(c.br, cap, d);
    }
  }

  /**
   * A split node one pixel wide or high has a first child whose box holds
   * no pixel, hence no colour; that child is a leaf and comes first in the
   * collection for every depth other than the node's own, so
   * createImageFromDepth throws there.
   */
  lemma ThinSplitCollectsUncoloured(n: Node, cap: int, d: int)
    requires Grown(n, cap) && !n.isLeaf && (n.box.Width() == 1 || n.box.Height() == 1) && d != n.depth
    ensures |Collect(n, d)| > 0 && Collect(n, d)[0].color.None?
    ensures !AllColoured(Collect(n, d))
  {
    ThinBoxHasEmptyQuarters(n.box);
    var tl := n.children.tl;
    assert ChildrenGrown(n, cap) && Grown(tl, cap);
    assert tl.isLeaf && Collect(tl, d) == [tl];
  }

  /** A tree over a uniform window is a single leaf at depth 0. */
  lemma UniformTreeIsLeaf(n: Node, cap: int, image: View, p: int, sqrt: real -> real)
    requires image.Valid() && Grown(n, cap) && Estimated(n, image, sqrt)
    requires n.box == Box(0, 0, image.width, image.height) && image.width > 0 && image.height > 0
    requires Uniform(image, p) && sqrt(0.0) == 0.0
    ensures n.isLeaf && DeepestLeaf(n) == n.depth
  {
    var w := Window(image, n.box);
    assert Uniform(w, p) by {
      forall x, y | 0 <= x < w.width && 0 <= y < w.height
        ensures w.GetRGB(x, y) == p
      {
        assert w.GetRGB(x, y) == image.GetRGB(x, y);
      }
    }
    UniformRegionEstimate(w, p, sqrt);
    assert n.error == RegionEstimate(w, sqrt).error;
  }
}
