/**
 * Rectangular regions {left, top, right, bottom} and the quadrant split of
 * QuadtreeNode.split.
 */
module Region {

  /** A node's box: the half-open pixel rectangle [left, right) x [top, bottom). */
  datatype Box = Box(left: int, top: int, right: int, bottom: int)
  {
    function Width(): int { right - left }

    function Height(): int { bottom - top }

    predicate WellFormed() { left <= right && top <= bottom }

    predicate Contains(x: int, y: int) { left <= x < right && top <= y < bottom }

    predicate Empty() { Width() <= 0 || Height() <= 0 }
  }

  /** Java's int division by a positive divisor, which truncates toward zero. */
  function JavaDiv(a: int, d: int): int
    requires d > 0
  {
    if a >= 0 then a / d else -((-a) / d)
  }

  /** The four boxes of split, in the order of its children array. */
  datatype Quarters = Quarters(tl: Box, tr: Box, bl: Box, br: Box)

  /**
   * split's boxes around lr = left + (right - left) / 2 and
   * tb = top + (bottom - top) / 2; the casts through double are exact.
   */
  function Quadrants(b: Box): Quarters
  {
    var lr := b.left + JavaDiv(b.right - b.left, 2);
    var tb := b.top + JavaDiv(b.bottom - b.top, 2);
    Quarters(Box(b.left, b.top, lr, tb), Box(lr, b.top, b.right, tb),
             Box(b.left, tb, lr, b.bottom), Box(lr, tb, b.right, b.bottom))
  }

  /** 1 when the box contains the pixel (x, y), 0 otherwise. */
  function Indicator(b: Box, x: int, y: int): nat
  {
    if b.Contains(x, y) then 1 else 0
  }

  /**
   * The split of a well-formed box is exact: every pixel of the parent lies in
   * exactly one quarter and no pixel outside it lies in any.
   */
  lemma QuadrantsPartition(b: Box, x: int, y: int)
    requires b.WellFormed()
    ensures var q := Quadrants(b);
      Indicator(q.tl, x, y) + Indicator(q.tr, x, y) + Indicator(q.bl, x, y) + Indicator(q.br, x, y) == Indicator(b, x, y)
  {
  }

  /**
   * The quarters are well formed; the left and top ones take the floor of half
   * the width and height, so the right and bottom ones absorb an odd remainder.
   */
  lemma QuadrantsShape(b: Box)
    requires b.WellFormed()
    ensures var q := Quadrants(b);
      && q.tl.WellFormed() && q.tr.WellFormed() && q.bl.WellFormed() && q.br.WellFormed()
      && q.tl.Width() == q.bl.Width() == b.Width() / 2
      && q.tr.Width() == q.br.Width() == b.Width() - b.Width() / 2
      && q.tl.Height() == q.tr.Height() == b.Height() / 2
      && q.bl.Height() == q.br.Height() == b.Height() - b.Height() / 2
  {
  }

  /**
   * A box one pixel wide splits into two quarters with no pixel, the left
   * ones; a box one pixel high likewise, the top ones.
   */
  lemma ThinBoxHasEmptyQuarters(b: Box)
    requires b.WellFormed() && (b.Width() == 1 || b.Height() == 1)
    ensures Quadrants(b).tl.Empty()
    ensures b.Width() == 1 ==> Quadrants(b).bl.Empty() && !Quadrants(b).tr.Empty() == (b.Height() > 1)
    ensures b.Height() == 1 ==> Quadrants(b).tr.Empty() && !Quadrants(b).bl.Empty() == (b.Width() > 1)
  {
  }

}
