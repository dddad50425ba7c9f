/**
 * Integer rectangles (RectT<int>): edges, the inclusive inside test,
 * overlap, bounding box, clipping and the edge alignments.
 */
module Shapes {
  import opened Wrappers
  import opened BasicMath

  /** RectT<int>: top-left corner (x, y), width w and height h. */
  datatype Rect = Rect(x: int, y: int, w: int, h: int)
  {
    function MinX(): int { x }
    function MaxX(): int { x + w }
    function MinY(): int { y }
    function MaxY(): int { y + h }
  }

  /** is_inside_rect: in_range on both axes, so both edges count as inside. */
  function IsInsideRect(r: Rect, px: int, py: int): (inside: bool)
    ensures inside <==> r.MinX() <= px <= r.MaxX() && r.MinY() <= py <= r.MaxY()
  {
    if !InRange(px, r.x, r.x + r.w) then false
    else if !InRange(py, r.y, r.y + r.h) then false
    else true
  }

  /** The unit cell with top-left corner (px, py) lies in r. */
  predicate CoversCell(r: Rect, px: int, py: int)
  {
    r.MinX() <= px < r.MaxX() && r.MinY() <= py < r.MaxY()
  }

  /** Positive width and height, as is_overlap asserts. */
  predicate HasPositiveSize(r: Rect)
  {
    r.w > 0 && r.h > 0
  }

  /** The negation of is_overlap's result: separated along some axis. */
  predicate Separated(a: Rect, b: Rect)
  {
    a.MinX() >= b.MaxX() || b.MinX() >= a.MaxX() || a.MinY() >= b.MaxY() || b.MinY() >= a.MaxY()
  }

  /** is_overlap: rectangles that only touch along an edge do not overlap. */
  function IsOverlap(a: Rect, b: Rect): (overlap: bool)
    requires HasPositiveSize(a) && HasPositiveSize(b)
    ensures overlap <==> exists px, py :: CoversCell(a, px, py) && CoversCell(b, px, py)
  {
    if a.MinX() >= b.MaxX() || b.MinX() >= a.MaxX() then
      SeparatedHasNoCommonCell(a, b);
      false
    else if a.MinY() >= b.MaxY() || b.MinY() >= a.MaxY() then
      SeparatedHasNoCommonCell(a, b);
      false
    else
      assert CoversCell(a, Max(a.x, b.x), Max(a.y, b.y));
      assert CoversCell(b, Max(a.x, b.x), Max(a.y, b.y));
      true
  }

  /** Overlap does not depend on the order of the arguments. */
  lemma IsOverlapSymmetric(a: Rect, b: Rect)
    requires HasPositiveSize(a) && HasPositiveSize(b)
    ensures IsOverlap(a, b) == IsOverlap(b, a)
  {
  }

  lemma SeparatedHasNoCommonCell(a: Rect, b: Rect)
    requires Separated(a, b)
    ensures forall px, py :: !(CoversCell(a, px, py) && CoversCell(b, px, py))
  {
  }

  /** get_bounding_rect: spans from the smaller min edges to the larger max edges. */
  function GetBoundingRect(a: Rect, b: Rect): (r: Rect)
    ensures r.MinX() == Min(a.MinX(), b.MinX()) && r.MaxX() == Max(a.MaxX(), b.MaxX())
    ensures r.MinY() == Min(a.MinY(), b.MinY()) && r.MaxY() == Max(a.MaxY(), b.MaxY())
  {
    var minX := Min(a.MinX(), b.MinX());
    var minY := Min(a.MinY(), b.MinY());
    var maxX := Max(a.MaxX(), b.MaxX());
    var maxY := Max(a.MaxY(), b.MaxY());
    Rect(minX, minY, maxX - minX, maxY - minY)
  }

  /** r lies within outer (edges may coincide). */
  predicate Contains(outer: Rect, r: Rect)
  {
    outer.MinX() <= r.MinX() && r.MaxX() <= outer.MaxX() &&
    outer.MinY() <= r.MinY() && r.MaxY() <= outer.MaxY()
  }

  /**
   * The bounding rectangle contains both inputs (of non-negative size), and
   * every rectangle containing both contains it.
   */
  lemma BoundingRectIsSmallest(a: Rect, b: Rect, c: Rect)
    requires a.w >= 0 && a.h >= 0 && b.w >= 0 && b.h >= 0
    ensures Contains(GetBoundingRect(a, b), a) && Contains(GetBoundingRect(a, b), b)
    ensures Contains(c, a) && Contains(c, b) ==> Contains(c, GetBoundingRect(a, b))
  {
  }

  /**
   * align_rect_edge_x: moves rect along x so that its left edge (or right
   * edge, when rectLeftSide) lands on the stationary rectangle's left edge
   * (or right edge).
   */
  function AlignRectEdgeX(rect: Rect, stationary: Rect, rectLeftSide: bool, stationaryLeftSide: bool): (r: Rect)
    ensures r.y == rect.y && r.w == rect.w && r.h == rect.h
    ensures (if rectLeftSide then r.MaxX() else r.MinX()) ==
      (if stationaryLeftSide then stationary.MinX() else stationary.MaxX())
  {
    var moved := if stationaryLeftSide then rect.(x := stationary.x) else rect.(x := stationary.x + stationary.w);
    if rectLeftSide then moved.(x := moved.x - moved.w) else moved
  }

  /** align_rect_edge_y: the same along y, "top" meaning the smaller y. */
  function AlignRectEdgeY(rect: Rect, stationary: Rect, rectTopSide: bool, stationaryTopSide: bool): (r: Rect)
    ensures r.x == rect.x && r.w == rect.w && r.h == rect.h
    ensures (if rectTopSide then r.MaxY() else r.MinY()) ==
      (if stationaryTopSide then stationary.MinY() else stationary.MaxY())
  {
    var moved := if stationaryTopSide then rect.(y := stationary.y) else rect.(y := stationary.y + stationary.h);
    if rectTopSide then moved.(y := moved.y - moved.h) else moved
  }

  /** cut_rect_to_fit: the edges become those of the intersection with the boundary. */
  function CutRectToFit(rect: Rect, boundary: Rect): (r: Rect)
    ensures r.MinX() == Max(rect.MinX(), boundary.MinX()) && r.MaxX() == Min(rect.MaxX(), boundary.MaxX())
    ensures r.MinY() == Max(rect.MinY(), boundary.MinY()) && r.MaxY() == Min(rect.MaxY(), boundary.MaxY())
  {
    var minX := Max(rect.MinX(), boundary.MinX());
    var maxX := Min(rect.MaxX(), boundary.MaxX());
    var minY := Max(rect.MinY(), boundary.MinY());
    var maxY := Min(rect.MaxY(), boundary.MaxY());
    Rect(minX, minY, maxX - minX, maxY - minY)
  }

  /** A rectangle already inside the boundary is left as it is. */
  lemma CutRectToFitInside(rect: Rect, boundary: Rect)
    requires Contains(boundary, rect)
    ensures CutRectToFit(rect, boundary) == rect
  {
  }

  /** Cutting twice is cutting once. */
  lemma CutRectToFitIdempotent(rect: Rect, boundary: Rect)
    ensures CutRectToFit(CutRectToFit(rect, boundary), boundary) == CutRectToFit(rect, boundary)
  {
  }

  /** A cut rectangle with non-negative size lies inside the boundary. */
  lemma CutRectToFitContained(rect: Rect, boundary: Rect)
    requires CutRectToFit(rect, boundary).w >= 0 && CutRectToFit(rect, boundary).h >= 0
    ensures Contains(boundary, CutRectToFit(rect, boundary))
  {
  }

  /** RectAlignment: which side of the stationary rectangle, and which edge to line up with. */
  datatype RectAlignment =
    | LeftAlignTop | LeftAlignMiddleH | LeftAlignBottom
    | RightAlignTop | RightAlignMiddleH | RightAlignBottom
    | TopAlignLeft | TopAlignMiddleW | TopAlignRight
    | BottomAlignLeft | BottomAlignMiddleW | BottomAlignRight
    | Middle | NoAlignment | CopyPosition

  /** The alignments align_rect does not implement (it throws). */
  predicate IsMiddleAlignment(a: RectAlignment)
  {
    a.LeftAlignMiddleH? || a.RightAlignMiddleH? || a.TopAlignMiddleW? || a.BottomAlignMiddleW? || a.Middle?
  }

  /**
   * align_rect: places rect beside the stationary rectangle.
   * LEFT_* puts it to the left (its right edge on the stationary left edge),
   * RIGHT_* to the right, TOP_* above, BOTTOM_* below; the second word picks
   * the edge lined up on the other axis. COPY_POSITION copies the whole
   * stationary rectangle, NO_ALIGNMENT keeps rect, the middle ones throw.
   */
  function AlignRect(rect: Rect, stationary: Rect, alignment: RectAlignment): (r: Result<Rect>)
    ensures r.Failure? <==> IsMiddleAlignment(alignment)
    ensures r.Success? && !alignment.CopyPosition? ==> r.value.w == rect.w && r.value.h == rect.h
    ensures r.Success? && alignment.CopyPosition? ==> r.value == stationary
    ensures r.Success? && alignment.NoAlignment? ==> r.value == rect
    ensures r.Success? && (alignment.LeftAlignTop? || alignment.LeftAlignBottom?) ==> r.value.MaxX() == stationary.MinX()
    ensures r.Success? && (alignment.RightAlignTop? || alignment.RightAlignBottom?) ==> r.value.MinX() == stationary.MaxX()
    ensures r.Success? && (alignment.TopAlignLeft? || alignment.TopAlignRight?) ==> r.value.MaxY() == stationary.MinY()
    ensures r.Success? && (alignment.BottomAlignLeft? || alignment.BottomAlignRight?) ==> r.value.MinY() == stationary.MaxY()
    ensures r.Success? && (alignment.LeftAlignTop? || alignment.RightAlignTop?) ==> r.value.MinY() == stationary.MinY()
    ensures r.Success? && (alignment.LeftAlignBottom? || alignment.RightAlignBottom?) ==> r.value.MaxY() == stationary.MaxY()
    ensures r.Success? && (alignment.TopAlignLeft? || alignment.BottomAlignLeft?) ==> r.value.MinX() == stationary.MinX()
    ensures r.Success? && (alignment.TopAlignRight? || alignment.BottomAlignRight?) ==> r.value.MaxX() == stationary.MaxX()
  {
    match alignment
    case LeftAlignTop => Success(AlignRectEdgeY(AlignRectEdgeX(rect, stationary, true, true), stationary, false, true))
    case LeftAlignBottom => Success(AlignRectEdgeY(AlignRectEdgeX(rect, stationary, true, true), stationary, true, false))
    case RightAlignTop => Success(AlignRectEdgeY(AlignRectEdgeX(rect, stationary, false, false), stationary, false, true))
    case RightAlignBottom => Success(AlignRectEdgeY(AlignRectEdgeX(rect, stationary, false, false), stationary, true, false))
    case TopAlignLeft => Success(AlignRectEdgeY(AlignRectEdgeX(rect, stationary, false, true), stationary, true, true))
    case TopAlignRight => Success(AlignRectEdgeY(AlignRectEdgeX(rect, stationary, true, false), stationary, true, true))
    case BottomAlignLeft => Success(AlignRectEdgeY(AlignRectEdgeX(rect, stationary, false, true), stationary, false, false))
    case BottomAlignRight => Success(AlignRectEdgeY(AlignRectEdgeX(rect, stationary, true, false), stationary, false, false))
    case NoAlignment => Success(rect)
    case CopyPosition => Success(stationary)
    case _ => Failure("not implemented")
  }

  /** Beside-placements of positive-size rectangles never overlap the stationary one. */
  lemma AlignedBesideDoesNotOverlap(rect: Rect, stationary: Rect, alignment: RectAlignment)
    requires HasPositiveSize(rect) && HasPositiveSize(stationary)
    requires !IsMiddleAlignment(alignment) && !alignment.NoAlignment? && !alignment.CopyPosition?
    ensures !IsOverlap(AlignRect(rect, stationary, alignment).value, stationary)
  {
  }
}
