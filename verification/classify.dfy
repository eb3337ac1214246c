/** The shape classifiers of `SVGProcessor`: pad overlap, mounting holes,
    corner pads and concentric circles. The board is given by its box. */
module Classify {
  import opened Wrappers
  import opened Svg
  import opened Geometry

  /** The slack `_is_overlap` allows before two boxes count as overlapping. */
  const OverlapTolerance: real := 0.1

  /** `_is_overlap`: the boxes, each shrunk by the tolerance against the
      other, still intersect on both axes. */
  predicate IsOverlap(a: Box, b: Box) {
    && a.x < b.x + b.w - OverlapTolerance
    && a.x + a.w > b.x + OverlapTolerance
    && a.y < b.y + b.h - OverlapTolerance
    && a.y + a.h > b.y + OverlapTolerance
  }

  /** Overlap does not depend on the order of the boxes. */
  lemma OverlapSymmetric(a: Box, b: Box)
    ensures IsOverlap(a, b) <==> IsOverlap(b, a)
  {
  }

  /** Boxes that are apart along either axis, or that touch only within the
      tolerance, do not overlap. */
  lemma SeparatedNoOverlap(a: Box, b: Box)
    requires a.x + a.w <= b.x + OverlapTolerance || b.x + b.w <= a.x + OverlapTolerance ||
             a.y + a.h <= b.y + OverlapTolerance || b.y + b.h <= a.y + OverlapTolerance
    ensures !IsOverlap(a, b)
  {
  }

  /** A box overlaps itself exactly when both sides exceed the tolerance. */
  lemma SelfOverlap(a: Box)
    ensures IsOverlap(a, a) <==> a.w > OverlapTolerance && a.h > OverlapTolerance
  {
  }

  // ---------------------------------------------------------------------
  // Mounting holes
  // ---------------------------------------------------------------------

  /** A circle needs a radius above this to be a mounting hole. */
  const HoleMinRadius: real := 1.0

  /** The share of the board, from each edge, that `_is_mounting_hole`
      treats as near that edge. */
  const HoleBand: real := 0.25

  /** Whether the point lies in one of the four corner zones of `board`,
      each band being `band` of the board's size wide, measured from the
      low edge and from the high edge with strict comparisons. */
  predicate InCorner(board: Box, band: real, px: real, py: real) {
    var nearLeft := px < board.x + board.w * band;
    var nearRight := px > board.x + board.w - board.w * band;
    var nearTop := py < board.y + board.h * band;
    var nearBottom := py > board.y + board.h - board.h * band;
    (nearLeft || nearRight) && (nearTop || nearBottom)
  }

  /** `_is_mounting_hole` on a shape. */
  predicate IsMountingHoleShape(s: Shape, board: Box) {
    s.Circle? && s.r > HoleMinRadius && InCorner(board, HoleBand, s.cx, s.cy)
  }

  /** `_is_mounting_hole`: a circle of radius above 1 whose center lies in
      one of the four 25% corner zones of the board. */
  predicate IsMountingHole(e: Node, board: Box) {
    IsMountingHoleShape(ShapeOf(e), board)
  }

  /** What excludes a mounting hole: anything but a circle, a radius of at
      most 1, or a center in the middle half of the board on either axis. */
  lemma MountingHoleExclusions(e: Node, board: Box)
    requires !ShapeOf(e).Circle? || ShapeOf(e).r <= 1.0 ||
             (board.x + 0.25 * board.w <= ShapeOf(e).cx <= board.x + 0.75 * board.w) ||
             (board.y + 0.25 * board.h <= ShapeOf(e).cy <= board.y + 0.75 * board.h)
    ensures !IsMountingHole(e, board)
  {
  }

  /** The corner zones are symmetric: reflecting a point through the board's
      center line on either axis keeps it in or out of them. */
  lemma InCornerMirror(board: Box, band: real, px: real, py: real)
    ensures InCorner(board, band, px, py) <==> InCorner(board, band, 2.0 * board.x + board.w - px, py)
    ensures InCorner(board, band, px, py) <==> InCorner(board, band, px, 2.0 * board.y + board.h - py)
  {
  }

  /** Mirroring the board top to bottom, as the bottom side is drawn, does
      not change which circles are mounting holes. */
  lemma MountingHoleMirror(s: Shape, board: Box)
    requires s.Circle?
    ensures IsMountingHoleShape(s, board) <==>
            IsMountingHoleShape(s.(cy := 2.0 * board.y + board.h - s.cy), board)
  {
    InCornerMirror(board, HoleBand, s.cx, s.cy);
  }

  // ---------------------------------------------------------------------
  // Corner pads
  // ---------------------------------------------------------------------

  /** The share of the board from each edge that `_is_near_corner` uses. */
  const CornerBand: real := 0.2

  /** Circles smaller than this are never corner pads. */
  const CornerMinRadius: real := 2.0

  /** The point `_is_near_corner` tests for a shape: the center of a circle
      of radius at least 2, the center of a rect's box or of a path's box;
      None when the shape is never a corner pad. */
  function CornerProbe(s: Shape): (r: Option<(real, real)>)
    ensures s.Circle? ==> (r.Some? <==> s.r >= CornerMinRadius)
    ensures s.Rect? ==> r == Some((s.x + s.w / 2.0, s.y + s.h / 2.0))
    ensures s.Path? ==> (r.Some? <==> |s.coords| >= 2)
    ensures s.Other? ==> r.None?
    ensures r.Some? && !s.Circle? ==> r.value == (CenterX(ShapeBox(s).value), CenterY(ShapeBox(s).value))
  {
    match s
    case Circle(cx, cy, rad) => if rad < CornerMinRadius then None else Some((cx, cy))
    case Rect(x, y, w, h) => Some((x + w / 2.0, y + h / 2.0))
    case Path(cs) =>
      if PathBBox(cs).None? then None
      else Some((CenterX(PathBBox(cs).value), CenterY(PathBBox(cs).value)))
    case Other => None
  }

  /** `_is_near_corner` on a shape. */
  predicate IsNearCornerShape(s: Shape, board: Box) {
    var p := CornerProbe(s);
    p.Some? && InCorner20(board, p.value.0, p.value.1)
  }

  /** The corner zones of `_is_near_corner`: the high bands are measured as
      `x_min + width * (1 - 0.2)`. */
  predicate InCorner20(board: Box, px: real, py: real) {
    var nearLeft := px < board.x + board.w * CornerBand;
    var nearRight := px > board.x + board.w * (1.0 - CornerBand);
    var nearTop := py < board.y + board.h * CornerBand;
    var nearBottom := py > board.y + board.h * (1.0 - CornerBand);
    (nearLeft || nearRight) && (nearTop || nearBottom)
  }

  /** `_is_near_corner`. */
  predicate IsNearCorner(e: Node, board: Box) {
    IsNearCornerShape(ShapeOf(e), board)
  }

  /** On a board of non-negative size the 20% zones lie inside the 25%
      zones, so a circle near a corner is also a mounting hole. */
  lemma NearCornerCircleIsHole(s: Shape, board: Box)
    requires board.w >= 0.0 && board.h >= 0.0
    requires s.Circle? && IsNearCornerShape(s, board)
    ensures IsMountingHoleShape(s, board)
  {
  }

  /** A circle of radius below 2 is never a corner pad, wherever it lies. */
  lemma SmallCircleNotCorner(s: Shape, board: Box)
    requires s.Circle? && s.r < CornerMinRadius
    ensures !IsNearCornerShape(s, board)
  {
  }

  // ---------------------------------------------------------------------
  // Concentric circles
  // ---------------------------------------------------------------------

  /** The default distance of `_has_inner_circle_nearby`. */
  const InnerTolerance: real := 0.5

  /** `other` is a smaller circle whose center lies within `tol` of the
      center of `s`; the distance test is done on squares. */
  predicate InnerNear(s: Shape, other: Node, tol: real)
    requires s.Circle?
  {
    var dx := s.cx - NumAttr(other, "cx");
    var dy := s.cy - NumAttr(other, "cy");
    dx * dx + dy * dy <= tol * tol && NumAttr(other, "r") < s.r
  }

  /** `_has_inner_circle_nearby` with the default tolerance. `self` is the
      position of the tested element itself in `circles`, if it is there;
      that position is skipped, others are compared whatever their values. */
  method HasInnerCircleNearby(e: Node, circles: seq<Node>, self: Option<nat>) returns (b: bool)
    ensures !ShapeOf(e).Circle? ==> !b
    ensures ShapeOf(e).Circle? ==>
              (b <==> exists j :: 0 <= j < |circles| && self != Some(j) && InnerNear(ShapeOf(e), circles[j], InnerTolerance))
  {
    var s := ShapeOf(e);
    if !s.Circle? {
      return false;
    }
    var i := 0;
    while i < |circles|
      invariant 0 <= i <= |circles|
      invariant forall j :: 0 <= j < i && self != Some(j) ==> !InnerNear(s, circles[j], InnerTolerance)
    {
      if self != Some(i) && InnerNear(s, circles[i], InnerTolerance) {
        return true;
      }
      i := i + 1;
    }
    return false;
  }

  /** Skipping the element itself makes no difference: a circle is never
      strictly smaller than itself. */
  lemma SelfNeverInner(e: Node)
    requires ShapeOf(e).Circle?
    ensures !InnerNear(ShapeOf(e), e, InnerTolerance)
  {
  }
}
