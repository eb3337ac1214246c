/** The coordinate frames of `combine_all_layers`: SVG transform lists, the
    view window with its landscape rotation, the mirror of the bottom side,
    and which layer files a side draws. */
module Transform {
  import opened Geometry

  datatype Point = Point(x: real, y: real)

  /** The cosine and sine of an angle. */
  datatype Turn = Turn(cos: real, sin: real)

  /** SVG transform functions; angles are in degrees. */
  datatype Xf =
    | Translate(tx: real, ty: real)
    | Rotate(deg: real, cx: real, cy: real)
    | Scale(sx: real, sy: real)

  /** The renderer's trigonometry is a parameter `trig`, taking degrees to
      a `Turn`. The proofs only need it exact on the quarter turns the
      program uses. */
  predicate ExactQuarterTurns(trig: real -> Turn) {
    && trig(0.0) == Turn(1.0, 0.0)
    && trig(-90.0) == Turn(0.0, -1.0)
    && trig(180.0) == Turn(-1.0, 0.0)
  }

  /** One transform function applied to a point, as SVG defines it:
      `rotate(a, cx, cy)` turns about `(cx, cy)`, with y pointing down. */
  function Apply(trig: real -> Turn, t: Xf, p: Point): Point {
    match t
    case Translate(tx, ty) => Point(p.x + tx, p.y + ty)
    case Rotate(deg, cx, cy) =>
      var c := trig(deg);
      var dx := p.x - cx;
      var dy := p.y - cy;
      Point(cx + c.cos * dx - c.sin * dy, cy + c.sin * dx + c.cos * dy)
    case Scale(sx, sy) => Point(sx * p.x, sy * p.y)
  }

  /** A `transform` attribute listing several functions applies the
      rightmost one first. */
  function ApplyList(trig: real -> Turn, xs: seq<Xf>, p: Point): Point
    decreases |xs|
  {
    if xs == [] then p else Apply(trig, xs[0], ApplyList(trig, xs[1..], p))
  }

  /** Nesting a group with list `b` inside one with list `a` is the same as
      one group with `a` followed by `b`. */
  lemma {:induction false} ApplyListAppend(trig: real -> Turn, a: seq<Xf>, b: seq<Xf>, p: Point)
    ensures ApplyList(trig, a + b, p) == ApplyList(trig, a, ApplyList(trig, b, p))
    decreases |a|
  {
    if a == [] {
      assert a + b == b;
    } else {
      assert (a + b)[0] == a[0];
      assert (a + b)[1..] == a[1..] + b;
      ApplyListAppend(trig, a[1..], b, p);
    }
  }

  /** A rotation leaves its own center where it is. */
  lemma RotateFixesCenter(trig: real -> Turn, deg: real, cx: real, cy: real)
    ensures Apply(trig, Rotate(deg, cx, cy), Point(cx, cy)) == Point(cx, cy)
  {
  }

  /** The point lies in the closed box. */
  predicate Inside(b: Box, p: Point) {
    b.x <= p.x <= b.x + b.w && b.y <= p.y <= b.y + b.h
  }

  // ---------------------------------------------------------------------
  // The view window
  // ---------------------------------------------------------------------

  /** The margin around the board inside the view window. */
  const Padding: real := 2.0

  /** The output frame: the `viewBox` and the transform list of the main
      group, which is empty unless the board is turned to portrait. */
  datatype Frame = Frame(view: Box, landscape: bool, turn: seq<Xf>)

  /** The view window of `combine_all_layers`. A board wider than it is
      tall is turned by -90 degrees about its center and the window is
      sized for the turned board. */
  function ViewFrame(board: Box): (r: Frame)
    ensures r.landscape <==> board.w > board.h
    ensures r.landscape ==> r.view.w == board.h + 2.0 * Padding && r.view.h == board.w + 2.0 * Padding
    ensures !r.landscape ==> r.view.w == board.w + 2.0 * Padding && r.view.h == board.h + 2.0 * Padding
    ensures CenterX(r.view) == CenterX(board) && CenterY(r.view) == CenterY(board)
  {
    var landscape := board.w > board.h;
    if landscape then
      var cx := board.x + board.w / 2.0;
      var cy := board.y + board.h / 2.0;
      var newX := cx - board.h / 2.0;
      var newY := cy - board.w / 2.0;
      Frame(Box(newX - Padding, newY - Padding, board.h + Padding * 2.0, board.w + Padding * 2.0),
            true, [Rotate(-90.0, cx, cy)])
    else
      Frame(Box(board.x - Padding, board.y - Padding, board.w + Padding * 2.0, board.h + Padding * 2.0),
            false, [])
  }

  /** The box `b` with `pad` taken off every side. */
  function Shrink(b: Box, pad: real): Box {
    Box(b.x + pad, b.y + pad, b.w - 2.0 * pad, b.h - 2.0 * pad)
  }

  /** Drawn through the main group, the board fills the view window up to
      the padding exactly: a point is on the board if and only if its image
      lies in the window with the padding taken off. */
  lemma FrameFitsBoard(trig: real -> Turn, board: Box, p: Point)
    requires ExactQuarterTurns(trig)
    ensures var f := ViewFrame(board);
            Inside(board, p) <==> Inside(Shrink(f.view, Padding), ApplyList(trig, f.turn, p))
  {
    var f := ViewFrame(board);
    if f.landscape {
      assert ApplyList(trig, f.turn, p) == Apply(trig, f.turn[0], p);
    }
  }

  /** The turned image of the board's center is the center. */
  lemma FrameKeepsCenter(trig: real -> Turn, board: Box)
    ensures var f := ViewFrame(board);
            var c := Point(CenterX(board), CenterY(board));
            ApplyList(trig, f.turn, c) == c
  {
    var f := ViewFrame(board);
    if f.landscape {
      RotateFixesCenter(trig, -90.0, CenterX(board), CenterY(board));
    }
  }

  // ---------------------------------------------------------------------
  // The bottom side
  // ---------------------------------------------------------------------

  /** The transform list of the bottom side's layer group. */
  function MirrorList(board: Box): seq<Xf> {
    var cx := board.x + board.w / 2.0;
    var cy := board.y + board.h / 2.0;
    [Rotate(180.0, cx, cy), Translate(2.0 * cx, 0.0), Scale(-1.0, 1.0)]
  }

  /** What the list does: x is kept and y is reflected through the board's
      horizontal center line, a top-to-bottom flip. */
  lemma MirrorFlipsVertically(trig: real -> Turn, board: Box, p: Point)
    requires ExactQuarterTurns(trig)
    ensures ApplyList(trig, MirrorList(board), p) == Point(p.x, 2.0 * CenterY(board) - p.y)
  {
    var xs := MirrorList(board);
    assert ApplyList(trig, xs[2..], p) == Apply(trig, xs[2], p);
  }

  /** Mirroring twice gives back every point. */
  lemma MirrorInvolution(trig: real -> Turn, board: Box, p: Point)
    requires ExactQuarterTurns(trig)
    ensures ApplyList(trig, MirrorList(board), ApplyList(trig, MirrorList(board), p)) == p
  {
    MirrorFlipsVertically(trig, board, p);
    MirrorFlipsVertically(trig, board, ApplyList(trig, MirrorList(board), p));
  }

  /** The mirror maps the board onto itself. */
  lemma MirrorKeepsBoard(trig: real -> Turn, board: Box, p: Point)
    requires ExactQuarterTurns(trig)
    ensures Inside(board, p) <==> Inside(board, ApplyList(trig, MirrorList(board), p))
  {
    MirrorFlipsVertically(trig, board, p);
  }

  /** The layer files a side draws. */
  datatype LayerSide = Front | Back

  /** `combine_all_layers` and `_add_pcb_layers` take the front files for
      the side "top" and the back files for every other side. */
  function LayerSideFor(side: string): LayerSide {
    if side == "top" then Front else Back
  }

  /** The transform list of the layer group: the mirror for "bottom" only. */
  function SideTransform(board: Box, side: string): seq<Xf> {
    if side == "bottom" then MirrorList(board) else []
  }

  /** The two decisions agree on "top" and "bottom"; any other side name
      draws the back files without mirroring them. */
  lemma SideChoices(board: Box, side: string)
    ensures side == "top" ==> LayerSideFor(side) == Front && SideTransform(board, side) == []
    ensures side == "bottom" ==> LayerSideFor(side) == Back && |SideTransform(board, side)| == 3
    ensures side != "top" && side != "bottom" ==> LayerSideFor(side) == Back && SideTransform(board, side) == []
  {
  }

  /** Where a point of a layer file is drawn in the output: through the
      side's group, then the main group. */
  function LayerPoint(trig: real -> Turn, board: Box, side: string, p: Point): Point {
    ApplyList(trig, ViewFrame(board).turn + SideTransform(board, side), p)
  }

  /** How the bottom side looks next to the top side in the output. On a
      landscape board the main group's quarter turn carries the vertical
      flip into a horizontal one, so the bottom drawing is the top drawing
      mirrored left to right about the window's center; on a portrait board
      it is the top drawing flipped top to bottom. */
  lemma BottomSideMirrored(trig: real -> Turn, board: Box, p: Point)
    requires ExactQuarterTurns(trig)
    ensures var top := LayerPoint(trig, board, "top", p);
            var bottom := LayerPoint(trig, board, "bottom", p);
            var v := ViewFrame(board).view;
            && (board.w > board.h ==> bottom == Point(2.0 * CenterX(v) - top.x, top.y))
            && (board.w <= board.h ==> bottom == Point(top.x, 2.0 * CenterY(v) - top.y))
  {
    var f := ViewFrame(board);
    var m := MirrorList(board);
    assert f.turn + [] == f.turn;
    ApplyListAppend(trig, f.turn, m, p);
    MirrorFlipsVertically(trig, board, p);
    var q := ApplyList(trig, m, p);
    if f.landscape {
      assert ApplyList(trig, f.turn, p) == Apply(trig, f.turn[0], p);
      assert ApplyList(trig, f.turn, q) == Apply(trig, f.turn[0], q);
    }
  }

  /** On either side, a layer point on the board is drawn inside the view
      window's padded area, and only those are. */
  lemma LayerPointFits(trig: real -> Turn, board: Box, side: string, p: Point)
    requires ExactQuarterTurns(trig)
    ensures Inside(board, p) <==>
            Inside(Shrink(ViewFrame(board).view, Padding), LayerPoint(trig, board, side, p))
  {
    var f := ViewFrame(board);
    var s := SideTransform(board, side);
    ApplyListAppend(trig, f.turn, s, p);
    var q := ApplyList(trig, s, p);
    if side == "bottom" {
      MirrorKeepsBoard(trig, board, p);
    }
    FrameFitsBoard(trig, board, q);
  }
}
