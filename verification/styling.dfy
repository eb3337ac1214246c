/** The drawing decisions of `SVGProcessor`: which solder-mask shapes are
    shown as pads, where the light center of a pad goes and how large it is,
    and how silkscreen shapes are painted. Colours are left to the caller. */
module Styling {
  import opened Wrappers
  import opened Svg
  import opened Geometry
  import opened Classify
  import opened Seqs

  /** A filled circle drawn over a pad. */
  datatype Spot = Spot(cx: real, cy: real, r: real)

  /** The highlight of a circular pad: mounting holes, and pads with a radius
      strictly between 0.2 and 1.2, get a spot at the center, 0.75 of the
      radius for a mounting hole and 0.55 otherwise. */
  function CircleSpot(s: Shape, board: Box): (r: Option<Spot>)
    requires s.Circle?
  {
    var hole := IsMountingHoleShape(s, board);
    if hole || (0.2 < s.r < 1.2) then Some(Spot(s.cx, s.cy, if hole then s.r * 0.75 else s.r * 0.55))
    else None
  }

  /** The highlight of a rectangular pad: 0.7 of the smaller side for a
      corner pad, else 0.8 of it when that side is strictly between 0.4 and
      1.5. */
  function RectSpot(s: Shape, board: Box): (r: Option<Spot>)
    requires s.Rect?
  {
    var m := Min(s.w, s.h);
    var cx := s.x + s.w / 2.0;
    var cy := s.y + s.h / 2.0;
    if IsNearCornerShape(s, board) then Some(Spot(cx, cy, m * 0.7))
    else if m > 0.4 && m < 1.5 then Some(Spot(cx, cy, m * 0.8))
    else None
  }

  /** The highlight of a path pad: 0.33 of the smaller side of its box, for
      a corner pad or when that side is strictly between 0.4 and 1.8. */
  function PathSpot(s: Shape, board: Box): (r: Option<Spot>)
    requires s.Path?
  {
    match PathBBox(s.coords)
    case None => None
    case Some(b) =>
      var m := Min(b.w, b.h);
      if IsNearCornerShape(s, board) || (m > 0.4 && m < 1.8) then Some(Spot(CenterX(b), CenterY(b), m * 0.33))
      else None
  }

  /** The light center `_add_filtered_mask_layer` draws on a visible pad. */
  function HighlightShape(s: Shape, board: Box): Option<Spot> {
    match s
    case Circle(_, _, _) => CircleSpot(s, board)
    case Rect(_, _, _, _) => RectSpot(s, board)
    case Path(_) => PathSpot(s, board)
    case Other => None
  }

  function Highlight(e: Node, board: Box): Option<Spot> {
    HighlightShape(ShapeOf(e), board)
  }

  /** A highlight is only drawn on a shape that has a box, and it sits at the
      center of that box. */
  lemma HighlightCentered(s: Shape, board: Box)
    requires HighlightShape(s, board).Some?
    ensures ShapeBox(s).Some?
    ensures HighlightShape(s, board).value.cx == CenterX(ShapeBox(s).value)
    ensures HighlightShape(s, board).value.cy == CenterY(ShapeBox(s).value)
  {
    if s.Circle? {
      CircleBoxCentered(s);
    }
  }

  /** The radius table of the highlight, by shape and branch. */
  lemma HighlightRadius(s: Shape, board: Box)
    ensures s.Circle? && IsMountingHoleShape(s, board) ==> HighlightShape(s, board) == Some(Spot(s.cx, s.cy, 0.75 * s.r))
    ensures s.Circle? && !IsMountingHoleShape(s, board) ==>
              (HighlightShape(s, board).Some? <==> 0.2 < s.r < 1.2) &&
              (HighlightShape(s, board).Some? ==> HighlightShape(s, board).value.r == 0.55 * s.r)
    ensures s.Rect? && IsNearCornerShape(s, board) ==>
              HighlightShape(s, board).Some? && HighlightShape(s, board).value.r == 0.7 * Min(s.w, s.h)
    ensures s.Rect? && !IsNearCornerShape(s, board) ==>
              (HighlightShape(s, board).Some? <==> 0.4 < Min(s.w, s.h) < 1.5) &&
              (HighlightShape(s, board).Some? ==> HighlightShape(s, board).value.r == 0.8 * Min(s.w, s.h))
    ensures s.Path? ==>
              (HighlightShape(s, board).Some? <==>
                 ShapeBox(s).Some? &&
                 (IsNearCornerShape(s, board) || 0.4 < Min(ShapeBox(s).value.w, ShapeBox(s).value.h) < 1.8))
    ensures s.Path? && HighlightShape(s, board).Some? ==>
              HighlightShape(s, board).value.r == 0.33 * Min(ShapeBox(s).value.w, ShapeBox(s).value.h)
    ensures s.Other? ==> HighlightShape(s, board).None?
  {
  }

  /** A spot on a circular pad or a path pad stays within the pad: strictly
      inside the circle, and within the inscribed circle of the path's box. */
  lemma HighlightWithinPad(s: Shape, board: Box)
    requires HighlightShape(s, board).Some?
    ensures s.Circle? ==> 0.0 < HighlightShape(s, board).value.r < s.r
    ensures s.Path? ==>
              var b := ShapeBox(s).value;
              0.0 <= HighlightShape(s, board).value.r <= Min(b.w, b.h) / 2.0
  {
    if s.Path? {
      var b := PathBBox(s.coords).value;
      var xs := Evens(s.coords);
      var ys := Odds(s.coords);
      var i :| 0 <= i < |xs| && xs[i] == b.x;
      var j :| 0 <= j < |ys| && ys[j] == b.y;
      assert b.w >= 0.0 && b.h >= 0.0;
    }
  }

  // ---------------------------------------------------------------------
  // The filtered mask layer
  // ---------------------------------------------------------------------

  /** The boxes of the paste shapes that have one, in order. */
  function PasteBoxes(paste: seq<Node>): (r: seq<Box>)
    ensures forall k :: 0 <= k < |r| ==> exists i :: 0 <= i < |paste| && ElementBBox(paste[i]) == Some(r[k])
    ensures forall i :: 0 <= i < |paste| && ElementBBox(paste[i]).Some? ==> ElementBBox(paste[i]).value in r
  {
    var os := seq(|paste|, i requires 0 <= i < |paste| => ElementBBox(paste[i]));
    var r := Flatten(os);
    assert forall i :: 0 <= i < |paste| ==> os[i] == ElementBBox(paste[i]);
    r
  }

  /** A mask shape is shown as a pad when it has a box and that box overlaps
      no paste box. */
  predicate Visible(e: Node, boxes: seq<Box>) {
    ElementBBox(e).Some? && forall k :: 0 <= k < |boxes| ==> !IsOverlap(ElementBBox(e).value, boxes[k])
  }

  /** `f` applied to the shapes at positions `idx`. */
  function Picks<T>(mask: seq<Node>, idx: seq<nat>, f: Node -> T): (r: seq<T>)
    requires forall k :: 0 <= k < |idx| ==> idx[k] < |mask|
    ensures |r| == |idx| && forall k :: 0 <= k < |idx| ==> r[k] == f(mask[idx[k]])
  {
    seq(|idx|, k requires 0 <= k < |idx| => f(mask[idx[k]]))
  }

  /** Picking one more position appends its value. */
  lemma PicksSnoc<T>(mask: seq<Node>, idx: seq<nat>, i: nat, f: Node -> T)
    requires forall k :: 0 <= k < |idx| ==> idx[k] < |mask|
    requires i < |mask|
    ensures Picks(mask, idx + [i], f) == Picks(mask, idx, f) + [f(mask[i])]
  {
  }

  /** The highlights of the shapes at positions `idx`. */
  function HighlightsAt(mask: seq<Node>, idx: seq<nat>, board: Box): (r: seq<Option<Spot>>)
    requires forall k :: 0 <= k < |idx| ==> idx[k] < |mask|
    ensures |r| == |idx| && forall k :: 0 <= k < |idx| ==> r[k] == Highlight(mask[idx[k]], board)
  {
    seq(|idx|, k requires 0 <= k < |idx| => Highlight(mask[idx[k]], board))
  }

  /** What the mask layer draws: the pads, then the spots over them. */
  datatype MaskLayer = MaskLayer(pads: seq<Node>, spots: seq<Spot>)

  /** A shape is shown when `bbox` gives it a box that overlaps none of
      `boxes`. */
  predicate VisibleWith(bbox: Node -> Option<Box>, e: Node, boxes: seq<Box>) {
    bbox(e).Some? && Clear(bbox(e).value, boxes)
  }

  /** `b` overlaps none of `boxes`. */
  predicate Clear(b: Box, boxes: seq<Box>) {
    forall k :: 0 <= k < |boxes| ==> !IsOverlap(b, boxes[k])
  }

  /** What the loop of `_add_filtered_mask_layer` has built after the
      first `i` mask shapes. */
  ghost predicate FilteredUpTo(mask: seq<Node>, boxes: seq<Box>, bbox: Node -> Option<Box>, spot: Node -> Option<Spot>,
                               i: nat, idx: seq<nat>, pads: seq<Node>, spots: seq<Spot>)
  {
    && i <= |mask|
    && (forall k :: 0 <= k < |idx| ==> idx[k] < i)
    && Increasing(idx)
    && pads == Picks(mask, idx, CleanCopy)
    && (forall j :: 0 <= j < i ==> (j in idx <==> VisibleWith(bbox, mask[j], boxes)))
    && spots == Flatten(Picks(mask, idx, spot))
  }

  /** A visible shape is appended to the pads and its spot to the spots. */
  lemma FilterShown(mask: seq<Node>, boxes: seq<Box>, bbox: Node -> Option<Box>, spot: Node -> Option<Spot>,
                    i: nat, idx: seq<nat>, pads: seq<Node>, spots: seq<Spot>)
    requires FilteredUpTo(mask, boxes, bbox, spot, i, idx, pads, spots)
    requires i < |mask| && VisibleWith(bbox, mask[i], boxes)
    ensures FilteredUpTo(mask, boxes, bbox, spot, i + 1, idx + [i], pads + [CleanCopy(mask[i])],
                         spots + OptionList(spot(mask[i])))
  {
    PicksSnoc(mask, idx, i, spot);
    FlattenSnoc(Picks(mask, idx, spot), spot(mask[i]));
    SnocMembers(idx, i);
    PicksSnoc(mask, idx, i, CleanCopy);
  }

  /** A hidden shape changes nothing. */
  lemma FilterHidden(mask: seq<Node>, boxes: seq<Box>, bbox: Node -> Option<Box>, spot: Node -> Option<Spot>,
                     i: nat, idx: seq<nat>, pads: seq<Node>, spots: seq<Spot>)
    requires FilteredUpTo(mask, boxes, bbox, spot, i, idx, pads, spots)
    requires i < |mask| && !VisibleWith(bbox, mask[i], boxes)
    ensures FilteredUpTo(mask, boxes, bbox, spot, i + 1, idx, pads, spots)
  {
    assert i !in idx;
  }

  /** The loop of `_add_filtered_mask_layer`, for any box and spot rule. */
  method FilterMaskWith(mask: seq<Node>, boxes: seq<Box>, bbox: Node -> Option<Box>, spot: Node -> Option<Spot>)
    returns (idx: seq<nat>, layer: MaskLayer)
    ensures |layer.pads| == |idx|
    ensures forall k :: 0 <= k < |idx| ==> idx[k] < |mask| && layer.pads[k] == CleanCopy(mask[idx[k]])
    ensures forall k, l :: 0 <= k < l < |idx| ==> idx[k] < idx[l]
    ensures forall i :: 0 <= i < |mask| ==> (i in idx <==> VisibleWith(bbox, mask[i], boxes))
    ensures layer.spots == Flatten(Picks(mask, idx, spot))
  {
    idx := [];
    var pads: seq<Node> := [];
    var spots: seq<Spot> := [];
    var i := 0;
    while i < |mask|
      invariant i <= |mask|
      invariant FilteredUpTo(mask, boxes, bbox, spot, i, idx, pads, spots)
    {
      var bb := bbox(mask[i]);
      var coincident := false;
      if bb.Some? {
        coincident := Coincident(bb.value, boxes);
      }
      if bb.Some? && !coincident {
        FilterShown(mask, boxes, bbox, spot, i, idx, pads, spots);
        idx := idx + [i];
        pads := pads + [CleanCopy(mask[i])];
        spots := spots + OptionList(spot(mask[i]));
      } else {
        FilterHidden(mask, boxes, bbox, spot, i, idx, pads, spots);
      }
      i := i + 1;
    }
    layer := MaskLayer(pads, spots);
  }

  /** The inner loop of `_add_filtered_mask_layer`: whether `b` overlaps
      some paste box; the scan stops at the first overlap. */
  method Coincident(b: Box, boxes: seq<Box>) returns (c: bool)
    ensures c <==> !Clear(b, boxes)
  {
    c := false;
    var k := 0;
    while k < |boxes| && !c
      invariant 0 <= k <= |boxes|
      invariant c <==> exists m :: 0 <= m < k && IsOverlap(b, boxes[m])
    {
      if IsOverlap(b, boxes[k]) {
        c := true;
      }
      k := k + 1;
    }
  }

  /** `_add_filtered_mask_layer`: the visible mask shapes, in order, as
      clean copies, with their spots. `idx` holds the positions in `mask` of
      the shapes shown. A missing paste file is an empty `paste`. */
  method FilterMask(mask: seq<Node>, paste: seq<Node>, board: Box) returns (idx: seq<nat>, layer: MaskLayer)
    ensures |layer.pads| == |idx|
    ensures forall k :: 0 <= k < |idx| ==> idx[k] < |mask| && layer.pads[k] == CleanCopy(mask[idx[k]])
    ensures forall k, l :: 0 <= k < l < |idx| ==> idx[k] < idx[l]
    ensures forall i :: 0 <= i < |mask| ==> (i in idx <==> Visible(mask[i], PasteBoxes(paste)))
    ensures layer.spots == Flatten(HighlightsAt(mask, idx, board))
  {
    var boxes := PasteBoxes(paste);
    var spot := (e: Node) => Highlight(e, board);
    idx, layer := FilterMaskWith(mask, boxes, ElementBBox, spot);
    assert Picks(mask, idx, spot) == HighlightsAt(mask, idx, board);
    forall i | 0 <= i < |mask|
      ensures VisibleWith(ElementBBox, mask[i], boxes) <==> Visible(mask[i], boxes)
    {
    }
  }

  /** The paste elements `_add_filtered_mask_layer` filters against: the
      drawable elements of the paste drawing, none when it is missing. */
  function PasteElements(pasteRoot: Option<Node>): seq<Node> {
    if pasteRoot.Some? then Drawables(pasteRoot.value) else []
  }

  /** `_add_filtered_mask_layer` on the parsed drawings: nothing is drawn
      without a mask drawing; otherwise the drawable mask elements are
      filtered against the paste drawing's elements. */
  method AddFilteredMaskLayer(maskRoot: Option<Node>, pasteRoot: Option<Node>, board: Box)
    returns (idx: seq<nat>, layer: Option<MaskLayer>)
    ensures layer.None? <==> maskRoot.None?
    ensures maskRoot.None? ==> idx == []
    ensures maskRoot.Some? ==>
              var mask := Drawables(maskRoot.value);
              && |layer.value.pads| == |idx|
              && (forall k :: 0 <= k < |idx| ==> idx[k] < |mask| && layer.value.pads[k] == CleanCopy(mask[idx[k]]))
              && (forall k, l :: 0 <= k < l < |idx| ==> idx[k] < idx[l])
              && (forall i :: 0 <= i < |mask| ==> (i in idx <==> Visible(mask[i], PasteBoxes(PasteElements(pasteRoot)))))
              && layer.value.spots == Flatten(HighlightsAt(mask, idx, board))
  {
    if maskRoot.None? {
      idx, layer := [], None;
    } else {
      var l;
      idx, l := FilterMask(Drawables(maskRoot.value), PasteElements(pasteRoot), board);
      layer := Some(l);
    }
  }

  // ---------------------------------------------------------------------
  // Silkscreen and paste layers
  // ---------------------------------------------------------------------

  /** How a silkscreen shape is painted: filled, or outlined only. */
  datatype Paint = Filled | Outlined

  /** Circles with a radius above this that are not mounting holes are
      drawn as outlines (logo rings). */
  const OutlineMinRadius: real := 2.5

  function SilkPaintShape(s: Shape, board: Box): Paint {
    if s.Circle? && s.r > OutlineMinRadius && !IsMountingHoleShape(s, board) then Outlined else Filled
  }

  /** The paint `_add_pcb_layers` gives a silkscreen shape. */
  function SilkPaint(e: Node, board: Box): Paint {
    SilkPaintShape(ShapeOf(e), board)
  }

  /** Only large circles are outlined, never a mounting hole, and every
      other shape is filled. */
  lemma SilkPaintCases(s: Shape, board: Box)
    ensures SilkPaintShape(s, board) == Outlined ==> s.Circle? && s.r > 2.5
    ensures IsMountingHoleShape(s, board) ==> SilkPaintShape(s, board) == Filled
    ensures !s.Circle? ==> SilkPaintShape(s, board) == Filled
  {
  }

  /** Mirroring the board top to bottom does not change how a circle is
      painted. */
  lemma SilkPaintMirror(s: Shape, board: Box)
    requires s.Circle?
    ensures SilkPaintShape(s, board) == SilkPaintShape(s.(cy := 2.0 * board.y + board.h - s.cy), board)
  {
    MountingHoleMirror(s, board);
  }

  /** The silkscreen layer: each drawable shape as a clean copy with its
      paint, in order. The copies keep their geometry, and an outline is
      only ever a large circle that is not a mounting hole. */
  function SilkLayer(silk: Node, board: Box): (r: seq<(Node, Paint)>)
    ensures |r| == |Drawables(silk)|
    ensures forall i :: 0 <= i < |r| ==>
              r[i].0 == CleanCopy(Drawables(silk)[i]) && r[i].1 == SilkPaint(Drawables(silk)[i], board)
    ensures forall i :: 0 <= i < |r| ==> ShapeOf(r[i].0) == ShapeOf(Drawables(silk)[i])
    ensures forall i :: 0 <= i < |r| && r[i].1 == Outlined ==>
              var s := ShapeOf(r[i].0);
              s.Circle? && s.r > OutlineMinRadius && !IsMountingHoleShape(s, board)
  {
    var ds := Drawables(silk);
    var r := seq(|ds|, i requires 0 <= i < |ds| => (CleanCopy(ds[i]), SilkPaint(ds[i], board)));
    forall i | 0 <= i < |r|
      ensures ShapeOf(r[i].0) == ShapeOf(ds[i])
    {
      CleanCopyKeepsShape(ds[i]);
    }
    r
  }

  /** The paste layer: each drawable shape as a clean copy, in order, with
      its geometry and without its presentation attributes. */
  function PasteLayer(paste: Node): (r: seq<Node>)
    ensures |r| == |Drawables(paste)|
    ensures forall i :: 0 <= i < |r| ==> r[i] == CleanCopy(Drawables(paste)[i])
    ensures forall i :: 0 <= i < |r| ==> IsDrawable(r[i].tag) && ShapeOf(r[i]) == ShapeOf(Drawables(paste)[i])
    ensures forall i, a :: 0 <= i < |r| && a in StyleAttrs ==> a !in r[i].attrs
  {
    var ds := Drawables(paste);
    var r := seq(|ds|, i requires 0 <= i < |ds| => CleanCopy(ds[i]));
    forall i | 0 <= i < |r|
      ensures ShapeOf(r[i]) == ShapeOf(ds[i])
    {
      CleanCopyKeepsShape(ds[i]);
    }
    r
  }
}
