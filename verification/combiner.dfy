/** `combine_svgs_as_images`: the finished top and bottom drawings placed
    side by side on one canvas. */
module Combiner {
  import opened Wrappers
  import opened Svg
  import opened Geometry

  /** The gap between the two drawings unless the caller gives another. */
  const DefaultPadding: real := 10.0

  /** The width and height of a drawing: the third and fourth numbers of
      its `viewBox`. A missing attribute, text that is not a list of
      numbers, or fewer than four numbers make the combination fail; any
      numbers after the fourth are ignored. */
  function ViewBoxSize(root: Node): (r: Option<(real, real)>)
    ensures r.Some? <==> "viewBox" in root.attrs && root.attrs["viewBox"].Coords? && |root.attrs["viewBox"].cs| >= 4
    ensures r.Some? ==> r.value == (root.attrs["viewBox"].cs[2], root.attrs["viewBox"].cs[3])
  {
    if "viewBox" in root.attrs then
      match root.attrs["viewBox"]
      case Coords(cs) => if |cs| >= 4 then Some((cs[2], cs[3])) else None
      case Num(_) => None
      case Text(_) => None
    else None
  }

  /** A drawing's own `viewBox` check accepts only exactly four numbers;
      the combiner also accepts more, and the two read the same size
      whenever both succeed. */
  lemma ViewBoxReadings(root: Node)
    ensures ViewBoxOf(root).Some? ==>
              ViewBoxSize(root) == Some((ViewBoxOf(root).value[2], ViewBoxOf(root).value[3]))
    ensures ViewBoxSize(root).Some? && ViewBoxOf(root).None? ==> |root.attrs["viewBox"].cs| > 4
  {
  }

  /** The combined canvas and where each drawing goes on it. */
  datatype Layout = Layout(width: real, height: real, top: Box, bottom: Box)

  /** `combine_svgs_as_images`: None when either drawing is missing or its
      size cannot be read (the source reports False). */
  function CombineSvgs(top: Option<Node>, bottom: Option<Node>, padding: real): (r: Option<Layout>)
    ensures r.Some? <==> top.Some? && bottom.Some? && ViewBoxSize(top.value).Some? && ViewBoxSize(bottom.value).Some?
  {
    if top.None? || bottom.None? then None
    else
      match (ViewBoxSize(top.value), ViewBoxSize(bottom.value))
      case (Some(t), Some(b)) =>
        var (wTop, hTop) := t;
        var (wBottom, hBottom) := b;
        Some(Layout(wTop + padding + wBottom, Max(hTop, hBottom),
                    Box(0.0, 0.0, wTop, hTop), Box(wTop + padding, 0.0, wBottom, hBottom)))
      case _ => None
  }

  /** `inner` lies within `outer`. */
  predicate Within(inner: Box, outer: Box) {
    outer.x <= inner.x && inner.x + inner.w <= outer.x + outer.w &&
    outer.y <= inner.y && inner.y + inner.h <= outer.y + outer.h
  }

  /** Both drawings keep their sizes, are top-aligned, sit `padding` apart
      with the top side on the left, and the canvas is exactly as wide as
      the two and the gap, and as tall as the taller. */
  lemma CombinedLayout(top: Node, bottom: Node, padding: real)
    requires CombineSvgs(Some(top), Some(bottom), padding).Some?
    ensures var l := CombineSvgs(Some(top), Some(bottom), padding).value;
            var (wt, ht) := ViewBoxSize(top).value;
            var (wb, hb) := ViewBoxSize(bottom).value;
            && l.top == Box(0.0, 0.0, wt, ht)
            && l.bottom == Box(wt + padding, 0.0, wb, hb)
            && l.bottom.x - (l.top.x + l.top.w) == padding
            && l.width == l.bottom.x + l.bottom.w
            && l.height >= ht && l.height >= hb && (l.height == ht || l.height == hb)
  {
  }

  /** With a non-negative gap and sizes, each drawing lies on the canvas
      and the two do not share any interior point. */
  lemma CombinedFits(top: Node, bottom: Node, padding: real)
    requires CombineSvgs(Some(top), Some(bottom), padding).Some?
    requires padding >= 0.0
    requires var (wt, ht) := ViewBoxSize(top).value; wt >= 0.0 && ht >= 0.0
    requires var (wb, hb) := ViewBoxSize(bottom).value; wb >= 0.0 && hb >= 0.0
    ensures var l := CombineSvgs(Some(top), Some(bottom), padding).value;
            var canvas := Box(0.0, 0.0, l.width, l.height);
            Within(l.top, canvas) && Within(l.bottom, canvas) && l.top.x + l.top.w <= l.bottom.x
  {
    CombinedLayout(top, bottom, padding);
  }
}
