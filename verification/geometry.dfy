/** Bounding boxes of SVG shapes and of whole documents, as `SVGProcessor`
    and `ComponentPlacer.get_component_bounds` compute them. */
module Geometry {
  import opened Wrappers
  import opened Svg

  /** An axis-aligned box given by its min corner and its size. */
  datatype Box = Box(x: real, y: real, w: real, h: real)

  /** Running minima and maxima on both axes. */
  datatype Extent = Extent(minX: real, minY: real, maxX: real, maxY: real)

  /** A box given by its center and its size, as `get_component_bounds`
      returns it. */
  datatype Centered = Centered(cx: real, cy: real, w: real, h: real)

  function Min(a: real, b: real): real { if a <= b then a else b }

  function Max(a: real, b: real): real { if a <= b then b else a }

  // ---------------------------------------------------------------------
  // Minima and maxima of sequences
  // ---------------------------------------------------------------------

  /** `min(s)` for a non-empty list. */
  function SeqMin(s: seq<real>): (m: real)
    requires |s| > 0
    ensures forall i :: 0 <= i < |s| ==> m <= s[i]
    ensures exists i :: 0 <= i < |s| && m == s[i]
    ensures Spans(m, SeqMax(s), s)
  {
    if |s| == 1 then s[0]
    else
      var rest := SeqMin(s[1..]);
      assert forall i :: 1 <= i < |s| ==> s[i] == s[1..][i - 1];
      Min(s[0], rest)
  }

  /** `max(s)` for a non-empty list. */
  function SeqMax(s: seq<real>): (m: real)
    requires |s| > 0
    ensures forall i :: 0 <= i < |s| ==> s[i] <= m
    ensures exists i :: 0 <= i < |s| && m == s[i]
  {
    if |s| == 1 then s[0]
    else
      var rest := SeqMax(s[1..]);
      assert forall i :: 1 <= i < |s| ==> s[i] == s[1..][i - 1];
      Max(s[0], rest)
  }

  /** `lo` and `hi` are the least and the greatest of the values `vs`. */
  ghost predicate Spans(lo: real, hi: real, vs: seq<real>) {
    && (forall k :: 0 <= k < |vs| ==> lo <= vs[k] <= hi)
    && (exists k :: 0 <= k < |vs| && vs[k] == lo)
    && (exists k :: 0 <= k < |vs| && vs[k] == hi)
  }

  /** The least and greatest values of a list are unique. */
  lemma SpansUnique(lo: real, hi: real, lo': real, hi': real, vs: seq<real>)
    requires Spans(lo, hi, vs) && Spans(lo', hi', vs)
    ensures lo == lo' && hi == hi'
  {
    var i :| 0 <= i < |vs| && vs[i] == lo;
    var j :| 0 <= j < |vs| && vs[j] == lo';
    var m :| 0 <= m < |vs| && vs[m] == hi;
    var n :| 0 <= n < |vs| && vs[n] == hi';
  }

  /** Putting a value in front widens the span to include it. */
  lemma SpansCons(v: real, lo: real, hi: real, vs: seq<real>)
    requires Spans(lo, hi, vs)
    ensures Spans(Min(v, lo), Max(v, hi), [v] + vs)
  {
    var s := [v] + vs;
    forall k | 0 <= k < |vs|
      ensures s[k + 1] == vs[k]
    {
    }
    var i :| 0 <= i < |vs| && vs[i] == lo;
    var j :| 0 <= j < |vs| && vs[j] == hi;
    assert s[0] == v && s[i + 1] == lo && s[j + 1] == hi;
    if v <= lo {
      assert s[0] == Min(v, lo);
    } else {
      assert s[i + 1] == Min(v, lo);
    }
    if v <= hi {
      assert s[j + 1] == Max(v, hi);
    } else {
      assert s[0] == Max(v, hi);
    }
  }

  lemma SpansSingle(v: real)
    ensures Spans(v, v, [v])
  {
    assert [v][0] == v;
  }

  /** `coords[0::2]`. */
  function Evens(s: seq<real>): (r: seq<real>)
    ensures |r| == (|s| + 1) / 2
    ensures forall k :: 0 <= k < |r| ==> r[k] == s[2 * k]
  {
    seq((|s| + 1) / 2, k requires 0 <= k < (|s| + 1) / 2 => s[2 * k])
  }

  /** `coords[1::2]`. */
  function Odds(s: seq<real>): (r: seq<real>)
    ensures |r| == |s| / 2
    ensures forall k :: 0 <= k < |r| ==> r[k] == s[2 * k + 1]
  {
    seq(|s| / 2, k requires 0 <= k < |s| / 2 => s[2 * k + 1])
  }

  /** The x values of the complete pairs: `coords[0::2]` without a trailing
      odd value. */
  function PairXs(s: seq<real>): (r: seq<real>)
    ensures |r| == |s| / 2
    ensures forall k :: 0 <= k < |r| ==> r[k] == s[2 * k]
  {
    seq(|s| / 2, k requires 0 <= k < |s| / 2 => s[2 * k])
  }

  /** On an even count there is no trailing value to drop. */
  lemma PairXsEven(s: seq<real>)
    requires |s| % 2 == 0
    ensures PairXs(s) == Evens(s)
  {
    assert (|s| + 1) / 2 == |s| / 2;
  }

  // ---------------------------------------------------------------------
  // Boxes of single elements
  // ---------------------------------------------------------------------

  /** `_get_path_bbox`: the tightest box around the x values at even
      positions and the y values at odd positions. With an odd count the
      trailing x value counts too. None with fewer than two numbers. */
  function PathBBox(cs: seq<real>): (r: Option<Box>)
    ensures r.Some? <==> |cs| >= 2
    ensures r.Some? ==> Spans(r.value.x, r.value.x + r.value.w, Evens(cs))
    ensures r.Some? ==> Spans(r.value.y, r.value.y + r.value.h, Odds(cs))
  {
    if |cs| < 2 then None
    else
      var xs := Evens(cs);
      var ys := Odds(cs);
      var x0 := SeqMin(xs);
      var y0 := SeqMin(ys);
      Some(Box(x0, y0, SeqMax(xs) - x0, SeqMax(ys) - y0))
  }

  /** The box of a shape as `_get_element_bbox` computes it: a circle's
      square, a rect's own box, a path's box; None for anything else and
      for a path with fewer than two numbers. */
  function ShapeBox(s: Shape): (r: Option<Box>)
    ensures r.Some? <==> s.Circle? || s.Rect? || (s.Path? && |s.coords| >= 2)
    ensures s.Circle? ==> r == Some(Box(s.cx - s.r, s.cy - s.r, 2.0 * s.r, 2.0 * s.r))
    ensures s.Rect? ==> r == Some(Box(s.x, s.y, s.w, s.h))
    ensures s.Path? ==> r == PathBBox(s.coords)
  {
    match s
    case Circle(cx, cy, rad) => Some(Box(cx - rad, cy - rad, 2.0 * rad, 2.0 * rad))
    case Rect(x, y, w, h) => Some(Box(x, y, w, h))
    case Path(cs) => PathBBox(cs)
    case Other => None
  }

  /** `_get_element_bbox`. */
  function ElementBBox(e: Node): Option<Box> {
    ShapeBox(ShapeOf(e))
  }

  /** The center of a box. */
  function CenterX(b: Box): real { b.x + b.w / 2.0 }

  function CenterY(b: Box): real { b.y + b.h / 2.0 }

  /** A circle's box is centered on the circle. */
  lemma CircleBoxCentered(s: Shape)
    requires s.Circle?
    ensures CenterX(ShapeBox(s).value) == s.cx
    ensures CenterY(ShapeBox(s).value) == s.cy
  {
  }

  // ---------------------------------------------------------------------
  // Extents and their union
  // ---------------------------------------------------------------------

  /** The union of two optional extents; None stands for "nothing seen yet",
      the `inf` sentinels of the source. */
  function Join(a: Option<Extent>, b: Option<Extent>): (r: Option<Extent>)
    ensures r.None? <==> a.None? && b.None?
  {
    match (a, b)
    case (None, _) => b
    case (_, None) => a
    case (Some(p), Some(q)) =>
      Some(Extent(Min(p.minX, q.minX), Min(p.minY, q.minY), Max(p.maxX, q.maxX), Max(p.maxY, q.maxY)))
  }

  /** `outer` reaches at least as far as `inner` on every side. */
  predicate Covers(outer: Extent, inner: Extent) {
    outer.minX <= inner.minX && outer.minY <= inner.minY && inner.maxX <= outer.maxX && inner.maxY <= outer.maxY
  }

  /** The extent of a list of optional extents, folded as the source's loops
      fold them: None exactly when every element is None; otherwise it
      covers every element, and each of its four sides is reached by some
      element. */
  function UnionAll(es: seq<Option<Extent>>): (r: Option<Extent>)
    ensures r.None? <==> forall i :: 0 <= i < |es| ==> es[i].None?
    ensures r.Some? ==> forall i :: 0 <= i < |es| && es[i].Some? ==> Covers(r.value, es[i].value)
    ensures r.Some? ==> exists i :: 0 <= i < |es| && es[i].Some? && es[i].value.minX == r.value.minX
    ensures r.Some? ==> exists i :: 0 <= i < |es| && es[i].Some? && es[i].value.minY == r.value.minY
    ensures r.Some? ==> exists i :: 0 <= i < |es| && es[i].Some? && es[i].value.maxX == r.value.maxX
    ensures r.Some? ==> exists i :: 0 <= i < |es| && es[i].Some? && es[i].value.maxY == r.value.maxY
    decreases |es|
  {
    if es == [] then None
    else
      var rest := UnionAll(es[1..]);
      assert forall i :: 1 <= i < |es| ==> es[i] == es[1..][i - 1];
      Join(es[0], rest)
  }

  /** The extent of the pairs `(cs[i], cs[i+1])` for even `i`, as the loops
      `for i in range(0, len(coords), 2): if i + 1 < len(coords)` read them:
      it spans the x values and the y values of the complete pairs; a
      trailing odd number is not part of any pair. */
  function PairsExtent(cs: seq<real>): (r: Option<Extent>)
    ensures r.Some? <==> |cs| >= 2
    ensures r.Some? ==> Spans(r.value.minX, r.value.maxX, PairXs(cs))
    ensures r.Some? ==> Spans(r.value.minY, r.value.maxY, Odds(cs))
    decreases |cs|
  {
    if |cs| < 2 then None
    else
      var rest := PairsExtent(cs[2..]);
      ShiftPairs(cs);
      if rest.None? then
        assert PairXs(cs) == [cs[0]] && Odds(cs) == [cs[1]];
        SpansSingle(cs[0]);
        SpansSingle(cs[1]);
        Some(Extent(cs[0], cs[1], cs[0], cs[1]))
      else
        var e := rest.value;
        SpansCons(cs[0], e.minX, e.maxX, PairXs(cs[2..]));
        SpansCons(cs[1], e.minY, e.maxY, Odds(cs[2..]));
        Join(Some(Extent(cs[0], cs[1], cs[0], cs[1])), rest)
  }

  /** Dropping the first pair drops the first x value and the first y
      value. */
  lemma ShiftPairs(cs: seq<real>)
    requires |cs| >= 2
    ensures PairXs(cs) == [cs[0]] + PairXs(cs[2..])
    ensures Odds(cs) == [cs[1]] + Odds(cs[2..])
  {
    ShiftPairXs(cs);
    ShiftOdds(cs);
  }

  lemma ShiftPairXs(cs: seq<real>)
    requires |cs| >= 2
    ensures PairXs(cs) == [cs[0]] + PairXs(cs[2..])
  {
    var t := cs[2..];
    var a := PairXs(cs);
    var b := [cs[0]] + PairXs(t);
    assert |t| / 2 == |cs| / 2 - 1;
    forall k | 1 <= k < |a|
      ensures a[k] == b[k]
    {
      assert b[k] == PairXs(t)[k - 1] == t[2 * (k - 1)];
      assert 2 * (k - 1) + 2 == 2 * k;
    }
  }

  lemma ShiftOdds(cs: seq<real>)
    requires |cs| >= 2
    ensures Odds(cs) == [cs[1]] + Odds(cs[2..])
  {
    var t := cs[2..];
    var a := Odds(cs);
    var b := [cs[1]] + Odds(t);
    assert |t| / 2 == |cs| / 2 - 1;
    forall k | 1 <= k < |a|
      ensures a[k] == b[k]
    {
      assert b[k] == Odds(t)[k - 1] == t[2 * (k - 1) + 1];
      assert 2 * (k - 1) + 3 == 2 * k + 1;
    }
  }

  /** The box with the sides of an extent. */
  function ExtentBox(e: Extent): Box {
    Box(e.minX, e.minY, e.maxX - e.minX, e.maxY - e.minY)
  }

  /** On an even count the pairwise fold and `_get_path_bbox` agree. */
  lemma PairsMatchPathBox(cs: seq<real>)
    requires |cs| >= 2 && |cs| % 2 == 0
    ensures PathBBox(cs) == Some(ExtentBox(PairsExtent(cs).value))
  {
    PairXsEven(cs);
    SameSpans(PathBBox(cs).value, PairsExtent(cs).value, Evens(cs), Odds(cs));
  }

  /** A box and an extent spanning the same values are the same region. */
  lemma SameSpans(b: Box, e: Extent, xs: seq<real>, ys: seq<real>)
    requires Spans(b.x, b.x + b.w, xs) && Spans(e.minX, e.maxX, xs)
    requires Spans(b.y, b.y + b.h, ys) && Spans(e.minY, e.maxY, ys)
    ensures b == ExtentBox(e)
  {
    SpansUnique(b.x, b.x + b.w, e.minX, e.maxX, xs);
    SpansUnique(b.y, b.y + b.h, e.minY, e.maxY, ys);
  }

  // ---------------------------------------------------------------------
  // _calculate_bounds
  // ---------------------------------------------------------------------

  /** What one drawable element adds to the extent in `_calculate_bounds`:
      circles and rects always, paths only with an even count of numbers. */
  function BoardContribution(e: Node): Option<Extent> {
    BoardExtent(ShapeOf(e))
  }

  function BoardExtent(s: Shape): (r: Option<Extent>)
    ensures s.Path? && |s.coords| % 2 == 1 ==> r.None?
    ensures s.Path? && |s.coords| % 2 == 0 ==> r == PairsExtent(s.coords)
  {
    match s
    case Circle(cx, cy, rad) => Some(Extent(cx - rad, cy - rad, cx + rad, cy + rad))
    case Path(cs) => if |cs| % 2 == 0 then PairsExtent(cs) else None
    case Rect(x, y, w, h) => Some(Extent(x, y, x + w, y + h))
    case Other => None
  }

  function BoardContributions(shapes: seq<Node>): (r: seq<Option<Extent>>)
    ensures |r| == |shapes| && forall i :: 0 <= i < |shapes| ==> r[i] == BoardContribution(shapes[i])
  {
    seq(|shapes|, i requires 0 <= i < |shapes| => BoardContribution(shapes[i]))
  }

  /** `_calculate_bounds`: the min corner and size of the extent of the
      drawable elements; (0, 0, 100, 100) when no element contributes. Any
      `viewBox` is ignored. */
  function CalculateBounds(root: Node): (r: Box)
    ensures (forall i :: 0 <= i < |Drawables(root)| ==> BoardContribution(Drawables(root)[i]).None?) ==>
              r == Box(0.0, 0.0, 100.0, 100.0)
  {
    match UnionAll(BoardContributions(Drawables(root)))
    case None => Box(0.0, 0.0, 100.0, 100.0)
    case Some(u) => ExtentBox(u)
  }

  /** `e` is the tightest extent around the present members of `es`: it
      covers each of them and each of its four sides is reached by one. */
  ghost predicate Tight(es: seq<Option<Extent>>, e: Extent) {
    && (forall i :: 0 <= i < |es| && es[i].Some? ==> Covers(e, es[i].value))
    && (exists i :: 0 <= i < |es| && es[i].Some? && es[i].value.minX == e.minX)
    && (exists i :: 0 <= i < |es| && es[i].Some? && es[i].value.maxX == e.maxX)
    && (exists i :: 0 <= i < |es| && es[i].Some? && es[i].value.minY == e.minY)
    && (exists i :: 0 <= i < |es| && es[i].Some? && es[i].value.maxY == e.maxY)
  }

  /** The union of some extents is the tightest extent around them. */
  lemma UnionTight(es: seq<Option<Extent>>)
    requires exists i :: 0 <= i < |es| && es[i].Some?
    ensures UnionAll(es).Some? && Tight(es, UnionAll(es).value)
  {
  }

  /** When some element contributes, the board box is the tightest box
      around all contributions (`BoardContributions` lists them in element
      order): it covers each of them and each of its sides is reached by
      one. */
  lemma CalculateBoundsTight(root: Node)
    requires exists i :: 0 <= i < |Drawables(root)| && BoardContribution(Drawables(root)[i]).Some?
    ensures Tight(BoardContributions(Drawables(root)), BoxExtent(CalculateBounds(root)))
  {
    var es := BoardContributions(Drawables(root));
    assert exists i :: 0 <= i < |es| && es[i].Some? by {
      var i :| 0 <= i < |Drawables(root)| && BoardContribution(Drawables(root)[i]).Some?;
      assert es[i].Some?;
    }
    assert UnionAll(es).Some? && CalculateBounds(root) == ExtentBox(UnionAll(es).value);
    ExtentBoxBack(UnionAll(es).value);
    UnionTightAt(es, BoxExtent(CalculateBounds(root)));
  }

  /** The corners of the box of an extent are the extent. */
  lemma ExtentBoxBack(u: Extent)
    ensures BoxExtent(ExtentBox(u)) == u
  {
  }

  /** The corners of a box, as an extent. */
  function BoxExtent(b: Box): Extent {
    Extent(b.x, b.y, b.x + b.w, b.y + b.h)
  }

  /** The union, under another name, is tight. */
  lemma UnionTightAt(es: seq<Option<Extent>>, e: Extent)
    requires UnionAll(es).Some? && e == UnionAll(es).value
    ensures Tight(es, e)
  {
    UnionTight(es);
  }

  /** A board with one rect of its own reads back that rect. */
  lemma CalculateBoundsOfRect(x: real, y: real, w: real, h: real)
    requires w >= 0.0 && h >= 0.0
    ensures var e := Node(Tag(SvgNs, "rect"), map["x" := Num(x), "y" := Num(y), "width" := Num(w), "height" := Num(h)], []);
            CalculateBounds(e) == Box(x, y, w, h)
  {
    var e := Node(Tag(SvgNs, "rect"), map["x" := Num(x), "y" := Num(y), "width" := Num(w), "height" := Num(h)], []);
    assert IsDrawable(e.tag) by {
      assert DrawableNames[2] == "rect";
    }
    assert Drawables(e) == [e];
    assert BoardContributions([e]) == [Some(Extent(x, y, x + w, y + h))];
    assert [Some(Extent(x, y, x + w, y + h))][1..] == [];
  }

  // ---------------------------------------------------------------------
  // get_component_bounds
  // ---------------------------------------------------------------------

  /** What one element adds in `get_component_bounds`: any element whose
      local name is rect, circle or path, in any namespace; a path's
      trailing odd number is dropped. */
  function ArtContribution(e: Node): Option<Extent> {
    ArtExtent(LocalShapeOf(e))
  }

  function ArtExtent(s: Shape): (r: Option<Extent>)
    ensures s.Path? ==> r == PairsExtent(s.coords)
  {
    match s
    case Rect(x, y, w, h) => Some(Extent(x, y, x + w, y + h))
    case Circle(cx, cy, rad) => Some(Extent(cx - rad, cy - rad, cx + rad, cy + rad))
    case Path(cs) => PairsExtent(cs)
    case Other => None
  }

  function ArtContributions(nodes: seq<Node>): (r: seq<Option<Extent>>)
    ensures |r| == |nodes| && forall i :: 0 <= i < |nodes| ==> r[i] == ArtContribution(nodes[i])
  {
    seq(|nodes|, i requires 0 <= i < |nodes| => ArtContribution(nodes[i]))
  }

  /** The four numbers of a usable `viewBox`: the value must parse into
      exactly four numbers, otherwise the source's unpacking fails and the
      attribute is ignored. */
  function ViewBoxOf(root: Node): (r: Option<seq<real>>)
    ensures r.Some? ==> |r.value| == 4
    ensures r.Some? <==> "viewBox" in root.attrs && root.attrs["viewBox"].Coords? && |root.attrs["viewBox"].cs| == 4
  {
    if "viewBox" in root.attrs && root.attrs["viewBox"].Coords? && |root.attrs["viewBox"].cs| == 4
    then Some(root.attrs["viewBox"].cs) else None
  }

  /** `get_component_bounds`: center and size of the artwork. */
  function ComponentBounds(root: Node): (r: Centered)
    ensures ViewBoxOf(root).Some? ==>
              var vb := ViewBoxOf(root).value;
              r == Centered(vb[0] + vb[2] / 2.0, vb[1] + vb[3] / 2.0, vb[2], vb[3])
  {
    match ViewBoxOf(root)
    case Some(vb) => Centered(vb[0] + vb[2] / 2.0, vb[1] + vb[3] / 2.0, vb[2], vb[3])
    case None =>
      match UnionAll(ArtContributions(PreOrder(root)))
      case None => Centered(0.0, 0.0, 10.0, 10.0)
      case Some(u) => CenterOf(u)
  }

  /** An extent reported by its center and size. */
  function CenterOf(u: Extent): Centered {
    var w := u.maxX - u.minX;
    var h := u.maxY - u.minY;
    Centered(u.minX + w / 2.0, u.minY + h / 2.0, w, h)
  }

  /** The sides of an extent reported by its center are the extent's. */
  lemma CenterOfBack(u: Extent)
    ensures CenteredExtent(CenterOf(u)) == u
  {
  }

  /** With a usable `viewBox` the children play no part. */
  lemma ViewBoxIgnoresChildren(root: Node, children: seq<Node>)
    requires ViewBoxOf(root).Some?
    ensures ComponentBounds(root.(children := children)) == ComponentBounds(root)
  {
  }

  /** Without a usable `viewBox` and with no rect, circle or path that
      contributes, the artwork is taken to be 10 by 10 at the origin. */
  lemma ComponentBoundsDefault(root: Node)
    requires ViewBoxOf(root).None?
    requires forall i :: 0 <= i < |PreOrder(root)| ==> ArtContribution(PreOrder(root)[i]).None?
    ensures ComponentBounds(root) == Centered(0.0, 0.0, 10.0, 10.0)
  {
  }

  /** Without a usable `viewBox`, the box reaches exactly as far as the
      contributions: each lies within it, and each side is reached. */
  lemma ComponentBoundsTight(root: Node)
    requires ViewBoxOf(root).None?
    requires exists i :: 0 <= i < |PreOrder(root)| && ArtContribution(PreOrder(root)[i]).Some?
    ensures Tight(ArtContributions(PreOrder(root)), CenteredExtent(ComponentBounds(root)))
  {
    var es := ArtContributions(PreOrder(root));
    assert exists i :: 0 <= i < |es| && es[i].Some? by {
      var i :| 0 <= i < |PreOrder(root)| && ArtContribution(PreOrder(root)[i]).Some?;
      assert es[i].Some?;
    }
    assert UnionAll(es).Some? && ComponentBounds(root) == CenterOf(UnionAll(es).value);
    CenterOfBack(UnionAll(es).value);
    UnionTightAt(es, CenteredExtent(ComponentBounds(root)));
  }

  /** The sides of a box given by its center and size, as an extent. */
  function CenteredExtent(b: Centered): Extent {
    Extent(b.cx - b.w / 2.0, b.cy - b.h / 2.0, b.cx + b.w / 2.0, b.cy + b.h / 2.0)
  }

  /** A contribution whose far sides are not below its near sides: what
      rects of non-negative size, circles of non-negative radius and all
      paths give. */
  predicate Proper(e: Extent) {
    e.minX <= e.maxX && e.minY <= e.maxY
  }

  lemma PairsExtentProper(cs: seq<real>)
    requires |cs| >= 2
    ensures Proper(PairsExtent(cs).value)
  {
    assert cs[0] == cs[0];
  }

  /** Without a usable `viewBox`, when every contribution is proper the
      width and height are not negative. */
  lemma ComponentBoundsNonNegative(root: Node)
    requires ViewBoxOf(root).None?
    requires forall i :: 0 <= i < |PreOrder(root)| && ArtContribution(PreOrder(root)[i]).Some? ==>
               Proper(ArtContribution(PreOrder(root)[i]).value)
    ensures ComponentBounds(root).w >= 0.0 && ComponentBounds(root).h >= 0.0
  {
    var es := ArtContributions(PreOrder(root));
    var u := UnionAll(es);
    if u.Some? {
      var i :| 0 <= i < |es| && es[i].Some? && es[i].value.minX == u.value.minX;
      var j :| 0 <= j < |es| && es[j].Some? && es[j].value.minY == u.value.minY;
      assert Covers(u.value, es[i].value) && Covers(u.value, es[j].value);
    }
  }
}
