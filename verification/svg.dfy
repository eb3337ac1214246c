/** The SVG document tree as the renderer reads it, with attribute values
    already parsed: an element is a tag, an attribute map and its children. */
module Svg {

  /** The SVG namespace URI. */
  const SvgNs: string := "http://www.w3.org/2000/svg"

  /** An element name. `ns` is "" for an element without a namespace. */
  datatype Tag = Tag(ns: string, local: string)

  /** A parsed attribute value: a number, the numbers of a list-valued
      attribute (the coordinates found in `d`, the numbers of `viewBox`), or
      text that is neither. */
  datatype Attr = Num(n: real) | Coords(cs: seq<real>) | Text(s: string)

  datatype Node = Node(tag: Tag, attrs: map<string, Attr>, children: seq<Node>)

  /** `float(element.get(name, 0))`: a missing attribute reads as 0. */
  function NumAttr(e: Node, name: string): (r: real)
    ensures name !in e.attrs ==> r == 0.0
    ensures name in e.attrs && e.attrs[name].Num? ==> r == e.attrs[name].n
  {
    if name in e.attrs && e.attrs[name].Num? then e.attrs[name].n else 0.0
  }

  /** The numbers found in the `d` attribute, in order. */
  function PathCoords(e: Node): (r: seq<real>)
    ensures "d" !in e.attrs ==> r == []
  {
    if "d" in e.attrs then
      match e.attrs["d"]
      case Coords(cs) => cs
      case Num(n) => [n]
      case Text(_) => []
    else []
  }

  /** `element.tag in ['{svg-ns}name', 'name']`. */
  predicate IsSvgTag(t: Tag, name: string) {
    (t.ns == "" || t.ns == SvgNs) && t.local == name
  }

  /** The element names `_get_drawable_elements` collects. */
  const DrawableNames: seq<string> := ["path", "circle", "rect", "line", "polygon", "polyline", "ellipse"]

  /** The name test of `_get_drawable_elements`: the SVG namespace prefix is
      stripped, any other namespace is kept and so never matches. */
  predicate IsDrawable(t: Tag) {
    (t.ns == "" || t.ns == SvgNs) && t.local in DrawableNames
  }

  /** The geometry of an element as the renderer reads it. */
  datatype Shape =
    | Circle(cx: real, cy: real, r: real)
    | Rect(x: real, y: real, w: real, h: real)
    | Path(coords: seq<real>)
    | Other

  function CircleOf(e: Node): Shape {
    Circle(NumAttr(e, "cx"), NumAttr(e, "cy"), NumAttr(e, "r"))
  }

  function RectOf(e: Node): Shape {
    Rect(NumAttr(e, "x"), NumAttr(e, "y"), NumAttr(e, "width"), NumAttr(e, "height"))
  }

  /** The shape dispatch of `SVGProcessor`: circle, rect or path in the SVG
      namespace or in none. */
  function ShapeOf(e: Node): (r: Shape)
    ensures r.Circle? <==> IsSvgTag(e.tag, "circle")
    ensures r.Rect? <==> IsSvgTag(e.tag, "rect")
    ensures r.Path? <==> IsSvgTag(e.tag, "path")
  {
    if IsSvgTag(e.tag, "circle") then CircleOf(e)
    else if IsSvgTag(e.tag, "rect") then RectOf(e)
    else if IsSvgTag(e.tag, "path") then Path(PathCoords(e))
    else Other
  }

  /** The shape dispatch of `get_component_bounds`, on the local name only
      (`tag.split('}')[-1]`), whatever the namespace. */
  function LocalShapeOf(e: Node): (r: Shape)
    ensures r.Circle? <==> e.tag.local == "circle"
    ensures r.Rect? <==> e.tag.local == "rect"
    ensures r.Path? <==> e.tag.local == "path"
  {
    if e.tag.local == "rect" then RectOf(e)
    else if e.tag.local == "circle" then CircleOf(e)
    else if e.tag.local == "path" then Path(PathCoords(e))
    else Other
  }

  /** On the SVG namespace and on no namespace both dispatches agree. */
  lemma ShapeDispatchesAgree(e: Node)
    requires e.tag.ns == "" || e.tag.ns == SvgNs
    ensures ShapeOf(e) == LocalShapeOf(e)
  {
  }

  // ---------------------------------------------------------------------
  // Traversal
  // ---------------------------------------------------------------------

  /** Every element of the tree, parent before children, children in order. */
  function PreOrder(e: Node): (r: seq<Node>)
    ensures |r| > 0 && r[0] == e
    decreases e, 1
  {
    [e] + PreOrderAll(e.children)
  }

  function PreOrderAll(es: seq<Node>): seq<Node>
    decreases es, 0
  {
    if es == [] then [] else PreOrder(es[0]) + PreOrderAll(es[1..])
  }

  /** `_get_drawable_elements`: the drawable elements of the tree in
      pre-order. */
  function Drawables(e: Node): (r: seq<Node>)
    ensures forall i :: 0 <= i < |r| ==> IsDrawable(r[i].tag)
    ensures IsDrawable(e.tag) ==> |r| > 0 && r[0] == e
    decreases e, 1
  {
    (if IsDrawable(e.tag) then [e] else []) + DrawablesAll(e.children)
  }

  function DrawablesAll(es: seq<Node>): (r: seq<Node>)
    ensures forall i :: 0 <= i < |r| ==> IsDrawable(r[i].tag)
    decreases es, 0
  {
    if es == [] then [] else Drawables(es[0]) + DrawablesAll(es[1..])
  }

  /** The drawable members of `s`, in order. */
  function KeepDrawable(s: seq<Node>): (r: seq<Node>)
    ensures |r| <= |s|
  {
    if s == [] then [] else (if IsDrawable(s[0].tag) then [s[0]] else []) + KeepDrawable(s[1..])
  }

  lemma {:induction false} KeepDrawableAppend(a: seq<Node>, b: seq<Node>)
    ensures KeepDrawable(a + b) == KeepDrawable(a) + KeepDrawable(b)
    decreases |a|
  {
    if a == [] {
      assert a + b == b;
    } else {
      var head := if IsDrawable(a[0].tag) then [a[0]] else [];
      assert (a + b)[0] == a[0];
      assert (a + b)[1..] == a[1..] + b;
      KeepDrawableAppend(a[1..], b);
      calc {
        KeepDrawable(a + b);
        head + KeepDrawable(a[1..] + b);
        head + (KeepDrawable(a[1..]) + KeepDrawable(b));
        (head + KeepDrawable(a[1..])) + KeepDrawable(b);
        KeepDrawable(a) + KeepDrawable(b);
      }
    }
  }

  /** The collected elements are exactly the drawable elements of the
      pre-order walk, in the same order. */
  lemma {:induction false} DrawablesArePreOrder(e: Node)
    ensures Drawables(e) == KeepDrawable(PreOrder(e))
    decreases e, 1
  {
    DrawablesAllArePreOrder(e.children);
    KeepDrawableAppend([e], PreOrderAll(e.children));
  }

  lemma {:induction false} DrawablesAllArePreOrder(es: seq<Node>)
    ensures DrawablesAll(es) == KeepDrawable(PreOrderAll(es))
    decreases es, 0
  {
    if es != [] {
      DrawablesArePreOrder(es[0]);
      DrawablesAllArePreOrder(es[1..]);
      KeepDrawableAppend(PreOrder(es[0]), PreOrderAll(es[1..]));
    }
  }

  // ---------------------------------------------------------------------
  // Clean copy
  // ---------------------------------------------------------------------

  /** The presentation attributes `_create_clean_copy` removes. */
  const StyleAttrs: set<string> := {"fill", "stroke", "style", "stroke-width"}

  /** `_create_clean_copy`: same tag, every attribute but the four style
      attributes, and no children. */
  function CleanCopy(e: Node): (r: Node)
    ensures r.tag == e.tag && r.children == []
    ensures forall a :: a in r.attrs <==> a in e.attrs && a !in StyleAttrs
    ensures forall a :: a in r.attrs ==> r.attrs[a] == e.attrs[a]
  {
    Node(e.tag, e.attrs - StyleAttrs, [])
  }

  /** Cleaning a clean copy changes nothing. */
  lemma CleanCopyIdempotent(e: Node)
    ensures CleanCopy(CleanCopy(e)) == CleanCopy(e)
  {
    assert CleanCopy(CleanCopy(e)).attrs == CleanCopy(e).attrs;
  }

  /** A clean copy has the geometry of its original. */
  lemma CleanCopyKeepsShape(e: Node)
    ensures ShapeOf(CleanCopy(e)) == ShapeOf(e)
    ensures LocalShapeOf(CleanCopy(e)) == LocalShapeOf(e)
  {
    var c := CleanCopy(e);
    forall a | a !in StyleAttrs
      ensures NumAttr(c, a) == NumAttr(e, a)
    {
    }
    assert "d" !in StyleAttrs;
    assert PathCoords(c) == PathCoords(e);
  }
}
