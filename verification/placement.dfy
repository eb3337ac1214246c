/** `_add_component_placement`: which position-table records of a side are
    placed, where each lands on the board, and the image drawn there. */
module Placement {
  import opened Wrappers
  import opened Text
  import opened Seqs
  import opened Components
  import opened MappingConfig
  import opened Svg
  import opened Geometry
  import opened Transform

  /** The record's side, "top" when it has none, matches `side` ignoring
      case. */
  predicate OnSide(comp: Component, side: string) {
    ToLower(comp.side.GetOr("top")) == ToLower(side)
  }

  /** The references of the records of `s` on `side`. */
  function SideRefs(s: seq<Component>, side: string): set<string>
    decreases |s|
  {
    if s == [] then {}
    else
      var last := s[|s| - 1];
      SideRefs(s[..|s| - 1], side) + (if OnSide(last, side) then {last.reference} else {})
  }

  /** A reference is collected exactly when some record on the side has it. */
  lemma {:induction false} SideRefsMeaning(s: seq<Component>, side: string, ref: string)
    ensures ref in SideRefs(s, side) <==>
            exists j :: 0 <= j < |s| && OnSide(s[j], side) && s[j].reference == ref
    decreases |s|
  {
    if s != [] {
      var front := s[..|s| - 1];
      SideRefsMeaning(front, side, ref);
      if ref in SideRefs(front, side) {
        var j :| 0 <= j < |front| && OnSide(front[j], side) && front[j].reference == ref;
        assert s[j] == front[j];
      }
      if exists j :: 0 <= j < |s| && OnSide(s[j], side) && s[j].reference == ref {
        var j :| 0 <= j < |s| && OnSide(s[j], side) && s[j].reference == ref;
        if j < |front| {
          assert front[j] == s[j];
        }
      }
    }
  }

  /** Record `i` is on the side and is the first on the side with its
      reference: this is the record the loop places for that reference. */
  predicate FirstOnSide(comps: seq<Component>, side: string, i: nat)
    requires i < |comps|
  {
    OnSide(comps[i], side) && comps[i].reference !in SideRefs(comps[..i], side)
  }

  /** What the loop has collected after the first `i` records. */
  ghost predicate CollectedUpTo(comps: seq<Component>, side: string, i: nat,
                                at: seq<nat>, placed: seq<Component>, seen: set<string>)
  {
    && i <= |comps|
    && |placed| == |at|
    && (forall k :: 0 <= k < |at| ==> at[k] < i && placed[k] == comps[at[k]])
    && Increasing(at)
    && (forall j :: 0 <= j < i ==> (j in at <==> FirstOnSide(comps, side, j)))
    && seen == SideRefs(comps[..i], side)
  }

  /** The collected references grow by the record's own, when on the side. */
  lemma SideRefsStep(comps: seq<Component>, side: string, i: nat)
    requires i < |comps|
    ensures SideRefs(comps[..i + 1], side) ==
            SideRefs(comps[..i], side) + (if OnSide(comps[i], side) then {comps[i].reference} else {})
  {
    assert comps[..i + 1][..i] == comps[..i];
  }

  lemma CollectFirst(comps: seq<Component>, side: string, i: nat,
                     at: seq<nat>, placed: seq<Component>, seen: set<string>)
    requires CollectedUpTo(comps, side, i, at, placed, seen)
    requires i < |comps| && FirstOnSide(comps, side, i)
    ensures CollectedUpTo(comps, side, i + 1, at + [i], placed + [comps[i]], seen + {comps[i].reference})
  {
    SideRefsStep(comps, side, i);
    SnocMembers(at, i);
  }

  lemma CollectSkip(comps: seq<Component>, side: string, i: nat,
                    at: seq<nat>, placed: seq<Component>, seen: set<string>)
    requires CollectedUpTo(comps, side, i, at, placed, seen)
    requires i < |comps| && !FirstOnSide(comps, side, i)
    ensures CollectedUpTo(comps, side, i + 1, at, placed, seen)
  {
    SideRefsStep(comps, side, i);
    assert i !in at;
  }

  /** The records `_add_component_placement` attempts, in table order: those
      on the side, each reference once, its first record winning. A
      reference is used up even when its artwork is then not found. `at`
      holds their positions in `comps`. */
  method SideComponents(comps: seq<Component>, side: string) returns (at: seq<nat>, placed: seq<Component>)
    ensures |placed| == |at|
    ensures forall k :: 0 <= k < |at| ==> at[k] < |comps| && placed[k] == comps[at[k]]
    ensures Increasing(at)
    ensures forall i :: 0 <= i < |comps| ==> (i in at <==> FirstOnSide(comps, side, i))
  {
    at := [];
    placed := [];
    var seen: set<string> := {};
    var i := 0;
    while i < |comps|
      invariant i <= |comps|
      invariant CollectedUpTo(comps, side, i, at, placed, seen)
    {
      var comp := comps[i];
      if ToLower(comp.side.GetOr("top")) == ToLower(side) && comp.reference !in seen {
        CollectFirst(comps, side, i, at, placed, seen);
        at := at + [i];
        placed := placed + [comp];
        seen := seen + {comp.reference};
      } else {
        CollectSkip(comps, side, i, at, placed, seen);
      }
      i := i + 1;
    }
  }

  /** Records chosen by the rule above never share a reference. */
  lemma FirstOnSideDistinct(comps: seq<Component>, side: string, i: nat, j: nat)
    requires i < j < |comps|
    requires FirstOnSide(comps, side, i) && FirstOnSide(comps, side, j)
    ensures comps[i].reference != comps[j].reference
  {
    var pre := comps[..j];
    assert pre[i] == comps[i];
    SideRefsMeaning(pre, side, comps[i].reference);
  }

  /** Every reference on the side has a chosen record. */
  lemma FirstOnSideCovers(comps: seq<Component>, side: string, i: nat)
    requires i < |comps| && OnSide(comps[i], side)
    ensures exists j :: 0 <= j <= i && FirstOnSide(comps, side, j) && comps[j].reference == comps[i].reference
    decreases i
  {
    if !FirstOnSide(comps, side, i) {
      SideRefsMeaning(comps[..i], side, comps[i].reference);
      var j :| 0 <= j < i && OnSide(comps[..i][j], side) && comps[..i][j].reference == comps[i].reference;
      assert comps[..i][j] == comps[j];
      FirstOnSideCovers(comps, side, j);
    }
  }

  // ---------------------------------------------------------------------
  // Position
  // ---------------------------------------------------------------------

  /** Where a record is drawn: its x from the board's left edge, its y
      measured up from the board's bottom edge, since the table's y axis
      points up and SVG's points down. */
  function RenderPosition(board: Box, comp: Component): Point {
    Point(board.x + comp.x, board.y + (board.h - comp.y))
  }

  /** The table coordinates of a drawing position. */
  function TablePosition(board: Box, p: Point): (real, real) {
    (p.x - board.x, board.y + board.h - p.y)
  }

  /** Drawing positions and table coordinates are in one-to-one
      correspondence. */
  lemma PositionRoundTrip(board: Box, comp: Component, p: Point)
    ensures TablePosition(board, RenderPosition(board, comp)) == (comp.x, comp.y)
    ensures var t := TablePosition(board, p);
            RenderPosition(board, comp.(x := t.0, y := t.1)) == p
  {
  }

  /** A record lands on the board exactly when its table coordinates lie
      within the board's width and height. */
  lemma PositionOnBoard(board: Box, comp: Component)
    ensures Inside(board, RenderPosition(board, comp)) <==>
            0.0 <= comp.x <= board.w && 0.0 <= comp.y <= board.h
  {
  }

  /** The transform list of the placed image: shift by half the image so
      its center is at the origin, turn by the negated rotation, then move
      to the drawing position. */
  function ImageTransform(pos: Point, rotation: real, width: real, height: real): seq<Xf> {
    [Translate(pos.x, pos.y), Rotate(-rotation, 0.0, 0.0), Translate(-width / 2.0, -height / 2.0)]
  }

  /** Whatever the rotation, the image's center is drawn at the position. */
  lemma ImageCenterLands(trig: real -> Turn, pos: Point, rotation: real, width: real, height: real)
    ensures ApplyList(trig, ImageTransform(pos, rotation, width, height), Point(width / 2.0, height / 2.0)) == pos
  {
    var xs := ImageTransform(pos, rotation, width, height);
    var c := Point(width / 2.0, height / 2.0);
    assert ApplyList(trig, xs[2..], c) == Point(0.0, 0.0);
    assert ApplyList(trig, xs[1..], c) == Point(0.0, 0.0);
  }

  // ---------------------------------------------------------------------
  // One image
  // ---------------------------------------------------------------------

  /** A placed image: the record's reference, the artwork's name, the
      scaled size and the transform list. */
  datatype Image = Image(reference: string, svg: string, width: real, height: real, transform: seq<Xf>)

  /** A length of the artwork times the record's scale. */
  function Scaled(length: real, scale: real): real {
    length * scale
  }

  /** The image of one record once its artwork name `found`, its scale,
      its rotation and its drawing position are known. `art` gives the
      parsed artwork of a catalog name, None when the file is missing or
      does not parse; both are skipped. `bounds` measures the artwork. */
  function PlaceImage(reference: string, found: Option<string>, art: string -> Option<Node>,
                      bounds: Node -> Centered, scale: real, rotation: real, pos: Point): (r: Option<Image>)
    ensures r.Some? <==> found.Some? && art(found.value).Some?
    ensures r.Some? ==> r.value.reference == reference && r.value.svg == found.value
  {
    match found
    case None => None
    case Some(name) =>
      match art(name)
      case None => None
      case Some(root) =>
        var w := Scaled(bounds(root).w, scale);
        var h := Scaled(bounds(root).h, scale);
        Some(Image(reference, name, w, h, ImageTransform(pos, rotation, w, h)))
  }

  /** A placed image has the artwork's size times the scale, and its
      transform list centers it on the position, turned by the rotation. */
  lemma PlaceImageFacts(reference: string, found: Option<string>, art: string -> Option<Node>,
                        bounds: Node -> Centered, scale: real, rotation: real, pos: Point)
    requires PlaceImage(reference, found, art, bounds, scale, rotation, pos).Some?
    ensures var img := PlaceImage(reference, found, art, bounds, scale, rotation, pos).value;
            var b := bounds(art(img.svg).value);
            && img.width == Scaled(b.w, scale)
            && img.height == Scaled(b.h, scale)
            && img.transform == ImageTransform(pos, rotation, img.width, img.height)
  {
  }

  /** One step of `_add_component_placement`: the artwork chosen by the
      mapping table, sized by the record's scale, turned by its rotation and
      centered on its drawing position. */
  function PlaceComponent(c: Config, keys: seq<string>, art: string -> Option<Node>, board: Box, comp: Component)
    : (r: Option<Image>)
    ensures r.Some? <==> FindComponentSvg(c, keys, comp).Some? && art(FindComponentSvg(c, keys, comp).value).Some?
    ensures r.Some? ==> r.value.reference == comp.reference && r.value.svg == FindComponentSvg(c, keys, comp).value
  {
    PlaceImage(comp.reference, FindComponentSvg(c, keys, comp), art, ComponentBounds,
               ComponentScale(c, comp), ComponentRotation(c, comp), RenderPosition(board, comp))
  }

  /** For a placed record: the artwork's size times the record's scale,
      and a transform list that turns the image by the record's rotation
      and, by `ImageCenterLands`, puts its center on the record's drawing
      position. */
  lemma PlacedImage(c: Config, keys: seq<string>, art: string -> Option<Node>, board: Box, comp: Component)
    requires PlaceComponent(c, keys, art, board, comp).Some?
    ensures PlaceComponent(c, keys, art, board, comp).value.width ==
            Scaled(ComponentBounds(art(PlaceComponent(c, keys, art, board, comp).value.svg).value).w, ComponentScale(c, comp))
    ensures PlaceComponent(c, keys, art, board, comp).value.height ==
            Scaled(ComponentBounds(art(PlaceComponent(c, keys, art, board, comp).value.svg).value).h, ComponentScale(c, comp))
    ensures var img := PlaceComponent(c, keys, art, board, comp).value;
            img.transform == ImageTransform(RenderPosition(board, comp), ComponentRotation(c, comp), img.width, img.height)
  {
    var found := FindComponentSvg(c, keys, comp);
    var scale := ComponentScale(c, comp);
    var rotation := ComponentRotation(c, comp);
    var pos := RenderPosition(board, comp);
    var measure := ComponentBounds;
    var r := PlaceImage(comp.reference, found, art, measure, scale, rotation, pos);
    assert PlaceComponent(c, keys, art, board, comp) == r;
    PlaceImageFacts(comp.reference, found, art, measure, scale, rotation, pos);
    var img := r.value;
    assert measure(art(img.svg).value) == ComponentBounds(art(img.svg).value);
  }

  /** The loop of `_add_component_placement` for any placing rule: the
      images of the chosen records that `place` draws, in table order.
      `from` holds the position in `comps` of each image's record. */
  method PlaceAllWith(comps: seq<Component>, side: string, place: Component -> Option<Image>)
    returns (images: seq<Image>, from: seq<nat>)
    ensures |from| == |images| && Increasing(from)
    ensures forall k :: 0 <= k < |images| ==>
              from[k] < |comps| && FirstOnSide(comps, side, from[k]) && place(comps[from[k]]) == Some(images[k])
    ensures forall i :: 0 <= i < |comps| && FirstOnSide(comps, side, i) && place(comps[i]).Some? ==>
              place(comps[i]).value in images
  {
    var at, placed := SideComponents(comps, side);
    images := [];
    from := [];
    var m := 0;
    while m < |at|
      invariant m <= |at|
      invariant |from| == |images| && Increasing(from)
      invariant forall k :: 0 <= k < |images| ==>
                  from[k] < |comps| && FirstOnSide(comps, side, from[k]) && place(comps[from[k]]) == Some(images[k])
      invariant forall k :: 0 <= k < |from| ==> exists n :: 0 <= n < m && from[k] == at[n]
      invariant forall n :: 0 <= n < m && place(placed[n]).Some? ==> place(placed[n]).value in images
    {
      var o := place(placed[m]);
      if o.Some? {
        assert at[m] in at;
        forall k | 0 <= k < |from|
          ensures from[k] < at[m]
        {
          var n :| 0 <= n < m && from[k] == at[n];
        }
        images := images + [o.value];
        from := from + [at[m]];
      }
      m := m + 1;
    }
    forall i | 0 <= i < |comps| && FirstOnSide(comps, side, i) && place(comps[i]).Some?
      ensures place(comps[i]).value in images
    {
      var n :| 0 <= n < |at| && at[n] == i;
    }
  }

  /** `_add_component_placement`: the images of one side, in table order,
      one per chosen record whose artwork is found. `from` holds the
      position in `comps` of each image's record. */
  method AddComponentPlacement(c: Config, keys: seq<string>, art: string -> Option<Node>, board: Box,
                               comps: seq<Component>, side: string)
    returns (images: seq<Image>, from: seq<nat>)
    ensures |from| == |images| && Increasing(from)
    ensures forall k :: 0 <= k < |images| ==>
              from[k] < |comps| && FirstOnSide(comps, side, from[k]) &&
              PlaceComponent(c, keys, art, board, comps[from[k]]) == Some(images[k])
    ensures forall i :: 0 <= i < |comps| && FirstOnSide(comps, side, i) &&
                        PlaceComponent(c, keys, art, board, comps[i]).Some? ==>
              PlaceComponent(c, keys, art, board, comps[i]).value in images
    ensures forall k, l :: 0 <= k < l < |images| ==> images[k].reference != images[l].reference
  {
    var place := (comp: Component) => PlaceComponent(c, keys, art, board, comp);
    images, from := PlaceAllWith(comps, side, place);
    forall k | 0 <= k < |images|
      ensures PlaceComponent(c, keys, art, board, comps[from[k]]) == Some(images[k])
    {
      assert place(comps[from[k]]) == Some(images[k]);
    }
    forall i | 0 <= i < |comps| && FirstOnSide(comps, side, i) && PlaceComponent(c, keys, art, board, comps[i]).Some?
      ensures PlaceComponent(c, keys, art, board, comps[i]).value in images
    {
      assert place(comps[i]) == PlaceComponent(c, keys, art, board, comps[i]);
    }
    forall k, l | 0 <= k < l < |images|
      ensures images[k].reference != images[l].reference
    {
      assert place(comps[from[k]]) == Some(images[k]) && place(comps[from[l]]) == Some(images[l]);
      FirstOnSideDistinct(comps, side, from[k], from[l]);
    }
  }
}
