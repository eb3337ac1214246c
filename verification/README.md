# Forge renderer core, modelled in Dafny

Forge turns a KiCad board's exported layer drawings (edge cuts, silkscreen,
solder mask, solder paste) and a component position table into a picture
of the assembled board, one per side, and then puts the two pictures side
by side. This project models the decision-making core of
`src/forge/main.py`:

- **The artwork resolver and mapping table** (`ComponentPlacer`): the three
  static rule tables, the search of the artwork catalog for a record's
  search terms, the persisted per-reference table built by
  `generate_universal_config`, its derived `global_mappings` index and the
  key order it is saved in, and the per-reference artwork, rotation and
  scale lookups.
- **Geometry and classification** (`SVGProcessor`): bounding boxes of
  circles, rects and paths; the board box; the artwork box; the overlap,
  mounting-hole, corner-pad and concentric-circle tests; the filtered
  solder-mask layer with its highlight table; silkscreen outline-or-fill;
  clean copies; and the collection of drawable elements.
- **Frame and placement**: the view window with its landscape turn, the
  mirror of the bottom side, where and how each component image is drawn,
  and the side-by-side combiner.

Modules: `Wrappers` (Option), `Seqs`, `Text` (ASCII lower-casing and
substring search), `Components` (a position-table record), `Resolver`,
`Sorting` (Python string order and the sort used when saving),
`MappingConfig`, `Svg` (the document tree), `Geometry`, `Classify`,
`Styling`, `Transform`, `Placement` and `Combiner`.

Several operations are proved once for any instance of their expensive
parts, which are passed in as function parameters, and then used with the
source's own instance. Examples are the resolver in
`MappingConfig.GenerateWith`, the box and spot rules in
`Styling.FilterMaskWith`, and the placing rule in
`Placement.PlaceAllWith`. The renderer's trigonometry is likewise a
parameter `trig`. Proofs about rotations only assume it is exact on 0,
-90 and 180 degrees (`Transform.ExactQuarterTurns`).

The code is followed where the program's prose description differs from
it. In particular, the bottom side's transform list
`rotate(180, cx, cy) translate(2cx, 0) scale(-1, 1)` keeps x and reflects
y through the board's horizontal center line
(`Transform.MirrorFlipsVertically`). The main group then applies its
landscape turn on top of that. So in the output the bottom drawing is the
top drawing mirrored left to right on a board wider than it is tall, and
flipped top to bottom on any other board (`Transform.BottomSideMirrored`).

Where each source function is defined. These definitions are pure
computations; what they promise is stated by the members in the table below.

- `_find_best_svg_match` and `_auto_assign_svg` with the search terms it builds (main.py:79-115): `Resolver.SearchTerms`, `Resolver.FindBestMatch`, `Resolver.AutoAssign`.
- The record loop of `generate_universal_config` (main.py:127-144): `MappingConfig.ProcessAll`, one iteration `MappingConfig.ProcessOne`.
- `_get_element_bbox` (main.py:496-516): `Geometry.ElementBBox`.
- `_is_mounting_hole` (main.py:371-387): `Classify.IsMountingHole`.
- `_has_inner_circle_nearby`, its per-circle test (main.py:390-406): `Classify.InnerNear`.
- `_is_near_corner` (main.py:408-438): `Classify.IsNearCorner`.
- `_is_overlap` (main.py:490-494): `Classify.IsOverlap`.
- The highlight branches of `_add_filtered_mask_layer` (main.py:556-610): `Styling.HighlightShape`.
- The silkscreen paint choice in `_add_pcb_layers` (main.py:691-700): `Styling.SilkPaint`.
- The bottom side's transform list in `combine_all_layers` (main.py:644-647): `Transform.MirrorList`.
- The side filter, the drawing position and the image transform list of `_add_component_placement` (main.py:722-757): `Placement.OnSide`, `Placement.RenderPosition`, `Placement.ImageTransform`.

## Model

| member | source | states |
|---|---|---|
| Text.ToLower | src/forge/main.py:82 | lower-casing keeps the length and maps each character by itself: A-Z down to a-z, everything else unchanged |
| Text.ToLowerIdempotent | src/forge/main.py:82 | lower-casing an already lower-cased name changes nothing, so comparing `term.lower()` with lower-cased keys is stable |
| Text.Contains | src/forge/main.py:85 | the executable scan answers true exactly when the pattern occurs as a contiguous part of the text (Python's `in` on strings) |
| Seqs.FirstWhere | src/forge/main.py:80-86 | the first-match search returns None exactly when nothing matches; otherwise it returns a matching position with no match before it |
| Resolver.ExactIsLoose | src/forge/main.py:82-85 | a case-insensitive exact match is also a match in the substring pass |
| Resolver.MatchTerm | src/forge/main.py:81-86 | for one term: whenever some catalog key equals it ignoring case, the answer is the first such key; otherwise, whenever some key contains it or is contained in it, the answer is the first such key; None when neither exists |
| Resolver.FindBestMatch | src/forge/main.py:79-87 | the answer is always a catalog key, and it is the answer of some term of the list |
| Resolver.FindBestMatchSpec | src/forge/main.py:79-87 | None exactly when no term matches any key; otherwise the answer of the earliest term that matches |
| Resolver.FindBestMatchNone | src/forge/main.py:79-87 | no answer if and only if every term misses |
| Resolver.FindBestMatchSome | src/forge/main.py:79-87 | an answer is that of the earliest term that hits; every earlier term misses |
| Resolver.NoTermsNoMatch | src/forge/main.py:87 | with no search terms the result is None |
| Resolver.RefKey | src/forge/main.py:94 | the lookup key is the reference's first character, or empty for an empty reference |
| Resolver.SpecialPrefix | src/forge/main.py:105-110 | the if/elif chain puts at most one special pair in front: LED for a D-reference with "led" in its value, else ESP32, else USB, else nothing |
| Resolver.AutoAssign | src/forge/main.py:89-115 | the assigned artwork is a catalog key, and it is the best match of the record's ordered search terms |
| Resolver.SearchTermsShape | src/forge/main.py:93-110 | the search terms are the special pair, then the terms of the first firing reference rule, then of the first firing package rule, then of the first firing value rule; a table where no rule fires adds nothing |
| Resolver.SwitchRuleNeverFires | src/forge/main.py:94-96 | the lookup uses one character, so the two-letter "SW" rule (declared at line 42) never fires for any reference |
| Resolver.SotRuleShadowed | src/forge/main.py:97-100 | any package containing "sot-23-5" also contains "sot-23", so the SOT-23-5 rule (line 47) is always shadowed by the SOT-23 rule declared before it |
| Resolver.FirstTermExactHit | src/forge/main.py:80-83 | when the first term equals a catalog key ignoring case, the first such key is the answer, whatever the later terms are |
| Resolver.DiodeLedPrefersLed | src/forge/main.py:105-106 | a D-reference whose value mentions "led" resolves to the catalog key named like "LED" when there is one |
| Resolver.ResistorByReference | src/forge/main.py:94-96 | an R-reference with no special keyword resolves to a key named like "Resistor" when there is one |
| Sorting.Insert | src/forge/main.py:181 | inserting into a sorted list gives a sorted list with exactly one more occurrence of the new name |
| Sorting.Sort | src/forge/main.py:181 | `list.sort()` on names yields a sorted permutation of its input |
| Sorting.LexLeTotal | src/forge/main.py:181 | any two names are comparable under Python's string order |
| Sorting.LexLeTrans | src/forge/main.py:181 | the string order is transitive |
| Sorting.LexLeAntisym | src/forge/main.py:181 | two names each at most the other are equal |
| Sorting.LexLeRefl | src/forge/main.py:181 | every name is at most itself |
| Sorting.SortedUnique | src/forge/main.py:181 | two sorted permutations of the same names are equal, so the saved order depends only on the set of references |
| MappingConfig.FindComponentSvg | src/forge/main.py:220-232 | a stored non-empty artwork name found in the catalog is used; otherwise the heuristic resolver's answer; any answer is a non-empty catalog key |
| MappingConfig.ProcessOne | src/forge/main.py:128-144 | one record: its reference gets an entry and no other entry changes; package and value are refreshed; a new entry starts with the record's rotation and scale 0.056 and is appended to the key order; a stored artwork is kept; an entry without artwork takes the resolver's answer when there is one and otherwise keeps its old value (none for a new entry); the change flag is set exactly when an entry or an artwork is added; the table stays well formed |
| MappingConfig.GenerateUniversalConfig | src/forge/main.py:117-148 | the result is well formed and has an index listing the catalog; a missing index forces a save; every record's reference has an entry; the entries are the old ones plus the referenced ones; stored artworks are kept; a reference without artwork takes the heuristic resolver's answer for its first record that gets one, and keeps its old value when none does; untouched entries are unchanged; package/value come from the last record with the reference; new entries take rotation from the first such record; the key order is the old one followed by the new references in order of first mention; the index is the refreshed index of the resulting table |
| MappingConfig.GenerateFacts | src/forge/main.py:117-148 | for any resolver: the whole-table facts above |
| MappingConfig.GenerateRecordFacts | src/forge/main.py:127-144 | for any resolver: the per-record facts above |
| MappingConfig.GenerateSvgFacts | src/forge/main.py:117-148 | for any resolver: the artwork, key-order and index facts above |
| MappingConfig.NewRefs | src/forge/main.py:129-136 | the references appended to the key order are all new and each appears once |
| MappingConfig.NewRefsMentioned | src/forge/main.py:127-136 | a reference is appended exactly when some record has it and the table did not |
| MappingConfig.ProcessAllRefs | src/forge/main.py:127-136 | the loop's key order is the old order followed by the new references in order of first mention |
| MappingConfig.ProcessAllSvg | src/forge/main.py:138-142 | after the loop a reference that had no artwork holds the resolver's answer for its first record that gets an answer, and its old value when no record gets one |
| MappingConfig.ProcessAllFrame | src/forge/main.py:127-144 | the loop adds exactly the records' references, keeps the index, and leaves every other entry alone |
| MappingConfig.ProcessAllKeepsSvg | src/forge/main.py:138-142 | an artwork already set is never replaced by the loop |
| MappingConfig.ProcessAllLast | src/forge/main.py:143-144 | after the loop, package and value of a reference are those of its last record |
| MappingConfig.ProcessAllFirst | src/forge/main.py:129-136 | a reference created by the loop keeps the rotation of its first record and scale 0.056 |
| MappingConfig.ProcessAllSettles | src/forge/main.py:138-142 | after one pass every record has an entry, and that entry either has an artwork or the resolver finds none for it |
| MappingConfig.ProcessAllSettledQuiet | src/forge/main.py:127-142 | on a settled table the loop adds no entry and no artwork and reports no change |
| MappingConfig.GenerateIdempotent | src/forge/main.py:117-148 | calling generation a second time with the same records and catalog reports no change and returns the same table |
| MappingConfig.GenerateWithIdempotent | src/forge/main.py:117-148 | the same idempotence for any resolver |
| MappingConfig.UpdateIgnoresIndex | src/forge/main.py:150-173 | the refreshed index depends on the entries and the index passed in, not on the index stored in the table |
| MappingConfig.ProcessAllFixpoint | src/forge/main.py:127-144 | a settled table whose entries already carry every record's package and value is returned unchanged with no change reported |
| MappingConfig.FirstWins | src/forge/main.py:162-170 | the "set if not already present" loop: the keys are the old ones plus every claimed key; old keys keep their values; a new key takes the artwork of its first claim |
| MappingConfig.KeywordClaims | src/forge/main.py:167-170 | four keyword claims per reference, in reference-major then keyword order, as the nested loop makes them |
| MappingConfig.KeywordClaimsOnKeywords | src/forge/main.py:168-170 | every keyword claim is on one of led, usb, esp32, crystal |
| MappingConfig.UpdateGlobalMappings | src/forge/main.py:150-173 | the catalog list is replaced; each of the three maps is the old map updated with the first-claim map of its claims; new keyword keys are among the four keywords |
| MappingConfig.MergeFirstWins | src/forge/main.py:171-173 | `dict.update` with the first-claim map: the keys are the old ones plus the claimed ones; a claimed key takes its first claim's artwork, an unclaimed key keeps its old value |
| MappingConfig.UpdateIdempotent | src/forge/main.py:150-173 | refreshing the index twice from the same table gives the same index as once |
| MappingConfig.UnionAbsorbs | src/forge/main.py:171-173 | updating a map with the same map twice changes nothing the second time |
| MappingConfig.SavedRefs | src/forge/main.py:180 | the saved references are exactly the table's keys other than the index key, each no more often than in the table |
| MappingConfig.SavedKeyOrder | src/forge/main.py:175-183 | the index is written first when present, followed by the references in sorted order |
| MappingConfig.OverridesAfterGenerate | src/forge/main.py:234-244 | after generation, a reference the call created reads back the first record's rotation and the scale 0.056 |
| MappingConfig.OverrideBeatsHeuristic | src/forge/main.py:222-226 | a stored artwork name present in the catalog is used even when the heuristic would pick another |
| Svg.NumAttr | src/forge/main.py:374-376 | a missing numeric attribute reads as 0, a number reads as itself |
| Svg.PathCoords | src/forge/main.py:299 | a path without `d` has no coordinates |
| Svg.ShapeOf | src/forge/main.py:496-516 | the shape is a circle, rect or path exactly when the tag is that name, in the SVG namespace or in none |
| Svg.LocalShapeOf | src/forge/main.py:286-299 | the artwork dispatch looks only at the local name, ignoring the namespace |
| Svg.ShapeDispatchesAgree | src/forge/main.py:286-299 | in the SVG namespace or in none, the two dispatches give the same shape |
| Svg.Drawables | src/forge/main.py:327-335 | only drawable elements are collected, and a drawable root comes first |
| Svg.DrawablesArePreOrder | src/forge/main.py:327-335 | the collected elements are exactly the drawable elements of the tree, parent before children, children in document order |
| Svg.CleanCopy | src/forge/main.py:362-369 | the copy has the same tag and no children, and keeps every attribute except fill, stroke, style and stroke-width, with the same values |
| Svg.CleanCopyIdempotent | src/forge/main.py:362-369 | cleaning a clean copy changes nothing |
| Svg.CleanCopyKeepsShape | src/forge/main.py:362-369 | a clean copy has the same geometry as its original under both dispatches |
| Geometry.SeqMin | src/forge/main.py:449-450 | `min` of a non-empty list is at most every element and is one of them |
| Geometry.SeqMax | src/forge/main.py:449-450 | `max` of a non-empty list is at least every element and is one of them |
| Geometry.SpansUnique | src/forge/main.py:449-450 | a list has one least and one greatest value |
| Geometry.Evens | src/forge/main.py:445 | `coords[0::2]`: the values at even positions, in order |
| Geometry.Odds | src/forge/main.py:446 | `coords[1::2]`: the values at odd positions, in order |
| Geometry.PairXs | src/forge/main.py:300-302 | the x values of the complete pairs, a trailing lone value left out |
| Geometry.PairXsEven | src/forge/main.py:348-350 | on an even count the complete pairs cover every x value |
| Geometry.PathBBox | src/forge/main.py:440-451 | a box exactly when there are at least two numbers; it spans the even-position values horizontally and the odd-position values vertically |
| Geometry.ShapeBox | src/forge/main.py:496-516 | circles give the box of the circle, rects their own box, paths their coordinate box; other shapes have none |
| Geometry.CircleBoxCentered | src/forge/main.py:499-503 | a circle's box is centered on the circle |
| Geometry.Join | src/forge/main.py:341-357 | the union of two partial extents is empty only when both are |
| Geometry.UnionAll | src/forge/main.py:338-360 | the running min/max over the elements: empty exactly when no element contributes; it covers every contribution and each side is attained by one |
| Geometry.PairsExtent | src/forge/main.py:300-303 | the pairwise loop yields an extent exactly when there is a complete pair; it spans the pairs' x and y values |
| Geometry.PairsMatchPathBox | src/forge/main.py:348-352 | on an even count, the pairwise loop and `_get_path_bbox` give the same box |
| Geometry.BoardExtent | src/forge/main.py:346-352 | a path with an odd number of coordinates adds nothing to the board; an even one adds its pairs' extent |
| Geometry.CalculateBounds | src/forge/main.py:337-360 | with no contributing element the board is (0, 0, 100, 100) |
| Geometry.CalculateBoundsTight | src/forge/main.py:337-360 | otherwise the board box is the tightest box covering every contribution, each of its four sides reached by one of them |
| Geometry.CalculateBoundsOfRect | src/forge/main.py:353-360 | for every rect with non-negative sides, a drawing holding just that rect reads back that rect |
| Geometry.ArtExtent | src/forge/main.py:298-303 | a path contributes the extent of its complete pairs |
| Geometry.ViewBoxOf | src/forge/main.py:275-284 | a `viewBox` is usable exactly when it holds exactly four numbers |
| Geometry.ComponentBounds | src/forge/main.py:274-313 | with a usable `viewBox` the center is the middle of that box and the size is its size |
| Geometry.ViewBoxIgnoresChildren | src/forge/main.py:275-282 | with a usable `viewBox`, the artwork's elements do not affect the result |
| Geometry.ComponentBoundsDefault | src/forge/main.py:307-308 | with no usable `viewBox` and no contributing element the result is center (0, 0), size 10 by 10 |
| Geometry.ComponentBoundsTight | src/forge/main.py:285-313 | otherwise the box reaches exactly as far as the contributions on each of its four sides, and is reported by its center |
| Geometry.PairsExtentProper | src/forge/main.py:300-303 | a path's extent never has its far side below its near side |
| Geometry.ComponentBoundsNonNegative | src/forge/main.py:309-313 | when every contribution is proper the artwork's width and height are non-negative |
| Classify.OverlapSymmetric | src/forge/main.py:490-494 | overlap does not depend on the order of the two boxes |
| Classify.SeparatedNoOverlap | src/forge/main.py:490-494 | boxes apart on either axis, or touching within the 0.1 tolerance, do not overlap |
| Classify.SelfOverlap | src/forge/main.py:490-494 | a box overlaps itself exactly when both its sides exceed the tolerance |
| Classify.MountingHoleExclusions | src/forge/main.py:371-387 | no non-circle, no circle of radius at most 1, and no circle centered in the middle half of the board on either axis is a mounting hole |
| Classify.InCornerMirror | src/forge/main.py:380-385 | the corner zones are symmetric under reflection through either center line of the board |
| Classify.MountingHoleMirror | src/forge/main.py:371-387 | flipping the board top to bottom does not change which circles are mounting holes |
| Classify.CornerProbe | src/forge/main.py:408-432 | the point tested for corners: a circle's center when its radius is at least 2, the center of a rect's or a path's box; none for other shapes or too few path numbers |
| Classify.NearCornerCircleIsHole | src/forge/main.py:408-438 | on a board of non-negative size the 20% corner zones lie within the 25% ones, so a corner circle is also a mounting hole |
| Classify.SmallCircleNotCorner | src/forge/main.py:415-416 | a circle of radius below 2 is never a corner pad |
| Classify.HasInnerCircleNearby | src/forge/main.py:390-406 | true exactly when some other listed circle is strictly smaller and centered within 0.5 of the element; always false for a non-circle |
| Classify.SelfNeverInner | src/forge/main.py:398-404 | a circle is never strictly smaller than itself, so skipping the element itself changes nothing |
| Styling.HighlightCentered | src/forge/main.py:556-610 | a light center is only drawn on a shape that has a box, at the center of that box |
| Styling.HighlightRadius | src/forge/main.py:556-610 | the radius table: 0.75r for a mounting hole, 0.55r for a circle with 0.2 < r < 1.2, 0.7 of the smaller side for a corner rect, 0.8 of it for a rect whose smaller side is in (0.4, 1.5); a path gets a spot exactly when it has a box and is a corner pad or the box's smaller side is in (0.4, 1.8), with radius 0.33 of that side; no spot otherwise |
| Styling.HighlightWithinPad | src/forge/main.py:556-610 | a spot on a circle is strictly inside it; a spot on a path lies within its box's inscribed circle |
| Styling.PasteBoxes | src/forge/main.py:525-531 | every paste box comes from a paste shape, and every paste shape with a box contributes it |
| Styling.FilterMaskWith | src/forge/main.py:541-553 | for any box and spot rule: a mask shape is drawn, in order, exactly when it has a box overlapping no paste box; the spots are those of the drawn shapes |
| Styling.Coincident | src/forge/main.py:545-549 | true exactly when the box overlaps some paste box |
| Styling.FilterMask | src/forge/main.py:518-610 | the drawn pads are clean copies of exactly the visible mask shapes, in document order, and the spots are their highlights |
| Styling.AddFilteredMaskLayer | src/forge/main.py:518-531 | nothing is drawn without a mask drawing; otherwise the drawable mask elements are filtered against the drawable paste elements, or against none when the paste drawing is missing, with the visibility, order, clean-copy and highlight facts of the filter |
| Styling.SilkPaintCases | src/forge/main.py:691-706 | only a circle of radius above 2.5 that is not a mounting hole is outlined; holes and every non-circle are filled |
| Styling.SilkPaintMirror | src/forge/main.py:693-695 | flipping the board top to bottom does not change how a circle is painted |
| Styling.SilkLayer | src/forge/main.py:683-706 | one painted copy per drawable silkscreen element, in document order; each copy has its original's geometry, and an outlined copy is always a circle of radius above 2.5 that is not a mounting hole |
| Styling.PasteLayer | src/forge/main.py:708-718 | one copy per drawable paste element, in document order, each drawable, with its original's geometry and without fill, stroke, style or stroke-width |
| Seqs.Flatten | src/forge/main.py:529 | the present values in order: each comes from the list and every present value appears |
| Transform.ApplyListAppend | src/forge/main.py:638-647 | nesting a group inside another applies the inner list first, then the outer |
| Transform.RotateFixesCenter | src/forge/main.py:641 | a rotation leaves its own center in place |
| Transform.ViewFrame | src/forge/main.py:622-641 | landscape exactly when wider than tall; then the window has swapped sides plus 2 of padding on each side, otherwise the board's sides plus padding; the window is centered on the board |
| Transform.FrameFitsBoard | src/forge/main.py:622-641 | through the main group a point is on the board exactly when its image lies in the window with the padding taken off |
| Transform.FrameKeepsCenter | src/forge/main.py:638-641 | the landscape turn keeps the board's center in place |
| Transform.MirrorFlipsVertically | src/forge/main.py:644-647 | the bottom side's list keeps x and reflects y through the board's horizontal center line |
| Transform.MirrorInvolution | src/forge/main.py:644-647 | applying the bottom side's list twice gives back every point |
| Transform.MirrorKeepsBoard | src/forge/main.py:644-647 | the bottom side's list maps the board onto itself |
| Transform.SideChoices | src/forge/main.py:644-652 | "top" draws the front files unmirrored, "bottom" the back files mirrored, any other side the back files unmirrored |
| Transform.BottomSideMirrored | src/forge/main.py:622-654 | in the output the bottom side's point is the top side's point reflected through the window's vertical center line on a landscape board, and through its horizontal center line otherwise |
| Transform.LayerPointFits | src/forge/main.py:638-654 | on either side, a layer point lies on the board exactly when it is drawn within the window's padded area |
| Placement.SideRefsMeaning | src/forge/main.py:722-730 | a reference is collected exactly when some record on the side has it |
| Placement.SideRefsStep | src/forge/main.py:726-730 | considering one more record adds its reference when it is on the side |
| Placement.SideComponents | src/forge/main.py:722-730 | the records attempted are, in table order, exactly those on the side (missing side read as "top", case ignored) whose reference is not on an earlier such record |
| Placement.FirstOnSideDistinct | src/forge/main.py:726-730 | two attempted records never share a reference |
| Placement.FirstOnSideCovers | src/forge/main.py:726-730 | every reference present on the side is attempted once |
| Placement.PositionRoundTrip | src/forge/main.py:731-733 | drawing positions and table coordinates are in one-to-one correspondence, the y axis flipped |
| Placement.PositionOnBoard | src/forge/main.py:731-733 | a record is drawn on the board exactly when its table coordinates lie within the board's size |
| Placement.ImageCenterLands | src/forge/main.py:753-758 | for any rotation, the image's center is drawn at the record's position |
| Placement.PlaceImage | src/forge/main.py:734-759 | an image is made exactly when an artwork is found and it parses; it carries the reference and the artwork's name |
| Placement.PlaceImageFacts | src/forge/main.py:738-757 | a placed image has the artwork's size times the scale and its transform list puts its center at the position |
| Placement.PlaceComponent | src/forge/main.py:731-759 | one record: an image exactly when its artwork is resolved and parses, named after the record |
| Placement.PlacedImage | src/forge/main.py:738-757 | for a placed record: size from the artwork's bounds times the record's scale, rotated by the negated stored or record rotation, centered on its drawing position |
| Placement.PlaceAllWith | src/forge/main.py:722-759 | for any placing rule: each image comes from an attempted record, in table order, and every attempted record that yields an image is drawn |
| Placement.AddComponentPlacement | src/forge/main.py:721-763 | the images of one side in table order, one per attempted record whose artwork is found and parses, with distinct references |
| Combiner.ViewBoxSize | src/forge/main.py:772-775 | a drawing's size is read exactly when its `viewBox` holds at least four numbers, as the third and fourth |
| Combiner.ViewBoxReadings | src/forge/main.py:772-775 | where a drawing's own four-number check succeeds, the combiner reads the same size; the combiner also accepts longer lists |
| Combiner.CombineSvgs | src/forge/main.py:765-806 | a layout exactly when both drawings are present and their sizes can be read |
| Combiner.CombinedLayout | src/forge/main.py:777-801 | the drawings keep their sizes, are top-aligned, lie `padding` apart with the top side on the left; the canvas is as wide as both and the gap, and as tall as the taller |
| Combiner.CombinedFits | src/forge/main.py:777-801 | with non-negative sizes and gap, both drawings lie on the canvas without sharing interior points |

## Left out

- XML parsing and serialisation (lxml): a document is a tree of `Node`s. A file that fails to parse is `None`.
- File and network I/O: JSON loading and saving, CSV reading, globbing the artwork folder, `Path.exists`, reading bytes and base64 data URIs. The catalog is a list of names. A missing or unreadable artwork is the `art` parameter returning None. A missing paste file is an empty paste list. `_save_config` is modelled only as the key order it writes (`MappingConfig.SavedKeyOrder`), and `generate_universal_config` returns the save flag instead of writing.
- Tokenising of `d` (a regex) and of `viewBox` (`str.split()` on whitespace), and `float()`: attributes arrive already parsed as numbers or number lists. A non-numeric attribute reads as 0, where the source raises.
- A `viewBox` arrives as a number list only when its numbers are separated by whitespace. With other separators, such as commas (legal SVG), the source cannot read it: `get_component_bounds` falls back to the element extent, and `combine_svgs_as_images` fails. The model assumes the parser reproduces that, so such a `viewBox` is not a `Coords` value.
- Svg.NumAttr: a present attribute that is not a single number reads as 0. The source's `float()` raises on such an attribute.
- Floating point: coordinates are exact reals, and angles are handed to a trigonometry parameter. Only the quarter turns the program uses (0, -90 and 180 degrees) are assumed exact. Other rotations are not evaluated.
- Printing and console summaries (`_print_mapping_summary`, the warnings), the command line (`main`, argparse) and `create_pcb_renders` orchestration.
- Colours, stroke widths, fill opacities, ids, and the literal text of generated attributes. Paint is modelled as filled or outlined.
- `_create_pcb_base`: the background rect, the corner-radius regex and the board outline path are drawing details. Its mounting-hole selection uses `Classify.IsMountingHole`, which is modelled.
- The final outline group of `combine_all_layers`, and the fixed output sizes "150mm"/"250mm"/"300mm"/"150mm".
- `_load_or_create_config` and `load_csv_file`: a table and the position records are inputs.
- Text.ToLower: lower-cases ASCII letters only. Python's `str.lower` also folds other Unicode letters.
- A record whose reference is the string "global_mappings" would clash with the index key in the source's single dictionary. The model keeps the index in its own field, and `MappingConfig.SavedRefs` drops that key when saving, as the source does.
- Classify.HasInnerCircleNearby: compares squared distances with the fixed default tolerance 0.5 rather than taking a square root, which is equivalent for that non-negative tolerance. The element's identity is given as its position in the list.
- MappingConfig.ComponentRotation and MappingConfig.ComponentScale carry no contract of their own. What they return after generation is stated by `MappingConfig.OverridesAfterGenerate`, and their use in placement by `Placement.PlacedImage`.
- Exceptions: the broad `try/except` in `combine_svgs_as_images` is modelled only for the cases the model can produce (a missing drawing or an unreadable `viewBox`).
