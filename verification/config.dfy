/** The persisted per-reference mapping table of `ComponentPlacer` and its
    derived `global_mappings` index. The table is a map from reference to
    entry plus the order its keys were inserted in (Python dict order), which
    decides the first-writer-wins passes. */
module MappingConfig {
  import opened Wrappers
  import opened Text
  import opened Components
  import opened Resolver
  import opened Sorting

  /** The key of the derived index inside the persisted table. */
  const GlobalKey: string := "global_mappings"
  /** The scale a newly created entry receives. */
  const NewEntryScale: real := 0.056
  /** The scale used for a reference without a scale override. */
  const DefaultScale: real := 1.0
  /** The value keywords indexed by `_update_global_mappings`, in order. */
  const ValueKeywords: seq<string> := ["led", "usb", "esp32", "crystal"]

  /** One reference's entry. Optional fields are absent from a hand-edited
      table; `svg` may also be null or empty. */
  datatype Entry = Entry(
    svg: Option<string>,
    rotation: Option<real>,
    scale: Option<real>,
    package: string,
    value: string)

  /** The derived index. */
  datatype GlobalMappings = GlobalMappings(
    availableSvgs: seq<string>,
    byReferencePrefix: map<string, string>,
    byPackage: map<string, string>,
    byValueKeyword: map<string, string>)

  /** The whole table: the optional index, the references in insertion order,
      and their entries. */
  datatype Config = Config(
    global: Option<GlobalMappings>,
    refs: seq<string>,
    entries: map<string, Entry>)

  /** The order lists each reference of the table exactly once. */
  ghost predicate Valid(c: Config) {
    && (forall i, j :: 0 <= i < j < |c.refs| ==> c.refs[i] != c.refs[j])
    && (forall r :: r in c.entries <==> r in c.refs)
  }

  /** Python truthiness of an optional name: present and non-empty. */
  predicate Found(name: Option<string>) {
    name.Some? && name.value != ""
  }

  /** The entry names an artwork. */
  predicate HasSvg(e: Entry) {
    Found(e.svg)
  }

  /** The stored artwork of reference `k`; none for a missing entry. */
  function OldSvg(c: Config, k: string): Option<string> {
    if k in c.entries then c.entries[k].svg else None
  }

  /** Reference `k` has no artwork yet, so the resolver is consulted for it. */
  predicate Unassigned(c: Config, k: string) {
    !(k in c.entries && HasSvg(c.entries[k]))
  }

  // ---------------------------------------------------------------------
  // Lookups
  // ---------------------------------------------------------------------

  /** `find_component_svg`: a persisted artwork name is honoured when the
      catalog has it; otherwise the heuristic resolver decides. */
  function FindComponentSvg(c: Config, keys: seq<string>, comp: Component): (r: Option<string>)
    ensures var ref := comp.reference;
            ref in c.entries && HasSvg(c.entries[ref]) && c.entries[ref].svg.value in keys ==>
              r == c.entries[ref].svg
    ensures var ref := comp.reference;
            !(ref in c.entries && HasSvg(c.entries[ref]) && c.entries[ref].svg.value in keys) ==>
              r == AutoAssign(comp, keys)
    ensures r.Some? ==> r.value in keys && r.value != ""
  {
    var ref := comp.reference;
    if ref in c.entries && HasSvg(c.entries[ref]) && c.entries[ref].svg.value in keys then
      c.entries[ref].svg
    else
      AutoAssign(comp, keys)
  }

  /** `get_component_rotation`: the stored rotation if any, else the record's. */
  function ComponentRotation(c: Config, comp: Component): real {
    var ref := comp.reference;
    if ref in c.entries && c.entries[ref].rotation.Some? then c.entries[ref].rotation.value
    else comp.rotation
  }

  /** `calculate_component_scale`: the stored scale if any, else 1.0. */
  function ComponentScale(c: Config, comp: Component): real {
    var ref := comp.reference;
    if ref in c.entries && c.entries[ref].scale.Some? then c.entries[ref].scale.value
    else DefaultScale
  }

  // ---------------------------------------------------------------------
  // generate_universal_config
  // ---------------------------------------------------------------------

  /** The resolver consulted for a record without artwork: `_auto_assign_svg`
      bound to the current catalog. */
  type Resolve = Component -> Option<string>

  /** The body of the loop of `generate_universal_config` for one record:
      create the entry if missing, try the resolver when no artwork is set,
      then refresh package and value. The flag says whether the table
      changed in a way that must be saved. */
  function ProcessOne(c: Config, assign: Resolve, comp: Component): (r: (Config, bool))
    ensures comp.reference in r.0.entries
    ensures r.0.global == c.global
    ensures r.0.entries.Keys == c.entries.Keys + {comp.reference}
    ensures forall k :: k in c.entries && k != comp.reference ==> r.0.entries[k] == c.entries[k]
    ensures r.0.entries[comp.reference].package == comp.package
    ensures r.0.entries[comp.reference].value == comp.value
    ensures comp.reference in c.entries ==>
              r.0.entries[comp.reference].rotation == c.entries[comp.reference].rotation &&
              r.0.entries[comp.reference].scale == c.entries[comp.reference].scale
    ensures comp.reference !in c.entries ==>
              r.0.entries[comp.reference].rotation == Some(comp.rotation) &&
              r.0.entries[comp.reference].scale == Some(NewEntryScale)
    ensures comp.reference in c.entries && HasSvg(c.entries[comp.reference]) ==>
              r.0.entries[comp.reference].svg == c.entries[comp.reference].svg
    ensures HasSvg(r.0.entries[comp.reference]) || !Found(assign(comp))
    ensures Unassigned(c, comp.reference) && Found(assign(comp)) ==>
              r.0.entries[comp.reference].svg == assign(comp)
    ensures !Found(assign(comp)) ==> r.0.entries[comp.reference].svg == OldSvg(c, comp.reference)
    ensures r.0.refs == if comp.reference in c.entries then c.refs else c.refs + [comp.reference]
    ensures r.1 <==> comp.reference !in c.entries ||
                     (!HasSvg(c.entries[comp.reference]) && Found(assign(comp)))
    ensures !r.1 ==> r.0.refs == c.refs && r.0.entries[comp.reference].svg == c.entries[comp.reference].svg
    ensures Valid(c) ==> Valid(r.0)
  {
    var ref := comp.reference;
    var created := ref !in c.entries;
    var e0 := if created then Entry(None, Some(comp.rotation), Some(NewEntryScale), comp.package, comp.value)
              else c.entries[ref];
    var refs := if created then c.refs + [ref] else c.refs;
    var m := if HasSvg(e0) then None else assign(comp);
    var e1 := if Found(m) then e0.(svg := m) else e0;
    var e2 := e1.(package := comp.package, value := comp.value);
    (Config(c.global, refs, c.entries[ref := e2]), created || Found(m))
  }

  /** The loop of `generate_universal_config` over all records, in order. */
  function ProcessAll(c: Config, assign: Resolve, comps: seq<Component>): (r: (Config, bool))
    decreases |comps|
  {
    if comps == [] then (c, false)
    else
      var step := ProcessOne(c, assign, comps[0]);
      var rest := ProcessAll(step.0, assign, comps[1..]);
      (rest.0, step.1 || rest.1)
  }

  /** The references the loop appends to the order, in the order of their
      first record: those not already in `known`. */
  function NewRefs(known: set<string>, comps: seq<Component>): (r: seq<string>)
    ensures forall i :: 0 <= i < |r| ==> r[i] !in known
    ensures forall i, j :: 0 <= i < j < |r| ==> r[i] != r[j]
    decreases |comps|
  {
    if comps == [] then []
    else
      var k := comps[0].reference;
      if k in known then NewRefs(known, comps[1..])
      else [k] + NewRefs(known + {k}, comps[1..])
  }

  /** The index a table without one starts from. */
  function InitialGlobal(c: Config, keys: seq<string>): GlobalMappings {
    if c.global.Some? then c.global.value else GlobalMappings(keys, map[], map[], map[])
  }

  /** `generate_universal_config` with resolver `assign`: the index is created
      when missing, every record is processed, and the index is refreshed. */
  function GenerateWith(c: Config, keys: seq<string>, assign: Resolve, comps: seq<Component>): (Config, bool) {
    var g := InitialGlobal(c, keys);
    var p := ProcessAll(c.(global := Some(g)), assign, comps);
    (p.0.(global := Some(UpdateGlobalMappings(g, p.0, keys))), c.global.None? || p.1)
  }

  /** `_auto_assign_svg` bound to the catalog `keys`. */
  function Heuristic(keys: seq<string>): (r: Resolve)
    ensures forall comp :: r(comp) == AutoAssign(comp, keys)
  {
    (comp: Component) => AutoAssign(comp, keys)
  }

  /** `generate_universal_config`: the updated table and whether it is saved
      (the `config_updated` flag). */
  function GenerateUniversalConfig(c: Config, keys: seq<string>, comps: seq<Component>): (r: (Config, bool))
    requires Valid(c)
    ensures Valid(r.0)
    ensures r.0.global.Some? && r.0.global.value.availableSvgs == keys
    ensures c.global.None? ==> r.1
    ensures forall i :: 0 <= i < |comps| ==> comps[i].reference in r.0.entries
    ensures forall k :: k in r.0.entries <==> k in c.entries || Mentions(comps, k)
    ensures forall k :: k in c.entries && HasSvg(c.entries[k]) ==> r.0.entries[k].svg == c.entries[k].svg
    ensures forall k :: k in c.entries && !Mentions(comps, k) ==> r.0.entries[k] == c.entries[k]
    ensures forall k :: k in c.entries ==>
              r.0.entries[k].rotation == c.entries[k].rotation && r.0.entries[k].scale == c.entries[k].scale
    ensures forall i :: 0 <= i < |comps| && IsLast(comps, i) ==>
              r.0.entries[comps[i].reference].package == comps[i].package &&
              r.0.entries[comps[i].reference].value == comps[i].value
    ensures forall i :: 0 <= i < |comps| && IsFirst(comps, i) && comps[i].reference !in c.entries ==>
              r.0.entries[comps[i].reference].rotation == Some(comps[i].rotation) &&
              r.0.entries[comps[i].reference].scale == Some(NewEntryScale)
    ensures forall j :: FirstFound(comps, Heuristic(keys), j) && Unassigned(c, comps[j].reference) ==>
              r.0.entries[comps[j].reference].svg == AutoAssign(comps[j], keys)
    ensures forall k :: k in r.0.entries && NoneFound(comps, Heuristic(keys), k) ==>
              r.0.entries[k].svg == OldSvg(c, k)
    ensures r.0.refs == c.refs + NewRefs(c.entries.Keys, comps)
    ensures r.0.global == Some(UpdateGlobalMappings(InitialGlobal(c, keys), r.0, keys))
  {
    var assign := Heuristic(keys);
    var r := GenerateWith(c, keys, assign, comps);
    GenerateFacts(c, keys, assign, comps);
    GenerateRecordFacts(c, keys, assign, comps);
    GenerateSvgFacts(c, keys, assign, comps);
    assert forall i :: 0 <= i < |comps| ==> comps[i].reference in r.0.entries by {
      forall i | 0 <= i < |comps|
        ensures comps[i].reference in r.0.entries
      {
        assert Mentions(comps, comps[i].reference);
      }
    }
    r
  }

  /** The whole-table facts of `GenerateUniversalConfig`, for any resolver. */
  lemma GenerateFacts(c: Config, keys: seq<string>, assign: Resolve, comps: seq<Component>)
    requires Valid(c)
    ensures var r := GenerateWith(c, keys, assign, comps);
            && Valid(r.0)
            && r.0.global.Some? && r.0.global.value.availableSvgs == keys
            && (c.global.None? ==> r.1)
            && (forall k :: k in r.0.entries <==> k in c.entries || Mentions(comps, k))
            && (forall k :: k in c.entries && HasSvg(c.entries[k]) ==> r.0.entries[k].svg == c.entries[k].svg)
            && (forall k :: k in c.entries && !Mentions(comps, k) ==> r.0.entries[k] == c.entries[k])
            && (forall k :: k in c.entries ==>
                  r.0.entries[k].rotation == c.entries[k].rotation && r.0.entries[k].scale == c.entries[k].scale)
  {
    var c0 := c.(global := Some(InitialGlobal(c, keys)));
    ProcessAllFrame(c0, assign, comps);
    ProcessAllKeepsSvg(c0, assign, comps);
  }

  /** The per-record facts of `GenerateUniversalConfig`, for any resolver. */
  lemma GenerateRecordFacts(c: Config, keys: seq<string>, assign: Resolve, comps: seq<Component>)
    ensures var r := GenerateWith(c, keys, assign, comps);
            && (forall i :: 0 <= i < |comps| && IsLast(comps, i) ==>
                  comps[i].reference in r.0.entries &&
                  r.0.entries[comps[i].reference].package == comps[i].package &&
                  r.0.entries[comps[i].reference].value == comps[i].value)
            && (forall i :: 0 <= i < |comps| && IsFirst(comps, i) && comps[i].reference !in c.entries ==>
                  comps[i].reference in r.0.entries &&
                  r.0.entries[comps[i].reference].rotation == Some(comps[i].rotation) &&
                  r.0.entries[comps[i].reference].scale == Some(NewEntryScale))
  {
    var c0 := c.(global := Some(InitialGlobal(c, keys)));
    ProcessAllLast(c0, assign, comps);
    ProcessAllFirst(c0, assign, comps);
  }

  /** The artwork, order and index facts of `GenerateUniversalConfig`, for
      any resolver. */
  lemma GenerateSvgFacts(c: Config, keys: seq<string>, assign: Resolve, comps: seq<Component>)
    ensures var r := GenerateWith(c, keys, assign, comps);
            && (forall j :: FirstFound(comps, assign, j) && Unassigned(c, comps[j].reference) ==>
                  comps[j].reference in r.0.entries && r.0.entries[comps[j].reference].svg == assign(comps[j]))
            && (forall k :: k in r.0.entries && NoneFound(comps, assign, k) ==> r.0.entries[k].svg == OldSvg(c, k))
            && r.0.refs == c.refs + NewRefs(c.entries.Keys, comps)
            && r.0.global == Some(UpdateGlobalMappings(InitialGlobal(c, keys), r.0, keys))
  {
    var g := InitialGlobal(c, keys);
    var c0 := c.(global := Some(g));
    var p := ProcessAll(c0, assign, comps).0;
    ProcessAllSvg(c0, assign, comps);
    ProcessAllRefs(c0, assign, comps);
    assert forall k :: Unassigned(c0, k) == Unassigned(c, k) && OldSvg(c0, k) == OldSvg(c, k);
    var G := UpdateGlobalMappings(g, p, keys);
    UpdateIgnoresIndex(g, p, keys, Some(G));
  }

  /** Some record has reference `k`. */
  ghost predicate Mentions(comps: seq<Component>, k: string) {
    exists i :: 0 <= i < |comps| && comps[i].reference == k
  }

  /** Record `i` is the last one with its reference. */
  ghost predicate IsLast(comps: seq<Component>, i: int)
    requires 0 <= i < |comps|
  {
    forall j :: i < j < |comps| ==> comps[j].reference != comps[i].reference
  }

  /** Record `i` is the first one with its reference. */
  ghost predicate IsFirst(comps: seq<Component>, i: int)
    requires 0 <= i < |comps|
  {
    forall j :: 0 <= j < i ==> comps[j].reference != comps[i].reference
  }

  lemma MentionsTail(comps: seq<Component>, k: string)
    requires comps != []
    ensures Mentions(comps, k) <==> comps[0].reference == k || Mentions(comps[1..], k)
  {
    if Mentions(comps[1..], k) {
      var i :| 0 <= i < |comps[1..]| && comps[1..][i].reference == k;
      assert comps[i + 1].reference == k;
    }
    if Mentions(comps, k) && comps[0].reference != k {
      var i :| 0 <= i < |comps| && comps[i].reference == k;
      assert comps[1..][i - 1].reference == k;
    }
  }

  /** What the loop adds, keeps and leaves alone. */
  lemma {:induction false} ProcessAllFrame(c: Config, assign: Resolve, comps: seq<Component>)
    ensures var r := ProcessAll(c, assign, comps).0;
            && r.global == c.global
            && (Valid(c) ==> Valid(r))
            && (forall k :: k in r.entries <==> k in c.entries || Mentions(comps, k))
            && (forall k :: k in c.entries && !Mentions(comps, k) ==> r.entries[k] == c.entries[k])
            && (forall k :: k in c.entries ==>
                  r.entries[k].rotation == c.entries[k].rotation && r.entries[k].scale == c.entries[k].scale)
    decreases |comps|
  {
    if comps != [] {
      var s := ProcessOne(c, assign, comps[0]).0;
      ProcessAllFrame(s, assign, comps[1..]);
      forall k ensures Mentions(comps, k) <==> comps[0].reference == k || Mentions(comps[1..], k) {
        MentionsTail(comps, k);
      }
    }
  }

  /** An artwork that is already set is never replaced. */
  lemma {:induction false} ProcessAllKeepsSvg(c: Config, assign: Resolve, comps: seq<Component>)
    ensures var r := ProcessAll(c, assign, comps).0;
            forall k :: k in c.entries && HasSvg(c.entries[k]) ==> k in r.entries && r.entries[k].svg == c.entries[k].svg
    decreases |comps|
  {
    if comps != [] {
      var s := ProcessOne(c, assign, comps[0]).0;
      ProcessAllKeepsSvg(s, assign, comps[1..]);
    }
  }

  /** Package and value are those of the last record with the reference. */
  lemma {:induction false} ProcessAllLast(c: Config, assign: Resolve, comps: seq<Component>)
    ensures var r := ProcessAll(c, assign, comps).0;
            forall i :: 0 <= i < |comps| && IsLast(comps, i) ==>
              comps[i].reference in r.entries &&
              r.entries[comps[i].reference].package == comps[i].package &&
              r.entries[comps[i].reference].value == comps[i].value
    decreases |comps|
  {
    if comps != [] {
      var s := ProcessOne(c, assign, comps[0]).0;
      var r := ProcessAll(c, assign, comps).0;
      ProcessAllLast(s, assign, comps[1..]);
      ProcessAllFrame(s, assign, comps[1..]);
      forall i | 0 <= i < |comps| && IsLast(comps, i)
        ensures comps[i].reference in r.entries
        ensures r.entries[comps[i].reference].package == comps[i].package
        ensures r.entries[comps[i].reference].value == comps[i].value
      {
        if i == 0 {
          forall j | 0 <= j < |comps[1..]|
            ensures comps[1..][j].reference != comps[0].reference
          {
            assert comps[1..][j] == comps[j + 1];
          }
        } else {
          assert comps[1..][i - 1] == comps[i];
          assert IsLast(comps[1..], i - 1) by {
            forall j | i - 1 < j < |comps[1..]|
              ensures comps[1..][j].reference != comps[1..][i - 1].reference
            {
              assert comps[1..][j] == comps[j + 1];
            }
          }
        }
      }
    }
  }

  /** A reference created by the loop keeps the first record's rotation and
      the default new-entry scale. */
  lemma {:induction false} ProcessAllFirst(c: Config, assign: Resolve, comps: seq<Component>)
    ensures var r := ProcessAll(c, assign, comps).0;
            forall i :: 0 <= i < |comps| && IsFirst(comps, i) && comps[i].reference !in c.entries ==>
              comps[i].reference in r.entries &&
              r.entries[comps[i].reference].rotation == Some(comps[i].rotation) &&
              r.entries[comps[i].reference].scale == Some(NewEntryScale)
    decreases |comps|
  {
    if comps != [] {
      var s := ProcessOne(c, assign, comps[0]).0;
      var r := ProcessAll(c, assign, comps).0;
      ProcessAllFirst(s, assign, comps[1..]);
      ProcessAllFrame(s, assign, comps[1..]);
      forall i | 0 <= i < |comps| && IsFirst(comps, i) && comps[i].reference !in c.entries
        ensures comps[i].reference in r.entries
        ensures r.entries[comps[i].reference].rotation == Some(comps[i].rotation)
        ensures r.entries[comps[i].reference].scale == Some(NewEntryScale)
      {
        if i > 0 {
          assert comps[1..][i - 1] == comps[i];
          assert comps[i].reference != comps[0].reference;
          assert IsFirst(comps[1..], i - 1) by {
            forall j | 0 <= j < i - 1
              ensures comps[1..][j].reference != comps[1..][i - 1].reference
            {
              assert comps[1..][j] == comps[j + 1];
            }
          }
        }
      }
    }
  }

  /** The new references are exactly the mentioned ones not yet known. */
  lemma {:induction false} NewRefsMentioned(known: set<string>, comps: seq<Component>, k: string)
    ensures k in NewRefs(known, comps) <==> k !in known && Mentions(comps, k)
    decreases |comps|
  {
    if comps != [] {
      var h := comps[0].reference;
      MentionsTail(comps, k);
      if h in known {
        NewRefsMentioned(known, comps[1..], k);
      } else {
        NewRefsMentioned(known + {h}, comps[1..], k);
      }
    }
  }

  /** The loop appends each new reference once, at its first record. */
  lemma {:induction false} ProcessAllRefs(c: Config, assign: Resolve, comps: seq<Component>)
    ensures ProcessAll(c, assign, comps).0.refs == c.refs + NewRefs(c.entries.Keys, comps)
    decreases |comps|
  {
    if comps != [] {
      var h := comps[0].reference;
      var s := ProcessOne(c, assign, comps[0]).0;
      ProcessAllRefs(s, assign, comps[1..]);
      var later := NewRefs(s.entries.Keys, comps[1..]);
      if h !in c.entries {
        assert s.refs == c.refs + [h] && s.entries.Keys == c.entries.Keys + {h};
        assert NewRefs(c.entries.Keys, comps) == [h] + later;
        assert c.refs + [h] + later == c.refs + ([h] + later);
      } else {
        assert s.refs == c.refs && s.entries.Keys == c.entries.Keys;
        assert NewRefs(c.entries.Keys, comps) == later;
      }
    }
  }

  /** Record `j` is the first with its reference for which the resolver
      finds an artwork. */
  ghost predicate FirstFound(comps: seq<Component>, assign: Resolve, j: int) {
    && 0 <= j < |comps|
    && Found(assign(comps[j]))
    && forall i :: 0 <= i < j && comps[i].reference == comps[j].reference ==> !Found(assign(comps[i]))
  }

  /** The resolver finds no artwork for any record with reference `k`. */
  ghost predicate NoneFound(comps: seq<Component>, assign: Resolve, k: string) {
    forall i :: 0 <= i < |comps| && comps[i].reference == k ==> !Found(assign(comps[i]))
  }

  /** The artwork the loop stores: for a reference without one, the
      resolver's answer for its first record that gets an answer, and the
      old value when no record gets one. */
  lemma {:induction false} ProcessAllSvg(c: Config, assign: Resolve, comps: seq<Component>)
    ensures var r := ProcessAll(c, assign, comps).0;
            && (forall j :: FirstFound(comps, assign, j) && Unassigned(c, comps[j].reference) ==>
                  comps[j].reference in r.entries && r.entries[comps[j].reference].svg == assign(comps[j]))
            && (forall k :: k in r.entries && NoneFound(comps, assign, k) ==> r.entries[k].svg == OldSvg(c, k))
    decreases |comps|
  {
    if comps != [] {
      var h := comps[0].reference;
      var rest := comps[1..];
      var s := ProcessOne(c, assign, comps[0]).0;
      var r := ProcessAll(c, assign, comps).0;
      ProcessAllSvg(s, assign, rest);
      ProcessAllKeepsSvg(s, assign, rest);
      ProcessAllFrame(s, assign, rest);
      forall j | FirstFound(comps, assign, j) && Unassigned(c, comps[j].reference)
        ensures comps[j].reference in r.entries && r.entries[comps[j].reference].svg == assign(comps[j])
      {
        var k := comps[j].reference;
        if j > 0 {
          assert rest[j - 1] == comps[j];
          assert Unassigned(s, k);
          assert FirstFound(rest, assign, j - 1) by {
            forall i | 0 <= i < j - 1 && rest[i].reference == k
              ensures !Found(assign(rest[i]))
            {
              assert rest[i] == comps[i + 1];
            }
          }
        }
      }
      forall k | k in r.entries && NoneFound(comps, assign, k)
        ensures r.entries[k].svg == OldSvg(c, k)
      {
        assert NoneFound(rest, assign, k) by {
          forall i | 0 <= i < |rest| && rest[i].reference == k
            ensures !Found(assign(rest[i]))
          {
            assert rest[i] == comps[i + 1];
          }
        }
        assert OldSvg(s, k) == OldSvg(c, k);
      }
    }
  }

  // ---------------------------------------------------------------------
  // Idempotence
  // ---------------------------------------------------------------------

  /** Every record has an entry, and either that entry has an artwork or the
      resolver finds none for the record. */
  ghost predicate Settled(c: Config, assign: Resolve, comps: seq<Component>) {
    forall i :: 0 <= i < |comps| ==>
      comps[i].reference in c.entries &&
      (HasSvg(c.entries[comps[i].reference]) || !Found(assign(comps[i])))
  }

  /** After one pass the table is settled for the same records. */
  lemma {:induction false} ProcessAllSettles(c: Config, assign: Resolve, comps: seq<Component>)
    ensures Settled(ProcessAll(c, assign, comps).0, assign, comps)
    decreases |comps|
  {
    if comps != [] {
      var s := ProcessOne(c, assign, comps[0]).0;
      var r := ProcessAll(c, assign, comps).0;
      ProcessAllSettles(s, assign, comps[1..]);
      ProcessAllKeepsSvg(s, assign, comps[1..]);
      ProcessAllFrame(s, assign, comps[1..]);
      forall i | 0 <= i < |comps|
        ensures comps[i].reference in r.entries
        ensures HasSvg(r.entries[comps[i].reference]) || !Found(assign(comps[i]))
      {
        if i > 0 {
          assert comps[1..][i - 1] == comps[i];
        }
      }
    }
  }

  /** On a settled table the loop changes nothing that is saved: no entry is
      created and no artwork is assigned. */
  lemma {:induction false} ProcessAllSettledQuiet(c: Config, assign: Resolve, comps: seq<Component>)
    requires Settled(c, assign, comps)
    ensures var r := ProcessAll(c, assign, comps);
            && !r.1
            && r.0.refs == c.refs
            && r.0.entries.Keys == c.entries.Keys
            && forall k :: k in c.entries ==> r.0.entries[k].svg == c.entries[k].svg
    decreases |comps|
  {
    if comps != [] {
      var s := ProcessOne(c, assign, comps[0]).0;
      assert Settled(s, assign, comps[1..]) by {
        forall i | 0 <= i < |comps[1..]|
          ensures comps[1..][i].reference in s.entries
          ensures HasSvg(s.entries[comps[1..][i].reference]) || !Found(assign(comps[1..][i]))
        {
          assert comps[1..][i] == comps[i + 1];
        }
      }
      ProcessAllSettledQuiet(s, assign, comps[1..]);
    }
  }

  /** A second call with the same records and catalog reports no change, so
      the table is not saved again, and returns the same table. */
  lemma GenerateIdempotent(c: Config, keys: seq<string>, comps: seq<Component>)
    requires Valid(c)
    ensures var once := GenerateUniversalConfig(c, keys, comps).0;
            GenerateUniversalConfig(once, keys, comps) == (once, false)
  {
    var assign := Heuristic(keys);
    GenerateFacts(c, keys, assign, comps);
    GenerateWithIdempotent(c, keys, assign, comps);
  }

  /** Idempotence for any resolver. */
  lemma GenerateWithIdempotent(c: Config, keys: seq<string>, assign: Resolve, comps: seq<Component>)
    requires Valid(c)
    ensures var once := GenerateWith(c, keys, assign, comps).0;
            GenerateWith(once, keys, assign, comps) == (once, false)
  {
    var g := InitialGlobal(c, keys);
    var c0 := c.(global := Some(g));
    var p := ProcessAll(c0, assign, comps).0;
    var once := p.(global := Some(UpdateGlobalMappings(g, p, keys)));
    assert GenerateWith(c, keys, assign, comps).0 == once;
    ProcessAllSettles(c0, assign, comps);
    ProcessAllLast(c0, assign, comps);
    assert Settled(once, assign, comps);
    ProcessAllFixpoint(once, assign, comps);
    var G := UpdateGlobalMappings(g, p, keys);
    assert InitialGlobal(once, keys) == G;
    assert once.(global := Some(G)) == once;
    UpdateIdempotent(g, p, keys);
    UpdateIgnoresIndex(G, p, keys, Some(G));
    assert UpdateGlobalMappings(G, once, keys) == G;
  }

  /** The refreshed index depends on the entries and not on the index
      stored in the table. */
  lemma UpdateIgnoresIndex(g: GlobalMappings, c: Config, keys: seq<string>, stored: Option<GlobalMappings>)
    ensures UpdateGlobalMappings(g, c.(global := stored), keys) == UpdateGlobalMappings(g, c, keys)
  {
    var d := c.(global := stored);
    assert PrefixClaims(d) == PrefixClaims(c);
    assert PackageClaims(d) == PackageClaims(c);
    assert KeywordClaims(d) == KeywordClaims(c);
  }

  /** A settled table whose entries already carry the package and value of
      the last record with each reference is a fixed point of the loop. */
  lemma ProcessAllFixpoint(c: Config, assign: Resolve, comps: seq<Component>)
    requires Settled(c, assign, comps)
    requires forall i :: 0 <= i < |comps| && IsLast(comps, i) ==>
               comps[i].reference in c.entries &&
               c.entries[comps[i].reference].package == comps[i].package &&
               c.entries[comps[i].reference].value == comps[i].value
    ensures ProcessAll(c, assign, comps) == (c, false)
  {
    var q := ProcessAll(c, assign, comps);
    ProcessAllSettledQuiet(c, assign, comps);
    ProcessAllFrame(c, assign, comps);
    ProcessAllLast(c, assign, comps);
    forall k | k in c.entries
      ensures q.0.entries[k] == c.entries[k]
    {
      if Mentions(comps, k) {
        var i :| 0 <= i < |comps| && comps[i].reference == k;
        var last := LastIndex(comps, i);
        var e := q.0.entries[k];
        var d := c.entries[k];
        assert e.svg == d.svg && e.rotation == d.rotation && e.scale == d.scale;
        assert e.package == d.package && e.value == d.value;
      }
    }
    assert q.0.entries == c.entries;
  }

  /** The last record sharing the reference of record `i`. */
  lemma {:induction false} LastIndex(comps: seq<Component>, i: int) returns (last: int)
    requires 0 <= i < |comps|
    ensures i <= last < |comps| && comps[last].reference == comps[i].reference && IsLast(comps, last)
    decreases |comps| - i
  {
    if IsLast(comps, i) {
      last := i;
    } else {
      var j :| i < j < |comps| && comps[j].reference == comps[i].reference;
      last := LastIndex(comps, j);
    }
  }

  // ---------------------------------------------------------------------
  // _update_global_mappings
  // ---------------------------------------------------------------------

  /** A claim of one reference on one key of an index map. */
  datatype Claim = Skip | Claim(key: string, svg: string)

  /** Some claim is on key `k`. */
  ghost predicate ClaimsKey(claims: seq<Claim>, k: string) {
    exists i :: 0 <= i < |claims| && claims[i].Claim? && claims[i].key == k
  }

  /** Claim `i` is the first one on its key. */
  ghost predicate FirstClaim(claims: seq<Claim>, i: int) {
    0 <= i < |claims| && claims[i].Claim? &&
    forall j :: 0 <= j < i && claims[j].Claim? ==> claims[j].key != claims[i].key
  }

  /** The "if key not in mapping: mapping[key] = svg" loop: a claim is
      recorded only when its key is still free. */
  function FirstWins(acc: map<string, string>, claims: seq<Claim>): (r: map<string, string>)
    ensures forall k :: k in r <==> k in acc || ClaimsKey(claims, k)
    ensures forall k :: k in acc ==> r[k] == acc[k]
    ensures forall i :: FirstClaim(claims, i) && claims[i].key !in acc ==>
              claims[i].key in r && r[claims[i].key] == claims[i].svg
    decreases |claims|
  {
    if claims == [] then acc
    else
      var acc' := if claims[0].Claim? && claims[0].key !in acc then acc[claims[0].key := claims[0].svg] else acc;
      var r := FirstWins(acc', claims[1..]);
      assert forall k :: ClaimsKey(claims, k) <==> (claims[0].Claim? && claims[0].key == k) || ClaimsKey(claims[1..], k) by {
        forall k ensures ClaimsKey(claims, k) <==> (claims[0].Claim? && claims[0].key == k) || ClaimsKey(claims[1..], k) {
          if ClaimsKey(claims[1..], k) {
            var i :| 0 <= i < |claims[1..]| && claims[1..][i].Claim? && claims[1..][i].key == k;
            assert claims[i + 1] == claims[1..][i];
          }
          if ClaimsKey(claims, k) && !(claims[0].Claim? && claims[0].key == k) {
            var i :| 0 <= i < |claims| && claims[i].Claim? && claims[i].key == k;
            assert claims[1..][i - 1] == claims[i];
          }
        }
      }
      assert forall i :: FirstClaim(claims, i) && claims[i].key !in acc ==>
               claims[i].key in r && r[claims[i].key] == claims[i].svg by {
        forall i | FirstClaim(claims, i) && claims[i].key !in acc
          ensures claims[i].key in r && r[claims[i].key] == claims[i].svg
        {
          if i > 0 {
            assert claims[1..][i - 1] == claims[i];
            assert FirstClaim(claims[1..], i - 1) by {
              forall j | 0 <= j < i - 1 && claims[1..][j].Claim?
                ensures claims[1..][j].key != claims[1..][i - 1].key
              {
                assert claims[1..][j] == claims[j + 1];
              }
            }
          }
        }
      }
      r
  }

  /** A reference contributes to the index when it is not the index key and
      its entry has an artwork. */
  predicate Eligible(c: Config, ref: string) {
    ref != GlobalKey && ref in c.entries && HasSvg(c.entries[ref])
  }

  function PrefixClaim(c: Config, ref: string): Claim {
    if Eligible(c, ref) && ref != "" then Claim([ref[0]], c.entries[ref].svg.value) else Skip
  }

  function PackageClaim(c: Config, ref: string): Claim {
    if Eligible(c, ref) && c.entries[ref].package != "" then Claim(c.entries[ref].package, c.entries[ref].svg.value)
    else Skip
  }

  function KeywordClaim(c: Config, ref: string, keyword: string): Claim {
    if Eligible(c, ref) && Contains(keyword, ToLower(c.entries[ref].value)) then Claim(keyword, c.entries[ref].svg.value)
    else Skip
  }

  /** The claims of the references, in table order. */
  function PrefixClaims(c: Config): (r: seq<Claim>)
    ensures |r| == |c.refs| && forall i :: 0 <= i < |c.refs| ==> r[i] == PrefixClaim(c, c.refs[i])
  {
    seq(|c.refs|, i requires 0 <= i < |c.refs| => PrefixClaim(c, c.refs[i]))
  }

  function PackageClaims(c: Config): (r: seq<Claim>)
    ensures |r| == |c.refs| && forall i :: 0 <= i < |c.refs| ==> r[i] == PackageClaim(c, c.refs[i])
  {
    seq(|c.refs|, i requires 0 <= i < |c.refs| => PackageClaim(c, c.refs[i]))
  }

  /** The keyword claims in the order the source's nested loop makes them:
      for each reference in table order, each keyword of `ValueKeywords` in
      turn. Claim `i` is reference `i / 4` tested against keyword `i % 4`. */
  function KeywordClaims(c: Config): (r: seq<Claim>)
    ensures |r| == |ValueKeywords| * |c.refs|
    ensures forall i :: 0 <= i < |r| ==> r[i] == KeywordClaim(c, c.refs[i / |ValueKeywords|], ValueKeywords[i % |ValueKeywords|])
  {
    seq(|ValueKeywords| * |c.refs|, i requires 0 <= i < |ValueKeywords| * |c.refs| =>
      KeywordClaim(c, c.refs[i / |ValueKeywords|], ValueKeywords[i % |ValueKeywords|]))
  }

  /** Every keyword claim is on one of the four keywords. */
  lemma KeywordClaimsOnKeywords(c: Config)
    ensures forall i :: 0 <= i < |KeywordClaims(c)| && KeywordClaims(c)[i].Claim? ==> KeywordClaims(c)[i].key in ValueKeywords
  {
  }

  /** `_update_global_mappings` on index `g`: the catalog list is replaced,
      and each map is merged (`dict.update`) with the map built in this pass,
      where the first reference in table order to claim a key wins. */
  function UpdateGlobalMappings(g: GlobalMappings, c: Config, keys: seq<string>): (r: GlobalMappings)
    ensures r.availableSvgs == keys
    ensures MergedFirstWins(g.byReferencePrefix, PrefixClaims(c), r.byReferencePrefix)
    ensures MergedFirstWins(g.byPackage, PackageClaims(c), r.byPackage)
    ensures MergedFirstWins(g.byValueKeyword, KeywordClaims(c), r.byValueKeyword)
    ensures forall k :: k in r.byValueKeyword && k !in g.byValueKeyword ==> k in ValueKeywords
  {
    var prefixes := FirstWins(map[], PrefixClaims(c));
    var packages := FirstWins(map[], PackageClaims(c));
    var keywords := FirstWins(map[], KeywordClaims(c));
    MergeFirstWins(g.byReferencePrefix, PrefixClaims(c));
    MergeFirstWins(g.byPackage, PackageClaims(c));
    MergeFirstWins(g.byValueKeyword, KeywordClaims(c));
    KeywordClaimsOnKeywords(c);
    GlobalMappings(keys, g.byReferencePrefix + prefixes, g.byPackage + packages, g.byValueKeyword + keywords)
  }

  /** `merged` is `before` updated with the first-claim map of `claims`: a key
      is present exactly when it was before or is claimed; an unclaimed key
      keeps its earlier value; a claimed key takes the first claim's artwork. */
  ghost predicate MergedFirstWins(before: map<string, string>, claims: seq<Claim>, merged: map<string, string>) {
    && (forall p :: p in merged ==> p in before || ClaimsKey(claims, p))
    && (forall p :: p in before ==> p in merged)
    && (forall p :: ClaimsKey(claims, p) ==> p in merged)
    && (forall p :: p in before && !ClaimsKey(claims, p) ==> merged[p] == before[p])
    && (forall i :: FirstClaim(claims, i) ==> claims[i].key in merged && merged[claims[i].key] == claims[i].svg)
  }

  lemma MergeFirstWins(before: map<string, string>, claims: seq<Claim>)
    ensures MergedFirstWins(before, claims, before + FirstWins(map[], claims))
  {
  }

  /** Refreshing the index twice from the same table gives the same index. */
  lemma UpdateIdempotent(g: GlobalMappings, c: Config, keys: seq<string>)
    ensures UpdateGlobalMappings(UpdateGlobalMappings(g, c, keys), c, keys) == UpdateGlobalMappings(g, c, keys)
  {
    UnionAbsorbs(g.byReferencePrefix, FirstWins(map[], PrefixClaims(c)));
    UnionAbsorbs(g.byPackage, FirstWins(map[], PackageClaims(c)));
    UnionAbsorbs(g.byValueKeyword, FirstWins(map[], KeywordClaims(c)));
  }

  /** Updating with the same map a second time changes nothing. */
  lemma UnionAbsorbs(a: map<string, string>, b: map<string, string>)
    ensures (a + b) + b == a + b
  {
  }

  // ---------------------------------------------------------------------
  // _save_config
  // ---------------------------------------------------------------------

  /** The references that are written, i.e. every key but the index key. */
  function SavedRefs(refs: seq<string>): (r: seq<string>)
    ensures forall k :: k in r <==> k in refs && k != GlobalKey
    ensures multiset(r) <= multiset(refs)
  {
    if refs == [] then []
    else
      assert refs == [refs[0]] + refs[1..];
      (if refs[0] == GlobalKey then [] else [refs[0]]) + SavedRefs(refs[1..])
  }

  /** The key order `_save_config` writes: the index first when present,
      then the references in sorted order. */
  function SavedKeyOrder(c: Config): (r: seq<string>)
    ensures c.global.Some? ==> |r| > 0 && r[0] == GlobalKey
    ensures var body := if c.global.Some? then r[1..] else r;
            Sorted(body) && multiset(body) == multiset(SavedRefs(c.refs)) && GlobalKey !in body
  {
    var saved := SavedRefs(c.refs);
    var sorted := Sort(saved);
    assert GlobalKey !in saved;
    assert GlobalKey !in multiset(saved);
    assert GlobalKey !in sorted by {
      assert GlobalKey !in multiset(sorted);
    }
    var r := (if c.global.Some? then [GlobalKey] else []) + sorted;
    assert (if c.global.Some? then r[1..] else r) == sorted;
    r
  }

  // ---------------------------------------------------------------------
  // Overrides after generation
  // ---------------------------------------------------------------------

  /** After generation, a reference the call created reads back the first
      record's rotation and the new-entry scale 0.056. */
  lemma OverridesAfterGenerate(c: Config, keys: seq<string>, comps: seq<Component>, i: int)
    requires Valid(c) && 0 <= i < |comps| && IsFirst(comps, i) && comps[i].reference !in c.entries
    ensures var r := GenerateUniversalConfig(c, keys, comps).0;
            ComponentRotation(r, comps[i]) == comps[i].rotation &&
            ComponentScale(r, comps[i]) == NewEntryScale
  {
  }

  /** A persisted artwork name present in the catalog is honoured even when
      the heuristic would pick another artwork (for instance an exact match
      for the footprint). */
  lemma OverrideBeatsHeuristic(c: Config, keys: seq<string>, comp: Component, name: string)
    requires comp.reference in c.entries && c.entries[comp.reference].svg == Some(name)
    requires name != "" && name in keys
    ensures FindComponentSvg(c, keys, comp) == Some(name)
  {
  }
}
