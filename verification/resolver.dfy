/** The artwork resolver of `ComponentPlacer`: the static rule tables, the
    search-term builder and the catalog search. The catalog is the sequence of
    artwork names in discovery order. */
module Resolver {
  import opened Wrappers
  import opened Seqs
  import opened Text
  import opened Components

  /** A rule of one of the three tables: a pattern and the search terms it
      contributes. */
  datatype Rule = Rule(pattern: string, terms: seq<string>)

  /** The three rule tables of `_create_auto_mapping_rules`; each is searched
      in declaration order. */
  datatype RuleTable = RuleTable(byRef: seq<Rule>, byPackage: seq<Rule>, byValue: seq<Rule>)

  /** The tables as the source declares them. */
  const Rules: RuleTable := RuleTable(RefRules, PackageRules, ValueRules)

  /** Reference-prefix rules, in declaration order. */
  const RefRules: seq<Rule> := [
    Rule("R", ["Resistor", "resistor", "RES"]),
    Rule("C", ["Capacitor", "capacitor", "CAP"]),
    Rule("D", ["Diode", "diode", "LED"]),
    Rule("Q", ["Si2301", "Transistor", "transistor", "SOT-23"]),
    Rule("U", ["IC", "8 PIN IC", "IC-Module", "chip"]),
    Rule("J", ["CONN", "connector", "JST", "USB"]),
    Rule("SW", ["Button", "Switch", "SW-SPDT", "SW-SPST"]),
    Rule("Y", ["Crystal", "crystal", "OSC"])
  ]

  /** Package (footprint) rules, in declaration order. */
  const PackageRules: seq<Rule> := [
    Rule("SOT-23", ["Si2301", "SOT-23", "transistor"]),
    Rule("SOT-23-5", ["AP211K", "AP2112", "SOT-23-5"]),
    Rule("C_0603", ["Capacitor", "capacitor"]),
    Rule("R_0603", ["Resistor", "resistor"]),
    Rule("LED_0603", ["LED", "led"]),
    Rule("D_SMA", ["Diode", "diode"]),
    Rule("USB_C", ["USB", "usb"]),
    Rule("ESP32", ["IC-Module", "ESP32"]),
    Rule("JST_SH", ["CONN", "JST"]),
    Rule("PinSocket", ["CONN", "connector"]),
    Rule("SW_SPST", ["Button", "button"]),
    Rule("SW_SPDT", ["SW-SPDT", "switch"])
  ]

  /** Value-keyword rules, in declaration order (patterns already lower case). */
  const ValueRules: seq<Rule> := [
    Rule("led", ["LED", "led"]),
    Rule("esp32", ["IC-Module", "ESP32"]),
    Rule("usb", ["USB", "usb"]),
    Rule("crystal", ["Crystal", "crystal"])
  ]

  /** The three special pairs, one of which may be put in front of the terms. */
  const LedPair: seq<string> := ["LED", "led"]
  const ModulePair: seq<string> := ["IC-Module", "ESP32"]
  const UsbPair: seq<string> := ["USB", "usb"]

  // ---------------------------------------------------------------------
  // Catalog search
  // ---------------------------------------------------------------------

  /** Exact, case-insensitive name match. */
  predicate ExactMatch(term: string, key: string) {
    ToLower(term) == ToLower(key)
  }

  /** Substring match in either direction, case-insensitive. */
  predicate LooseMatch(term: string, key: string) {
    Contains(ToLower(term), ToLower(key)) || Contains(ToLower(key), ToLower(term))
  }

  lemma ExactIsLoose(term: string, key: string)
    requires ExactMatch(term, key)
    ensures LooseMatch(term, key)
  {
    ContainsSelf(ToLower(term));
  }

  /** Key `i` is the first exact hit for `term`. */
  ghost predicate FirstExact(term: string, keys: seq<string>, i: int) {
    && 0 <= i < |keys|
    && ExactMatch(term, keys[i])
    && forall j :: 0 <= j < i ==> !ExactMatch(term, keys[j])
  }

  /** No key is an exact hit and key `i` is the first substring hit. */
  ghost predicate FirstLoose(term: string, keys: seq<string>, i: int) {
    && 0 <= i < |keys|
    && (forall j :: 0 <= j < |keys| ==> !ExactMatch(term, keys[j]))
    && LooseMatch(term, keys[i])
    && forall j :: 0 <= j < i ==> !LooseMatch(term, keys[j])
  }

  /** The catalog search for one term: the first exact hit, else the first
      substring hit, else None. */
  function MatchTerm(term: string, keys: seq<string>): (r: Option<string>)
    ensures r.Some? ==> r.value in keys && LooseMatch(term, r.value)
    ensures r.None? <==> forall i :: 0 <= i < |keys| ==> !LooseMatch(term, keys[i])
    ensures (exists i :: 0 <= i < |keys| && ExactMatch(term, keys[i])) ==>
              r.Some? && ExactMatch(term, r.value)
    ensures r.Some? ==> exists i :: (FirstExact(term, keys, i) || FirstLoose(term, keys, i)) && r.value == keys[i]
    ensures forall i :: FirstExact(term, keys, i) ==> r == Some(keys[i])
    ensures forall i :: FirstLoose(term, keys, i) ==> r == Some(keys[i])
  {
    match FirstWhere(keys, k => ExactMatch(term, k))
    case Some(i) =>
      ExactIsLoose(term, keys[i]);
      Some(keys[i])
    case None =>
      match FirstWhere(keys, k => LooseMatch(term, k))
      case Some(i) => Some(keys[i])
      case None => None
  }

  /** `_find_best_svg_match`: the terms are tried in order and the first one
      with any hit decides. */
  function FindBestMatch(terms: seq<string>, keys: seq<string>): (r: Option<string>)
    ensures r.Some? ==> r.value in keys
  {
    if terms == [] then None
    else
      match MatchTerm(terms[0], keys)
      case Some(k) => Some(k)
      case None => FindBestMatch(terms[1..], keys)
  }

  /** The contract of `_find_best_svg_match`: None exactly when no term has a
      hit on any key; otherwise the answer of the earliest term with a hit,
      which prefers an exact hit over a substring hit. */
  lemma FindBestMatchSpec(terms: seq<string>, keys: seq<string>)
    ensures FindBestMatch(terms, keys).None? <==>
              forall i, j :: 0 <= i < |terms| && 0 <= j < |keys| ==> !LooseMatch(terms[i], keys[j])
    ensures FindBestMatch(terms, keys).Some? ==>
              exists i :: 0 <= i < |terms| && FindBestMatch(terms, keys) == MatchTerm(terms[i], keys) &&
                          forall j :: 0 <= j < i ==> MatchTerm(terms[j], keys).None?
  {
    FindBestMatchNone(terms, keys);
    FindBestMatchSome(terms, keys);
  }

  /** No answer exactly when every term misses. */
  lemma {:induction false} FindBestMatchNone(terms: seq<string>, keys: seq<string>)
    ensures FindBestMatch(terms, keys).None? <==> forall i :: 0 <= i < |terms| ==> MatchTerm(terms[i], keys).None?
    decreases |terms|
  {
    if terms != [] && MatchTerm(terms[0], keys).None? {
      FindBestMatchNone(terms[1..], keys);
      forall i | 0 < i < |terms|
        ensures terms[i] == terms[1..][i - 1]
      {
      }
    }
  }

  /** An answer is that of the earliest term that hits. */
  lemma {:induction false} FindBestMatchSome(terms: seq<string>, keys: seq<string>)
    ensures FindBestMatch(terms, keys).Some? ==>
              exists i :: 0 <= i < |terms| && FindBestMatch(terms, keys) == MatchTerm(terms[i], keys) &&
                          forall j :: 0 <= j < i ==> MatchTerm(terms[j], keys).None?
    decreases |terms|
  {
    if terms != [] && MatchTerm(terms[0], keys).None? {
      FindBestMatchSome(terms[1..], keys);
      var r := FindBestMatch(terms, keys);
      assert r == FindBestMatch(terms[1..], keys);
      if r.Some? {
        var i :| 0 <= i < |terms[1..]| && r == MatchTerm(terms[1..][i], keys) &&
                 forall j :: 0 <= j < i ==> MatchTerm(terms[1..][j], keys).None?;
        assert terms[i + 1] == terms[1..][i];
        forall j | 0 <= j < i + 1
          ensures MatchTerm(terms[j], keys).None?
        {
          if j > 0 {
            assert terms[j] == terms[1..][j - 1];
          }
        }
        assert 0 <= i + 1 < |terms| && r == MatchTerm(terms[i + 1], keys);
      }
    }
  }

  /** With no search terms there is no match. */
  lemma NoTermsNoMatch(keys: seq<string>)
    ensures FindBestMatch([], keys) == None
  {
  }

  // ---------------------------------------------------------------------
  // Search-term construction
  // ---------------------------------------------------------------------

  /** The key used for the reference-prefix lookup: `ref[0]`, or "" for an
      empty reference. */
  function RefKey(reference: string): (k: string)
    ensures |k| <= 1
    ensures reference != [] ==> k == [reference[0]]
  {
    if reference == [] then "" else [reference[0]]
  }

  /** A reference rule fires when its pattern is the lookup key itself. */
  predicate RefRuleFires(rule: Rule, reference: string) {
    rule.pattern == RefKey(reference)
  }

  /** A package rule fires when its lower-cased pattern occurs in the
      lower-cased package. */
  predicate PackageRuleFires(rule: Rule, packageLower: string) {
    Contains(ToLower(rule.pattern), packageLower)
  }

  /** A value rule fires when its pattern occurs in the lower-cased value. */
  predicate ValueRuleFires(rule: Rule, valueLower: string) {
    Contains(rule.pattern, valueLower)
  }

  /** The terms contributed by the first rule of `rules` that fires, or none. */
  function TermsOf(rules: seq<Rule>, index: Option<nat>): seq<string> {
    if index.Some? && index.value < |rules| then rules[index.value].terms else []
  }

  /** The special pair put in front of the terms, chosen by the if/elif chain
      with priority diode-LED, then ESP32, then USB. */
  function SpecialPrefix(reference: string, packageLower: string, valueLower: string): (r: seq<string>)
    ensures r == [] || r == LedPair || r == ModulePair || r == UsbPair
    ensures r == LedPair <==> StartsWith(reference, "D") && Contains("led", valueLower)
    ensures r == ModulePair <==>
              !(StartsWith(reference, "D") && Contains("led", valueLower)) &&
              (Contains("esp32", valueLower) || Contains("esp32", packageLower))
    ensures r == UsbPair <==>
              !(StartsWith(reference, "D") && Contains("led", valueLower)) &&
              !(Contains("esp32", valueLower) || Contains("esp32", packageLower)) &&
              (Contains("usb", packageLower) || Contains("usb", valueLower))
  {
    if StartsWith(reference, "D") && Contains("led", valueLower) then LedPair
    else if Contains("esp32", valueLower) || Contains("esp32", packageLower) then ModulePair
    else if Contains("usb", packageLower) || Contains("usb", valueLower) then UsbPair
    else []
  }

  /** Which reference rule fires. */
  function RefRuleIndex(t: RuleTable, reference: string): Option<nat> {
    FirstWhere(t.byRef, (rule: Rule) => RefRuleFires(rule, reference))
  }

  /** Which package rule fires. */
  function PackageRuleIndex(t: RuleTable, packageLower: string): Option<nat> {
    FirstWhere(t.byPackage, (rule: Rule) => PackageRuleFires(rule, packageLower))
  }

  /** Which value rule fires. */
  function ValueRuleIndex(t: RuleTable, valueLower: string): Option<nat> {
    FirstWhere(t.byValue, (rule: Rule) => ValueRuleFires(rule, valueLower))
  }

  /** The ordered search terms of `_auto_assign_svg` under rule table `t`. */
  function SearchTermsWith(t: RuleTable, c: Component): seq<string> {
    var packageLower := ToLower(c.package);
    var valueLower := ToLower(c.value);
    SpecialPrefix(c.reference, packageLower, valueLower)
      + TermsOf(t.byRef, RefRuleIndex(t, c.reference))
      + TermsOf(t.byPackage, PackageRuleIndex(t, packageLower))
      + TermsOf(t.byValue, ValueRuleIndex(t, valueLower))
  }

  /** The search terms under the source's own tables. */
  function SearchTerms(c: Component): seq<string> {
    SearchTermsWith(Rules, c)
  }

  /** `_auto_assign_svg`: the best catalog match for the search terms; an
      empty name counts as no match. */
  function AutoAssign(c: Component, keys: seq<string>): (r: Option<string>)
    ensures r.Some? ==> r.value in keys && r.value != ""
  {
    var m := FindBestMatch(SearchTerms(c), keys);
    if m.Some? && m.value != "" then m else None
  }

  /** `rules[i]` is the first rule of `rules` satisfying `fires`. */
  ghost predicate FirstFiring(rules: seq<Rule>, fires: Rule -> bool, i: nat) {
    i < |rules| && fires(rules[i]) && forall j :: 0 <= j < i ==> !fires(rules[j])
  }

  /** The terms of one table: none when no rule fires, otherwise exactly the
      terms of the first rule that fires. */
  ghost predicate OneRuleContributes(rules: seq<Rule>, fires: Rule -> bool, part: seq<string>) {
    || (part == [] && forall i :: 0 <= i < |rules| ==> !fires(rules[i]))
    || (exists i: nat :: FirstFiring(rules, fires, i) && part == rules[i].terms)
  }

  /** The search terms are the special pair (or nothing), then the
      contribution of at most one rule from each table, each the first rule of
      its table that fires, in the order reference, package, value. */
  lemma SearchTermsShape(t: RuleTable, c: Component)
    ensures exists special, byRef, byPackage, byValue ::
              && SearchTermsWith(t, c) == special + byRef + byPackage + byValue
              && special in {[], LedPair, ModulePair, UsbPair}
              && OneRuleContributes(t.byRef, (rule: Rule) => RefRuleFires(rule, c.reference), byRef)
              && OneRuleContributes(t.byPackage, (rule: Rule) => PackageRuleFires(rule, ToLower(c.package)), byPackage)
              && OneRuleContributes(t.byValue, (rule: Rule) => ValueRuleFires(rule, ToLower(c.value)), byValue)
  {
    var special := SpecialPrefix(c.reference, ToLower(c.package), ToLower(c.value));
    var byRef := TermsOf(t.byRef, RefRuleIndex(t, c.reference));
    var byPackage := TermsOf(t.byPackage, PackageRuleIndex(t, ToLower(c.package)));
    var byValue := TermsOf(t.byValue, ValueRuleIndex(t, ToLower(c.value)));
    var ri := RefRuleIndex(t, c.reference);
    if ri.Some? {
      assert FirstFiring(t.byRef, (rule: Rule) => RefRuleFires(rule, c.reference), ri.value);
    }
    var pi := PackageRuleIndex(t, ToLower(c.package));
    if pi.Some? {
      assert FirstFiring(t.byPackage, (rule: Rule) => PackageRuleFires(rule, ToLower(c.package)), pi.value);
    }
    var vi := ValueRuleIndex(t, ToLower(c.value));
    if vi.Some? {
      assert FirstFiring(t.byValue, (rule: Rule) => ValueRuleFires(rule, ToLower(c.value)), vi.value);
    }
    assert SearchTermsWith(t, c) == special + byRef + byPackage + byValue;
  }

  // ---------------------------------------------------------------------
  // Facts about the rule tables as written
  // ---------------------------------------------------------------------

  /** The reference lookup uses only `ref[0]`, so the two-letter "SW" rule can
      never fire, whatever the reference. */
  lemma SwitchRuleNeverFires(reference: string)
    ensures Rules.byRef[6].pattern == "SW"
    ensures RefRuleIndex(Rules, reference) != Some(6)
  {
    assert |Rules.byRef[6].pattern| == 2;
    assert !RefRuleFires(Rules.byRef[6], reference);
  }

  lemma LowerSot()
    ensures ToLower("SOT-23-5") == "sot-23-5"
    ensures ToLower("SOT-23") == "sot-23"
  {
  }

  /** Any package containing "sot-23-5" also contains "sot-23", so the
      "SOT-23-5" package rule is shadowed by the "SOT-23" rule declared before
      it and never fires. */
  lemma SotRuleShadowed(packageLower: string)
    ensures Rules.byPackage[1].pattern == "SOT-23-5"
    ensures PackageRuleIndex(Rules, packageLower) != Some(1)
  {
    LowerSot();
    if PackageRuleFires(Rules.byPackage[1], packageLower) {
      assert "sot-23-5" == "sot-23" + "-5";
      ContainsPrefixOfPattern("sot-23", "-5", packageLower);
      assert PackageRuleFires(Rules.byPackage[0], packageLower);
    }
  }

  // ---------------------------------------------------------------------
  // Scenarios
  // ---------------------------------------------------------------------

  /** The head of the terms decides when it has an exact hit. */
  lemma FirstTermExactHit(terms: seq<string>, keys: seq<string>, k: nat)
    requires |terms| > 0 && k < |keys| && ExactMatch(terms[0], keys[k])
    ensures FindBestMatch(terms, keys).Some?
    ensures ExactMatch(terms[0], FindBestMatch(terms, keys).value)
  {
  }

  lemma NonEmptyLower(term: string, key: string)
    requires term != "" && ExactMatch(term, key)
    ensures key != ""
  {
  }

  /** A reference starting with "D" whose value mentions "led" resolves to an
      artwork named "LED" (in any case) whenever the catalog has one, ahead of
      the generic diode rule. */
  lemma DiodeLedPrefersLed(c: Component, keys: seq<string>, k: nat)
    requires StartsWith(c.reference, "D") && Contains("led", ToLower(c.value))
    requires k < |keys| && ExactMatch("LED", keys[k])
    ensures AutoAssign(c, keys).Some?
    ensures ExactMatch("LED", AutoAssign(c, keys).value)
  {
    var terms := SearchTerms(c);
    assert SpecialPrefix(c.reference, ToLower(c.package), ToLower(c.value)) == LedPair;
    assert terms[0] == "LED";
    FirstTermExactHit(terms, keys, k);
    NonEmptyLower("LED", FindBestMatch(terms, keys).value);
  }

  /** A reference starting with "R" with no special keyword resolves to an
      artwork named "Resistor" (in any case) whenever the catalog has one. */
  lemma ResistorByReference(c: Component, keys: seq<string>, k: nat)
    requires |c.reference| > 0 && c.reference[0] == 'R'
    requires !Contains("esp32", ToLower(c.value)) && !Contains("esp32", ToLower(c.package))
    requires !Contains("usb", ToLower(c.value)) && !Contains("usb", ToLower(c.package))
    requires k < |keys| && ExactMatch("Resistor", keys[k])
    ensures AutoAssign(c, keys).Some?
    ensures ExactMatch("Resistor", AutoAssign(c, keys).value)
  {
    assert c.reference[..1][0] == 'R';
    assert !StartsWith(c.reference, "D");
    var terms := SearchTerms(c);
    assert SpecialPrefix(c.reference, ToLower(c.package), ToLower(c.value)) == [];
    assert RefRuleFires(Rules.byRef[0], c.reference);
    assert RefRuleIndex(Rules, c.reference) == Some(0);
    assert terms[0] == "Resistor";
    FirstTermExactHit(terms, keys, k);
    NonEmptyLower("Resistor", FindBestMatch(terms, keys).value);
  }
}
