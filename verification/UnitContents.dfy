/** Which features a unit's matching sees, told from the analysed tree and from what matched where. */
module UnitContents {
  import opened Features
  import opened FeatureSets
  import opened Rules
  import opened Engine
  import opened RuleIndex
  import opened RuleGraph
  import opened StaticScopes

  /** Whether the rule of this name matched at unit `v`. */
  ghost predicate Matched(p: Program, name: string, v: Unit)
    requires p.Valid()
  {
    name in Scan(p, v).results
  }

  /** Whether some rule that is published under `n` is among `rules` and in `results`. */
  ghost predicate PublishedBy(rules: seq<Rule>, results: MatchResults, n: string) {
    exists rule | rule in rules :: n in PublishedNames(rule) && rule.name in results
  }

  ghost predicate PublishedAt(p: Program, n: string, v: Unit)
    requires p.Valid()
  {
    PublishedBy(p.RulesAt(v.scope), Scan(p, v).results, n)
  }

  /** Extraction never produces `match` features. */
  ghost predicate NoMatchFeatures(p: Program, u: Unit) {
    forall v, e | v in Units(u) && e in Entries(p, v) :: !e.1.MatchedRule?
  }

  predicate HasFeature(entries: seq<(Address, Feature)>, f: Feature) {
    exists e | e in entries :: e.1 == f
  }

  function EntrySites(entries: seq<(Address, Feature)>, f: Feature): set<Address> {
    set e | e in entries && e.1 == f :: e.0
  }

  /** Unit `v` itself contributes `f`: it was extracted there, or something published as `f` matched there. */
  ghost predicate Shows(p: Program, f: Feature, v: Unit)
    requires p.Valid()
  {
    if f.MatchedRule? then PublishedAt(p, f.name, v) else HasFeature(Entries(p, v), f)
  }

  ghost function OwnSites(p: Program, f: Feature, v: Unit): set<Address>
    requires p.Valid()
  {
    if f.MatchedRule? then (if PublishedAt(p, f.name, v) then {v.addr} else {}) else EntrySites(Entries(p, v), f)
  }

  ghost predicate Shown(p: Program, f: Feature, units: set<Unit>)
    requires p.Valid()
  {
    exists v | v in units :: Shows(p, f, v)
  }

  ghost function Sites(p: Program, f: Feature, units: set<Unit>): set<Address>
    requires p.Valid()
  {
    set v, a | v in units && a in OwnSites(p, f, v) :: a
  }

  /** `locs` has exactly what `units` contribute of `f`. */
  ghost predicate Sees(p: Program, f: Feature, units: set<Unit>, locs: map<Feature, set<Address>>)
    requires p.Valid()
  {
    && (f in locs <==> Shown(p, f, units))
    && Locations(locs, f) == Sites(p, f, units)
  }

  // ---- the pieces ----

  /** `locs` has what `base` had of `f`, and the sites `at` if `more` adds `f`. */
  ghost predicate Adds(base: map<Feature, set<Address>>, f: Feature, more: bool, at: set<Address>,
                       locs: map<Feature, set<Address>>)
  {
    && (f in locs <==> f in base || more)
    && Locations(locs, f) == Locations(base, f) + at
  }

  lemma {:induction false} InsertAllContents(fs: FeatureSet, entries: seq<(Address, Feature)>, f: Feature)
    ensures Adds(fs.locs, f, HasFeature(entries, f), EntrySites(entries, f), InsertAll(fs, entries).locs)
  {
    if entries != [] {
      var init, last := entries[..|entries| - 1], entries[|entries| - 1];
      InsertAllContents(fs, init, f);
      EntriesAppend(init, last, f);
      assert entries == init + [last];
      InsertContents(InsertAll(fs, init), last.1, {last.0}, f);
    }
  }

  lemma EntriesAppend(entries: seq<(Address, Feature)>, e: (Address, Feature), f: Feature)
    ensures HasFeature(entries + [e], f) <==> HasFeature(entries, f) || e.1 == f
    ensures EntrySites(entries + [e], f) == EntrySites(entries, f) + (if e.1 == f then {e.0} else {})
  {
    assert forall x :: x in entries + [e] <==> x in entries || x == e;
    if e.1 == f {
      assert e in entries + [e];
    }
  }

  lemma GuardedInsertContents(fs: FeatureSet, e: (Address, Feature), f: Feature)
    ensures f in GuardedInsert(fs, e).locs <==> f in fs.locs || e.1 == f
    ensures Locations(GuardedInsert(fs, e).locs, f)
            == Locations(fs.locs, f) + (if e.1 == f then {e.0} - {NoAddress} else {})
  {
    InsertContents(fs, e.1, if e.0 == NoAddress then {} else {e.0}, f);
  }

  lemma {:induction false} InsertGuardedContents(fs: FeatureSet, entries: seq<(Address, Feature)>, f: Feature)
    ensures Adds(fs.locs, f, HasFeature(entries, f), EntrySites(entries, f) - {NoAddress},
                 InsertGuarded(fs, entries).locs)
  {
    if entries != [] {
      var init, last := entries[..|entries| - 1], entries[|entries| - 1];
      InsertGuardedContents(fs, init, f);
      assert entries == init + [last];
      GuardedEntriesAppend(init, last, f);
      GuardedInsertAdds(InsertGuarded(fs, init), last, f);
      AddsThen(fs.locs, f, HasFeature(init, f), EntrySites(init, f) - {NoAddress}, InsertGuarded(fs, init).locs,
               last.1 == f, GuardedSites(last, f), InsertGuarded(fs, entries).locs);
    }
  }

  lemma AddsThen(base: map<Feature, set<Address>>, f: Feature, more: bool, at: set<Address>,
                 mid: map<Feature, set<Address>>, more': bool, at': set<Address>, locs: map<Feature, set<Address>>)
    requires Adds(base, f, more, at, mid) && Adds(mid, f, more', at', locs)
    ensures Adds(base, f, more || more', at + at', locs)
  {
  }

  /** The locations that a guarded entry brings. */
  function GuardedSites(e: (Address, Feature), f: Feature): set<Address> {
    if e.1 == f then {e.0} - {NoAddress} else {}
  }

  lemma GuardedEntriesAppend(init: seq<(Address, Feature)>, last: (Address, Feature), f: Feature)
    ensures HasFeature(init + [last], f) <==> HasFeature(init, f) || last.1 == f
    ensures EntrySites(init + [last], f) - {NoAddress} == (EntrySites(init, f) - {NoAddress}) + GuardedSites(last, f)
  {
    EntriesAppend(init, last, f);
  }

  lemma GuardedInsertAdds(fs: FeatureSet, e: (Address, Feature), f: Feature)
    ensures Adds(fs.locs, f, e.1 == f, GuardedSites(e, f), GuardedInsert(fs, e).locs)
  {
    GuardedInsertContents(fs, e, f);
  }

  lemma MergeContentsAt(a: FeatureSet, b: FeatureSet, f: Feature)
    ensures f in Merge(a, b).locs <==> f in a.locs || f in b.locs
    ensures Locations(Merge(a, b).locs, f) == Locations(a.locs, f) + Locations(b.locs, f)
  {
    MergeContents(a, b);
  }

  /** Whether the scan of the first `n` rules has published `f`. */
  ghost predicate ScanPublished(rules: seq<Rule>, n: nat, results: MatchResults, f: Feature)
    requires n <= |rules|
  {
    f.MatchedRule? && PublishedWithin(rules, n, results.Keys, f.name)
  }

  /** `st` has what `fs` has of `f`, and the scan's address if the scan has published `f`. */
  ghost predicate ScanAdds(rules: seq<Rule>, n: nat, fs: FeatureSet, addr: Address, st: ScanState, f: Feature)
    requires n <= |rules|
  {
    var published := ScanPublished(rules, n, st.results, f);
    Adds(fs.locs, f, published, if published then {addr} else {}, st.features.locs)
  }

  ghost predicate NamedWithin(rules: seq<Rule>, n: nat, results: MatchResults)
    requires n <= |rules|
  {
    forall name | name in results :: exists i | 0 <= i < n :: rules[i].name == name
  }

  /** After the first `n` rules: what was there, and the `match` features of what matched so far. */
  lemma {:induction false} LinearScanContents(rules: seq<Rule>, n: nat, fs: FeatureSet, addr: Address, f: Feature)
    requires n <= |rules| && UniqueNames(rules) && LinearScan(rules, n, fs, addr).Ok?
    ensures ScanAdds(rules, n, fs, addr, LinearScan(rules, n, fs, addr).value, f)
  {
    if n > 0 {
      LinearScanContents(rules, n - 1, fs, addr, f);
      ResultsAreNamed(rules, n - 1, fs, addr);
      var st := LinearScan(rules, n - 1, fs, addr).value;
      assert LinearScan(rules, n, fs, addr) == ScanRule(st, rules[n - 1], addr);
      NextScanContents(rules, n, fs, addr, st, f);
    }
  }

  lemma NextScanContents(rules: seq<Rule>, n: nat, fs: FeatureSet, addr: Address, st: ScanState, f: Feature)
    requires 0 < n <= |rules| && UniqueNames(rules) && ScanRule(st, rules[n - 1], addr).Ok?
    requires NamedWithin(rules, n - 1, st.results) && ScanAdds(rules, n - 1, fs, addr, st, f)
    ensures ScanAdds(rules, n, fs, addr, ScanRule(st, rules[n - 1], addr).value, f)
  {
    assert rules[n - 1].name !in st.results;
    ScanRuleContents(st, rules[n - 1], addr, f);
    PublishedByNext(rules, n, st.results, ScanRule(st, rules[n - 1], addr).value.results, f);
  }

  lemma ScanRuleContents(st: ScanState, rule: Rule, addr: Address, f: Feature)
    requires ScanRule(st, rule, addr).Ok? && rule.name !in st.results
    ensures var after := ScanRule(st, rule, addr).value;
            var published := f.MatchedRule? && after.results.Keys != st.results.Keys && f.name in PublishedNames(rule);
            && (after.results.Keys == st.results.Keys || after.results.Keys == st.results.Keys + {rule.name})
            && (f in after.features.locs <==> f in st.features.locs || published)
            && Locations(after.features.locs, f) == Locations(st.features.locs, f) + (if published then {addr} else {})
  {
    ScanRuleCases(st, rule, addr);
    PublishNamesContents(st.features, PublishedNames(rule), {addr}, f);
  }

  /** A rule leaves everything as it was, or is recorded and published. */
  lemma ScanRuleCases(st: ScanState, rule: Rule, addr: Address)
    requires ScanRule(st, rule, addr).Ok?
    ensures var after := ScanRule(st, rule, addr).value;
            after == st || (after.features == IndexRuleMatches(st.features, rule, {addr})
                            && after.results.Keys == st.results.Keys + {rule.name})
  {
    var full := Evaluate(rule.body, st.features, false);
    if full.Ok? {
      RecordedNames(st.results, rule.name, addr, full.value);
    }
  }

  lemma RecordedNames(results: MatchResults, name: string, addr: Address, m: MatchResult)
    ensures Record(results, name, addr, m).Keys == results.Keys + {name}
  {
  }

  lemma {:induction false} ResultsAreNamed(rules: seq<Rule>, n: nat, fs: FeatureSet, addr: Address)
    requires n <= |rules| && LinearScan(rules, n, fs, addr).Ok?
    ensures NamedWithin(rules, n, LinearScan(rules, n, fs, addr).value.results)
  {
    if n > 0 {
      ResultsAreNamed(rules, n - 1, fs, addr);
    }
  }

  lemma PublishedByNext(rules: seq<Rule>, n: nat, before: MatchResults, after: MatchResults, f: Feature)
    requires 0 < n <= |rules| && UniqueNames(rules)
    requires after.Keys == before.Keys || after.Keys == before.Keys + {rules[n - 1].name}
    requires NamedWithin(rules, n - 1, before)
    ensures ScanPublished(rules, n, after, f)
            <==> ScanPublished(rules, n - 1, before, f)
                 || (f.MatchedRule? && after.Keys != before.Keys && f.name in PublishedNames(rules[n - 1]))
  {
    assert rules[n - 1].name !in before.Keys;
    if f.MatchedRule? {
      PublishedAmongNext(rules, n, before.Keys, after.Keys, f.name);
    }
  }

  /** Some rule among the first `n` is matched and published under `name`. */
  ghost predicate PublishedWithin(rules: seq<Rule>, n: nat, matched: set<string>, name: string)
    requires n <= |rules|
  {
    exists i | 0 <= i < n :: name in PublishedNames(rules[i]) && rules[i].name in matched
  }

  lemma PublishedAmongNext(rules: seq<Rule>, n: nat, before: set<string>, after: set<string>, name: string)
    requires 0 < n <= |rules| && UniqueNames(rules) && rules[n - 1].name !in before
    requires after == before || after == before + {rules[n - 1].name}
    ensures PublishedWithin(rules, n, after, name)
            <==> PublishedWithin(rules, n - 1, before, name)
                 || (after != before && name in PublishedNames(rules[n - 1]))
  {
    forall i | 0 <= i < n - 1 ensures rules[i].name in after <==> rules[i].name in before {
      assert rules[i].name != rules[n - 1].name;
    }
  }

  lemma ScanContents(p: Program, scope: Scope, fs: FeatureSet, addr: Address, f: Feature)
    requires p.Valid()
    ensures var st := ScanAt(p, scope, fs, addr);
            var published := f.MatchedRule? && PublishedBy(p.RulesAt(scope), st.results, f.name);
            && (f in st.features.locs <==> f in fs.locs || published)
            && Locations(st.features.locs, f) == Locations(fs.locs, f) + (if published then {addr} else {})
  {
    var rules := p.RulesAt(scope);
    EvaluableScanSucceeds(rules, |rules|, fs, addr);
    LinearScanContents(rules, |rules|, fs, addr, f);
    var results := ScanAt(p, scope, fs, addr).results;
    if f.MatchedRule? && PublishedBy(rules, results, f.name) {
      var rule :| rule in rules && f.name in PublishedNames(rule) && rule.name in results;
      var i :| 0 <= i < |rules| && rules[i] == rule;
    }
  }

  lemma SitesUnion(p: Program, f: Feature, a: set<Unit>, b: set<Unit>)
    requires p.Valid()
    ensures Shown(p, f, a + b) <==> Shown(p, f, a) || Shown(p, f, b)
    ensures Sites(p, f, a + b) == Sites(p, f, a) + Sites(p, f, b)
  {
  }

  lemma SitesOne(p: Program, f: Feature, v: Unit)
    requires p.Valid()
    ensures Shown(p, f, {v}) <==> Shows(p, f, v)
    ensures Sites(p, f, {v}) == OwnSites(p, f, v)
  {
  }

  // ---- the whole unit ----

  lemma {:induction false} PartsContents(p: Program, parts: seq<Unit>, f: Feature)
    requires p.Valid()
    requires forall part | part in parts :: WellNested(part) && !part.scope.FileScope? && NoMatchFeatures(p, part)
    ensures Sees(p, f, UnitsIn(parts), MergeParts(p, parts).locs)
    decreases parts
  {
    if parts != [] {
      var init, last := parts[..|parts| - 1], parts[|parts| - 1];
      PartsContents(p, init, f);
      UnitContents(p, last, f);
      MergeContentsAt(MergeParts(p, init), Scan(p, last).features, f);
      SitesUnion(p, f, UnitsIn(init), Units(last));
    }
  }

  lemma NoMatchBelow(p: Program, u: Unit)
    requires NoMatchFeatures(p, u)
    ensures forall part | part in u.parts :: NoMatchFeatures(p, part)
  {
    UnitsInParts(u.parts);
    forall part | part in u.parts ensures NoMatchFeatures(p, part) {
      forall v, e | v in Units(part) && e in Entries(p, v) ensures !e.1.MatchedRule? {
        assert v in Units(u);
      }
    }
  }

  /** Before the scan, a unit has what the units below contribute, and its own raw features. */
  lemma BeforeContents(p: Program, u: Unit, f: Feature)
    requires p.Valid() && WellNested(u) && !u.scope.FileScope? && NoMatchFeatures(p, u)
    requires Sees(p, f, UnitsIn(u.parts), MergeParts(p, u.parts).locs)
    ensures f in Before(p, u).locs <==> Shown(p, f, UnitsIn(u.parts)) || (!f.MatchedRule? && Shows(p, f, u))
    ensures Locations(Before(p, u).locs, f)
            == Sites(p, f, UnitsIn(u.parts)) + (if f.MatchedRule? then {} else OwnSites(p, f, u))
  {
    InsertAllContents(MergeParts(p, u.parts), Entries(p, u), f);
    if f.MatchedRule? {
      OwnEntriesAreRaw(p, u, f);
    }
  }

  /** Adding the unit's own contribution to that of its parts gives the contribution of the whole. */
  lemma WholeIsPartsAndOwn(p: Program, u: Unit, f: Feature, locs: map<Feature, set<Address>>)
    requires p.Valid()
    requires f in locs <==> Shown(p, f, UnitsIn(u.parts)) || Shows(p, f, u)
    requires Locations(locs, f) == Sites(p, f, UnitsIn(u.parts)) + OwnSites(p, f, u)
    ensures Sees(p, f, Units(u), locs)
  {
    SitesUnion(p, f, {u}, UnitsIn(u.parts));
    SitesOne(p, f, u);
    assert Units(u) == {u} + UnitsIn(u.parts);
  }

  /** The features after the scan of a unit are what it and the units below contribute: raw features and matches. */
  lemma {:induction false} UnitContents(p: Program, u: Unit, f: Feature)
    requires p.Valid() && WellNested(u) && !u.scope.FileScope? && NoMatchFeatures(p, u)
    ensures Sees(p, f, Units(u), Scan(p, u).features.locs)
    decreases u
  {
    NoMatchBelow(p, u);
    PartsContents(p, u.parts, f);
    PartsAndOwnContents(p, u, f);
  }

  lemma PartsAndOwnContents(p: Program, u: Unit, f: Feature)
    requires p.Valid() && WellNested(u) && !u.scope.FileScope? && NoMatchFeatures(p, u)
    requires Sees(p, f, UnitsIn(u.parts), MergeParts(p, u.parts).locs)
    ensures Sees(p, f, Units(u), Scan(p, u).features.locs)
  {
    BeforeContents(p, u, f);
    ScanContents(p, u.scope, Before(p, u), u.addr, f);
    WholeIsPartsAndOwn(p, u, f, Scan(p, u).features.locs);
  }

  lemma OwnEntriesAreRaw(p: Program, u: Unit, f: Feature)
    requires NoMatchFeatures(p, u) && f.MatchedRule?
    ensures !HasFeature(Entries(p, u), f) && EntrySites(Entries(p, u), f) == {}
  {
    assert u in Units(u);
  }

  // ---- file scope ----

  /** The units among `units` of one scope at which the rule of this name matched. */
  ghost function MatchedUnits(p: Program, units: set<Unit>, scope: Scope, name: string): set<Unit>
    requires p.Valid()
  {
    set v | v in units && v.scope == scope && Matched(p, name, v)
  }

  ghost function Addresses(units: set<Unit>): set<Address> {
    set v | v in units :: v.addr
  }

  function RecordedAt(results: MatchResults, name: string): set<Address> {
    set m | m in Recorded(results, name) :: m.0
  }

  /** `results` lists the rule of this name exactly at the addresses of `units`. */
  ghost predicate RecordsAt(results: MatchResults, name: string, units: set<Unit>) {
    && (name in results <==> units != {})
    && RecordedAt(results, name) == Addresses(units)
  }

  lemma {:induction false} ScanRecordsHere(rules: seq<Rule>, n: nat, fs: FeatureSet, addr: Address, name: string)
    requires n <= |rules| && LinearScan(rules, n, fs, addr).Ok?
    ensures var results := LinearScan(rules, n, fs, addr).value.results;
            && (name in results ==> results[name] != [])
            && forall m | m in Recorded(results, name) :: m.0 == addr
  {
    if n > 0 {
      ScanRecordsHere(rules, n - 1, fs, addr, name);
    }
  }

  lemma UnitRecordsHere(p: Program, u: Unit, name: string)
    requires p.Valid()
    ensures RecordsAt(Scan(p, u).results, name, if Matched(p, name, u) then {u} else {})
  {
    var rules := p.RulesAt(u.scope);
    EvaluableScanSucceeds(rules, |rules|, Before(p, u), u.addr);
    ScanRecordsHere(rules, |rules|, Before(p, u), u.addr, name);
    if Matched(p, name, u) {
      var results := Scan(p, u).results;
      assert results[name][0] in Recorded(results, name);
    }
  }

  lemma ExtendRecords(a: MatchResults, b: MatchResults, name: string, us: set<Unit>, vs: set<Unit>)
    requires RecordsAt(a, name, us) && RecordsAt(b, name, vs)
    ensures RecordsAt(ExtendMatches(a, b), name, us + vs)
  {
    var r := ExtendMatches(a, b);
    assert Recorded(r, name) == Recorded(a, name) + Recorded(b, name);
    assert RecordedAt(r, name) == RecordedAt(a, name) + RecordedAt(b, name);
    assert Addresses(us + vs) == Addresses(us) + Addresses(vs);
  }

  lemma {:induction false} OnlyItself(p: Program, u: Unit, name: string)
    requires p.Valid() && WellNested(u)
    ensures MatchedUnits(p, Units(u), u.scope, name) == if Matched(p, name, u) then {u} else {}
  {
    forall v | v in MatchedUnits(p, Units(u), u.scope, name) ensures v == u {
      UnitsAreWellNested(u, v);
    }
    assert u in Units(u);
  }

  lemma {:induction false} MatchesOfContents(p: Program, u: Unit, scope: Scope, name: string)
    requires p.Valid() && WellNested(u)
    ensures RecordsAt(MatchesOf(p, u, scope), name, MatchedUnits(p, Units(u), scope, name))
    decreases u, 1
  {
    if u.scope == scope {
      OnlyItself(p, u, name);
      UnitRecordsHere(p, u, name);
    } else {
      MatchesOfPartsContents(p, u.parts, scope, name);
      OnlyItsParts(p, u, scope, name);
    }
  }

  lemma OnlyItsParts(p: Program, u: Unit, scope: Scope, name: string)
    requires p.Valid() && u.scope != scope
    ensures MatchedUnits(p, Units(u), scope, name) == MatchedUnits(p, UnitsIn(u.parts), scope, name)
  {
  }

  lemma {:induction false} MatchesOfPartsContents(p: Program, parts: seq<Unit>, scope: Scope, name: string)
    requires p.Valid() && forall part | part in parts :: WellNested(part)
    ensures RecordsAt(MatchesOfParts(p, parts, scope), name, MatchedUnits(p, UnitsIn(parts), scope, name))
    decreases parts
  {
    if parts != [] {
      var init, last := parts[..|parts| - 1], parts[|parts| - 1];
      MatchesOfPartsContents(p, init, scope, name);
      MatchesOfContents(p, last, scope, name);
      MatchedUnitsUnion(p, UnitsIn(init), Units(last), scope, name);
      ExtendRecords(MatchesOfParts(p, init, scope), MatchesOf(p, last, scope), name,
                    MatchedUnits(p, UnitsIn(init), scope, name), MatchedUnits(p, Units(last), scope, name));
    }
  }

  lemma MatchedUnitsUnion(p: Program, a: set<Unit>, b: set<Unit>, scope: Scope, name: string)
    requires p.Valid()
    ensures MatchedUnits(p, a + b, scope, name) == MatchedUnits(p, a, scope, name) + MatchedUnits(p, b, scope, name)
  {
  }

  /** The addresses that `rules` publish under `name`. */
  ghost function PublishedSites(rules: seq<Rule>, at: map<string, set<Address>>, name: string): set<Address> {
    set rule, a | rule in rules && rule.name in at && name in PublishedNames(rule) && a in at[rule.name] :: a
  }

  ghost predicate PublishesAny(rules: seq<Rule>, at: map<string, set<Address>>, name: string) {
    exists rule | rule in rules :: rule.name in at && name in PublishedNames(rule)
  }

  lemma PublishersAppend(rules: seq<Rule>, rule: Rule, at: map<string, set<Address>>, name: string)
    ensures var here := rule.name in at && name in PublishedNames(rule);
            && (PublishesAny(rules + [rule], at, name) <==> PublishesAny(rules, at, name) || here)
            && PublishedSites(rules + [rule], at, name)
               == PublishedSites(rules, at, name) + (if here then at[rule.name] else {})
  {
    assert forall r :: r in rules + [rule] <==> r in rules || r == rule;
    if PublishesAny(rules, at, name) {
      var r :| r in rules && r.name in at && name in PublishedNames(r);
      assert r in rules + [rule];
    }
    if rule.name in at && name in PublishedNames(rule) {
      assert rule in rules + [rule];
    }
  }

  lemma PublishOneContents(fs: FeatureSet, rule: Rule, at: map<string, set<Address>>, f: Feature)
    ensures var here := f.MatchedRule? && rule.name in at && f.name in PublishedNames(rule);
            && (f in PublishOne(fs, rule, at).locs <==> f in fs.locs || here)
            && Locations(PublishOne(fs, rule, at).locs, f)
               == Locations(fs.locs, f) + (if here then at[rule.name] else {})
  {
    if rule.name in at {
      PublishNamesContents(fs, PublishedNames(rule), at[rule.name], f);
    }
  }

  lemma {:induction false} PublishEachContents(fs: FeatureSet, rules: seq<Rule>, at: map<string, set<Address>>,
                                               f: Feature)
    ensures f in PublishEach(fs, rules, at).locs
            <==> f in fs.locs || (f.MatchedRule? && PublishesAny(rules, at, f.name))
    ensures Locations(PublishEach(fs, rules, at).locs, f)
            == Locations(fs.locs, f) + (if f.MatchedRule? then PublishedSites(rules, at, f.name) else {})
  {
    if rules != [] {
      var init, last := rules[..|rules| - 1], rules[|rules| - 1];
      PublishEachContents(fs, init, at, f);
      PublishOneContents(PublishEach(fs, init, at), last, at, f);
      if f.MatchedRule? {
        PublishersAppend(init, last, at, f.name);
        assert rules == init + [last];
      }
    }
  }

  /** The units of one scope that publish `name`. */
  ghost function Publishers(p: Program, units: set<Unit>, scope: Scope, name: string): set<Unit>
    requires p.Valid()
  {
    set v | v in units && v.scope == scope && PublishedAt(p, name, v)
  }

  /** `at` lists the rule of this name exactly where it matched among `units`. */
  ghost predicate ListsMatches(p: Program, units: set<Unit>, scope: Scope, at: map<string, set<Address>>, name: string)
    requires p.Valid()
  {
    && (name in at <==> MatchedUnits(p, units, scope, name) != {})
    && (name in at ==> at[name] == Addresses(MatchedUnits(p, units, scope, name)))
  }

  /** The publications of one scope are the units of that scope at which something so named matched. */
  lemma PublishedSitesAreUnits(p: Program, units: set<Unit>, scope: Scope, at: map<string, set<Address>>, name: string)
    requires p.Valid()
    requires forall rule | rule in p.RulesAt(scope) :: ListsMatches(p, units, scope, at, rule.name)
    ensures PublishesAny(p.RulesAt(scope), at, name) <==> Publishers(p, units, scope, name) != {}
    ensures PublishedSites(p.RulesAt(scope), at, name) == Addresses(Publishers(p, units, scope, name))
  {
    var rules, publishers := p.RulesAt(scope), Publishers(p, units, scope, name);
    forall v | v in publishers ensures PublishesAny(rules, at, name) && v.addr in PublishedSites(rules, at, name) {
      PublisherIsListed(p, units, scope, at, name, v);
    }
    forall rule | rule in rules && rule.name in at && name in PublishedNames(rule)
      ensures publishers != {} && at[rule.name] <= Addresses(publishers)
    {
      ListedIsPublished(p, units, scope, at, name, rule);
    }
  }

  lemma PublisherIsListed(p: Program, units: set<Unit>, scope: Scope, at: map<string, set<Address>>, name: string,
                          v: Unit)
    requires p.Valid() && v in Publishers(p, units, scope, name)
    requires forall rule | rule in p.RulesAt(scope) :: ListsMatches(p, units, scope, at, rule.name)
    ensures PublishesAny(p.RulesAt(scope), at, name)
    ensures v.addr in PublishedSites(p.RulesAt(scope), at, name)
  {
    var rule :| rule in p.RulesAt(scope) && name in PublishedNames(rule) && rule.name in Scan(p, v).results;
    assert ListsMatches(p, units, scope, at, rule.name);
    assert v in MatchedUnits(p, units, scope, rule.name);
    assert v.addr in at[rule.name];
  }

  lemma ListedIsPublished(p: Program, units: set<Unit>, scope: Scope, at: map<string, set<Address>>, name: string,
                          rule: Rule)
    requires p.Valid() && rule in p.RulesAt(scope) && name in PublishedNames(rule)
    requires rule.name in at && ListsMatches(p, units, scope, at, rule.name)
    ensures Publishers(p, units, scope, name) != {}
    ensures at[rule.name] <= Addresses(Publishers(p, units, scope, name))
  {
    var matched := MatchedUnits(p, units, scope, rule.name);
    forall v | v in matched ensures v in Publishers(p, units, scope, name) {
      assert PublishedBy(p.RulesAt(scope), Scan(p, v).results, name);
    }
    var v :| v in matched;
    assert v in Publishers(p, units, scope, name);
  }

  /** The units among `units` of one scope. */
  ghost function OfScope(units: set<Unit>, scope: Scope): set<Unit> {
    set v | v in units && v.scope == scope
  }

  lemma PublishersAreShown(p: Program, units: set<Unit>, scope: Scope, f: Feature)
    requires p.Valid() && f.MatchedRule?
    ensures Publishers(p, units, scope, f.name) != {} <==> Shown(p, f, OfScope(units, scope))
    ensures Addresses(Publishers(p, units, scope, f.name)) == Sites(p, f, OfScope(units, scope))
  {
    forall v ensures v in Publishers(p, units, scope, f.name) <==> v in OfScope(units, scope) && Shows(p, f, v) {
    }
    forall v | v in OfScope(units, scope) ensures OwnSites(p, f, v) == if Shows(p, f, v) then {v.addr} else {} {
    }
  }

  /** Publishing the matches of one scope adds what the units of that scope contribute. */
  lemma PublishScope(p: Program, fs: FeatureSet, parts: seq<Unit>, scope: Scope, f: Feature)
    requires p.Valid() && forall part | part in parts :: WellNested(part)
    ensures var after := PublishEach(fs, p.RulesAt(scope), MatchAddresses(MatchesOfParts(p, parts, scope))).locs;
            var units := OfScope(UnitsIn(parts), scope);
            if f.MatchedRule? then Adds(fs.locs, f, Shown(p, f, units), Sites(p, f, units), after)
            else Adds(fs.locs, f, false, {}, after)
  {
    var at := MatchAddresses(MatchesOfParts(p, parts, scope));
    PublishEachContents(fs, p.RulesAt(scope), at, f);
    if f.MatchedRule? {
      forall rule | rule in p.RulesAt(scope) ensures ListsMatches(p, UnitsIn(parts), scope, at, rule.name) {
        MatchesOfPartsContents(p, parts, scope, rule.name);
      }
      PublishedSitesAreUnits(p, UnitsIn(parts), scope, at, f.name);
      PublishersAreShown(p, UnitsIn(parts), scope, f);
    }
  }

  /** What is added to what some units contribute is contributed by all of them together. */
  lemma SeesMore(p: Program, f: Feature, a: set<Unit>, b: set<Unit>, locs: map<Feature, set<Address>>,
                 after: map<Feature, set<Address>>)
    requires p.Valid() && Sees(p, f, a, locs) && Adds(locs, f, Shown(p, f, b), Sites(p, f, b), after)
    ensures Sees(p, f, a + b, after)
  {
    SitesUnion(p, f, a, b);
  }

  /** What file scope sees: its own features, guarded, and the matches of every unit of the file. */
  ghost predicate FileSees(p: Program, f: Feature, file: Unit, locs: map<Feature, set<Address>>)
    requires p.Valid()
  {
    if f.MatchedRule? then Sees(p, f, Units(file), locs)
    else
      && (f in locs <==> HasFeature(Entries(p, file), f))
      && Locations(locs, f) == EntrySites(Entries(p, file), f) - {NoAddress}
  }

  lemma {:induction false} ScopesBelowFile(parts: seq<Unit>)
    requires forall part | part in parts :: WellNested(part) && part.scope.FunctionScope?
    ensures forall v | v in UnitsIn(parts) :: v.scope in {InstructionScope, BasicBlockScope, FunctionScope}
  {
    UnitsInParts(parts);
    forall v | v in UnitsIn(parts) ensures v.scope in {InstructionScope, BasicBlockScope, FunctionScope} {
      var part :| part in parts && v in Units(part);
      UnitsAreWellNested(part, v);
    }
  }

  /** Publishing scope by scope: the file sees the matches of every unit below it, and none of their raw features. */
  lemma LowerContents(p: Program, parts: seq<Unit>, f: Feature)
    requires p.Valid() && forall part | part in parts :: WellNested(part) && part.scope.FunctionScope?
    ensures if f.MatchedRule? then Sees(p, f, UnitsIn(parts), Lower(p, parts).locs)
            else f !in Lower(p, parts).locs
  {
    var instructions := PublishEach(EMPTY, p.RulesAt(InstructionScope),
                                    MatchAddresses(MatchesOfParts(p, parts, InstructionScope)));
    var blocks := PublishEach(instructions, p.RulesAt(BasicBlockScope),
                              MatchAddresses(MatchesOfParts(p, parts, BasicBlockScope)));
    PublishScope(p, EMPTY, parts, InstructionScope, f);
    PublishScope(p, instructions, parts, BasicBlockScope, f);
    PublishScope(p, blocks, parts, FunctionScope, f);
    if f.MatchedRule? {
      LowerIsAll(p, parts, f, instructions.locs, blocks.locs, Lower(p, parts).locs);
    }
  }

  lemma LowerIsAll(p: Program, parts: seq<Unit>, f: Feature, instructions: map<Feature, set<Address>>,
                   blocks: map<Feature, set<Address>>, functions: map<Feature, set<Address>>)
    requires p.Valid() && forall part | part in parts :: WellNested(part) && part.scope.FunctionScope?
    requires var units := OfScope(UnitsIn(parts), InstructionScope);
             Adds(EMPTY.locs, f, Shown(p, f, units), Sites(p, f, units), instructions)
    requires var units := OfScope(UnitsIn(parts), BasicBlockScope);
             Adds(instructions, f, Shown(p, f, units), Sites(p, f, units), blocks)
    requires var units := OfScope(UnitsIn(parts), FunctionScope);
             Adds(blocks, f, Shown(p, f, units), Sites(p, f, units), functions)
    ensures Sees(p, f, UnitsIn(parts), functions)
  {
    var i, b := OfScope(UnitsIn(parts), InstructionScope), OfScope(UnitsIn(parts), BasicBlockScope);
    var fn := OfScope(UnitsIn(parts), FunctionScope);
    assert Sees(p, f, {}, EMPTY.locs);
    SeesMore(p, f, {}, i, EMPTY.locs, instructions);
    SeesMore(p, f, {} + i, b, instructions, blocks);
    SeesMore(p, f, {} + i + b, fn, blocks, functions);
    ScopesBelowFile(parts);
    assert {} + i + b + fn == UnitsIn(parts);
  }

  lemma FileContents(p: Program, file: Unit, f: Feature)
    requires p.Valid() && WellNested(file) && file.scope.FileScope? && NoMatchFeatures(p, file)
    ensures FileSees(p, f, file, Scan(p, file).features.locs)
  {
    var own := InsertGuarded(EMPTY, Entries(p, file));
    InsertGuardedContents(EMPTY, Entries(p, file), f);
    LowerContents(p, file.parts, f);
    MergeContentsAt(own, Lower(p, file.parts), f);
    ScanContents(p, FileScope, Before(p, file), file.addr, f);
    if f.MatchedRule? {
      OwnEntriesAreRaw(p, file, f);
      WholeIsPartsAndOwn(p, file, f, Scan(p, file).features.locs);
    }
  }

  /** The units among `units` at which the rule of this name matched. */
  ghost function MatchedAnywhere(p: Program, units: set<Unit>, name: string): set<Unit>
    requires p.Valid()
  {
    set v | v in units && Matched(p, name, v)
  }

  lemma MatchedByScope(p: Program, file: Unit, name: string)
    requires p.Valid() && WellNested(file) && file.scope.FileScope?
    ensures var below := UnitsIn(file.parts);
            MatchedAnywhere(p, Units(file), name)
            == MatchedUnits(p, below, InstructionScope, name) + MatchedUnits(p, below, BasicBlockScope, name)
               + MatchedUnits(p, below, FunctionScope, name) + (if Matched(p, name, file) then {file} else {})
  {
    ScopesBelowFile(file.parts);
    MatchedByThreeScopes(p, UnitsIn(file.parts), name);
    MatchedInAll(p, file, name);
  }

  lemma MatchedByThreeScopes(p: Program, units: set<Unit>, name: string)
    requires p.Valid() && forall v | v in units :: v.scope in {InstructionScope, BasicBlockScope, FunctionScope}
    ensures MatchedAnywhere(p, units, name)
            == MatchedUnits(p, units, InstructionScope, name) + MatchedUnits(p, units, BasicBlockScope, name)
               + MatchedUnits(p, units, FunctionScope, name)
  {
  }

  lemma MatchedInAll(p: Program, u: Unit, name: string)
    requires p.Valid()
    ensures MatchedAnywhere(p, Units(u), name)
            == MatchedAnywhere(p, UnitsIn(u.parts), name) + (if Matched(p, name, u) then {u} else {})
  {
  }

  lemma FourRecords(name: string, i: MatchResults, ii: set<Unit>, b: MatchResults, bb: set<Unit>, fn: MatchResults,
                    ff: set<Unit>, own: MatchResults, oo: set<Unit>)
    requires RecordsAt(i, name, ii) && RecordsAt(b, name, bb) && RecordsAt(fn, name, ff) && RecordsAt(own, name, oo)
    ensures RecordsAt(ExtendMatches(ExtendMatches(ExtendMatches(ExtendMatches(map[], i), b), fn), own), name, ii + bb
                      + ff + oo)
  {
    ExtendRecords(map[], i, name, {}, ii);
    assert {} + ii == ii;
    ExtendRecords(ExtendMatches(map[], i), b, name, ii, bb);
    ExtendRecords(ExtendMatches(ExtendMatches(map[], i), b), fn, name, ii + bb, ff);
    ExtendRecords(ExtendMatches(ExtendMatches(ExtendMatches(map[], i), b), fn), own, name, ii + bb + ff, oo);
  }

  /** What the static driver returns lists each rule exactly at the addresses of the units where it matched. */
  lemma StaticMatchesContents(p: Program, file: Unit, name: string)
    requires p.Valid() && WellNested(file) && file.scope.FileScope?
    ensures RecordsAt(StaticMatches(p, file), name, MatchedAnywhere(p, Units(file), name))
  {
    var below := UnitsIn(file.parts);
    MatchesOfPartsContents(p, file.parts, InstructionScope, name);
    MatchesOfPartsContents(p, file.parts, BasicBlockScope, name);
    MatchesOfPartsContents(p, file.parts, FunctionScope, name);
    UnitRecordsHere(p, file, name);
    MatchedByScope(p, file, name);
    FourRecords(name,
                MatchesOfParts(p, file.parts, InstructionScope), MatchedUnits(p, below, InstructionScope, name),
                MatchesOfParts(p, file.parts, BasicBlockScope), MatchedUnits(p, below, BasicBlockScope, name),
                MatchesOfParts(p, file.parts, FunctionScope), MatchedUnits(p, below, FunctionScope, name),
                Scan(p, file).results, if Matched(p, name, file) then {file} else {});
  }

  /** What a unit of any scope sees once it has been scanned. */
  ghost predicate SeesAll(p: Program, u: Unit, f: Feature)
    requires p.Valid()
  {
    var locs := Scan(p, u).features.locs;
    if u.scope.FileScope? then FileSees(p, f, u, locs) else Sees(p, f, Units(u), locs)
  }

  lemma Contents(p: Program, u: Unit, f: Feature)
    requires p.Valid() && WellNested(u) && NoMatchFeatures(p, u)
    ensures SeesAll(p, u, f)
  {
    if u.scope.FileScope? {
      FileContents(p, u, f);
    } else {
      UnitContents(p, u, f);
    }
  }
}
