/**
 capa-x/src/capabilities/static_analysis.rs: publishing recorded matches back into a feature set, in whatever order the
 hash map of matches yields them, and why that order makes no difference to what is matched later.
 */
module Promotion {
  import opened Base
  import opened Features
  import opened FeatureSets
  import opened Rules
  import opened Engine
  import opened RuleIndex
  import opened RuleGraph
  import opened StaticScopes
  import opened UnitContents
  import opened MatchingRules

  // ---- scans of equivalent feature sets ----

  /** The same matches and the same evidence, on features that differ only in where some keys sit. */
  ghost predicate SameScan(a: ScanOutcome, b: ScanOutcome) {
    if a.Ok? && b.Ok? then a.value.results == b.value.results && Equivalent(a.value.features, b.value.features)
    else a.Err? && b.Err? && a.error == b.error
  }

  /** A boolean outcome, a match and its evidence do not depend on where promoted keys sit. */
  lemma {:induction false} ScanIsOrderIndependent(rules: seq<Rule>, n: nat, a: FeatureSet, b: FeatureSet, addr: Address)
    requires n <= |rules| && Equivalent(a, b)
    ensures SameScan(LinearScan(rules, n, a, addr), LinearScan(rules, n, b, addr))
  {
    if n > 0 {
      ScanIsOrderIndependent(rules, n - 1, a, b, addr);
      if LinearScan(rules, n - 1, a, addr).Ok? {
        RuleIsOrderIndependent(LinearScan(rules, n - 1, a, addr).value, LinearScan(rules, n - 1, b, addr).value,
                               rules[n - 1], addr);
      }
    }
  }

  lemma RuleIsOrderIndependent(a: ScanState, b: ScanState, rule: Rule, addr: Address)
    requires a.results == b.results && Equivalent(a.features, b.features)
    ensures SameScan(ScanRule(a, rule, addr), ScanRule(b, rule, addr))
  {
    var matched := EvaluateBoolean(rule.body, a.features.locs);
    EvidenceIsOrderIndependent(rule.body, a.features, b.features);
    var full := Evaluate(rule.body, a.features, false);
    if matched == Ok(true) && full.Ok? {
      RecordedIsOrderIndependent(a, b, rule, addr, full.value);
    }
  }

  /** The state of a scan after a match of the rule was recorded and published. */
  function Matching(st: ScanState, rule: Rule, addr: Address, full: MatchResult): ScanState {
    ScanState(IndexRuleMatches(st.features, rule, {addr}), Record(st.results, rule.name, addr, full))
  }

  lemma RecordedIsOrderIndependent(a: ScanState, b: ScanState, rule: Rule, addr: Address, full: MatchResult)
    requires a.results == b.results && Equivalent(a.features, b.features)
    ensures SameScan(Ok(Matching(a, rule, addr, full)), Ok(Matching(b, rule, addr, full)))
  {
    PublishEquivalent(a.features, b.features, PublishedNames(rule), {addr});
  }

  lemma ScanAtIsOrderIndependent(p: Program, scope: Scope, a: FeatureSet, b: FeatureSet, addr: Address)
    requires p.Valid() && Equivalent(a, b)
    ensures ScanAt(p, scope, a, addr).results == ScanAt(p, scope, b, addr).results
    ensures Equivalent(ScanAt(p, scope, a, addr).features, ScanAt(p, scope, b, addr).features)
  {
    var rules := p.RulesAt(scope);
    EvaluableScanSucceeds(rules, |rules|, a, addr);
    EvaluableScanSucceeds(rules, |rules|, b, addr);
    ScanIsOrderIndependent(rules, |rules|, a, b, addr);
  }

  // ---- publication in any order ----

  ghost function SitesOf(rules: seq<Rule>, at: map<string, set<Address>>, f: Feature): set<Address> {
    if f.MatchedRule? then PublishedSites(rules, at, f.name) else {}
  }

  ghost predicate AnyOf(rules: seq<Rule>, at: map<string, set<Address>>, f: Feature) {
    f.MatchedRule? && PublishesAny(rules, at, f.name)
  }

  ghost predicate SameKinds(a: FeatureSet, b: FeatureSet) {
    Filter(a.keys, IsBytes) == Filter(b.keys, IsBytes) && Filter(a.keys, IsOs) == Filter(b.keys, IsOs)
  }

  /** `after` is `before` with the matches listed in `at` published, each rule at its addresses. */
  ghost predicate Published(before: FeatureSet, rules: seq<Rule>, at: map<string, set<Address>>, after: FeatureSet) {
    && (forall f :: Adds(before.locs, f, AnyOf(rules, at, f), SitesOf(rules, at, f), after.locs))
    && SameKinds(before, after)
  }

  lemma PublicationIsDetermined(before: FeatureSet, rules: seq<Rule>, at: map<string, set<Address>>, a: FeatureSet,
                                b: FeatureSet)
    requires Published(before, rules, at, a) && Published(before, rules, at, b)
    ensures Equivalent(a, b)
  {
    forall f ensures f in a.locs <==> f in b.locs
      ensures f in a.locs ==> a.locs[f] == b.locs[f]
    {
      assert Adds(before.locs, f, AnyOf(rules, at, f), SitesOf(rules, at, f), a.locs);
      assert Adds(before.locs, f, AnyOf(rules, at, f), SitesOf(rules, at, f), b.locs);
    }
  }

  lemma NothingPublished(fs: FeatureSet, rules: seq<Rule>)
    ensures Published(fs, rules, map[], fs)
  {
  }

  lemma {:induction false} PublishKeepsKinds(fs: FeatureSet, names: seq<string>, at: set<Address>)
    ensures SameKinds(fs, PublishNames(fs, names, at))
  {
    if names != [] {
      var init, last := names[..|names| - 1], names[|names| - 1];
      PublishKeepsKinds(fs, init, at);
      FilterAppend(PublishNames(fs, init, at).keys, MatchedRule(last), IsBytes);
      FilterAppend(PublishNames(fs, init, at).keys, MatchedRule(last), IsOs);
    }
  }

  function AtOf(at: map<string, set<Address>>, name: string): set<Address> {
    if name in at then at[name] else {}
  }

  lemma PublishersUpdate(rules: seq<Rule>, at: map<string, set<Address>>, rule: Rule, more: set<Address>, n: string)
    requires UniqueNames(rules) && rule in rules
    ensures var here := n in PublishedNames(rule);
            var at' := at[rule.name := AtOf(at, rule.name) + more];
            && (PublishesAny(rules, at', n) <==> PublishesAny(rules, at, n) || here)
            && PublishedSites(rules, at', n) == PublishedSites(rules, at, n) + (if here then more else {})
  {
    var at' := at[rule.name := AtOf(at, rule.name) + more];
    forall r, a | r in rules && r.name in at && n in PublishedNames(r) && a in at[r.name]
      ensures a in PublishedSites(rules, at', n)
    {
      assert a in at'[r.name];
    }
    if n in PublishedNames(rule) {
      forall a | a in more ensures a in PublishedSites(rules, at', n) {
        assert a in at'[rule.name];
      }
    }
    forall r, a | r in rules && r.name in at' && n in PublishedNames(r) && a in at'[r.name]
      ensures a in PublishedSites(rules, at, n) + (if n in PublishedNames(rule) then more else {})
    {
      assert r.name == rule.name ==> r == rule;
    }
  }

  /** Publishing one more match adds its addresses to those of its rule. */
  lemma PublishedNext(before: FeatureSet, rules: seq<Rule>, at: map<string, set<Address>>, mid: FeatureSet, rule: Rule,
                      more: set<Address>)
    requires UniqueNames(rules) && rule in rules && Published(before, rules, at, mid)
    ensures Published(before, rules, at[rule.name := AtOf(at, rule.name) + more], IndexRuleMatches(mid, rule, more))
  {
    var after, at' := IndexRuleMatches(mid, rule, more), at[rule.name := AtOf(at, rule.name) + more];
    PublishKeepsKinds(mid, PublishedNames(rule), more);
    forall f ensures Adds(before.locs, f, AnyOf(rules, at', f), SitesOf(rules, at', f), after.locs) {
      assert Adds(before.locs, f, AnyOf(rules, at, f), SitesOf(rules, at, f), mid.locs);
      PublishNamesContents(mid, PublishedNames(rule), more, f);
      AddsMore(before.locs, f, AnyOf(rules, at, f), SitesOf(rules, at, f), mid.locs,
               f.MatchedRule? && f.name in PublishedNames(rule), more, after.locs);
      if f.MatchedRule? {
        PublishersUpdate(rules, at, rule, more, f.name);
      }
    }
  }

  lemma AddsMore(a: map<Feature, set<Address>>, f: Feature, first: bool, firstAt: set<Address>,
                 b: map<Feature, set<Address>>, second: bool, secondAt: set<Address>, c: map<Feature, set<Address>>)
    requires Adds(a, f, first, firstAt, b) && Adds(b, f, second, if second then secondAt else {}, c)
    ensures Adds(a, f, first || second, firstAt + (if second then secondAt else {}), c)
  {
  }

  /** Publishing scope by scope, rule by rule, is one such publication. */
  lemma PublishEachPublishes(before: FeatureSet, rules: seq<Rule>, at: map<string, set<Address>>)
    ensures Published(before, rules, at, PublishEach(before, rules, at))
  {
    forall f
      ensures Adds(before.locs, f, AnyOf(rules, at, f), SitesOf(rules, at, f), PublishEach(before, rules, at).locs)
    {
      PublishEachContents(before, rules, at, f);
    }
    PublishEachKeepsKinds(before, rules, at);
  }

  lemma {:induction false} PublishEachKeepsKinds(before: FeatureSet, rules: seq<Rule>, at: map<string, set<Address>>)
    ensures SameKinds(before, PublishEach(before, rules, at))
  {
    if rules != [] {
      var init, last := rules[..|rules| - 1], rules[|rules| - 1];
      PublishEachKeepsKinds(before, init, at);
      if last.name in at {
        PublishKeepsKinds(PublishEach(before, init, at), PublishedNames(last), at[last.name]);
      }
    }
  }

  /** `few` has every rule that `at` names. */
  ghost predicate NamesAll(few: seq<Rule>, at: map<string, set<Address>>) {
    forall name | name in at :: exists rule | rule in few :: rule.name == name
  }

  /** Only the rules that are listed matter. */
  lemma PublishedByFewer(before: FeatureSet, rules: seq<Rule>, few: seq<Rule>, at: map<string, set<Address>>,
                         after: FeatureSet)
    requires UniqueNames(rules) && (forall rule | rule in few :: rule in rules) && NamesAll(few, at)
    ensures Published(before, few, at, after) <==> Published(before, rules, at, after)
  {
    forall rule | rule in rules && rule.name in at ensures rule in few {
      var other :| other in few && other.name == rule.name;
      assert other == rule;
    }
    forall f ensures AnyOf(few, at, f) <==> AnyOf(rules, at, f)
      ensures SitesOf(few, at, f) == SitesOf(rules, at, f)
    {
    }
  }

  // ---- a scan publishes what it records ----

  lemma {:induction false} ScanKeepsKinds(rules: seq<Rule>, n: nat, fs: FeatureSet, addr: Address)
    requires n <= |rules| && LinearScan(rules, n, fs, addr).Ok?
    ensures SameKinds(fs, LinearScan(rules, n, fs, addr).value.features)
  {
    if n > 0 {
      ScanKeepsKinds(rules, n - 1, fs, addr);
      PublishKeepsKinds(LinearScan(rules, n - 1, fs, addr).value.features, PublishedNames(rules[n - 1]), {addr});
    }
  }

  lemma RecordedHere(p: Program, scope: Scope, fs: FeatureSet, addr: Address, name: string)
    requires p.Valid() && name in ScanAt(p, scope, fs, addr).results
    ensures MatchAddresses(ScanAt(p, scope, fs, addr).results)[name] == {addr}
    ensures exists rule | rule in p.RulesAt(scope) :: rule.name == name
  {
    var rules, results := p.RulesAt(scope), ScanAt(p, scope, fs, addr).results;
    EvaluableScanSucceeds(rules, |rules|, fs, addr);
    ScanRecordsHere(rules, |rules|, fs, addr, name);
    ResultsAreNamed(rules, |rules|, fs, addr);
    assert results[name][0] in results[name];
    assert forall m | m in results[name] :: m in Recorded(results, name);
  }

  /** What the scan itself published is what publishing its recorded matches afterwards gives. */
  lemma ScanPublishes(p: Program, scope: Scope, fs: FeatureSet, addr: Address)
    requires p.Valid()
    ensures var st := ScanAt(p, scope, fs, addr);
            && Published(fs, p.RulesAt(scope), MatchAddresses(st.results), st.features)
            && NamesAll(p.RulesAt(scope), MatchAddresses(st.results))
            && forall name | name in st.results :: st.results[name] != []
  {
    var rules, st := p.RulesAt(scope), ScanAt(p, scope, fs, addr);
    var at := MatchAddresses(st.results);
    EvaluableScanSucceeds(rules, |rules|, fs, addr);
    ScanKeepsKinds(rules, |rules|, fs, addr);
    forall name | name in st.results ensures at[name] == {addr} && st.results[name] != []
      ensures exists rule | rule in rules :: rule.name == name
    {
      RecordedHere(p, scope, fs, addr, name);
      ScanRecordsHere(rules, |rules|, fs, addr, name);
    }
    forall f ensures Adds(fs.locs, f, AnyOf(rules, at, f), SitesOf(rules, at, f), st.features.locs) {
      ScanContents(p, scope, fs, addr, f);
      if f.MatchedRule? {
        PublishedHere(rules, st.results, addr, f.name);
      }
    }
  }

  lemma PublishedHere(rules: seq<Rule>, results: MatchResults, addr: Address, n: string)
    requires forall name | name in results :: MatchAddresses(results)[name] == {addr}
    ensures PublishesAny(rules, MatchAddresses(results), n) <==> PublishedBy(rules, results, n)
    ensures PublishedSites(rules, MatchAddresses(results), n) == if PublishedBy(rules, results, n) then {addr} else {}
  {
    var at := MatchAddresses(results);
    if PublishedBy(rules, results, n) {
      var rule :| rule in rules && n in PublishedNames(rule) && rule.name in results;
      assert addr in at[rule.name];
    }
  }

  // ---- the loops ----

  function AddressesOf(found: seq<(Address, MatchResult)>): set<Address> {
    set m | m in found :: m.0
  }

  /** Where each rule that was matched at all was matched. */
  function PromotedAddresses(matches: MatchResults): map<string, set<Address>> {
    map name | name in matches && matches[name] != [] :: AddressesOf(matches[name])
  }

  /**
   `promote_matches`: publish every recorded match, address by address. The matches come from a hash map, so the order
   of the rules is arbitrary.
   */
  method PromoteMatches(rules: seq<Rule>, fs: FeatureMap, matches: MatchResults)
    requires UniqueNames(rules) && fs.Valid()
    modifies fs
    ensures fs.Valid() && Published(old(fs.View()), rules, PromotedAddresses(matches), fs.View())
  {
    ghost var before := fs.View();
    ghost var done: map<string, set<Address>> := map[];
    NothingPublished(before, rules);
    var rest := matches.Keys;
    while rest != {}
      invariant rest <= matches.Keys
      invariant forall name :: name in done <==> name in matches.Keys - rest && matches[name] != []
      invariant forall name | name in done :: done[name] == AddressesOf(matches[name])
      invariant fs.Valid() && Published(before, rules, done, fs.View())
    {
      var name :| name in rest;
      var rule := Named(rules, name);
      if rule.Some? {
        PromoteOne(rules, rule.value, fs, matches[name], before, done);
      } else {
        NamelessPublishesNothing(before, rules, done, fs.View(), name, AddressesOf(matches[name]));
      }
      done := WithMatches(done, name, matches[name]);
      rest := rest - {name};
    }
    assert done == PromotedAddresses(matches);
  }

  lemma NamelessPublishesNothing(before: FeatureSet, rules: seq<Rule>, at: map<string, set<Address>>,
                                 after: FeatureSet, name: string, more: set<Address>)
    requires Published(before, rules, at, after) && forall rule | rule in rules :: rule.name != name
    ensures Published(before, rules, at[name := more], after)
  {
    var at' := at[name := more];
    forall f ensures Adds(before.locs, f, AnyOf(rules, at', f), SitesOf(rules, at', f), after.locs) {
      assert Adds(before.locs, f, AnyOf(rules, at, f), SitesOf(rules, at, f), after.locs);
      if f.MatchedRule? {
        forall rule, a | rule in rules && rule.name in at' && f.name in PublishedNames(rule) && a in at'[rule.name]
          ensures a in PublishedSites(rules, at, f.name)
        {
          assert a in at[rule.name];
        }
        forall rule, a | rule in rules && rule.name in at && f.name in PublishedNames(rule) && a in at[rule.name]
          ensures a in PublishedSites(rules, at', f.name)
        {
          assert a in at'[rule.name];
        }
      }
    }
  }

  /** `done`, and the matches `found` of one more rule. */
  function WithMatches(done: map<string, set<Address>>, name: string,
                       found: seq<(Address, MatchResult)>): map<string, set<Address>>
  {
    if found == [] then done else done[name := AddressesOf(found)]
  }

  method PromoteOne(rules: seq<Rule>, rule: Rule, fs: FeatureMap, found: seq<(Address, MatchResult)>,
                    ghost before: FeatureSet, ghost done: map<string, set<Address>>)
    requires UniqueNames(rules) && rule in rules && rule.name !in done
    requires fs.Valid() && Published(before, rules, done, fs.View())
    modifies fs
    ensures fs.Valid() && Published(before, rules, WithMatches(done, rule.name, found), fs.View())
  {
    for i := 0 to |found|
      invariant fs.Valid() && Published(before, rules, WithMatches(done, rule.name, found[..i]), fs.View())
    {
      PromotedNext(before, rules, done, fs.View(), rule, found, i);
      PublishMatch(fs, rule, {found[i].0});
    }
    assert found[..|found|] == found;
  }

  lemma PromotedNext(before: FeatureSet, rules: seq<Rule>, done: map<string, set<Address>>, mid: FeatureSet, rule: Rule,
                     found: seq<(Address, MatchResult)>, i: nat)
    requires UniqueNames(rules) && rule in rules && rule.name !in done && i < |found|
    requires Published(before, rules, WithMatches(done, rule.name, found[..i]), mid)
    ensures Published(before, rules, WithMatches(done, rule.name, found[..i + 1]),
                      IndexRuleMatches(mid, rule, {found[i].0}))
  {
    var at := WithMatches(done, rule.name, found[..i]);
    PublishedNext(before, rules, at, mid, rule, {found[i].0});
    WithNextMatch(done, rule.name, found, i);
  }

  lemma WithNextMatch(done: map<string, set<Address>>, name: string, found: seq<(Address, MatchResult)>, i: nat)
    requires name !in done && i < |found|
    ensures var at := WithMatches(done, name, found[..i]);
            WithMatches(done, name, found[..i + 1]) == at[name := AtOf(at, name) + {found[i].0}]
  {
    assert found[..i + 1] == found[..i] + [found[i]];
    assert forall m :: m in found[..i + 1] <==> m in found[..i] || m == found[i];
    assert AddressesOf(found[..i + 1]) == AddressesOf(found[..i]) + {found[i].0};
    assert AtOf(WithMatches(done, name, found[..i]), name) == AddressesOf(found[..i]);
  }

  /** The loop that collects the features of one lower scope: each rule once, at all the addresses where it matched. */
  method PublishMatches(rules: seq<Rule>, fs: FeatureMap, matches: MatchResults)
    requires UniqueNames(rules) && fs.Valid()
    modifies fs
    ensures fs.Valid() && Published(old(fs.View()), rules, MatchAddresses(matches), fs.View())
  {
    ghost var before := fs.View();
    ghost var done: map<string, set<Address>> := map[];
    NothingPublished(before, rules);
    var rest := matches.Keys;
    while rest != {}
      invariant rest <= matches.Keys && done.Keys == matches.Keys - rest
      invariant forall name | name in done :: done[name] == MatchAddresses(matches)[name]
      invariant fs.Valid() && Published(before, rules, done, fs.View())
    {
      var name :| name in rest;
      var rule := Named(rules, name);
      var at := set m | m in matches[name] :: m.0;
      if rule.Some? {
        assert AtOf(done, name) + at == at;
        PublishedNext(before, rules, done, fs.View(), rule.value, at);
        PublishMatch(fs, rule.value, at);
      } else {
        NamelessPublishesNothing(before, rules, done, fs.View(), name, at);
      }
      done := done[name := at];
      rest := rest - {name};
    }
    assert done == MatchAddresses(matches);
  }

  /** `extend_matches`: append the matches of each rule, in whatever order the rules come. */
  method ExtendWith(into: MatchResults, from: MatchResults) returns (r: MatchResults)
    ensures r == ExtendMatches(into, from)
  {
    r := into;
    var rest := from.Keys;
    while rest != {}
      invariant rest <= from.Keys && r.Keys == into.Keys + (from.Keys - rest)
      invariant forall name | name in r ::
                  r[name] == Recorded(into, name) + (if name in rest then [] else Recorded(from, name))
    {
      var name :| name in rest;
      r := r[name := Recorded(r, name) + from[name]];
      rest := rest - {name};
    }
  }
}
