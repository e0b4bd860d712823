/**
 The evidence that the static drivers record is closed: the document builder finds every match that a recorded tree
 refers to, and its recursion ends.
 */
module StaticEvidence {
  import opened Features
  import opened FeatureSets
  import opened Rules
  import opened Engine
  import opened RuleIndex
  import opened RuleGraph
  import opened StaticScopes
  import opened UnitContents
  import opened ScopeSemantics
  import opened Extraction
  import opened ExtractionSemantics
  import opened ExtractedBodies
  import opened MatchingRules
  import opened MatchingRuleSets
  import opened Evidence

  // ---- what a tree may refer to ----

  /** A reference at this node is one of `references`, was seen in `locs`, and lies at locations seen there. */
  ghost predicate NodeIsGrounded(references: set<string>, locs: map<Feature, set<Address>>, m: MatchResult) {
    && NodeFromMatched(m.node, m.description).Ok?
    && (IsReference(m) ==>
          && m.node.feature.name in references
          && m.node.feature in locs
          && m.locations <= Locations(locs, m.node.feature))
  }

  ghost predicate Grounded(references: set<string>, locs: map<Feature, set<Address>>, m: MatchResult)
    decreases m
  {
    NodeIsGrounded(references, locs, m) && forall c | c in m.children :: Grounded(references, locs, c)
  }

  /** No node is or counts a COM feature: those are expanded before matching. */
  predicate NodeRenders(n: Node) {
    && !(n.stmt.Leaf? && n.stmt.feature.Com?)
    && !(n.stmt.Range? && n.stmt.feature.Com?)
  }

  lemma {:induction false} EvaluatedIsGrounded(node: Node, fs: FeatureSet, references: set<string>)
    requires AllNodes(node, NodeRenders) && References(node) <= references && Evaluate(node, fs, false).Ok?
    ensures Grounded(references, fs.locs, Evaluate(node, fs, false).value)
    decreases node
  {
    match node.stmt
    case And(children) => ChildrenAreGrounded(children, fs, references);
    case Or(children) => ChildrenAreGrounded(children, fs, references);
    case SomeOf(_, children) => ChildrenAreGrounded(children, fs, references);
    case Not(child) => EvaluatedIsGrounded(child, fs, references);
    case Range(_, _, _) =>
    case Leaf(_) =>
  }

  lemma {:induction false} ChildrenAreGrounded(children: seq<Node>, fs: FeatureSet, references: set<string>)
    requires forall c | c in children :: AllNodes(c, NodeRenders)
    requires ListReferences(children) <= references && EvaluateChildren(children, fs, false, Never).Ok?
    ensures forall m | m in EvaluateChildren(children, fs, false, Never).value :: Grounded(references, fs.locs, m)
    decreases children
  {
    if children != [] {
      EvaluatedIsGrounded(children[0], fs, references);
      ChildrenAreGrounded(children[1..], fs, references);
    }
  }

  /** Everything in `a` is in `b`, at the same locations and perhaps more. */
  ghost predicate Within(a: map<Feature, set<Address>>, b: map<Feature, set<Address>>) {
    forall f :: (f in a ==> f in b) && Locations(a, f) <= Locations(b, f)
  }

  lemma {:induction false} GroundedInMore(references: set<string>, a: map<Feature, set<Address>>,
                                          b: map<Feature, set<Address>>, m: MatchResult)
    requires Grounded(references, a, m) && Within(a, b)
    ensures Grounded(references, b, m)
    decreases m
  {
    forall c | c in m.children ensures Grounded(references, b, c) {
      GroundedInMore(references, a, b, c);
    }
  }

  lemma PublishedIsMore(fs: FeatureSet, rule: Rule, at: set<Address>)
    ensures Within(fs.locs, IndexRuleMatches(fs, rule, at).locs)
  {
    forall f ensures (f in fs.locs ==> f in IndexRuleMatches(fs, rule, at).locs)
                     && Locations(fs.locs, f) <= Locations(IndexRuleMatches(fs, rule, at).locs, f) {
      PublishNamesContents(fs, PublishedNames(rule), at, f);
    }
  }

  /** The recorded tree of some rule named `name`, grounded in `locs`. */
  ghost predicate HasGrounds(rules: seq<Rule>, locs: map<Feature, set<Address>>, name: string, m: MatchResult) {
    exists rule | rule in rules :: rule.name == name && Grounded(References(rule.body), locs, m)
  }

  lemma GroundsInMore(rules: seq<Rule>, a: map<Feature, set<Address>>, b: map<Feature, set<Address>>, name: string,
                      m: MatchResult)
    requires HasGrounds(rules, a, name, m) && Within(a, b)
    ensures HasGrounds(rules, b, name, m)
  {
    var rule :| rule in rules && rule.name == name && Grounded(References(rule.body), a, m);
    GroundedInMore(References(rule.body), a, b, m);
  }

  lemma {:induction false} ScanIsGrounded(rules: seq<Rule>, n: nat, fs: FeatureSet, addr: Address, name: string,
                                          e: (Address, MatchResult))
    requires n <= |rules| && LinearScan(rules, n, fs, addr).Ok?
             && forall rule | rule in rules :: AllNodes(rule.body, NodeRenders)
    requires e in Recorded(LinearScan(rules, n, fs, addr).value.results, name)
    ensures e.0 == addr && HasGrounds(rules, LinearScan(rules, n, fs, addr).value.features.locs, name, e.1)
  {
    if n > 0 {
      var st := LinearScan(rules, n - 1, fs, addr).value;
      if e in Recorded(st.results, name) {
        ScanIsGrounded(rules, n - 1, fs, addr, name, e);
      }
      RuleIsGrounded(rules, st, rules[n - 1], addr, name, e);
    }
  }

  lemma RuleIsGrounded(rules: seq<Rule>, st: ScanState, rule: Rule, addr: Address, name: string,
                       e: (Address, MatchResult))
    requires ScanRule(st, rule, addr).Ok? && rule in rules && AllNodes(rule.body, NodeRenders)
    requires e in Recorded(ScanRule(st, rule, addr).value.results, name)
    requires e in Recorded(st.results, name) ==> e.0 == addr && HasGrounds(rules, st.features.locs, name, e.1)
    ensures e.0 == addr && HasGrounds(rules, ScanRule(st, rule, addr).value.features.locs, name, e.1)
  {
    var after := IndexRuleMatches(st.features, rule, {addr});
    PublishedIsMore(st.features, rule, {addr});
    if e in Recorded(st.results, name) {
      GroundsInMore(rules, st.features.locs, after.locs, name, e.1);
    } else {
      EvaluatedIsGrounded(rule.body, st.features, References(rule.body));
      GroundedInMore(References(rule.body), st.features.locs, after.locs, e.1);
    }
  }

  // ---- where a recorded match comes from ----

  /** The match was recorded at a unit within `root`. */
  ghost predicate ComesFrom(p: Program, units: set<Unit>, name: string, e: (Address, MatchResult))
    requires p.Valid()
  {
    exists u | u in units :: e in Recorded(Scan(p, u).results, name)
  }

  lemma {:induction false} RecordOrigin(p: Program, u: Unit, scope: Scope, name: string, e: (Address, MatchResult))
    requires p.Valid() && e in Recorded(MatchesOf(p, u, scope), name)
    ensures ComesFrom(p, Units(u), name, e)
    decreases u, 1
  {
    if u.scope == scope {
      assert u in Units(u);
    } else {
      PartsRecordOrigin(p, u.parts, scope, name, e);
      var v :| v in UnitsIn(u.parts) && e in Recorded(Scan(p, v).results, name);
      assert v in Units(u);
    }
  }

  lemma {:induction false} PartsRecordOrigin(p: Program, parts: seq<Unit>, scope: Scope, name: string,
                                             e: (Address, MatchResult))
    requires p.Valid() && e in Recorded(MatchesOfParts(p, parts, scope), name)
    ensures ComesFrom(p, UnitsIn(parts), name, e)
    decreases parts
  {
    if parts != [] {
      var init, last := parts[..|parts| - 1], parts[|parts| - 1];
      if e in Recorded(MatchesOfParts(p, init, scope), name) {
        PartsRecordOrigin(p, init, scope, name, e);
        var v :| v in UnitsIn(init) && e in Recorded(Scan(p, v).results, name);
        assert v in UnitsIn(parts);
      } else {
        RecordOrigin(p, last, scope, name, e);
        var v :| v in Units(last) && e in Recorded(Scan(p, v).results, name);
        assert v in UnitsIn(parts);
      }
    }
  }

  lemma StaticRecordOrigin(p: Program, file: Unit, name: string, e: (Address, MatchResult))
    requires p.Valid() && e in Recorded(StaticMatches(p, file), name)
    ensures ComesFrom(p, Units(file), name, e)
  {
    if e in Recorded(Scan(p, file).results, name) {
      assert file in Units(file);
    } else {
      var scope := if e in Recorded(MatchesOfParts(p, file.parts, InstructionScope), name) then InstructionScope
                   else if e in Recorded(MatchesOfParts(p, file.parts, BasicBlockScope), name) then BasicBlockScope
                   else FunctionScope;
      PartsRecordOrigin(p, file.parts, scope, name, e);
      var v :| v in UnitsIn(file.parts) && e in Recorded(Scan(p, v).results, name);
      assert v in Units(file);
    }
  }

  // ---- references are met ----

  /** What the proof needs of the rule set. */
  ghost predicate RulesAreReady(rs: MatchingRuleSet, p: Program) {
    && p.rules == rs.byScope && Compiles(p, rs.rules) && UniqueNames(rs.rules) && NoNameIsANamespace(rs.rules)
    && rs.namespaces == NamespaceIndex(rs.rules)
    && forall rule | rule in rs.rules :: AllNodes(rule.body, NodeRenders)
  }

  /** What the proof needs of the rule set and the extracted features. */
  ghost predicate Ready(rs: MatchingRuleSet, p: Program, file: Unit) {
    && RulesAreReady(rs, p)
    && WellNested(file) && file.scope.FileScope? && NoMatchFeatures(p, file)
  }

  /** Within the file, a name that is a rule's can only have been published by that rule. */
  lemma OnlyTheRulePublishes(rs: MatchingRuleSet, p: Program, name: string, v: Unit)
    requires p.Valid() && UniqueNames(rs.rules) && NoNameIsANamespace(rs.rules) && Named(rs.rules, name).Some?
    requires PublishedAmong(DriverVerdicts(p), rs.rules, name, v)
    ensures Matched(p, name, v)
  {
    var rule :| rule in rs.rules && name in PublishedNames(rule) && (rule.name, v) in DriverVerdicts(p);
    assert Named(rs.rules, name).value in rs.rules;
  }

  /** A reference by name that was seen at a unit has a recorded match at each of its locations. */
  lemma ReferenceIsMet(rs: MatchingRuleSet, p: Program, file: Unit, u: Unit, name: string)
    requires Ready(rs, p, file) && u in Units(file) && Named(rs.rules, name).Some?
    requires MatchedRule(name) in Scan(p, u).features.locs
    ensures SubscopeOf(Named(rs.rules, name).value).Some?
    ensures forall a | a in Locations(Scan(p, u).features.locs, MatchedRule(name)) ::
              a in RuleMatchIndex(StaticMatches(p, file), name)
  {
    CompiledIsDrawn(p, rs.rules);
    UnitsAreWellNested(file, u);
    NoMatchWithin(p, file, u);
    SeenReferences(p, rs.rules, u, name);
    var w :| w in Units(u) && PublishedAmong(DriverVerdicts(p), rs.rules, name, w);
    OnlyTheRulePublishes(rs, p, name, w);
    MatchedIsOfScope(p, rs.rules, w, Named(rs.rules, name).value);
    forall a | a in Locations(Scan(p, u).features.locs, MatchedRule(name))
      ensures a in RuleMatchIndex(StaticMatches(p, file), name)
    {
      var v :| v in Units(u) && PublishedAmong(DriverVerdicts(p), rs.rules, name, v) && v.addr == a;
      OnlyTheRulePublishes(rs, p, name, v);
      UnitsNest(file, u, v);
      MatchIsIndexed(p, file, name, v);
    }
  }

  lemma MatchIsIndexed(p: Program, file: Unit, name: string, v: Unit)
    requires p.Valid() && WellNested(file) && file.scope.FileScope? && v in Units(file) && Matched(p, name, v)
    ensures v.addr in RuleMatchIndex(StaticMatches(p, file), name)
  {
    StaticMatchesContents(p, file, name);
    assert v in MatchedAnywhere(p, Units(file), name);
    assert v.addr in RecordedAt(StaticMatches(p, file), name);
    LastMatchWins(Recorded(StaticMatches(p, file), name), v.addr);
  }

  lemma {:induction false} GroundedIsSound(rs: MatchingRuleSet, p: Program, file: Unit, u: Unit,
                                           references: set<string>, m: MatchResult)
    requires Ready(rs, p, file) && u in Units(file) && Grounded(references, Scan(p, u).features.locs, m)
    ensures TreeIsSound(rs, StaticMatches(p, file), m)
    decreases m
  {
    if IsReference(m) && Named(rs.rules, m.node.feature.name).Some? {
      ReferenceIsMet(rs, p, file, u, m.node.feature.name);
    }
    forall c | c in m.children ensures TreeIsSound(rs, StaticMatches(p, file), c) {
      GroundedIsSound(rs, p, file, u, references, c);
    }
  }

  /** Each recorded tree is grounded in the features of the unit it was recorded at. */
  lemma RecordIsGrounded(rs: MatchingRuleSet, p: Program, file: Unit, name: string, e: (Address, MatchResult))
    returns (u: Unit, rule: Rule)
    requires Ready(rs, p, file) && e in Recorded(StaticMatches(p, file), name)
    ensures u in Units(file) && rule in rs.rules && rule.name == name
    ensures Grounded(References(rule.body), Scan(p, u).features.locs, e.1)
  {
    StaticRecordOrigin(p, file, name, e);
    u :| u in Units(file) && e in Recorded(Scan(p, u).results, name);
    UnitRecordIsGrounded(rs, p, u, name, e);
    rule :| rule in rs.rules && rule.name == name && Grounded(References(rule.body), Scan(p, u).features.locs, e.1);
  }

  lemma UnitRecordIsGrounded(rs: MatchingRuleSet, p: Program, u: Unit, name: string, e: (Address, MatchResult))
    requires RulesAreReady(rs, p) && e in Recorded(Scan(p, u).results, name)
    ensures HasGrounds(rs.rules, Scan(p, u).features.locs, name, e.1)
  {
    ScanRecordIsGrounded(rs, p, u.scope, Before(p, u), u.addr, name, e);
  }

  /** What a scan records is grounded in the features that it leaves. */
  lemma ScanRecordIsGrounded(rs: MatchingRuleSet, p: Program, scope: Scope, fs: FeatureSet, addr: Address, name: string,
                             e: (Address, MatchResult))
    requires RulesAreReady(rs, p) && e in Recorded(ScanAt(p, scope, fs, addr).results, name)
    ensures e.0 == addr && HasGrounds(rs.rules, ScanAt(p, scope, fs, addr).features.locs, name, e.1)
  {
    var here := p.RulesAt(scope);
    EvaluableScanSucceeds(here, |here|, fs, addr);
    forall rule | rule in here ensures rule in rs.rules {
    }
    ScanIsGrounded(here, |here|, fs, addr, name, e);
    var rule :| rule in here && rule.name == name
                && Grounded(References(rule.body), ScanAt(p, scope, fs, addr).features.locs, e.1);
    assert rule in rs.rules;
  }

  /** The evidence of a static analysis is closed: the builder meets no missing match. */
  lemma StaticEvidenceIsSound(rs: MatchingRuleSet, p: Program, file: Unit)
    requires Ready(rs, p, file)
    ensures EvidenceIsSound(rs, StaticMatches(p, file))
  {
    var capabilities := StaticMatches(p, file);
    forall name, e | e in Recorded(capabilities, name) ensures TreeIsSound(rs, capabilities, e.1) {
      var u, rule := RecordIsGrounded(rs, p, file, name, e);
      GroundedIsSound(rs, p, file, u, References(rule.body), e.1);
    }
  }

  // ---- the recursion ends ----

  /** The position of each rule in a dependency-first order. */
  function RanksOf(order: seq<string>): map<string, nat> {
    map n | n in order :: PositionOf(order, n)
  }

  lemma {:induction false} GroundedCites(references: set<string>, locs: map<Feature, set<Address>>, m: MatchResult)
    requires Grounded(references, locs, m)
    ensures CitedNames(m) <= references
    decreases m, 0
  {
    GroundedListCites(references, locs, m.children);
  }

  lemma {:induction false} GroundedListCites(references: set<string>, locs: map<Feature, set<Address>>,
                                             ms: seq<MatchResult>)
    requires forall m | m in ms :: Grounded(references, locs, m)
    ensures ListCitedNames(ms) <= references
    decreases ms, 0
  {
    if ms != [] {
      GroundedListCites(references, locs, ms[..|ms| - 1]);
      GroundedCites(references, locs, ms[|ms| - 1]);
    }
  }

  /** What a rule refers to comes before it. */
  lemma ReferencesAreBelow(rs: MatchingRuleSet, order: seq<string>, rule: Rule, name: string)
    requires UniqueNames(rs.rules) && NoNameIsANamespace(rs.rules) && rs.namespaces == NamespaceIndex(rs.rules)
    requires ListsInOrder(GraphOf(rs.rules, rs.namespaces), order)
    requires rule in rs.rules && name in References(rule.body)
    ensures rule.name in order && NameBelow(rs, RanksOf(order), name, PositionOf(order, rule.name))
  {
    var g := GraphOf(rs.rules, rs.namespaces);
    var i :| 0 <= i < |rs.rules| && rs.rules[i] == rule;
    GraphEdges(rs.rules, rs.namespaces, i);
    forall d | d in Register(name, rs.namespaces) ensures RuleBelow(RanksOf(order), d, PositionOf(order, rule.name)) {
      assert d in Dependencies(rule.body, rs.namespaces);
      assert Edge(g, rule.name, d);
      EdgesDescend(g, order, rule.name, d);
    }
    if Named(rs.rules, name).Some? {
      RuleNamesItself(rs.rules, name);
    }
  }

  /** A rule's name resolves to the rule, since it is no namespace. */
  lemma RuleNamesItself(rules: seq<Rule>, name: string)
    requires NoNameIsANamespace(rules) && Named(rules, name).Some?
    ensures Register(name, NamespaceIndex(rules)) == {name}
  {
    RegisterMeans(rules, name);
    forall r | r in rules ensures name !in RulePrefixes(r) {
      if r.namespace.Some? {
        IndexedPrefixes(r.namespace.value, name);
        assert Named(rules, name).value.name !in RuleNamespaces(r.namespace.value);
      }
    }
  }

  lemma StaticEvidenceIsRanked(rs: MatchingRuleSet, p: Program, file: Unit, order: seq<string>)
    requires Ready(rs, p, file) && ListsInOrder(GraphOf(rs.rules, rs.namespaces), order)
    ensures Ranked(rs, RanksOf(order), StaticMatches(p, file))
  {
    forall name, e | e in Recorded(StaticMatches(p, file), name) ensures RecordIsRanked(rs, RanksOf(order), name, e) {
      RecordRanksAbove(rs, p, file, order, name, e);
    }
  }

  lemma RecordRanksAbove(rs: MatchingRuleSet, p: Program, file: Unit, order: seq<string>, name: string,
                         e: (Address, MatchResult))
    requires Ready(rs, p, file) && ListsInOrder(GraphOf(rs.rules, rs.namespaces), order)
    requires e in Recorded(StaticMatches(p, file), name)
    ensures RecordIsRanked(rs, RanksOf(order), name, e)
  {
    var u, rule := RecordIsGrounded(rs, p, file, name, e);
    GroundsAreRanked(rs, p, order, Scan(p, u).features.locs, name, e);
  }

  /** What is grounded cites only what its rule refers to, and that ranks below the rule. */
  lemma GroundsAreRanked(rs: MatchingRuleSet, p: Program, order: seq<string>, locs: map<Feature, set<Address>>,
                         name: string, e: (Address, MatchResult))
    requires RulesAreReady(rs, p) && ListsInOrder(GraphOf(rs.rules, rs.namespaces), order)
    requires HasGrounds(rs.rules, locs, name, e.1)
    ensures RecordIsRanked(rs, RanksOf(order), name, e)
  {
    var rule :| rule in rs.rules && rule.name == name && Grounded(References(rule.body), locs, e.1);
    GroundedCites(References(rule.body), locs, e.1);
    GraphNodes(rs.rules, rs.namespaces);
    forall cited | cited in CitedNames(e.1) ensures NameBelow(rs, RanksOf(order), cited, PositionOf(order, name)) {
      ReferencesAreBelow(rs, order, rule, cited);
    }
  }

  /**
   Evidence is closed and splicing ends: on any output of the static drivers, `Build` is defined, because references
   lead to rules of lower rank, and gives a document tree for every recorded match; no match it looks for is missing.
   */
  lemma StaticDocumentIsBuilt(rs: MatchingRuleSet, p: Program, file: Unit, order: seq<string>)
    requires Ready(rs, p, file) && ListsInOrder(GraphOf(rs.rules, rs.namespaces), order)
    ensures Ranked(rs, RanksOf(order), StaticMatches(p, file))
    ensures EveryRecordIsBuilt(rs, RanksOf(order), StaticMatches(p, file))
  {
    StaticEvidenceIsRanked(rs, p, file, order);
    StaticEvidenceIsSound(rs, p, file);
    SoundEvidenceIsBuilt(rs, RanksOf(order), StaticMatches(p, file));
  }

  // ---- from rules and a file to the document ----

  lemma BuiltRulesAreReady(rs: MatchingRuleSet, rules: seq<Rule>, globals: seq<Feature>)
    requires FreshNames(rules) && NoNameIsANamespace(rules) && rs.BuiltFor(Expand(rules))
    requires forall rule | rule in rules :: ReadyBody(rule.body) && AllNodes(rule.body, NodeRenders)
    ensures RulesAreReady(rs, Program(rs.byScope, globals))
  {
    BuiltCompiles(rs, rules, globals);
    ExpandedNamesAreNoNamespaces(rules);
    ExpandedKeep(rules, NodeRenders);
  }
}
