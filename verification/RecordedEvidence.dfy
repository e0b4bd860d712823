/** What the drivers record: each match once, in the order of the units, with evidence that explains the rule's body. */
module RecordedEvidence {
  import opened Base
  import opened Features
  import opened FeatureSets
  import opened Rules
  import opened Engine
  import opened RuleIndex
  import opened RuleGraph
  import opened StaticScopes
  import opened ScopeSemantics
  import opened Promotion
  import opened Explanations

  // ---- evaluation on features that agree on what a body refers to ----

  lemma StringScanOnAgreement(f: Feature, a: FeatureSet, b: FeatureSet, references: set<string>,
                              description: Option<string>)
    requires f.String? && AgreeOn(a.locs, b.locs, references)
    ensures StringScanResult(f, a, false, description) == StringScanResult(f, b, false, description)
  {
    forall k: Feature | k.String?
      ensures k in a.locs.Keys <==> k in b.locs.Keys
      ensures Locations(a.locs, k) == Locations(b.locs, k)
    {
      assert k in a.locs <==> k in b.locs;
    }
    var q := f.str;
    assert forall k | k in a.locs.Keys && StringHit(q, k) :: k in b.locs.Keys && a.locs[k] == b.locs[k];
    assert forall k | k in b.locs.Keys && StringHit(q, k) :: k in a.locs.Keys && a.locs[k] == b.locs[k];
    assert HitLocations(q, a.locs) == HitLocations(q, b.locs);
    CapturesOnAgreement(q, a.locs, b.locs);
  }

  lemma CapturesOnAgreement(q: StringFeature, a: map<Feature, set<Address>>, b: map<Feature, set<Address>>)
    requires forall k | k in a.Keys && StringHit(q, k) :: k in b.Keys && a[k] == b[k]
    requires forall k | k in b.Keys && StringHit(q, k) :: k in a.Keys && a[k] == b[k]
    ensures HitCaptures(q, a) == HitCaptures(q, b)
  {
    assert HitValues(q, a) == HitValues(q, b);
    forall v ensures ValueLocations(q, a, v) == ValueLocations(q, b, v) {
    }
  }

  lemma {:induction false} EvaluateOnAgreement(node: Node, a: FeatureSet, b: FeatureSet, references: set<string>)
    requires AgreeOn(a.locs, b.locs, references) && SameKinds(a, b) && References(node) <= references
    ensures Evaluate(node, a, false) == Evaluate(node, b, false)
    decreases node
  {
    match node.stmt
    case And(children) => ChildrenOnAgreement(children, a, b, references);
    case Or(children) => ChildrenOnAgreement(children, a, b, references);
    case SomeOf(_, children) => ChildrenOnAgreement(children, a, b, references);
    case Not(child) => EvaluateOnAgreement(child, a, b, references);
    case Range(_, _, _) =>
    case Subscope(_, _) =>
    case Leaf(f) => LeafEvidenceOnAgreement(f, a, b, references, node.description);
  }

  lemma LeafEvidenceOnAgreement(f: Feature, a: FeatureSet, b: FeatureSet, references: set<string>,
                                description: Option<string>)
    requires AgreeOn(a.locs, b.locs, references) && SameKinds(a, b) && (f.MatchedRule? ==> f.name in references)
    ensures EvaluateLeaf(f, a, false, description) == EvaluateLeaf(f, b, false, description)
  {
    if f.String? && !f.str.Plain? {
      StringScanOnAgreement(f, a, b, references, description);
    } else if f.Bytes? {
      FirstHitIsOrderIndependent(f, a, b, k => BytesHit(f.bytes, k), IsBytes, description);
    } else if f.Os? {
      FirstHitIsOrderIndependent(f, a, b, k => OsHit(f.name, k), IsOs, description);
    }
  }

  lemma {:induction false} ChildrenOnAgreement(children: seq<Node>, a: FeatureSet, b: FeatureSet,
                                               references: set<string>)
    requires AgreeOn(a.locs, b.locs, references) && SameKinds(a, b) && ListReferences(children) <= references
    ensures EvaluateChildren(children, a, false, Never) == EvaluateChildren(children, b, false, Never)
    decreases children
  {
    if children != [] {
      EvaluateOnAgreement(children[0], a, b, references);
      ChildrenOnAgreement(children[1..], a, b, references);
    }
  }

  // ---- one scan ----

  /** Rule `i` matched when the scan came to it, and `e` is what was recorded for it. */
  ghost predicate IsRecordOf(rules: seq<Rule>, i: nat, fs: FeatureSet, addr: Address, e: (Address, MatchResult)) {
    && i < |rules| && LinearScan(rules, i, fs, addr).Ok?
    && var st := LinearScan(rules, i, fs, addr).value;
       && EvaluateBoolean(rules[i].body, st.features.locs) == Ok(true)
       && Evaluate(rules[i].body, st.features, false).Ok?
       && e == (addr, Evaluate(rules[i].body, st.features, false).value)
  }

  lemma OldRecordStays(st: ScanState, rule: Rule, addr: Address, name: string)
    requires ScanRule(st, rule, addr).Ok? && name in st.results && name != rule.name
    ensures name in ScanRule(st, rule, addr).value.results
    ensures ScanRule(st, rule, addr).value.results[name] == st.results[name]
  {
  }

  lemma NewRecord(st: ScanState, rule: Rule, addr: Address, name: string)
    requires ScanRule(st, rule, addr).Ok? && name !in st.results && name in ScanRule(st, rule, addr).value.results
    ensures name == rule.name && EvaluateBoolean(rule.body, st.features.locs) == Ok(true)
    ensures Evaluate(rule.body, st.features, false).Ok?
    ensures ScanRule(st, rule, addr).value.results[name] == [(addr, Evaluate(rule.body, st.features, false).value)]
  {
  }

  /** What a scan records for a rule is one match, that of its body when the scan came to it. */
  lemma {:induction false} RecordOf(rules: seq<Rule>, n: nat, fs: FeatureSet, addr: Address, name: string)
    returns (i: nat)
    requires n <= |rules| && UniqueNames(rules) && LinearScan(rules, n, fs, addr).Ok?
    requires name in LinearScan(rules, n, fs, addr).value.results
    ensures i < n && rules[i].name == name && |LinearScan(rules, n, fs, addr).value.results[name]| == 1
    ensures IsRecordOf(rules, i, fs, addr, LinearScan(rules, n, fs, addr).value.results[name][0])
  {
    if n > 0 {
      var st := LinearScan(rules, n - 1, fs, addr).value;
      if name in st.results {
        i := RecordOf(rules, n - 1, fs, addr, name);
        assert rules[i].name != rules[n - 1].name;
        OldRecordStays(st, rules[n - 1], addr, name);
      } else {
        NewRecord(st, rules[n - 1], addr, name);
        i := n - 1;
      }
    }
  }

  /** The single match recorded for a rule explains its body on the features as the scan leaves them. */
  ghost predicate IsExplained(rules: seq<Rule>, st: ScanState, addr: Address, name: string, e: (Address, MatchResult)) {
    exists rule | rule in rules :: ExplainsRule(rule, st, addr, name, e)
  }

  ghost predicate ExplainsRule(rule: Rule, st: ScanState, addr: Address, name: string, e: (Address, MatchResult)) {
    && rule.name == name && e.0 == addr && Explains(rule.body, st.features, e.1)
    && (EmptySomesUnder(rule.body, true) ==> e.1.success)
  }

  lemma RecordIsExplained(rules: seq<Rule>, fs: FeatureSet, addr: Address, i: nat, e: (Address, MatchResult))
    requires UniqueNames(rules) && ReferencesComeFirst(rules) && LinearScan(rules, |rules|, fs, addr).Ok?
    requires IsRecordOf(rules, i, fs, addr, e) && Evaluable(rules[i].body)
    ensures ExplainsRule(rules[i], LinearScan(rules, |rules|, fs, addr).value, addr, rules[i].name, e)
  {
    var st, end := LinearScan(rules, i, fs, addr).value, LinearScan(rules, |rules|, fs, addr).value;
    DecidedOnFinalFeatures(rules, i, fs, addr);
    ScanKeepsKinds(rules, i, fs, addr);
    ScanKeepsKinds(rules, |rules|, fs, addr);
    EvaluateOnAgreement(rules[i].body, st.features, end.features, References(rules[i].body));
    EvaluatedExplains(rules[i].body, end.features);
    if EmptySomesUnder(rules[i].body, true) {
      AssertionHolds(rules[i].body, st.features);
    }
  }

  /**
   What a scan records for a rule is a single match, at the scan's address, whose evidence explains the rule's body: it
   shows each statement and leaf, in place, with exactly the locations and captures there are.
   */
  lemma ScanIsExplained(p: Program, scope: Scope, fs: FeatureSet, addr: Address, name: string)
    requires p.Valid() && ReferencesComeFirst(p.RulesAt(scope)) && name in ScanAt(p, scope, fs, addr).results
    ensures var st := ScanAt(p, scope, fs, addr);
            |st.results[name]| == 1 && IsExplained(p.RulesAt(scope), st, addr, name, st.results[name][0])
  {
    var rules := p.RulesAt(scope);
    EvaluableScanSucceeds(rules, |rules|, fs, addr);
    var i := RecordOf(rules, |rules|, fs, addr, name);
    assert rules[i] in rules;
    RecordIsExplained(rules, fs, addr, i, ScanAt(p, scope, fs, addr).results[name][0]);
  }

  // ---- the order of what is recorded ----

  /** The units of one scope, in the order of the tree. */
  function UnitsOf(u: Unit, scope: Scope): seq<Unit>
    decreases u, 1
  {
    if u.scope == scope then [u] else UnitsOfParts(u.parts, scope)
  }

  function UnitsOfParts(parts: seq<Unit>, scope: Scope): seq<Unit>
    decreases parts, 0
  {
    if parts == [] then []
    else UnitsOfParts(parts[..|parts| - 1], scope) + UnitsOf(parts[|parts| - 1], scope)
  }

  /** What `found` gives for the units, one after the other. */
  ghost function InTurn<T>(found: Unit -> seq<T>, units: seq<Unit>): seq<T> {
    if units == [] then [] else InTurn(found, units[..|units| - 1]) + found(units[|units| - 1])
  }

  lemma {:induction false} InTurnConcat<T>(found: Unit -> seq<T>, a: seq<Unit>, b: seq<Unit>)
    ensures InTurn(found, a + b) == InTurn(found, a) + InTurn(found, b)
  {
    if b == [] {
      assert a + b == a;
    } else {
      InTurnConcat(found, a, b[..|b| - 1]);
      assert (a + b)[..|a + b| - 1] == a + b[..|b| - 1];
    }
  }

  /** What the scan of a unit recorded for the rule of this name. */
  ghost function FoundBy(p: Program, name: string): Unit -> seq<(Address, MatchResult)>
    requires p.Valid()
  {
    v => if p.Valid() then Recorded(Scan(p, v).results, name) else []
  }

  /** The matches of one scope are those of its units in the order of the tree. */
  lemma {:induction false} MatchesAreInOrder(p: Program, u: Unit, scope: Scope, name: string)
    requires p.Valid()
    ensures Recorded(MatchesOf(p, u, scope), name) == InTurn(FoundBy(p, name), UnitsOf(u, scope))
    decreases u, 1
  {
    if u.scope == scope {
      OneInTurn(FoundBy(p, name), u);
    } else {
      PartsMatchesAreInOrder(p, u.parts, scope, name);
    }
  }

  lemma OneInTurn<T>(found: Unit -> seq<T>, u: Unit)
    ensures InTurn(found, [u]) == found(u)
  {
    assert [u][..0] == [];
  }

  lemma ExtendedOne(a: MatchResults, b: MatchResults, name: string)
    ensures Recorded(ExtendMatches(a, b), name) == Recorded(a, name) + Recorded(b, name)
  {
  }

  lemma {:induction false} PartsMatchesAreInOrder(p: Program, parts: seq<Unit>, scope: Scope, name: string)
    requires p.Valid()
    ensures Recorded(MatchesOfParts(p, parts, scope), name) == InTurn(FoundBy(p, name), UnitsOfParts(parts, scope))
    decreases parts, 0
  {
    if parts != [] {
      var init, last := parts[..|parts| - 1], parts[|parts| - 1];
      PartsMatchesAreInOrder(p, init, scope, name);
      MatchesAreInOrder(p, last, scope, name);
      ExtendedOne(MatchesOfParts(p, init, scope), MatchesOf(p, last, scope), name);
      InTurnConcat(FoundBy(p, name), UnitsOfParts(init, scope), UnitsOf(last, scope));
    }
  }

  lemma ExtendedFour(a: MatchResults, b: MatchResults, c: MatchResults, d: MatchResults, name: string)
    ensures Recorded(ExtendMatches(ExtendMatches(ExtendMatches(ExtendMatches(map[], a), b), c), d), name)
            == Recorded(a, name) + Recorded(b, name) + Recorded(c, name) + Recorded(d, name)
  {
    var one := ExtendMatches(map[], a);
    var two := ExtendMatches(one, b);
    var three := ExtendMatches(two, c);
    ExtendedOne(map[], a, name);
    assert Recorded(one, name) == Recorded(a, name);
    ExtendedOne(one, b, name);
    ExtendedOne(two, c, name);
    ExtendedOne(three, d, name);
  }

  /** What the static driver returns: in order, what was found at instructions, blocks, functions, and the file. */
  lemma StaticMatchesAreInOrder(p: Program, file: Unit, name: string)
    requires p.Valid()
    ensures Recorded(StaticMatches(p, file), name)
            == InTurn(FoundBy(p, name), UnitsOfParts(file.parts, InstructionScope))
               + InTurn(FoundBy(p, name), UnitsOfParts(file.parts, BasicBlockScope))
               + InTurn(FoundBy(p, name), UnitsOfParts(file.parts, FunctionScope))
               + Recorded(Scan(p, file).results, name)
  {
    PartsMatchesAreInOrder(p, file.parts, InstructionScope, name);
    PartsMatchesAreInOrder(p, file.parts, BasicBlockScope, name);
    PartsMatchesAreInOrder(p, file.parts, FunctionScope, name);
    ExtendedFour(MatchesOfParts(p, file.parts, InstructionScope), MatchesOfParts(p, file.parts, BasicBlockScope),
                 MatchesOfParts(p, file.parts, FunctionScope), Scan(p, file).results, name);
  }
}
