/**
 The meaning of rules over an analysed tree, and the proof that the bottom-up drivers match a rule at a unit
 exactly where its body holds.
 */
module ScopeSemantics {
  import opened Features
  import opened FeatureSets
  import opened Rules
  import opened Engine
  import opened RuleIndex
  import opened RuleGraph
  import opened StaticScopes
  import opened UnitContents

  /** Which rule, by name, matched at which unit. */
  type Verdicts = iset<(string, Unit)>

  /** The verdicts of the drivers. */
  ghost function DriverVerdicts(p: Program): Verdicts
    requires p.Valid()
  {
    iset name, v | Matched(p, name, v) :: (name, v)
  }

  /** Something among `rules` that is published under `n` matched at `v`. */
  ghost predicate PublishedAmong(m: Verdicts, rules: seq<Rule>, n: string, v: Unit) {
    exists rule | rule in rules :: n in PublishedNames(rule) && (rule.name, v) in m
  }

  ghost function ReferenceSites(m: Verdicts, rules: seq<Rule>, n: string, u: Unit): set<Address> {
    set v | v in Units(u) && PublishedAmong(m, rules, n, v) :: v.addr
  }

  /** The units whose own features count at `u`: file scope does not see the features of its functions. */
  function RawUnits(u: Unit): set<Unit> {
    if u.scope.FileScope? then {u} else Units(u)
  }

  function RawSites(p: Program, f: Feature, u: Unit): set<Address> {
    (set v, a | v in RawUnits(u) && a in EntrySites(Entries(p, v), f) :: a)
    - (if u.scope.FileScope? then {NoAddress} else {})
  }

  function EntryKeys(entries: seq<(Address, Feature)>): set<Feature> {
    set e | e in entries :: e.1
  }

  function RawKeys(p: Program, u: Unit): set<Feature> {
    set v, f | v in RawUnits(u) && f in EntryKeys(Entries(p, v)) :: f
  }

  /** The extracted and global features of a unit, as rules of its scope see them. */
  function RawLocs(p: Program, u: Unit): map<Feature, set<Address>> {
    map f | f in RawKeys(p, u) :: RawSites(p, f, u)
  }

  /**
   What a body says of unit `u`, given verdicts `m` on the rules. A `match:` leaf says that something so named matched
   at `u` or a unit that `u` encloses; a subscope says that `u` or an enclosed unit of that scope satisfies the body.
   */
  ghost predicate Means(p: Program, rules: seq<Rule>, m: Verdicts, body: Node, u: Unit)
    decreases body
  {
    match body.stmt
    case And(children) => forall c | c in children :: Means(p, rules, m, c, u)
    case Or(children) => exists c | c in children :: Means(p, rules, m, c, u)
    case Not(child) => !Means(p, rules, m, child, u)
    case SomeOf(count, children) => children != [] && CountMeant(p, rules, m, children, u) >= count
    case Range(f, min, max) =>
      WithinRange(|if f.MatchedRule? then ReferenceSites(m, rules, f.name, u) else RawSites(p, f, u)|, min, max)
    case Subscope(scope, inner) => exists v | v in Units(u) :: v.scope == scope && Means(p, rules, m, inner, v)
    case Leaf(f) =>
      if f.MatchedRule? then exists v | v in Units(u) :: PublishedAmong(m, rules, f.name, v)
      else LeafBoolean(f, RawLocs(p, u))
  }

  ghost function CountMeant(p: Program, rules: seq<Rule>, m: Verdicts, children: seq<Node>, u: Unit): nat
    decreases children
  {
    if children == [] then 0
    else (if Means(p, rules, m, children[0], u) then 1 else 0) + CountMeant(p, rules, m, children[1..], u)
  }

  // ---- a scan decides each rule on the features as they stand in the end ----

  /** The two maps agree on every raw feature and on the `match` features of the named references. */
  ghost predicate AgreeOn(a: map<Feature, set<Address>>, b: map<Feature, set<Address>>, references: set<string>) {
    forall f: Feature :: (f.MatchedRule? ==> f.name in references) ==>
      (f in a <==> f in b) && Locations(a, f) == Locations(b, f)
  }

  lemma {:induction false} HoldsOnAgreement(body: Node, a: map<Feature, set<Address>>, b: map<Feature, set<Address>>,
                                            references: set<string>)
    requires AgreeOn(a, b, references) && References(body) <= references
    ensures Holds(body, a) <==> Holds(body, b)
    decreases body
  {
    match body.stmt
    case And(children) => ListHoldsOnAgreement(children, a, b, references);
    case Or(children) => ListHoldsOnAgreement(children, a, b, references);
    case SomeOf(_, children) => ListHoldsOnAgreement(children, a, b, references);
    case Not(child) => HoldsOnAgreement(child, a, b, references);
    case Range(f, _, _) =>
    case Subscope(_, _) =>
    case Leaf(f) => LeafOnAgreement(f, a, b, references);
  }

  lemma {:induction false} ListHoldsOnAgreement(children: seq<Node>, a: map<Feature, set<Address>>,
                                                b: map<Feature, set<Address>>, references: set<string>)
    requires AgreeOn(a, b, references) && ListReferences(children) <= references
    ensures forall c | c in children :: Holds(c, a) <==> Holds(c, b)
    ensures CountHolding(children, a) == CountHolding(children, b)
    decreases children
  {
    if children != [] {
      HoldsOnAgreement(children[0], a, b, references);
      ListHoldsOnAgreement(children[1..], a, b, references);
    }
  }

  lemma LeafOnAgreement(f: Feature, a: map<Feature, set<Address>>, b: map<Feature, set<Address>>,
                        references: set<string>)
    requires AgreeOn(a, b, references) && (f.MatchedRule? ==> f.name in references)
    ensures LeafBoolean(f, a) <==> LeafBoolean(f, b)
  {
    assert forall k: Feature | !k.MatchedRule? :: k in a.Keys <==> k in b.Keys by {
      forall k: Feature | !k.MatchedRule? ensures k in a.Keys <==> k in b.Keys {
        assert k in a <==> k in b;
      }
    }
  }

  /** A rule's references are published only by rules before it. */
  ghost predicate ReferencesComeFirst(rules: seq<Rule>) {
    forall i, j, n
      | 0 <= i < |rules| && 0 <= j < |rules| && n in References(rules[i].body) && n in PublishedNames(rules[j]) :: j < i
  }

  lemma {:induction false} ResultsAreFinal(rules: seq<Rule>, j: nat, i: nat, n: nat, fs: FeatureSet, addr: Address)
    requires j < i <= n <= |rules| && UniqueNames(rules) && LinearScan(rules, n, fs, addr).Ok?
    ensures LinearScan(rules, i, fs, addr).Ok?
    ensures rules[j].name in LinearScan(rules, n, fs, addr).value.results
            <==> rules[j].name in LinearScan(rules, i, fs, addr).value.results
  {
    if i < n {
      ResultsAreFinal(rules, j, i, n - 1, fs, addr);
      assert rules[n - 1].name != rules[j].name;
      OthersStay(LinearScan(rules, n - 1, fs, addr).value, rules[n - 1], addr, rules[j].name);
    }
  }

  lemma OthersStay(st: ScanState, rule: Rule, addr: Address, name: string)
    requires ScanRule(st, rule, addr).Ok? && name != rule.name
    ensures name in ScanRule(st, rule, addr).value.results <==> name in st.results
  {
    ScanRuleCases(st, rule, addr);
    assert name in ScanRule(st, rule, addr).value.results.Keys <==> name in st.results.Keys;
  }

  /** Rule `i` is decided on features that agree, on all it refers to, with those at the end of the scan. */
  lemma DecidedOnFinalFeatures(rules: seq<Rule>, i: nat, fs: FeatureSet, addr: Address)
    requires i < |rules| && UniqueNames(rules) && ReferencesComeFirst(rules)
    requires LinearScan(rules, |rules|, fs, addr).Ok?
    ensures LinearScan(rules, i, fs, addr).Ok?
    ensures AgreeOn(LinearScan(rules, i, fs, addr).value.features.locs,
                    LinearScan(rules, |rules|, fs, addr).value.features.locs, References(rules[i].body))
  {
    LongerScanFails(rules, i, |rules|, fs, addr);
    var st, end := LinearScan(rules, i, fs, addr).value, LinearScan(rules, |rules|, fs, addr).value;
    forall f: Feature | f.MatchedRule? ==> f.name in References(rules[i].body)
      ensures (f in st.features.locs <==> f in end.features.locs)
              && Locations(st.features.locs, f) == Locations(end.features.locs, f)
    {
      LinearScanContents(rules, i, fs, addr, f);
      LinearScanContents(rules, |rules|, fs, addr, f);
      forall j | 0 <= j < |rules| && f.MatchedRule? && f.name in PublishedNames(rules[j])
        ensures j < i && (rules[j].name in end.results <==> rules[j].name in st.results)
      {
        ResultsAreFinal(rules, j, i, |rules|, fs, addr);
      }
    }
  }

  lemma MatchedAtItsTurn(st: ScanState, rule: Rule, addr: Address)
    requires Evaluable(rule.body) && rule.name !in st.results && ScanRule(st, rule, addr).Ok?
    ensures rule.name in ScanRule(st, rule, addr).value.results <==> Holds(rule.body, st.features.locs)
  {
    BooleanMeansHolds(rule.body, st.features.locs);
  }

  lemma MatchedWhenDecided(rules: seq<Rule>, i: nat, fs: FeatureSet, addr: Address)
    requires i < |rules| && UniqueNames(rules) && Evaluable(rules[i].body)
    requires LinearScan(rules, |rules|, fs, addr).Ok? && LinearScan(rules, i, fs, addr).Ok?
    ensures rules[i].name in LinearScan(rules, |rules|, fs, addr).value.results
            <==> Holds(rules[i].body, LinearScan(rules, i, fs, addr).value.features.locs)
  {
    ResultsAreFinal(rules, i, i + 1, |rules|, fs, addr);
    ResultsAreNamed(rules, i, fs, addr);
    MatchedAtItsTurn(LinearScan(rules, i, fs, addr).value, rules[i], addr);
  }

  /** Within one unit: a rule matches exactly when its body holds of the features as the scan leaves them. */
  lemma MatchedIffHolds(p: Program, u: Unit, rule: Rule)
    requires p.Valid() && rule in p.RulesAt(u.scope) && ReferencesComeFirst(p.RulesAt(u.scope))
    ensures Matched(p, rule.name, u) <==> Holds(rule.body, Scan(p, u).features.locs)
  {
    var rules, fs := p.RulesAt(u.scope), Before(p, u);
    var i :| 0 <= i < |rules| && rules[i] == rule;
    EvaluableScanSucceeds(rules, |rules|, fs, u.addr);
    DecidedOnFinalFeatures(rules, i, fs, u.addr);
    MatchedWhenDecided(rules, i, fs, u.addr);
    HoldsOnAgreement(rule.body, LinearScan(rules, i, fs, u.addr).value.features.locs, Scan(p, u).features.locs,
                     References(rule.body));
  }

  // ---- from the features at a unit to the meaning over the tree ----

  /** `rules` are all the rules: each scope matches some of them, and no two have the same name. */
  ghost predicate DrawnFrom(p: Program, rules: seq<Rule>) {
    && UniqueNames(rules)
    && forall scope, rule | rule in p.RulesAt(scope) :: rule in rules
  }

  /** Where a rule of the set matched, it is one of the rules of that scope. */
  lemma MatchedIsDrawn(p: Program, rules: seq<Rule>, rule: Rule, v: Unit)
    requires p.Valid() && DrawnFrom(p, rules) && rule in rules && Matched(p, rule.name, v)
    ensures rule in p.RulesAt(v.scope)
  {
    var here := p.RulesAt(v.scope);
    EvaluableScanSucceeds(here, |here|, Before(p, v), v.addr);
    ResultsAreNamed(here, |here|, Before(p, v), v.addr);
    var i :| 0 <= i < |here| && here[i].name == rule.name;
    assert here[i] in here && here[i] in rules;
    assert here[i] == rule;
  }

  lemma PublicationsAreDrawn(p: Program, rules: seq<Rule>, n: string, v: Unit)
    requires p.Valid() && DrawnFrom(p, rules)
    ensures PublishedAt(p, n, v) <==> PublishedAmong(DriverVerdicts(p), rules, n, v)
  {
    forall rule | n in PublishedNames(rule) && Matched(p, rule.name, v)
      ensures rule in p.RulesAt(v.scope) <==> rule in rules
    {
      if rule in rules {
        MatchedIsDrawn(p, rules, rule, v);
      }
    }
    assert forall rule: Rule :: (rule.name, v) in DriverVerdicts(p) <==> Matched(p, rule.name, v);
  }

  /** What the features at a unit say of a `match` name is what the tree says of it. */
  lemma SeenReferences(p: Program, rules: seq<Rule>, u: Unit, n: string)
    requires p.Valid() && DrawnFrom(p, rules) && WellNested(u) && NoMatchFeatures(p, u)
    ensures MatchedRule(n) in Scan(p, u).features.locs
            <==> exists v | v in Units(u) :: PublishedAmong(DriverVerdicts(p), rules, n, v)
    ensures Locations(Scan(p, u).features.locs, MatchedRule(n)) == ReferenceSites(DriverVerdicts(p), rules, n, u)
  {
    var f := MatchedRule(n);
    Contents(p, u, f);
    forall v | v in Units(u) ensures Shows(p, f, v) <==> PublishedAmong(DriverVerdicts(p), rules, n, v) {
      PublicationsAreDrawn(p, rules, n, v);
    }
    forall a | a in Sites(p, f, Units(u)) ensures a in ReferenceSites(DriverVerdicts(p), rules, n, u) {
      var v :| v in Units(u) && a in OwnSites(p, f, v);
    }
    forall v | v in Units(u) && PublishedAmong(DriverVerdicts(p), rules, n, v) ensures v.addr in Sites(p, f, Units(u)) {
      assert v.addr in OwnSites(p, f, v);
    }
  }

  lemma KeysOfEntries(entries: seq<(Address, Feature)>, f: Feature)
    ensures f in EntryKeys(entries) <==> HasFeature(entries, f)
  {
  }

  lemma RawKeysAreShown(p: Program, u: Unit, f: Feature)
    requires p.Valid() && !f.MatchedRule?
    ensures f in RawKeys(p, u) <==> Shown(p, f, RawUnits(u))
  {
    forall v | v in RawUnits(u) ensures f in EntryKeys(Entries(p, v)) <==> Shows(p, f, v) {
      KeysOfEntries(Entries(p, v), f);
    }
  }

  lemma SeenRaw(p: Program, u: Unit, f: Feature)
    requires p.Valid() && WellNested(u) && NoMatchFeatures(p, u) && !f.MatchedRule?
    ensures f in Scan(p, u).features.locs <==> f in RawKeys(p, u)
    ensures Locations(Scan(p, u).features.locs, f) == RawSites(p, f, u)
  {
    Contents(p, u, f);
    RawKeysAreShown(p, u, f);
    if u.scope.FileScope? {
      SitesOne(p, f, u);
    }
    assert (set v, a | v in RawUnits(u) && a in EntrySites(Entries(p, v), f) :: a) == Sites(p, f, RawUnits(u)) by {
      assert forall v :: OwnSites(p, f, v) == EntrySites(Entries(p, v), f);
    }
  }

  lemma SeenLeaf(p: Program, u: Unit, f: Feature)
    requires p.Valid() && WellNested(u) && NoMatchFeatures(p, u) && !f.MatchedRule?
    ensures LeafBoolean(f, Scan(p, u).features.locs) <==> LeafBoolean(f, RawLocs(p, u))
  {
    forall k: Feature ensures !k.MatchedRule? ==> (k in Scan(p, u).features.locs <==> k in RawKeys(p, u)) {
      if !k.MatchedRule? {
        SeenRaw(p, u, k);
      }
    }
    LeafOnKeys(f, Scan(p, u).features.locs, RawLocs(p, u));
  }

  lemma LeafOnKeys(f: Feature, a: map<Feature, set<Address>>, b: map<Feature, set<Address>>)
    requires !f.MatchedRule? && forall k: Feature :: !k.MatchedRule? ==> (k in a <==> k in b)
    ensures LeafBoolean(f, a) <==> LeafBoolean(f, b)
  {
  }

  /** `locs` has of the `match` name `n` what the verdicts say of the units that `u` encloses. */
  ghost predicate SeesName(rules: seq<Rule>, m: Verdicts, u: Unit, locs: map<Feature, set<Address>>, n: string) {
    && (MatchedRule(n) in locs <==> exists v | v in Units(u) :: PublishedAmong(m, rules, n, v))
    && Locations(locs, MatchedRule(n)) == ReferenceSites(m, rules, n, u)
  }

  ghost predicate SeesRawFeature(p: Program, u: Unit, locs: map<Feature, set<Address>>, f: Feature) {
    Locations(locs, f) == RawSites(p, f, u) && (LeafBoolean(f, locs) <==> LeafBoolean(f, RawLocs(p, u)))
  }

  ghost predicate ShowsFeature(p: Program, rules: seq<Rule>, m: Verdicts, u: Unit, locs: map<Feature, set<Address>>,
                               f: Feature)
  {
    if f.MatchedRule? then SeesName(rules, m, u, locs, f.name) else SeesRawFeature(p, u, locs, f)
  }

  /** `locs` shows exactly what bodies are to be read by at `u`. */
  ghost predicate ShowsUnit(p: Program, rules: seq<Rule>, m: Verdicts, u: Unit, locs: map<Feature, set<Address>>) {
    forall f :: ShowsFeature(p, rules, m, u, locs, f)
  }

  lemma ScanShowsUnit(p: Program, rules: seq<Rule>, u: Unit)
    requires p.Valid() && DrawnFrom(p, rules) && WellNested(u) && NoMatchFeatures(p, u)
    ensures ShowsUnit(p, rules, DriverVerdicts(p), u, Scan(p, u).features.locs)
  {
    var locs := Scan(p, u).features.locs;
    forall f ensures ShowsFeature(p, rules, DriverVerdicts(p), u, locs, f) {
      if f.MatchedRule? {
        SeenReferences(p, rules, u, f.name);
      } else {
        SeenRaw(p, u, f);
        SeenLeaf(p, u, f);
      }
    }
  }

  lemma {:induction false} HoldsIsMeaning(p: Program, rules: seq<Rule>, m: Verdicts, body: Node, u: Unit,
                                          locs: map<Feature, set<Address>>)
    requires ShowsUnit(p, rules, m, u, locs) && Evaluable(body)
    ensures Holds(body, locs) <==> Means(p, rules, m, body, u)
    decreases body
  {
    match body.stmt
    case And(children) => ListHoldsIsMeaning(p, rules, m, children, u, locs);
    case Or(children) => ListHoldsIsMeaning(p, rules, m, children, u, locs);
    case SomeOf(_, children) => ListHoldsIsMeaning(p, rules, m, children, u, locs);
    case Not(child) => HoldsIsMeaning(p, rules, m, child, u, locs);
    case Range(f, _, _) => assert ShowsFeature(p, rules, m, u, locs, f);
    case Leaf(f) => assert ShowsFeature(p, rules, m, u, locs, f);
  }

  lemma {:induction false} ListHoldsIsMeaning(p: Program, rules: seq<Rule>, m: Verdicts, children: seq<Node>, u: Unit,
                                              locs: map<Feature, set<Address>>)
    requires ShowsUnit(p, rules, m, u, locs) && forall c | c in children :: Evaluable(c)
    ensures forall c | c in children :: Holds(c, locs) <==> Means(p, rules, m, c, u)
    ensures CountHolding(children, locs) == CountMeant(p, rules, m, children, u)
    decreases children
  {
    if children != [] {
      HoldsIsMeaning(p, rules, m, children[0], u, locs);
      ListHoldsIsMeaning(p, rules, m, children[1..], u, locs);
    }
  }

  /** The bottom-up drivers match a subscope-free rule at a unit of its scope exactly where its body holds. */
  lemma MatchedIffMeant(p: Program, rules: seq<Rule>, u: Unit, rule: Rule)
    requires p.Valid() && DrawnFrom(p, rules) && WellNested(u) && NoMatchFeatures(p, u)
    requires rule in p.RulesAt(u.scope) && ReferencesComeFirst(p.RulesAt(u.scope))
    ensures Matched(p, rule.name, u) <==> Means(p, rules, DriverVerdicts(p), rule.body, u)
  {
    MatchedIffHolds(p, u, rule);
    ScanShowsUnit(p, rules, u);
    HoldsIsMeaning(p, rules, DriverVerdicts(p), rule.body, u, Scan(p, u).features.locs);
  }
}
