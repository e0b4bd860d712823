/**
 What a rule set means: each rule holds where its body, as it was written, holds, and a `match:` leaf refers to where
 the rules that it names hold. An accepted rule set has exactly one such meaning, and the drivers compute it.
 */
module RuleMeaning {
  import opened Base
  import opened Features
  import opened Rules
  import opened RuleGraph
  import opened StaticScopes
  import opened UnitContents
  import opened ScopeSemantics
  import opened Extraction
  import opened ExtractionSemantics
  import opened ExtractedBodies
  import opened MatchingRules
  import opened MatchingRuleSets

  // ---- the equation has one solution ----

  /** `m` gives each rule, at each unit within `root`, the verdict that its body has under `m`. */
  ghost predicate Solves(p: Program, rules: seq<Rule>, m: Verdicts, root: Unit) {
    forall rule, u | rule in rules && u in Units(root) ::
      (rule.name, u) in m
      <==> (rule.scopes.static_ == Some(u.scope) || rule.scopes.dynamic == Some(u.scope))
           && Means(p, rules, m, rule.body, u)
  }

  ghost predicate AgreeAt(a: Verdicts, b: Verdicts, name: string, root: Unit) {
    forall u | u in Units(root) :: (name, u) in a <==> (name, u) in b
  }

  /** Everything published under `n` has the same verdicts within `root`. */
  ghost predicate NameAgrees(rules: seq<Rule>, a: Verdicts, b: Verdicts, n: string, root: Unit) {
    forall rule | rule in rules && n in PublishedNames(rule) :: AgreeAt(a, b, rule.name, root)
  }

  ghost predicate NamesAgree(rules: seq<Rule>, a: Verdicts, b: Verdicts, names: set<string>, root: Unit) {
    forall n | n in names :: NameAgrees(rules, a, b, n, root)
  }

  lemma AgreementWithin(rules: seq<Rule>, a: Verdicts, b: Verdicts, names: set<string>, u: Unit, v: Unit)
    requires NamesAgree(rules, a, b, names, u) && v in Units(u)
    ensures NamesAgree(rules, a, b, names, v)
  {
    forall n, rule | n in names && rule in rules && n in PublishedNames(rule) ensures AgreeAt(a, b, rule.name, v) {
      assert NameAgrees(rules, a, b, n, u);
      assert AgreeAt(a, b, rule.name, u);
      forall w | w in Units(v) ensures w in Units(u) {
        UnitsNest(u, v, w);
      }
    }
  }

  lemma {:induction false} MeaningFollowsReferences(p: Program, rules: seq<Rule>, a: Verdicts, b: Verdicts,
                                                    names: set<string>, body: Node, u: Unit)
    requires NamesAgree(rules, a, b, names, u) && References(body) <= names
    ensures Means(p, rules, a, body, u) <==> Means(p, rules, b, body, u)
    decreases body
  {
    match body.stmt
    case And(children) => ListFollowsReferences(p, rules, a, b, names, children, u);
    case Or(children) => ListFollowsReferences(p, rules, a, b, names, children, u);
    case SomeOf(_, children) => ListFollowsReferences(p, rules, a, b, names, children, u);
    case Not(child) => MeaningFollowsReferences(p, rules, a, b, names, child, u);
    case Range(f, _, _) => if f.MatchedRule? { NameFollows(rules, a, b, f.name, u); }
    case Leaf(f) => if f.MatchedRule? { NameFollows(rules, a, b, f.name, u); }
    case Subscope(_, inner) =>
      forall v | v in Units(u) ensures Means(p, rules, a, inner, v) <==> Means(p, rules, b, inner, v) {
        AgreementWithin(rules, a, b, names, u, v);
        MeaningFollowsReferences(p, rules, a, b, names, inner, v);
      }
  }

  lemma NameFollows(rules: seq<Rule>, a: Verdicts, b: Verdicts, n: string, u: Unit)
    requires NameAgrees(rules, a, b, n, u)
    ensures forall v | v in Units(u) :: PublishedAmong(a, rules, n, v) <==> PublishedAmong(b, rules, n, v)
    ensures ReferenceSites(a, rules, n, u) == ReferenceSites(b, rules, n, u)
  {
    forall v | v in Units(u) ensures PublishedAmong(a, rules, n, v) <==> PublishedAmong(b, rules, n, v) {
      forall rule | rule in rules && n in PublishedNames(rule) ensures (rule.name, v) in a <==> (rule.name, v) in b {
        assert AgreeAt(a, b, rule.name, u);
      }
    }
  }

  lemma {:induction false} ListFollowsReferences(p: Program, rules: seq<Rule>, a: Verdicts, b: Verdicts,
                                                 names: set<string>, children: seq<Node>, u: Unit)
    requires NamesAgree(rules, a, b, names, u) && ListReferences(children) <= names
    ensures forall c | c in children :: Means(p, rules, a, c, u) <==> Means(p, rules, b, c, u)
    ensures CountMeant(p, rules, a, children, u) == CountMeant(p, rules, b, children, u)
    decreases children
  {
    if children != [] {
      MeaningFollowsReferences(p, rules, a, b, names, children[0], u);
      ListFollowsReferences(p, rules, a, b, names, children[1..], u);
    }
  }

  /**
   When the references come first, any two verdicts that give every rule the verdict of its body agree on every rule
   everywhere.
   */
  lemma {:induction false} OrderedMeaningIsUnique(p: Program, rules: seq<Rule>, a: Verdicts, b: Verdicts, root: Unit,
                                                  i: nat)
    requires ReferencesComeFirst(rules) && i < |rules|
    requires Solves(p, rules, a, root) && Solves(p, rules, b, root)
    ensures AgreeAt(a, b, rules[i].name, root)
  {
    var rule := rules[i];
    forall n, other | n in References(rule.body) && other in rules && n in PublishedNames(other)
      ensures AgreeAt(a, b, other.name, root)
    {
      var j :| 0 <= j < |rules| && rules[j] == other;
      assert j < i;
      OrderedMeaningIsUnique(p, rules, a, b, root, j);
    }
    assert NamesAgree(rules, a, b, References(rule.body), root);
    forall u | u in Units(root) ensures (rule.name, u) in a <==> (rule.name, u) in b {
      AgreementWithin(rules, a, b, References(rule.body), root, u);
      MeaningFollowsReferences(p, rules, a, b, References(rule.body), rule.body, u);
    }
  }

  // ---- only which rules there are matters, not their order ----

  ghost predicate SameRules(a: seq<Rule>, b: seq<Rule>) {
    forall rule :: rule in a <==> rule in b
  }

  lemma SamePublications(a: seq<Rule>, b: seq<Rule>, m: Verdicts, n: string, u: Unit)
    requires SameRules(a, b)
    ensures forall v :: PublishedAmong(m, a, n, v) <==> PublishedAmong(m, b, n, v)
    ensures ReferenceSites(m, a, n, u) == ReferenceSites(m, b, n, u)
  {
  }

  lemma {:induction false} SameRulesMeanTheSame(p: Program, a: seq<Rule>, b: seq<Rule>, m: Verdicts, body: Node,
                                                u: Unit)
    requires SameRules(a, b)
    ensures Means(p, a, m, body, u) <==> Means(p, b, m, body, u)
    decreases body
  {
    match body.stmt
    case And(children) => SameRulesMeanTheSameOfList(p, a, b, m, children, u);
    case Or(children) => SameRulesMeanTheSameOfList(p, a, b, m, children, u);
    case SomeOf(_, children) => SameRulesMeanTheSameOfList(p, a, b, m, children, u);
    case Not(child) => SameRulesMeanTheSame(p, a, b, m, child, u);
    case Range(f, _, _) => if f.MatchedRule? { SamePublications(a, b, m, f.name, u); }
    case Leaf(f) => if f.MatchedRule? { SamePublications(a, b, m, f.name, u); }
    case Subscope(_, inner) =>
      forall v ensures Means(p, a, m, inner, v) <==> Means(p, b, m, inner, v) {
        SameRulesMeanTheSame(p, a, b, m, inner, v);
      }
  }

  lemma {:induction false} SameRulesMeanTheSameOfList(p: Program, a: seq<Rule>, b: seq<Rule>, m: Verdicts,
                                                      children: seq<Node>, u: Unit)
    requires SameRules(a, b)
    ensures forall c | c in children :: Means(p, a, m, c, u) <==> Means(p, b, m, c, u)
    ensures CountMeant(p, a, m, children, u) == CountMeant(p, b, m, children, u)
    decreases children
  {
    if children != [] {
      SameRulesMeanTheSame(p, a, b, m, children[0], u);
      SameRulesMeanTheSameOfList(p, a, b, m, children[1..], u);
    }
  }

  lemma SameRulesAreSolved(p: Program, a: seq<Rule>, b: seq<Rule>, m: Verdicts, root: Unit)
    requires SameRules(a, b) && Solves(p, a, m, root)
    ensures Solves(p, b, m, root)
  {
    forall rule, u | rule in b && u in Units(root)
      ensures (rule.name, u) in m
              <==> (rule.scopes.static_ == Some(u.scope) || rule.scopes.dynamic == Some(u.scope))
                   && Means(p, b, m, rule.body, u)
    {
      SameRulesMeanTheSame(p, a, b, m, rule.body, u);
    }
  }

  // ---- an accepted rule set has one meaning ----

  /** With dependencies first, whoever publishes a referenced name is listed before the rule that refers to it. */
  lemma PublisherComesFirst(rules: seq<Rule>, sorted: seq<Rule>, i: nat, j: nat, n: string)
    requires Acceptable(rules) && NoNameIsANamespace(rules)
    requires SameRules(rules, sorted) && UniqueNames(sorted) && ResolvesBackwards(sorted, NamespaceIndex(Expand(rules)))
    requires i < |sorted| && j < |sorted| && n in References(sorted[i].body) && n in PublishedNames(sorted[j])
    ensures j < i
  {
    assert sorted[i] in rules && sorted[j] in rules;
    PublishersAreDependencies(rules, sorted[i], sorted[j], n);
    DependenciesExpand(rules, sorted[i].body);
    var k :| 0 <= k < i && sorted[k].name == sorted[j].name;
  }

  lemma InOrderIsUnique(rules: seq<Rule>, order: seq<string>)
    requires Distinct(order) && forall n | n in order :: Named(rules, n).Some?
    ensures UniqueNames(InOrder(rules, order))
  {
    DistinctMeans(order);
  }

  /** An accepted rule set can be listed so that references come first. */
  lemma AcceptedIsOrdered(rules: seq<Rule>) returns (sorted: seq<Rule>)
    requires Acceptable(rules) && NoNameIsANamespace(rules)
    ensures SameRules(rules, sorted) && ReferencesComeFirst(sorted)
  {
    var order := AcyclicHasOrder(GraphOf(rules, NamespaceIndex(rules)));
    GraphNodes(rules, NamespaceIndex(rules));
    OrderResolvesBackwards(rules, order);
    InOrderIsUnique(rules, order);
    sorted := InOrder(rules, order);
    forall i, j, n | 0 <= i < |sorted| && 0 <= j < |sorted| && n in References(sorted[i].body)
        && n in PublishedNames(sorted[j])
      ensures j < i
    {
      PublisherComesFirst(rules, sorted, i, j, n);
    }
  }

  /** Whatever gives every rule of an accepted set the verdict of its body gives the same verdicts. */
  lemma MeaningIsUnique(p: Program, rules: seq<Rule>, a: Verdicts, b: Verdicts, root: Unit, rule: Rule)
    requires Acceptable(rules) && NoNameIsANamespace(rules)
    requires Solves(p, rules, a, root) && Solves(p, rules, b, root) && rule in rules
    ensures AgreeAt(a, b, rule.name, root)
  {
    var sorted := AcceptedIsOrdered(rules);
    SameRulesAreSolved(p, rules, sorted, a, root);
    SameRulesAreSolved(p, rules, sorted, b, root);
    var i :| 0 <= i < |sorted| && sorted[i] == rule;
    OrderedMeaningIsUnique(p, sorted, a, b, root, i);
  }

  // ---- the drivers compute it ----

  /** The drivers' verdicts give every rule, as it was written, the verdict of its body. */
  lemma DriversSolve(built: MatchingRuleSet, rules: seq<Rule>, globals: seq<Feature>, root: Unit)
    requires FreshNames(rules) && NoNameIsANamespace(rules) && forall r | r in rules :: ReadyBody(r.body)
    requires built.BuiltFor(Expand(rules))
    requires WellNested(root) && NoMatchFeatures(Program(built.byScope, globals), root)
    ensures var p := Program(built.byScope, globals);
            p.Valid() && Solves(p, rules, DriverVerdicts(p), root)
  {
    var p := Program(built.byScope, globals);
    BuiltCompiles(built, rules, globals);
    forall rule, u | rule in rules && u in Units(root)
      ensures (rule.name, u) in DriverVerdicts(p)
              <==> (rule.scopes.static_ == Some(u.scope) || rule.scopes.dynamic == Some(u.scope))
                   && Means(p, rules, DriverVerdicts(p), rule.body, u)
    {
      UnitsAreWellNested(root, u);
      NoMatchWithin(p, root, u);
      ExtractionPreservesMeaning(p, rules, rule, u);
    }
  }

  /**
   From parsed rules to matches. Take any verdicts `m` that give each rule, as it was parsed, the verdict of its body
   within a tree: the built rule set matches a rule at a unit of the tree exactly where `m` says so, which is where the
   unit has one of the rule's scopes and the body holds. There is such an `m`, so it is the meaning of the rules.
   */
  lemma BuiltRulesMatchAsWritten(built: MatchingRuleSet, rules: seq<Rule>, globals: seq<Feature>, m: Verdicts,
                                 rule: Rule, root: Unit, u: Unit)
    requires Acceptable(rules) && FreshNames(rules) && NoNameIsANamespace(rules)
             && forall r | r in rules :: ReadyBody(r.body)
    requires built.BuiltFor(Expand(rules)) && rule in rules && u in Units(root)
    requires WellNested(root) && NoMatchFeatures(Program(built.byScope, globals), root)
    requires Solves(Program(built.byScope, globals), rules, m, root)
    ensures var p := Program(built.byScope, globals);
            && p.Valid()
            && (Matched(p, rule.name, u) <==> (rule.name, u) in m)
            && (Matched(p, rule.name, u)
                <==> (rule.scopes.static_ == Some(u.scope) || rule.scopes.dynamic == Some(u.scope))
                     && Means(p, rules, m, rule.body, u))
  {
    var p := Program(built.byScope, globals);
    DriversSolve(built, rules, globals, root);
    MeaningIsUnique(p, rules, m, DriverVerdicts(p), root, rule);
    assert (rule.name, u) in m <==> (rule.name, u) in DriverVerdicts(p);
  }

  /** The units of a tree at which a rule, as written, holds under the verdicts `m`. */
  ghost function MeantUnits(p: Program, rules: seq<Rule>, m: Verdicts, rule: Rule, root: Unit): set<Unit> {
    set u | u in Units(root) && (rule.scopes.static_ == Some(u.scope) || rule.scopes.dynamic == Some(u.scope))
            && Means(p, rules, m, rule.body, u)
  }

  lemma MeantAreVerdicts(p: Program, rules: seq<Rule>, m: Verdicts, rule: Rule, root: Unit)
    requires Solves(p, rules, m, root) && rule in rules
    ensures MeantUnits(p, rules, m, rule, root) == set u | u in Units(root) && (rule.name, u) in m
  {
  }

  /** Within a tree a built rule set matches each rule exactly at the units where it is meant to hold. */
  lemma MeantAreMatched(built: MatchingRuleSet, rules: seq<Rule>, globals: seq<Feature>, m: Verdicts, rule: Rule,
                        root: Unit)
    requires Acceptable(rules) && FreshNames(rules) && NoNameIsANamespace(rules)
             && forall r | r in rules :: ReadyBody(r.body)
    requires built.BuiltFor(Expand(rules)) && rule in rules
    requires WellNested(root) && NoMatchFeatures(Program(built.byScope, globals), root)
    requires Solves(Program(built.byScope, globals), rules, m, root)
    ensures var p := Program(built.byScope, globals);
            p.Valid() && MatchedAnywhere(p, Units(root), rule.name) == MeantUnits(p, rules, m, rule, root)
  {
    var p := Program(built.byScope, globals);
    DriversSolve(built, rules, globals, root);
    MeaningIsUnique(p, rules, m, DriverVerdicts(p), root, rule);
    MeantAreVerdicts(p, rules, m, rule, root);
    VerdictsAreMatched(p, m, rule.name, root);
  }

  lemma VerdictsAreMatched(p: Program, m: Verdicts, name: string, root: Unit)
    requires p.Valid() && AgreeAt(m, DriverVerdicts(p), name, root)
    ensures MatchedAnywhere(p, Units(root), name) == set u | u in Units(root) && (name, u) in m
  {
  }
}
