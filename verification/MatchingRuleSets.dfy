/** capa-x/src/capabilities/ruleset.rs: the matching rule set as a whole, from parsed rules to indexed scopes. */
module MatchingRuleSets {
  import opened Base
  import opened Features
  import opened Rules
  import opened RuleIndex
  import opened RuleGraph
  import opened StaticScopes
  import opened ScopeSemantics
  import opened Extraction
  import opened ExtractionSemantics
  import opened ExtractedBodies
  import opened MatchingRules

  /** Every rule, original or synthetic; for each scope its rules in matching order, and the index over them. */
  datatype MatchingRuleSet = MatchingRuleSet(
    rules: seq<Rule>,
    byScope: map<Scope, seq<Rule>>,
    indexes: map<Scope, RuleFeatureIndex>,
    namespaces: Namespaces)
  {
    function RulesAt(scope: Scope): seq<Rule> {
      if scope in byScope then byScope[scope] else []
    }

    /** Each matched scope has its index. */
    ghost predicate Indexed() {
      && byScope.Keys == indexes.Keys
      && forall scope | scope in byScope :: Indexes(indexes[scope], byScope[scope], |byScope[scope]|)
    }

    /** This is the rule set built for the expanded rules `all`. */
    ghost predicate BuiltFor(all: seq<Rule>) {
      && rules == all && namespaces == NamespaceIndex(all)
      && byScope.Keys == (set scope | scope in ALL_SCOPES)
      && (forall scope | scope in byScope :: ScopeRules(all, scope, byScope[scope]))
      && Indexed()
      && HasOrder(GraphOf(all, namespaces))
      && Acyclic(GraphOf(all, namespaces)) && Complete(GraphOf(all, namespaces))
    }
  }

  /** The rules in a dependency-first order of their names. */
  function InOrder(rules: seq<Rule>, order: seq<string>): seq<Rule>
    requires forall n | n in order :: Named(rules, n).Some?
  {
    seq(|order|, i requires 0 <= i < |order| => Named(rules, order[i]).value)
  }

  lemma OrderResolvesBackwards(rules: seq<Rule>, order: seq<string>)
    requires UniqueNames(rules) && DependencyFirst(GraphOf(rules, NamespaceIndex(rules)), order)
    requires forall n :: n in order <==> exists rule | rule in rules :: rule.name == n
    ensures forall n | n in order :: Named(rules, n).Some?
    ensures var sorted := InOrder(rules, order);
            && (forall rule :: rule in sorted <==> rule in rules)
            && ResolvesBackwards(sorted, NamespaceIndex(Expand(rules)))
  {
    var sorted := InOrder(rules, order);
    forall rule | rule in rules ensures rule in sorted {
      assert rule.name in order;
      var i :| 0 <= i < |order| && order[i] == rule.name;
      assert sorted[i] == rule;
    }
    forall i, d | 0 <= i < |sorted| && d in Dependencies(sorted[i].body, NamespaceIndex(Expand(rules)))
      ensures exists j | 0 <= j < i :: sorted[j].name == d
    {
      DependenciesExpand(rules, sorted[i].body);
      var k :| 0 <= k < |rules| && rules[k] == sorted[i];
      GraphEdges(rules, NamespaceIndex(rules), k);
      assert Edge(GraphOf(rules, NamespaceIndex(rules)), order[i], d);
      assert d in order[..i];
      var j :| 0 <= j < i && order[j] == d;
      assert sorted[j].name == d;
    }
  }

  /** The dependencies of a body are the same before and after expansion. */
  lemma DependenciesExpand(rules: seq<Rule>, body: Node)
    ensures Dependencies(body, NamespaceIndex(Expand(rules))) == Dependencies(body, NamespaceIndex(rules))
  {
    forall n ensures Register(n, NamespaceIndex(Expand(rules))) == Register(n, NamespaceIndex(rules)) {
      ExpandedNamespaces(rules, n);
    }
  }

  /**
   `MatchingRuleSet::new`: validate, expand, then order and index the rules of every scope. It succeeds exactly on what
   `RuleSet::new` accepts. When the names of the synthetic rules it adds are fresh, these put no cycle into the graph
   that the unguarded walks follow, and every scope is complete and in dependency order.
   */
  method NewMatchingRuleSet(rules: seq<Rule>) returns (r: Outcome<MatchingRuleSet, RuleError>)
    ensures r.Ok? <==> Acceptable(rules)
    ensures r.Ok? && FreshNames(rules) ==> r.value.BuiltFor(Expand(rules))
  {
    var validated := NewRuleSet(rules);
    if validated.Err? { return Err(validated.error); }
    var all := ExpandAndExtract(rules);
    var namespaces := IndexRulesByNamespace(all);
    OrderResolvesBackwards(rules, validated.value.evalOrder);
    if FreshNames(rules) {
      SyntheticNamesAreRules(rules);
      ExpandedGraphIsSound(rules, namespaces, InOrder(rules, validated.value.evalOrder));
    }
    var byScope, indexes := RulesByScope(rules, all, namespaces, ALL_SCOPES);
    r := Ok(MatchingRuleSet(all, byScope, indexes, namespaces));
    assert forall scope | scope in byScope :: ScopeIsReady(rules, all, scope, byScope[scope], indexes[scope]);
  }

  /** The rules and the index of one scope. */
  ghost predicate ScopeIsReady(rules: seq<Rule>, all: seq<Rule>, scope: Scope, rs: seq<Rule>, index: RuleFeatureIndex) {
    && (FreshNames(rules) && Acyclic(GraphOf(all, NamespaceIndex(all))) ==> ScopeRules(all, scope, rs))
    && Indexes(index, rs, |rs|)
  }

  /** Order and index the rules of each scope. */
  method RulesByScope(ghost rules: seq<Rule>, all: seq<Rule>, namespaces: Namespaces, scopes: seq<Scope>)
    returns (byScope: map<Scope, seq<Rule>>, indexes: map<Scope, RuleFeatureIndex>)
    requires all == Expand(rules) && namespaces == NamespaceIndex(all)
    ensures byScope.Keys == indexes.Keys == set scope | scope in scopes
    ensures forall scope | scope in byScope :: ScopeIsReady(rules, all, scope, byScope[scope], indexes[scope])
  {
    byScope, indexes := map[], map[];
    for i := 0 to |scopes|
      invariant byScope.Keys == indexes.Keys == set scope | scope in scopes[..i]
      invariant forall scope | scope in byScope :: ScopeIsReady(rules, all, scope, byScope[scope], indexes[scope])
    {
      var scope := scopes[i];
      assert scopes[..i + 1] == scopes[..i] + [scope];
      var scoped := RulesForScope(rules, all, namespaces, scope);
      var index := NewIndex(scoped);
      assert ScopeIsReady(rules, all, scope, scoped, index);
      byScope, indexes := byScope[scope := scoped], indexes[scope := index];
    }
    assert scopes[..|scopes|] == scopes;
  }

  /**
   A built rule set lists each rule at its static scope and at its dynamic scope, as far as it has them, and nowhere
   else. Nothing is listed at global scope.
   */
  lemma ListedAtItsScopes(built: MatchingRuleSet, all: seq<Rule>, rule: Rule, scope: Scope)
    requires built.BuiltFor(all)
    ensures rule in built.RulesAt(scope)
            <==> && rule in all && scope != GlobalScope
                 && (rule.scopes.static_ == Some(scope) || rule.scopes.dynamic == Some(scope))
  {
    OnlyGlobalIsNotMatched(scope);
  }

  lemma ExpandedNamesAreNoNamespaces(rules: seq<Rule>)
    requires FreshNames(rules) && NoNameIsANamespace(rules)
    ensures NoNameIsANamespace(Expand(rules))
  {
    var all := Expand(rules);
    forall a, b | a in all && b in all && b.namespace.Some? ensures a.name !in RuleNamespaces(b.namespace.value) {
      ExpandedRules(rules, a);
      ExpandedRules(rules, b);
      var origin :| origin in rules && Finished(origin) == b;
      if a.IsSubscopeRule() {
        assert a.name !in PublishedNames(origin);
      }
    }
  }

  /** What the drivers need is what the construction gives. */
  lemma BuiltCompiles(built: MatchingRuleSet, rules: seq<Rule>, globals: seq<Feature>)
    requires FreshNames(rules) && NoNameIsANamespace(rules) && forall rule | rule in rules :: ReadyBody(rule.body)
    requires built.BuiltFor(Expand(rules))
    ensures Compiles(Program(built.byScope, globals), Expand(rules))
  {
    var p, all := Program(built.byScope, globals), Expand(rules);
    ExpandedAreEvaluable(rules);
    ExpandedNamesAreNoNamespaces(rules);
    forall scope ensures ReferencesComeFirst(p.RulesAt(scope)) && UniqueNames(p.RulesAt(scope)) {
      if scope in built.byScope {
        ScopeRulesAreOrdered(all, scope, built.byScope[scope]);
      }
    }
  }
}
