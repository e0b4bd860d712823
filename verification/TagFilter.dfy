/** capa-x/src/api.rs: keeping the rules that carry a tag, together with everything they depend on. */
module TagFilter {
  import opened Base
  import opened Features
  import opened Rules
  import opened RuleGraph
  import opened Explanations
  import opened MatchingRules

  /** A string, or a string in a list, contains the tag; strings in nested lists do not count. */
  predicate TagInValue(value: MetaValue, tag: string) {
    match value
    case MetaString(s) => Contains(s, tag)
    case MetaSequence(items) => exists v | v in items :: v.MetaString? && Contains(v.s, tag)
    case MetaBool(_) => false
    case MetaOther => false
  }

  predicate IsTagged(rule: Rule, tag: string) {
    exists key | key in rule.raw :: TagInValue(rule.raw[key], tag)
  }

  /** A rule is tagged if a string among its metadata, or directly in a list among them, has the tag as a part. */
  lemma IsTaggedIff(rule: Rule, tag: string)
    ensures IsTagged(rule, tag)
            <==> exists key, text | key in rule.raw && HasPart(text, tag) ::
                   rule.raw[key] == MetaString(text)
                   || (rule.raw[key].MetaSequence? && MetaString(text) in rule.raw[key].items)
  {
    forall text ensures Contains(text, tag) <==> HasPart(text, tag) {
      ContainsMeans(text, tag);
    }
  }

  function TaggedNames(rules: seq<Rule>, tag: string): set<string> {
    set rule | rule in rules && IsTagged(rule, tag) :: rule.name
  }

  function WithNames(rules: seq<Rule>, names: set<string>): seq<Rule> {
    Filter(rules, (rule: Rule) => rule.name in names)
  }

  /**
   `filter_rules_by_tag`: the names kept are the least set that contains the tagged rules and is closed under
   dependency; the rules of those names stay, in order. A valid rule set that has a tagged rule stays valid.
   */
  method FilterRulesByTag(rules: seq<Rule>, tag: string) returns (kept: seq<Rule>)
    ensures exists names ::
              IsClosure(GraphOf(rules, NamespaceIndex(rules)), TaggedNames(rules, tag), names)
              && kept == WithNames(rules, names)
    ensures Acceptable(rules) ==> (Acceptable(kept) <==> exists rule | rule in rules :: IsTagged(rule, tag))
  {
    var namespaces := IndexRulesByNamespace(rules);
    var g := GraphOf(rules, namespaces);
    ghost var universe := Mentioned(g);
    GraphNodes(rules, namespaces);
    var keep: set<string> := {};
    for i := 0 to |rules|
      invariant ClosedUnder(g, keep) && keep <= universe
      invariant TaggedNames(rules[..i], tag) <= keep
      invariant forall c | TaggedNames(rules, tag) <= c && ClosedUnder(g, c) :: keep <= c
    {
      assert rules[..i + 1] == rules[..i] + [rules[i]];
      assert rules[i] in rules;
      if IsTagged(rules[i], tag) {
        ghost var before := keep;
        keep := CollectClosure(g, rules[i].name, keep, {}, universe);
        forall c | TaggedNames(rules, tag) <= c && ClosedUnder(g, c) ensures keep <= c {
          assert before <= c && rules[i].name in TaggedNames(rules, tag);
        }
      }
    }
    assert rules[..|rules|] == rules;
    kept := WithNames(rules, keep);
    SomethingIsKeptIff(rules, tag, keep);
    if Acceptable(rules) {
      FilteredStaysAcceptable(rules, keep, kept);
    }
  }

  // ---- what the filter preserves ----

  /** The filter's outcome: `kept` are the rules whose names lie in a closed set. */
  ghost predicate IsClosedPart(rules: seq<Rule>, names: set<string>, kept: seq<Rule>) {
    ClosedUnder(GraphOf(rules, NamespaceIndex(rules)), names) && kept == WithNames(rules, names)
  }

  lemma DependenciesAreKept(rules: seq<Rule>, names: set<string>, kept: seq<Rule>, rule: Rule)
    requires UniqueNames(rules) && IsClosedPart(rules, names, kept) && rule in kept
    ensures Dependencies(rule.body, NamespaceIndex(rules)) <= names
  {
    var i :| 0 <= i < |rules| && rules[i] == rule;
    GraphEdges(rules, NamespaceIndex(rules), i);
    forall d | d in Dependencies(rule.body, NamespaceIndex(rules)) ensures d in names {
      assert Edge(GraphOf(rules, NamespaceIndex(rules)), rule.name, d);
    }
  }

  lemma ReferenceIsKept(rules: seq<Rule>, names: set<string>, kept: seq<Rule>, n: string)
    requires IsClosedPart(rules, names, kept) && Register(n, NamespaceIndex(rules)) <= names
    ensures Register(n, NamespaceIndex(kept)) == Register(n, NamespaceIndex(rules))
  {
    RegisterMeans(rules, n);
    RegisterMeans(kept, n);
    forall r | r in rules && n in RulePrefixes(r) ensures r in kept {
      assert HasMember(rules, n, r.name);
    }
    assert IsIndexed(kept, n) <==> IsIndexed(rules, n);
    forall d ensures HasMember(kept, n, d) <==> HasMember(rules, n, d) {
    }
  }

  /** The references of a kept rule, to names and to namespaces, resolve to the same rules as before. */
  lemma DependenciesAreUnchanged(rules: seq<Rule>, names: set<string>, kept: seq<Rule>, rule: Rule)
    requires UniqueNames(rules) && IsClosedPart(rules, names, kept) && rule in kept
    ensures Dependencies(rule.body, NamespaceIndex(kept)) == Dependencies(rule.body, NamespaceIndex(rules))
  {
    DependenciesAreKept(rules, names, kept, rule);
    forall n | n in References(rule.body)
      ensures Register(n, NamespaceIndex(kept)) == Register(n, NamespaceIndex(rules))
    {
      assert forall d | d in Register(n, NamespaceIndex(rules)) :: d in Dependencies(rule.body, NamespaceIndex(rules));
      ReferenceIsKept(rules, names, kept, n);
    }
  }

  lemma {:induction false} KeptAreUnique(rules: seq<Rule>, names: set<string>)
    requires UniqueNames(rules)
    ensures UniqueNames(WithNames(rules, names))
  {
    if rules != [] {
      var init := rules[..|rules| - 1];
      KeptAreUnique(init, names);
      forall r | r in WithNames(init, names) ensures r.name != rules[|rules| - 1].name {
        var i :| 0 <= i < |init| && init[i] == r;
        assert rules[i].name != rules[|rules| - 1].name;
      }
    }
  }

  lemma KeptEdges(rules: seq<Rule>, names: set<string>, kept: seq<Rule>, a: string, b: string)
    requires UniqueNames(rules) && IsClosedPart(rules, names, kept)
    requires Edge(GraphOf(kept, NamespaceIndex(kept)), a, b)
    ensures Edge(GraphOf(rules, NamespaceIndex(rules)), a, b) && b in names
  {
    GraphNodes(kept, NamespaceIndex(kept));
    KeptAreUnique(rules, names);
    var rule :| rule in kept && rule.name == a;
    var i :| 0 <= i < |kept| && kept[i] == rule;
    GraphEdges(kept, NamespaceIndex(kept), i);
    DependenciesAreUnchanged(rules, names, kept, rule);
    DependenciesAreKept(rules, names, kept, rule);
    var j :| 0 <= j < |rules| && rules[j] == rule;
    GraphEdges(rules, NamespaceIndex(rules), j);
  }

  /** A valid rule set stays valid: whatever the filter leaves, if it leaves anything, `RuleSet::new` accepts. */
  lemma FilteredStaysAcceptable(rules: seq<Rule>, names: set<string>, kept: seq<Rule>)
    requires Acceptable(rules) && IsClosedPart(rules, names, kept)
    ensures Acceptable(kept) <==> kept != []
  {
    var f := GraphOf(kept, NamespaceIndex(kept));
    KeptAreUnique(rules, names);
    GraphNodes(rules, NamespaceIndex(rules));
    GraphNodes(kept, NamespaceIndex(kept));
    forall a, b | Edge(f, a, b) ensures b in f {
      KeptEdges(rules, names, kept, a, b);
      var rule :| rule in rules && rule.name == b;
      assert rule in kept;
    }
    forall path ensures !IsCycle(f, path) {
      if IsCycle(f, path) {
        CycleRemains(rules, names, kept, path);
      }
    }
  }

  lemma CycleRemains(rules: seq<Rule>, names: set<string>, kept: seq<Rule>, path: seq<string>)
    requires UniqueNames(rules) && IsClosedPart(rules, names, kept)
    requires IsCycle(GraphOf(kept, NamespaceIndex(kept)), path)
    ensures IsCycle(GraphOf(rules, NamespaceIndex(rules)), path)
  {
    forall i | 0 <= i < |path| - 1 ensures Edge(GraphOf(rules, NamespaceIndex(rules)), path[i], path[i + 1]) {
      assert Edge(GraphOf(kept, NamespaceIndex(kept)), path[i], path[i + 1]);
      KeptEdges(rules, names, kept, path[i], path[i + 1]);
    }
    KeptEdges(rules, names, kept, path[|path| - 1], path[0]);
  }

  lemma {:induction false} NothingHasNoName(rules: seq<Rule>)
    ensures WithNames(rules, {}) == []
  {
    if rules != [] {
      NothingHasNoName(rules[..|rules| - 1]);
    }
  }

  /** The filter leaves something exactly when some rule is tagged. */
  lemma SomethingIsKeptIff(rules: seq<Rule>, tag: string, names: set<string>)
    requires IsClosure(GraphOf(rules, NamespaceIndex(rules)), TaggedNames(rules, tag), names)
    ensures WithNames(rules, names) != [] <==> exists rule | rule in rules :: IsTagged(rule, tag)
  {
    if rule :| rule in rules && IsTagged(rule, tag) {
      assert rule.name in TaggedNames(rules, tag);
      assert rule in WithNames(rules, names);
    } else {
      assert ClosedUnder(GraphOf(rules, NamespaceIndex(rules)), {});
      assert names == {};
      NothingHasNoName(rules);
    }
  }
}
